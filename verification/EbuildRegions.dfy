/** How an edit of one generated region moves or hides the others. */
module EbuildRegions {
  import opened Wrappers
  import opened EbuildText
  import opened EbuildEdit

  // ---------- marked values beside a marked value ----------

  /** The generated markers end with the opening quote and hold no other. */
  predicate Marker(m: string) {
    |m| >= 2 && m[|m|-1] == '"' && NoQuote(m[..|m|-1])
  }

  function Stem(m: string): string {
    if m == "" then "" else m[..|m|-1]
  }

  predicate EndsWith(v: string, t: string) {
    |t| <= |v| && v[|v|-|t|..] == t
  }

  /** A marker in front of the edited span stays where it is, with its value. */
  lemma OtherBefore(s: string, m: string, v: string, t: string, other: string, sp: Span, so: Span)
    requires Put(s, m, v) == Some(t)
    requires Locate(s, m) == Some(sp) && Locate(s, other) == Some(so) && so.close < sp.start
    ensures Locate(t, other) == Some(so) && Get(t, other) == Get(s, other)
  {
    PutSplices(s, m, v);
    InFront(s, t, sp.open, sp.close, v, other, so);
  }

  lemma InFront(s: string, t: string, open: nat, close: nat, v: string, other: string, so: Span)
    requires Spliced(s, t, open, close, v) && Locate(s, other) == Some(so) && so.close < open
    ensures Locate(t, other) == Some(so) && Get(t, other) == Get(s, other)
  {
    LocateParts(s, other, so);
    LocateParts(t, other, so);
    FirstStable(s, t, other, so.start);
    QuoteStable(s, t, so.open);
    hide First, Quote;
    assert t[so.open..so.close] == s[so.open..so.close];
  }

  lemma QuoteStable(s: string, t: string, i: nat)
    requires i <= |s| && Quote(s, i).Some?
    requires Quote(s, i).value < |t| && forall j :: i <= j <= Quote(s, i).value ==> t[j] == s[j]
    ensures Quote(t, i) == Quote(s, i)
  {
  }

  function Moved(sp: Span, from: nat, to: nat): Span
    requires from <= sp.start && sp.start <= sp.open && sp.start <= sp.close
  {
    Span(sp.start - from + to, sp.open - from + to, sp.close - from + to)
  }

  /**
   * A marker behind the edited span moves along with the text exactly when the new
   * value does not end like that marker; otherwise the value's end, with the closing
   * quote, is taken for it.
   */
  lemma OtherAfter(s: string, m: string, v: string, t: string, other: string, sp: Span, so: Span)
    requires Marker(m) && Marker(other) && NoQuote(v) && Put(s, m, v) == Some(t)
    requires Locate(s, m) == Some(sp) && Locate(s, other) == Some(so) && sp.close < so.start
    ensures Locate(t, other) == Some(Moved(so, sp.close, sp.open + |v|)) <==> !EndsWith(v, Stem(other))
    ensures !EndsWith(v, Stem(other)) ==> Get(t, other) == Get(s, other)
  {
    hide First, Quote, EndsWith, Marker, At, Get, Stem;
    PutSplices(s, m, v);
    BehindMarker(s, m);
    OtherMoves(s, t, sp.open, sp.close, v, other, so);
  }

  lemma MarkerQuotes(t: string, m: string, j: nat)
    requires Marker(m) && At(t, m, j)
    ensures t[j+|m|-1] == '"' && forall k :: j <= k < j + |m| - 1 ==> t[k] != '"'
  {
    assert t[j+(|m|-1)] == m[|m|-1];
    forall k | j <= k < j + |m| - 1
      ensures t[k] != '"'
    {
      assert t[j+(k-j)] == m[k-j] == m[..|m|-1][k-j];
    }
  }

  lemma BehindMarker(s: string, m: string)
    requires Marker(m) && Locate(s, m).Some?
    ensures Locate(s, m).value.open > 0 && s[Locate(s, m).value.open-1] == '"'
  {
  }

  lemma OtherMoves(s: string, t: string, open: nat, close: nat, v: string, other: string, so: Span)
    requires Edited(s, t, open, close, v) && Marker(other) && Locate(s, other) == Some(so) && close < so.start
    ensures Locate(t, other) == Some(Moved(so, close, open + |v|)) <==> !EndsWith(v, Stem(other))
    ensures !EndsWith(v, Stem(other)) ==> Get(t, other) == Get(s, other)
  {
    hide First, Quote, EndsWith, Marker, NoQuote, At;
    var end := open + |v|;
    var moved := Moved(so, close, end);
    LocateParts(s, other, so);
    LocateParts(t, other, moved);
    FirstMoves(s, t, open, close, v, other, so.start);
    QuoteMoves(s, t, open, close, v, so.open);
    SliceMoves(s, t, open, close, v, so.open, so.close);
  }

  lemma SliceMoves(s: string, t: string, open: nat, close: nat, v: string, a: nat, b: nat)
    requires Spliced(s, t, open, close, v) && close <= a <= b <= |s|
    ensures t[a-close+open+|v|..b-close+open+|v|] == s[a..b]
  {
  }

  lemma FirstMoves(s: string, t: string, open: nat, close: nat, v: string, other: string, i: nat)
    requires Edited(s, t, open, close, v) && Marker(other)
    requires close < i && First(s, other, 0) == Some(i)
    ensures First(t, other, 0) == Some(i - close + open + |v|) <==> !EndsWith(v, Stem(other))
  {
    hide First, Edited, EndsWith, Marker, At;
    var end := open + |v|;
    FirstMeans(s, other, i);
    FirstMeans(t, other, i - close + end);
    EditedSplices(s, t, open, close, v);
    AtMoves(s, t, open, close, v, other, i - close + end);
    forall j: nat | j < i - close + end && At(t, other, j)
      ensures EndsWith(v, Stem(other))
    {
      if j <= end {
        InsideForward(s, t, open, close, v, other, j);
      } else {
        AtMoves(s, t, open, close, v, other, j);
      }
    }
    if EndsWith(v, Stem(other)) {
      InsideBack(s, t, open, close, v, other);
    }
  }

  lemma AtMoves(s: string, t: string, open: nat, close: nat, v: string, m: string, j: nat)
    requires Spliced(s, t, open, close, v) && j >= open + |v|
    ensures open <= close && (At(t, m, j) <==> At(s, m, j - (open + |v|) + close))
  {
  }

  lemma QuoteMoves(s: string, t: string, open: nat, close: nat, v: string, i: nat)
    requires Spliced(s, t, open, close, v) && close <= i <= |s| && Quote(s, i).Some?
    ensures i - close + open + |v| <= |t|
    ensures Quote(t, i - close + open + |v|) == Some(Quote(s, i).value - close + open + |v|)
  {
    hide Quote;
    QuoteFacts(s, i);
    var c := Quote(s, i).value;
    var d := open + |v| - close;
    assert t[c+d] == s[c];
    forall j | i + d <= j < c + d
      ensures t[j] != '"'
    {
      assert t[j] == s[j-d];
    }
    QuoteIs(t, i + d, c + d);
  }

  lemma QuoteFacts(s: string, i: nat)
    requires i <= |s| && Quote(s, i).Some?
    ensures var c := Quote(s, i).value; i <= c < |s| && s[c] == '"' && forall j :: i <= j < c ==> s[j] != '"'
  {
  }

  lemma QuoteIs(t: string, i: nat, c: nat)
    requires i <= c < |t| && t[c] == '"' && forall j :: i <= j < c ==> t[j] != '"'
    ensures Quote(t, i) == Some(c)
  {
  }

  /** The edited text, with the quotes around the new value. */
  ghost predicate Edited(s: string, t: string, open: nat, close: nat, v: string) {
    && 0 < open && Spliced(s, t, open, close, v) && NoQuote(v)
    && s[open-1] == '"' && s[close] == '"'
  }

  /** An occurrence of a marker that starts no later than the closing quote ends there, inside the value. */
  lemma InsideForward(s: string, t: string, open: nat, close: nat, v: string, other: string, j: nat)
    requires Edited(s, t, open, close, v) && Marker(other) && At(t, other, j) && j <= open + |v|
    requires forall i: nat :: i <= open ==> !At(s, other, i)
    ensures EndsWith(v, Stem(other)) && j == open + |v| - |Stem(other)|
  {
    var end, last := open + |v|, j + |other| - 1;
    MarkerQuotes(t, other, j);
    assert t[end] == '"' && t[open-1] == '"';
    assert forall k :: open <= k < end ==> t[k] == v[k-open];
    assert last < open ==> At(s, other, j);
    assert last == end && open <= j;
    forall k | 0 <= k < |other| - 1
      ensures v[j-open+k] == other[k]
    {
      assert t[j+k] == other[k];
    }
    assert v[j-open..] == Stem(other);
  }

  lemma InsideBack(s: string, t: string, open: nat, close: nat, v: string, other: string)
    requires Edited(s, t, open, close, v) && Marker(other) && EndsWith(v, Stem(other))
    ensures |Stem(other)| <= |v| && At(t, other, open + |v| - |Stem(other)|)
  {
  }

  // ---------- marked values beside the feature list ----------

  predicate Occurs(s: string, m: string) {
    exists j: nat :: j <= |s| && At(s, m, j)
  }

  /** The list's opening holds no quote, and a bracket before its line break. */
  lemma FeaturesText(t: string, j: nat)
    requires At(t, ListOpening(), j)
    ensures var n := |ListOpening()|; n >= 2 && t[j+n-2] == '(' && t[j+n-1] == '\n'
    ensures forall k :: j <= k < j + |ListOpening()| ==> t[k] != '"'
  {
    var n := |ListOpening()|;
    assert ListOpening()[n-2] == '(' && ListOpening()[n-1] == '\n' && NoQuote(ListOpening());
    assert t[j+(n-2)] == ListOpening()[n-2] && t[j+(n-1)] == ListOpening()[n-1];
    forall k | j <= k < j + n
      ensures t[k] != '"'
    {
      assert t[j+(k-j)] == ListOpening()[k-j];
    }
  }

  lemma ClosingLineQuotes(s: string, close: nat)
    requires close <= |s| && Trim(s[close..][..LineLength(s[close..])]) == ")"
    ensures forall k :: close <= k < close + LineLength(s[close..]) ==> s[k] != '"'
  {
    var n := LineLength(s[close..]);
    BracketLine(s[close..][..n]);
    assert forall k :: close <= k < close + n ==> s[k] == s[close..][..n][k-close];
  }

  /** The closing line lies before a quote that stands behind its start. */
  lemma ClosingLineEnds(s: string, from: nat, close: nat, quote: nat)
    requires from <= close <= quote < |s| && s[quote] == '"' && LineAt(s[from..], ")") == Some(close - from)
    ensures var n := LineLength(s[close..]); 0 < n && close + n <= quote && WholeLines(s[close..][..n])
  {
    LineAtFinds(s[from..], ")");
    assert s[from..][close-from..] == s[close..];
    hide ListOpening, LineAt, Trim, LineLength;
    ClosingLineQuotes(s, close);
    LineEnds(s[close..]);
  }

  /** A list in front of an edited marked value stays where it is. */
  lemma ListBefore(s: string, t: string, open: nat, close: nat, v: string, sf: Span)
    requires Edited(s, t, open, close, v) && FeatureSpan(s) == Some(sf) && sf.close < open - 1
    ensures FeatureSpan(t) == Some(sf) && t[sf.open..sf.close] == s[sf.open..sf.close]
  {
    hide First, LineAt, LineLength, WholeLines, ListOpening, FeatureSpan;
    FeatureParts(s, sf);
    FeatureParts(t, sf);
    SamePrefix(s, t, open, close, v, sf.open, sf.close);
    FirstStable(s, t, ListOpening(), sf.start);
    ClosingLineEnds(s, sf.open, sf.close, open - 1);
    LinesShared(s, t, sf.open, sf.close, LineLength(s[sf.close..]));
  }

  lemma SamePrefix(s: string, t: string, open: nat, close: nat, v: string, a: nat, b: nat)
    requires Edited(s, t, open, close, v) && a <= b <= open
    ensures open <= |s| && open < |t| && (forall j :: 0 <= j < open ==> t[j] == s[j]) && t[a..b] == s[a..b]
  {
  }

  /** The closing line is found again in a text that is the same up to that line's end. */
  lemma LinesShared(s: string, t: string, from: nat, close: nat, n: nat)
    requires from <= close && close + n <= |s| && close + n <= |t| && n == LineLength(s[close..])
    requires forall j :: 0 <= j < close + n ==> t[j] == s[j]
    requires LineAt(s[from..], ")") == Some(close - from) && n > 0 && WholeLines(s[close..][..n])
    ensures LineAt(t[from..], ")") == Some(close - from)
  {
    hide ListOpening, LineAt, LineLength;
    var b, c, d := s[from..close+n], s[close+n..], t[close+n..];
    assert s[from..] == b + c;
    assert t[from..] == b + d;
    assert b[|b|-1] == s[close..][..n][n-1];
    LineAtConcat(b, c, ")");
    LineAtConcat(b, d, ")");
  }

  /** A list behind an edited marked value moves along exactly when the value does not hold the list's opening. */
  lemma ListAfter(s: string, t: string, open: nat, close: nat, v: string, sf: Span)
    requires Edited(s, t, open, close, v) && FeatureSpan(s) == Some(sf) && close < sf.start
    ensures FeatureSpan(t) == Some(Moved(sf, close, open + |v|)) <==> !Occurs(v, ListOpening())
    ensures !Occurs(v, ListOpening()) ==>
              sf.open - close + open + |v| <= sf.close - close + open + |v| <= |t|
              && t[sf.open-close+open+|v|..sf.close-close+open+|v|] == s[sf.open..sf.close]
  {
    hide First, LineAt, At, Occurs, NoQuote, FeatureSpan, Edited;
    FeatureBounds(s);
    ListMoves(s, t, open, close, v, sf);
    EditedSlice(s, t, open, close, v, sf.open, sf.close);
  }

  lemma EditedSlice(s: string, t: string, open: nat, close: nat, v: string, a: nat, b: nat)
    requires Edited(s, t, open, close, v) && close <= a <= b <= |s|
    ensures var d := open + |v|;
            0 <= a - close + d <= b - close + d <= |t| && t[a-close+d..b-close+d] == s[a..b]
  {
    SliceMoves(s, t, open, close, v, a, b);
  }

  lemma ListMoves(s: string, t: string, open: nat, close: nat, v: string, sf: Span)
    requires Edited(s, t, open, close, v) && FeatureSpan(s) == Some(sf) && close < sf.start
    ensures FeatureSpan(t) == Some(Moved(sf, close, open + |v|)) <==> !Occurs(v, ListOpening())
  {
    hide First, ListOpening, LineAt, At, Occurs, NoQuote, FeatureSpan;
    var end := open + |v|;
    FeatureParts(s, sf);
    FeatureParts(t, Moved(sf, close, end));
    ListOpens(s, t, open, close, v, sf.start);
    SuffixMoves(s, t, open, close, v, sf.open);
  }

  lemma SuffixMoves(s: string, t: string, open: nat, close: nat, v: string, a: nat)
    requires Spliced(s, t, open, close, v) && close <= a <= |s|
    ensures a - close + open + |v| <= |t| && t[a-close+open+|v|..] == s[a..]
  {
    SliceMoves(s, t, open, close, v, a, |s|);
  }

  lemma ListOpens(s: string, t: string, open: nat, close: nat, v: string, i: nat)
    requires Edited(s, t, open, close, v) && close < i && First(s, ListOpening(), 0) == Some(i)
    ensures First(t, ListOpening(), 0) == Some(i - close + open + |v|) <==> !Occurs(v, ListOpening())
  {
    hide First, Edited, At;
    var end := open + |v|;
    FirstMeans(s, ListOpening(), i);
    FirstMeans(t, ListOpening(), i - close + end);
    EditedSplices(s, t, open, close, v);
    AtMoves(s, t, open, close, v, ListOpening(), i - close + end);
    forall j: nat | j < i - close + end && At(t, ListOpening(), j)
      ensures Occurs(v, ListOpening())
    {
      if j <= end {
        ListInside(s, t, open, close, v, j);
      } else {
        AtMoves(s, t, open, close, v, ListOpening(), j);
      }
    }
    if Occurs(v, ListOpening()) {
      var j: nat :| j <= |v| && At(v, ListOpening(), j);
      ValueShows(s, t, open, close, v, ListOpening(), j);
    }
  }

  lemma EditedSplices(s: string, t: string, open: nat, close: nat, v: string)
    requires Edited(s, t, open, close, v)
    ensures Spliced(s, t, open, close, v)
  {
  }

  /** What occurs in the new value occurs in the text. */
  lemma ValueShows(s: string, t: string, open: nat, close: nat, v: string, m: string, j: nat)
    requires Spliced(s, t, open, close, v) && At(v, m, j)
    ensures j + |m| <= |v| && At(t, m, open + j)
  {
  }

  lemma ListInside(s: string, t: string, open: nat, close: nat, v: string, j: nat)
    requires Edited(s, t, open, close, v) && At(t, ListOpening(), j) && j <= open + |v|
    requires forall i: nat :: i <= open ==> !At(s, ListOpening(), i)
    ensures Occurs(v, ListOpening())
  {
    var end := open + |v|;
    FeaturesText(t, j);
    assert t[end] == '"' && t[open-1] == '"';
    assert j + |ListOpening()| < open ==> At(s, ListOpening(), j);
    assert open <= j && j + |ListOpening()| <= end;
    forall k | 0 <= k < |ListOpening()|
      ensures v[j-open+k] == ListOpening()[k]
    {
      assert t[j+k] == ListOpening()[k];
    }
    assert At(v, ListOpening(), j - open);
  }

  // ---------- the feature list beside marked values ----------

  /** No generated marker holds a bracket. */
  predicate NoBracket(m: string) {
    forall i :: 0 <= i < |m| ==> m[i] != '(' && m[i] != ')'
  }

  /** The text with another list body: the opening line in front, the closing line behind. */
  ghost predicate Relisted(s: string, t: string, open: nat, close: nat, v: string) {
    && Spliced(s, t, open, close, v) && open >= |ListOpening()| && At(s, ListOpening(), open - |ListOpening()|)
    && LineAt(s[close..], ")") == Some(0)
  }

  lemma FeaturesRelist(s: string, features: string, t: string, sf: Span)
    requires FeatureSpan(s) == Some(sf) && PutFeatures(s, features) == Some(t)
    ensures Relisted(s, t, sf.open, sf.close, BodyText(features))
  {
    hide ListOpening, LineAt, First, BodyText, At, FeatureSpan, PutFeatures;
    PutFeaturesIs(s, features, t, sf);
    FeatureParts(s, sf);
    FirstMeans(s, ListOpening(), sf.start);
    LineAtFound(s[sf.open..], ")");
    ListParts(s, sf.open, sf.close, BodyText(features));
    ListSplices(s, sf.open, sf.close, BodyText(features));
  }

  lemma ListSplices(s: string, open: nat, close: nat, b: string)
    requires open <= close < |s|
    ensures Spliced(s, s[..open] + b + s[close..], open, close, b)
  {
  }

  /**
   * A marked value behind the list moves along exactly when its marker does not occur in the new body
   * (nor across the line break in front of it).
   */
  lemma MarkerAfterList(s: string, t: string, open: nat, close: nat, v: string, m: string, so: Span)
    requires Relisted(s, t, open, close, v) && Marker(m) && NoBracket(m)
    requires Locate(s, m) == Some(so) && close < so.start
    ensures Locate(t, m) == Some(Moved(so, close, open + |v|)) <==> !Occurs("\n" + v, m)
    ensures !Occurs("\n" + v, m) ==> Get(t, m) == Get(s, m)
  {
    hide First, Quote, Marker, NoQuote, At, ListOpening, LineAt, Occurs, NoBracket;
    LocateParts(s, m, so);
    LocateParts(t, m, Moved(so, close, open + |v|));
    MarkerReopens(s, t, open, close, v, m, so.start);
    QuoteMoves(s, t, open, close, v, so.open);
    SliceMoves(s, t, open, close, v, so.open, so.close);
  }

  lemma MarkerReopens(s: string, t: string, open: nat, close: nat, v: string, m: string, i: nat)
    requires Relisted(s, t, open, close, v) && Marker(m) && NoBracket(m) && close < i && First(s, m, 0) == Some(i)
    ensures First(t, m, 0) == Some(i - close + open + |v|) <==> !Occurs("\n" + v, m)
  {
    hide First, Relisted, At, Marker, NoBracket;
    var end := open + |v|;
    RelistedSplices(s, t, open, close, v);
    FirstMeans(s, m, i);
    FirstMeans(t, m, i - close + end);
    AtMoves(s, t, open, close, v, m, i - close + end);
    forall j: nat | j < i - close + end && At(t, m, j)
      ensures Occurs("\n" + v, m)
    {
      if j < end {
        MarkerInside(s, t, open, close, v, m, j);
      } else {
        AtMoves(s, t, open, close, v, m, j);
      }
    }
    if Occurs("\n" + v, m) {
      var j: nat :| j <= |v| + 1 && At("\n" + v, m, j);
      BodyShows(s, t, open, close, v, m, j);
    }
  }

  lemma RelistedSplices(s: string, t: string, open: nat, close: nat, v: string)
    requires Relisted(s, t, open, close, v)
    ensures Spliced(s, t, open, close, v) && open >= 2
  {
  }

  /** The body with the line break in front of it, in place. */
  lemma BodyInPlace(s: string, t: string, open: nat, close: nat, v: string)
    requires Relisted(s, t, open, close, v)
    ensures open >= 2 && t[open-2] == '(' && t[open-1] == '\n'
    ensures open + |v| < |t| && forall k :: 0 <= k < |v| + 1 ==> t[open-1+k] == ("\n" + v)[k]
  {
    hide ListOpening, LineAt;
    FeaturesText(s, open - |ListOpening()|);
  }

  lemma BodyShows(s: string, t: string, open: nat, close: nat, v: string, m: string, j: nat)
    requires Relisted(s, t, open, close, v) && Marker(m) && At("\n" + v, m, j)
    ensures open - 1 + j + |m| <= open + |v| && At(t, m, open - 1 + j)
  {
    hide Relisted;
    BodyInPlace(s, t, open, close, v);
    forall k {:trigger m[k]} | 0 <= k < |m|
      ensures t[open-1+j+k] == m[k]
    {
      assert ("\n" + v)[j+k] == m[k];
    }
  }

  /** An occurrence of a marker that starts before the closing line lies in the new body. */
  lemma MarkerInside(s: string, t: string, open: nat, close: nat, v: string, m: string, j: nat)
    requires Relisted(s, t, open, close, v) && Marker(m) && NoBracket(m) && At(t, m, j) && j < open + |v|
    requires forall i: nat :: i <= open ==> !At(s, m, i)
    ensures Occurs("\n" + v, m)
  {
    var end := open + |v|;
    var w := ClosingAt(s, t, open, close, v);
    BodyInPlace(s, t, open, close, v);
    RelistedSplices(s, t, open, close, v);
    hide Relisted;
    assert j + |m| <= open ==> At(s, m, j);
    forall k | j <= k < j + |m|
      ensures t[k] == m[k-j] && t[k] != '(' && t[k] != ')'
    {
      assert t[j+(k-j)] == m[k-j];
    }
    assert open - 1 <= j;
    assert forall k :: end <= k < end + w ==> White(t[k]) && t[k] != '"';
    assert j + |m| <= end + w && t[j+|m|-1] == '"';
    forall k {:trigger m[k]} | 0 <= k < |m|
      ensures ("\n" + v)[j-(open-1)+k] == m[k]
    {
      assert t[open-1+(j-(open-1)+k)] == m[k];
    }
    assert At("\n" + v, m, j - (open - 1));
  }

  /** The closing line starts with white space and a bracket. */
  lemma ClosingAt(s: string, t: string, open: nat, close: nat, v: string) returns (w: nat)
    requires Relisted(s, t, open, close, v)
    ensures open + |v| + w < |t| && t[open+|v|+w] == ')'
    ensures forall k :: open + |v| <= k < open + |v| + w ==> White(t[k])
  {
    LineAtFinds(s[close..], ")");
    assert s[close..][0..] == s[close..];
    var line := s[close..][..LineLength(s[close..])];
    w := BracketAt(line);
    hide ListOpening, LineAt, LineLength, White;
    assert forall k :: 0 <= k < |line| ==> line[k] == s[close+k] == t[open+|v|+k];
  }
}
