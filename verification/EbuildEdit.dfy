/** In-place rewriting of the generated parts of an ebuild. */
module EbuildEdit {
  import opened Wrappers
  import opened EbuildText

  // ---------- a quoted value behind a marker ----------

  /** Where the marker starts, where its value starts, and the value's closing quote. */
  datatype Span = Span(start: nat, open: nat, close: nat)

  function Locate(s: string, m: string): (r: Option<Span>)
    ensures r.Some? ==> r.value.start + |m| == r.value.open <= r.value.close < |s|
  {
    match First(s, m, 0)
    case None => None
    case Some(i) =>
      match Quote(s, i + |m|)
      case None => None
      case Some(c) => Some(Span(i, i + |m|, c))
  }

  function Get(s: string, m: string): Option<string> {
    match Locate(s, m)
    case None => None
    case Some(sp) => Some(s[sp.open..sp.close])
  }

  /** Only the text between the marker and the closing quote is exchanged. */
  function Put(s: string, m: string, v: string): Option<string> {
    match Locate(s, m)
    case None => None
    case Some(sp) => Some(s[..sp.open] + v + s[sp.close..])
  }

  /** `t` is `s` with the text between `open` and `close` exchanged for `v`. */
  ghost predicate Spliced(s: string, t: string, open: nat, close: nat, v: string) {
    && open <= close < |s| && |t| == |s| - (close - open) + |v|
    && (forall j :: 0 <= j < open ==> t[j] == s[j])
    && (forall j :: open <= j < open + |v| ==> t[j] == v[j-open])
    && (forall j :: open + |v| <= j < |t| ==> t[j] == s[j - (open + |v|) + close])
  }

  lemma PutSplices(s: string, m: string, v: string)
    requires Locate(s, m).Some?
    ensures Spliced(s, Put(s, m, v).value, Locate(s, m).value.open, Locate(s, m).value.close, v)
    ensures s[Locate(s, m).value.close] == '"'
  {
  }

  /** The marker's first occurrence stays; its value now ends at the first quote behind it. */
  lemma PutLocates(s: string, m: string, v: string)
    requires Locate(s, m).Some?
    ensures var sp := Locate(s, m).value; var r := Locate(Put(s, m, v).value, m);
            && r.Some? && r.value.start == sp.start
            && (r.value.close == sp.open + |v| <==> NoQuote(v))
            && (r.value.close <= sp.open + |v|)
  {
    var sp := Locate(s, m).value;
    var t := Put(s, m, v).value;
    PutSplices(s, m, v);
    FirstStable(s, t, m, sp.start);
    QuoteSpliced(s, t, sp.open, sp.close, v);
  }

  lemma QuoteSpliced(s: string, t: string, open: nat, close: nat, v: string)
    requires Spliced(s, t, open, close, v) && s[close] == '"'
    ensures var c := Quote(t, open);
            c.Some? && c.value <= open + |v| && (c.value == open + |v| <==> NoQuote(v))
  {
    hide Quote;
    assert t[open+|v|] == '"';
    if !NoQuote(v) {
      var j :| 0 <= j < |v| && v[j] == '"';
      assert t[open+j] == '"';
    }
  }

  /** Reading back gives the value exactly when it holds no quote. */
  lemma PutGet(s: string, m: string, v: string)
    requires Locate(s, m).Some?
    ensures Get(Put(s, m, v).value, m) == Some(v) <==> NoQuote(v)
  {
    PutLocates(s, m, v);
    PutSplices(s, m, v);
  }

  /** Writing what is there changes nothing. */
  lemma GetPut(s: string, m: string)
    requires Locate(s, m).Some?
    ensures Put(s, m, Get(s, m).value) == Some(s)
  {
    var sp := Locate(s, m).value;
    assert s == s[..sp.open] + s[sp.open..sp.close] + s[sp.close..];
  }

  /** A second value replaces the first without a trace exactly when the first holds no quote. */
  lemma PutPut(s: string, m: string, v: string, w: string)
    requires Locate(s, m).Some?
    ensures Put(Put(s, m, v).value, m, w) == Put(s, m, w) <==> NoQuote(v)
  {
    var sp := Locate(s, m).value;
    var t := Put(s, m, v).value;
    PutLocates(s, m, v);
    PutSplices(s, m, v);
    var c := Locate(t, m).value.close;
    var u := Put(t, m, w).value;
    assert |u| == sp.open + |w| + (|t| - c);
    assert |Put(s, m, w).value| == sp.open + |w| + (|s| - sp.close);
    if NoQuote(v) {
      assert t[..sp.open] == s[..sp.open];
      assert t[c..] == s[sp.close..];
    }
  }

  lemma LocateParts(s: string, m: string, sp: Span)
    ensures (Locate(s, m) == Some(sp)
             <==> && First(s, m, 0) == Some(sp.start) && sp.open == sp.start + |m| && sp.open <= |s|
                  && Quote(s, sp.open) == Some(sp.close))
  {
  }

  /** Writing the marker and the quotes again is exchanging the value only. */
  lemma Rewritten(s: string, m: string, v: string)
    requires Locate(s, m).Some?
    ensures var sp := Locate(s, m).value;
            s[..sp.start] + (m + v + "\"") + s[sp.close+1..] == Put(s, m, v).value
  {
    var sp := Locate(s, m).value;
    var a := s[..sp.start] + (m + v + "\"") + s[sp.close+1..];
    var b := Put(s, m, v).value;
    PutSplices(s, m, v);
    hide First, Quote, Put;
    assert |a| == |b|;
    assert forall j :: 0 <= j < |m| ==> s[sp.start+j] == m[j];
    forall j | 0 <= j < |a|
      ensures a[j] == b[j]
    {
      if sp.start <= j < sp.open {
        assert s[sp.start+(j-sp.start)] == m[j-sp.start];
      }
    }
  }

  // ---------- the feature list ----------

  /** The line that opens the list. */
  function ListOpening(): string {
    "local myfeatures=(\n"
  }

  /** Where the list's opening line starts, where its body starts, and where its closing line starts. */
  function FeatureSpan(s: string): (r: Option<Span>)
    ensures r.Some? ==> r.value.start + |ListOpening()| == r.value.open <= r.value.close < |s|
  {
    match First(s, ListOpening(), 0)
    case None => None
    case Some(i) =>
      var open := i + |ListOpening()|;
      match LineAt(s[open..], ")")
      case None => None
      case Some(k) => Some(Span(i, open, open + k))
  }

  predicate SpansList(s: string, sp: Span) {
    && sp.open == sp.start + |ListOpening()| && sp.open <= |s| && sp.open <= sp.close
    && First(s, ListOpening(), 0) == Some(sp.start) && LineAt(s[sp.open..], ")") == Some(sp.close - sp.open)
  }

  lemma FeatureParts(s: string, sp: Span)
    ensures FeatureSpan(s) == Some(sp) <==> SpansList(s, sp)
  {
    hide FeatureSpan, SpansList;
    if FeatureSpan(s) == Some(sp) {
      FeatureHas(s, sp);
    }
    if SpansList(s, sp) {
      FeatureIs(s, sp);
    }
  }

  lemma FeatureHas(s: string, sp: Span)
    requires FeatureSpan(s) == Some(sp)
    ensures SpansList(s, sp)
  {
    hide ListOpening, LineAt, First;
    FirstFits(s, ListOpening());
  }

  lemma FeatureIs(s: string, sp: Span)
    requires SpansList(s, sp)
    ensures FeatureSpan(s) == Some(sp)
  {
    hide ListOpening, LineAt, First;
  }

  lemma FeatureBounds(s: string)
    ensures FeatureSpan(s).Some? ==> var sp := FeatureSpan(s).value; sp.start <= sp.open <= sp.close < |s|
  {
  }

  function BodyText(features: string): string {
    if features == "" then "" else features + "\n"
  }

  function GetFeatures(s: string): Option<string> {
    match FeatureSpan(s)
    case None => None
    case Some(sp) => Some(s[sp.open..sp.close])
  }

  function PutFeatures(s: string, features: string): Option<string> {
    match FeatureSpan(s)
    case None => None
    case Some(sp) => Some(s[..sp.open] + BodyText(features) + s[sp.close..])
  }

  /** No line of the list closes it. */
  predicate Enclosed(features: string) {
    LineAt(BodyText(features), ")").None?
  }

  lemma ListParts(s: string, open: nat, close: nat, b: string)
    requires open <= close <= |s|
    ensures var t := s[..open] + b + s[close..];
            && t[open..] == b + s[close..] && s[open..][close-open..] == s[close..] && |t| >= open
            && forall j :: 0 <= j < open ==> t[j] == s[j]
  {
  }

  lemma PutFeaturesIs(s: string, features: string, t: string, sp: Span)
    requires FeatureSpan(s) == Some(sp) && PutFeatures(s, features) == Some(t)
    ensures sp.open <= sp.close < |s| && t == s[..sp.open] + BodyText(features) + s[sp.close..]
  {
    hide BodyText;
  }

  /** Searching a new body and then the old closing line. */
  lemma ClosingLine(rest: string, k: nat, b: string)
    requires LineAt(rest, ")") == Some(k) && k <= |rest| && WholeLines(b)
    ensures var r := LineAt(b + rest[k..], ")");
            r.Some? && r.value <= |b| && (r.value == |b| <==> LineAt(b, ")").None?)
  {
    hide LineAt, WholeLines;
    LineAtFound(rest, ")");
    LineAtConcat(b, rest[k..], ")");
    LineAtWithin(b, ")");
  }

  /** The opening line stays; the closing line is the old one exactly when no feature line closes the list. */
  lemma FeaturesLocate(s: string, features: string, t: string, sp: Span)
    requires FeatureSpan(s) == Some(sp) && PutFeatures(s, features) == Some(t)
    ensures var r := FeatureSpan(t); var n := |BodyText(features)|;
            && r.Some? && r.value.start == sp.start && r.value.open == sp.open && r.value.close <= sp.open + n
            && (r.value.close == sp.open + n <==> Enclosed(features))
  {
    hide BodyText, PutFeatures, FeatureSpan, LineAt, First, ListOpening, WholeLines;
    var b := BodyText(features);
    PutFeaturesIs(s, features, t, sp);
    WholeBody(features);
    ListParts(s, sp.open, sp.close, b);
    FeatureParts(s, sp);
    FirstStable(s, t, ListOpening(), sp.start);
    ClosingLine(s[sp.open..], sp.close - sp.open, b);
    var r := LineAt(b + s[sp.close..], ")");
    FeatureParts(t, Span(sp.start, sp.open, sp.open + r.value));
  }

  lemma WholeBody(features: string)
    ensures WholeLines(BodyText(features))
  {
  }

  lemma LineAtWithin(b: string, line: string)
    ensures LineAt(b, line).Some? ==> LineAt(b, line).value < |b|
  {
  }

  /** Reading back gives the list exactly when no line of it closes it. */
  lemma FeaturesPutGet(s: string, features: string)
    requires FeatureSpan(s).Some?
    ensures GetFeatures(PutFeatures(s, features).value) == Some(BodyText(features)) <==> Enclosed(features)
  {
    hide Enclosed, BodyText, FeatureSpan;
    var sp := FeatureSpan(s).value;
    var t := PutFeatures(s, features).value;
    FeatureBounds(s);
    FeatureBounds(t);
    FeaturesLocate(s, features, t, sp);
    assert t[sp.open..sp.open+|BodyText(features)|] == BodyText(features);
  }

  lemma FeaturesGetPut(s: string, features: string)
    requires GetFeatures(s) == Some(BodyText(features))
    ensures PutFeatures(s, features) == Some(s)
  {
    hide FeatureSpan, BodyText;
    FeatureBounds(s);
    var sp := FeatureSpan(s).value;
    assert s == s[..sp.open] + s[sp.open..sp.close] + s[sp.close..];
  }

  /** A second list replaces the first without a trace exactly when no line of the first closes it. */
  lemma FeaturesPutPut(s: string, first: string, second: string)
    requires FeatureSpan(s).Some?
    ensures PutFeatures(PutFeatures(s, first).value, second) == PutFeatures(s, second) <==> Enclosed(first)
  {
    hide Enclosed, FeatureSpan, BodyText;
    var sp := FeatureSpan(s).value;
    var n := |BodyText(first)|;
    var t := PutFeatures(s, first).value;
    FeatureBounds(s);
    FeatureBounds(t);
    FeaturesLocate(s, first, t, sp);
    var c := FeatureSpan(t).value.close;
    var u := PutFeatures(t, second).value;
    assert |u| == sp.open + |BodyText(second)| + (|t| - c);
    assert |PutFeatures(s, second).value| == sp.open + |BodyText(second)| + (|s| - sp.close);
    assert t[..sp.open] == s[..sp.open] && t[sp.open+n..] == s[sp.close..];
  }

  // ---------- on a text laid out like a generated ebuild ----------

  /** Behind the first marker, the text up to the next quote is exchanged. */
  lemma ValueHere(pre: string, m: string, was: string, rest: string, v: string)
    requires NoQuote(was) && forall j :: 0 <= j < |pre| ==> !At(pre + m + was + "\"" + rest, m, j)
    ensures var s := pre + m + was + "\"" + rest;
            Get(s, m) == Some(was) && Put(s, m, v) == Some(pre + m + v + "\"" + rest)
  {
    hide First, Quote;
    var s := pre + m + was + "\"" + rest;
    assert At(s, m, |pre|);
    FirstIs(s, m, |pre|);
    var open := |pre| + |m|;
    assert s[open..open+|was|] == was && s[open+|was|] == '"';
    assert forall j :: open <= j < open + |was| ==> s[j] == was[j-open];
    assert Quote(s, open) == Some(open + |was|);
    assert s[..open] == pre + m && s[open+|was|..] == "\"" + rest;
    assert pre + m + v + ("\"" + rest) == pre + m + v + "\"" + rest;
  }

  lemma Parts(pre: string, o: string, body: string, tail: string)
    ensures var s, n := pre + o + body + tail, |pre| + |o|;
            && |s| == n + |body| + |tail| && s[n..] == body + tail && s[..n] == pre + o
            && s[n..n+|body|] == body && s[n+|body|..] == tail && At(s, o, |pre|)
  {
    var s := pre + o + body + tail;
    assert s == pre + o + (body + tail);
    assert forall k :: 0 <= k < |o| ==> s[|pre|+k] == o[k];
  }

  lemma Regroup(x: string, a: string, b: string, rest: string)
    ensures x + (a + ")" + b + "\n" + rest) == x + a + ")" + b + "\n" + rest
  {
  }

  /**
   * Behind the first opening line, whole lines that do not close the list are exchanged, up to the first line that is a
   * bracket with white space around it.
   */
  lemma FeaturesHere(pre: string, body: string, a: string, b: string, rest: string, features: string)
    requires WholeLines(body) && NeverCloses(body) && AllWhite(a) && AllWhite(b) && NoBreak(a) && NoBreak(b)
    requires var s := pre + "local myfeatures=(\n" + body + a + ")" + b + "\n" + rest;
             forall j :: 0 <= j < |pre| ==> !At(s, "local myfeatures=(\n", j)
    ensures var s := pre + "local myfeatures=(\n" + body + a + ")" + b + "\n" + rest;
            && GetFeatures(s) == Some(body)
            && PutFeatures(s, features)
               == Some(pre + "local myfeatures=(\n" + (if features == "" then "" else features + "\n") + a + ")" + b + "\n" + rest)
  {
    hide First, LineAt, FeatureSpan, WholeLines, NeverCloses, At;
    var o := ListOpening();
    var tail := a + ")" + b + "\n" + rest;
    var open := |pre| + |o|;
    var s := pre + o + body + tail;
    Regroup(pre + o + body, a, b, rest);
    Parts(pre, o, body, tail);
    FirstIs(s, o, |pre|);
    Regroup(body, a, b, rest);
    ClosesHere(body, a, b, rest);
    hide ListOpening;
    FeatureParts(s, Span(|pre|, open, open + |body|));
    Regroup(pre + o + BodyText(features), a, b, rest);
  }
}
