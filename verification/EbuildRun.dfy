/** A run of edits over one ebuild: marked values and the feature list together. */
module EbuildRun {
  import opened Wrappers
  import opened EbuildText
  import opened EbuildEdit
  import opened EbuildRegions

  datatype Edit = Quoted(marker: string, value: string) | Features(list: string)

  /** The region an edit rewrites: where it opens, and up to where its text reaches. */
  function Where(s: string, e: Edit): (r: Option<Span>)
    ensures r.Some? ==> r.value.start <= r.value.open <= r.value.close < |s|
  {
    match e
    case Quoted(m, _) => Locate(s, m)
    case Features(_) => FeatureSpan(s)
  }

  function NewText(e: Edit): string {
    match e
    case Quoted(_, v) => v
    case Features(l) => BodyText(l)
  }

  function Splice(s: string, sp: Span, v: string): string
    requires sp.open <= sp.close <= |s|
  {
    s[..sp.open] + v + s[sp.close..]
  }

  function Apply(s: string, e: Edit): Option<string> {
    match Where(s, e)
    case None => None
    case Some(sp) => Some(Splice(s, sp, NewText(e)))
  }

  /** The text that stands in the region of an edit. */
  function Current(s: string, e: Edit): Option<string> {
    match Where(s, e)
    case None => None
    case Some(sp) => Some(s[sp.open..sp.close])
  }

  /** Each kind of edit is the put of its own lens. */
  lemma ApplyPuts(s: string, e: Edit)
    ensures e.Quoted? ==> Apply(s, e) == Put(s, e.marker, e.value) && Current(s, e) == Get(s, e.marker)
    ensures e.Features? ==> Apply(s, e) == PutFeatures(s, e.list) && Current(s, e) == GetFeatures(s)
  {
    hide Locate, FeatureSpan, BodyText;
  }

  /** An edit that can be read back: no quote in a value, no line of a list that closes it. */
  predicate Fit(e: Edit) {
    match e
    case Quoted(m, v) => Marker(m) && NoBracket(m) && NoQuote(v)
    case Features(l) => Enclosed(l)
  }

  /** The new text of `e`, where it stands, forms the opening of the other edit's region. */
  predicate Forms(e: Edit, other: Edit) {
    match (e, other)
    case (Quoted(_, v), Quoted(m, _)) => EndsWith(v, Stem(m))
    case (Quoted(_, v), Features(_)) => Occurs(v, ListOpening())
    case (Features(l), Quoted(m, _)) => Occurs("\n" + BodyText(l), m)
    case (Features(_), Features(_)) => false
  }

  /** Every edit can be read back and none forms the opening of another. */
  predicate Clean(edits: seq<Edit>) {
    && (forall i :: 0 <= i < |edits| ==> Fit(edits[i]))
    && forall i, j :: 0 <= i < |edits| && 0 <= j < |edits| && i != j ==> !Forms(edits[i], edits[j])
  }

  predicate Disjoint(a: Span, b: Span) {
    a.close < b.start || b.close < a.start
  }

  function SpanOf(s: string, e: Edit): Span
    requires Where(s, e).Some?
  {
    Where(s, e).value
  }

  /** Every region is there, and no two of them overlap. */
  predicate Apart(s: string, edits: seq<Edit>) {
    && (forall i :: 0 <= i < |edits| ==> Where(s, edits[i]).Some?)
    && forall i, j :: 0 <= i < |edits| && 0 <= j < |edits| && i != j ==>
         Disjoint(SpanOf(s, edits[i]), SpanOf(s, edits[j]))
  }

  /** Where the span `b` lies after the text of the span `a` was exchanged for one of length `n`. */
  function After(a: Span, n: nat, b: Span): Span
    requires b.start <= b.open <= b.close && (b == a || Disjoint(a, b))
  {
    if b == a then Span(a.start, a.open, a.open + n)
    else if b.close < a.start then b
    else Moved(b, a.close, a.open + n)
  }

  lemma AfterDisjoint(a: Span, n: nat, b: Span, c: Span)
    requires a.start <= a.open <= a.close && b.start <= b.open <= b.close && c.start <= c.open <= c.close
    requires (b == a || Disjoint(a, b)) && (c == a || Disjoint(a, c)) && Disjoint(b, c)
    ensures Disjoint(After(a, n, b), After(a, n, c))
  {
  }

  // ---------- what one edit does to a region ----------

  /** Its own region is there with the new text. */
  lemma OwnRegion(s: string, e: Edit, t: string, a: Span)
    requires Fit(e) && Where(s, e) == Some(a) && Apply(s, e) == Some(t)
    ensures Where(t, e) == Some(Span(a.start, a.open, a.open + |NewText(e)|)) && Current(t, e) == Some(NewText(e))
  {
    hide Locate, FeatureSpan, Put, PutFeatures, Get, GetFeatures, Marker, NoBracket, NoQuote, Enclosed, BodyText;
    ApplyPuts(s, e);
    ApplyPuts(t, e);
    match e {
      case Quoted(m, v) =>
        PutLocates(s, m, v);
        PutGet(s, m, v);
        LocatedAt(t, m, a);
      case Features(l) =>
        FeaturesLocate(s, l, t, a);
        FeaturesPutGet(s, l);
    }
  }

  lemma LocatedAt(t: string, m: string, a: Span)
    requires Locate(t, m).Some? && Locate(t, m).value.start == a.start && a.open == a.start + |m|
    ensures Locate(t, m).value.open == a.open
  {
  }

  /** A region in front stays; one behind moves along exactly if the new text does not form its opening. */
  lemma OtherRegion(s: string, e: Edit, t: string, a: Span, other: Edit, b: Span)
    requires Fit(e) && Fit(other) && Where(s, e) == Some(a) && Apply(s, e) == Some(t)
    requires Where(s, other) == Some(b) && Disjoint(a, b)
    ensures b.close < a.start || !Forms(e, other) ==>
              Where(t, other) == Some(After(a, |NewText(e)|, b)) && Current(t, other) == Current(s, other)
    ensures a.close < b.start ==> (Where(t, other) == Some(After(a, |NewText(e)|, b)) <==> !Forms(e, other))
  {
    hide Locate, FeatureSpan, Put, PutFeatures, Get, GetFeatures, Marker, NoBracket, NoQuote, Enclosed, BodyText, Occurs,
         EndsWith, Stem;
    ApplyPuts(s, e);
    ApplyPuts(s, other);
    ApplyPuts(t, other);
    match (e, other) {
      case (Quoted(m, v), Quoted(m2, _)) =>
        if b.close < a.start {
          OtherBefore(s, m, v, t, m2, a, b);
        } else {
          OtherAfter(s, m, v, t, m2, a, b);
        }
      case (Quoted(m, v), Features(_)) =>
        ListBeside(s, m, v, t, a, b);
      case (Features(l), Quoted(m, _)) =>
        MarkerBeside(s, l, t, a, m, b);
      case (Features(_), Features(_)) =>
    }
  }

  lemma ListBeside(s: string, m: string, v: string, t: string, a: Span, b: Span)
    requires Marker(m) && NoQuote(v) && Locate(s, m) == Some(a) && Put(s, m, v) == Some(t)
    requires FeatureSpan(s) == Some(b) && Disjoint(a, b)
    ensures b.close < a.start ==> FeatureSpan(t) == Some(b) && t[b.open..b.close] == s[b.open..b.close]
    ensures a.close < b.start ==>
              var n := a.open + |v|;
              (FeatureSpan(t) == Some(Moved(b, a.close, n)) <==> !Occurs(v, ListOpening()))
              && (!Occurs(v, ListOpening()) ==>
                    b.open - a.close + n <= b.close - a.close + n <= |t|
                    && t[b.open-a.close+n..b.close-a.close+n] == s[b.open..b.close])
  {
    hide First, Quote, ListOpening, LineAt, Marker, At, Occurs, FeatureSpan, NoQuote;
    PutSplices(s, m, v);
    BehindMarker(s, m);
    if b.close < a.start {
      MarkerLong(s, m, a);
      ListBefore(s, t, a.open, a.close, v, b);
    } else {
      ListAfter(s, t, a.open, a.close, v, b);
    }
  }

  lemma MarkerLong(s: string, m: string, a: Span)
    requires Marker(m) && Locate(s, m) == Some(a)
    ensures a.start + 2 <= a.open
  {
    hide First, Quote;
  }

  lemma MarkerBeside(s: string, l: string, t: string, a: Span, m: string, b: Span)
    requires FeatureSpan(s) == Some(a) && PutFeatures(s, l) == Some(t)
    requires Marker(m) && NoBracket(m) && Locate(s, m) == Some(b) && Disjoint(a, b)
    ensures b.close < a.start ==> Locate(t, m) == Some(b) && Get(t, m) == Get(s, m)
    ensures a.close < b.start ==>
              var n := a.open + |BodyText(l)|;
              (Locate(t, m) == Some(Moved(b, a.close, n)) <==> !Occurs("\n" + BodyText(l), m))
              && (!Occurs("\n" + BodyText(l), m) ==> Get(t, m) == Get(s, m))
  {
    hide First, Quote, ListOpening, LineAt, Marker, At, Occurs, FeatureSpan, BodyText, NoBracket, Get;
    FeaturesRelist(s, l, t, a);
    if b.close < a.start {
      RelistedSplices(s, t, a.open, a.close, BodyText(l));
      InFront(s, t, a.open, a.close, BodyText(l), m, b);
    } else {
      MarkerAfterList(s, t, a.open, a.close, BodyText(l), m, b);
    }
  }

  lemma MovesSpan(s: string, edits: seq<Edit>, k: nat, i: nat, t: string)
    requires Apart(s, edits) && Clean(edits) && k < |edits| && i < |edits| && Apply(s, edits[k]) == Some(t)
    ensures var a, b := SpanOf(s, edits[k]), SpanOf(s, edits[i]);
            && (i != k ==> Disjoint(a, b))
            && Where(t, edits[i]) == Some(After(a, |NewText(edits[k])|, b))
    ensures Current(t, edits[i]) == if i == k then Some(NewText(edits[k])) else Current(s, edits[i])
  {
    hide Fit, Forms, Apply, Current, NewText;
    var a, b := SpanOf(s, edits[k]), SpanOf(s, edits[i]);
    if i == k {
      OwnRegion(s, edits[k], t, a);
    } else {
      assert Disjoint(a, b);
      OtherRegion(s, edits[k], t, a, edits[i], b);
    }
  }

  /** An edit leaves the text of the other regions alone and the regions apart. */
  lemma ApplyKeeps(s: string, edits: seq<Edit>, k: nat, t: string)
    requires Apart(s, edits) && Clean(edits) && k < |edits| && Apply(s, edits[k]) == Some(t)
    ensures Apart(t, edits)
    ensures forall i :: 0 <= i < |edits| ==>
              Current(t, edits[i]) == if i == k then Some(NewText(edits[k])) else Current(s, edits[i])
  {
    hide Where, Apply, Current, Clean, NewText;
    forall i | 0 <= i < |edits|
      ensures Where(t, edits[i]).Some?
      ensures Current(t, edits[i]) == if i == k then Some(NewText(edits[k])) else Current(s, edits[i])
    {
      MovesSpan(s, edits, k, i, t);
    }
    forall i, j | 0 <= i < |edits| && 0 <= j < |edits| && i != j
      ensures Disjoint(SpanOf(t, edits[i]), SpanOf(t, edits[j]))
    {
      MovesSpan(s, edits, k, i, t);
      MovesSpan(s, edits, k, j, t);
      SpanOrdered(s, edits[i]);
      SpanOrdered(s, edits[j]);
      SpanOrdered(s, edits[k]);
      AfterDisjoint(SpanOf(s, edits[k]), |NewText(edits[k])|, SpanOf(s, edits[i]), SpanOf(s, edits[j]));
    }
  }

  lemma SpanOrdered(s: string, e: Edit)
    ensures Where(s, e).Some? ==> var sp := Where(s, e).value; sp.start <= sp.open <= sp.close < |s|
  {
  }

  // ---------- two edits in either order ----------

  lemma SpliceCommutes(s: string, a: Span, v: string, b: Span, w: string)
    requires a.start <= a.open <= a.close < b.start <= b.open <= b.close < |s|
    ensures var t, u := Splice(s, a, v), Splice(s, b, w);
            && After(a, |v|, b).close <= |t| && After(b, |w|, a).close <= |u|
            && Splice(t, After(a, |v|, b), w) == Splice(u, After(b, |w|, a), v)
  {
    var t, u := Splice(s, a, v), Splice(s, b, w);
    var b', front, back := After(a, |v|, b), s[..a.open], s[b.close..];
    var mid := s[a.close..b.open];
    assert t[..b'.open] == front + v + mid;
    assert t[b'.close..] == back;
    assert u[..a.open] == front;
    assert u[a.close..] == mid + w + back;
    assert Splice(t, b', w) == front + v + mid + w + back;
    assert Splice(u, a, v) == front + v + (mid + w + back);
  }

  /** Of two clean edits on separate regions it does not matter which is made first. */
  lemma EditsCommute(s: string, edits: seq<Edit>, i: nat, j: nat, t: string, u: string)
    requires Apart(s, edits) && Clean(edits) && i < |edits| && j < |edits| && i != j
    requires Apply(s, edits[i]) == Some(t) && Apply(s, edits[j]) == Some(u)
    ensures Apply(t, edits[j]).Some? && Apply(t, edits[j]) == Apply(u, edits[i])
  {
    hide Where, Clean, NewText;
    MovesSpan(s, edits, i, j, t);
    MovesSpan(s, edits, j, i, u);
    var a, b := SpanOf(s, edits[i]), SpanOf(s, edits[j]);
    var v, w := NewText(edits[i]), NewText(edits[j]);
    SpanOrdered(s, edits[i]);
    SpanOrdered(s, edits[j]);
    hide Splice, After, Apart;
    assert Disjoint(a, b);
    if a.close < b.start {
      SpliceCommutes(s, a, v, b, w);
    } else {
      SpliceCommutes(s, b, w, a, v);
    }
  }

  // ---------- the whole run ----------

  function ApplyAll(s: string, edits: seq<Edit>): Option<string> {
    if edits == [] then Some(s)
    else
      match ApplyAll(s, edits[..|edits|-1])
      case None => None
      case Some(t) => Apply(t, edits[|edits|-1])
  }

  /** The first `k` texts are in place; the rest are as before. */
  lemma {:induction false} ApplyAllKeeps(s: string, edits: seq<Edit>, k: nat)
    requires Apart(s, edits) && Clean(edits) && k <= |edits|
    ensures var r := ApplyAll(s, edits[..k]);
            && r.Some? && Apart(r.value, edits)
            && forall i :: 0 <= i < |edits| ==>
                 Current(r.value, edits[i]) == if i < k then Some(NewText(edits[i])) else Current(s, edits[i])
  {
    hide Apart, Clean, Current, Where, NewText;
    if k > 0 {
      ApplyAllKeeps(s, edits, k - 1);
      var t := ApplyAll(s, edits[..k-1]).value;
      assert edits[..k][..k-1] == edits[..k-1];
      ApartApplies(t, edits, k - 1);
      ApplyKeeps(t, edits, k - 1, Apply(t, edits[k-1]).value);
    } else {
      assert edits[..k] == [];
    }
  }

  /** Where the text already stands, the edit changes nothing. */
  lemma ApartApplies(s: string, edits: seq<Edit>, k: nat)
    requires Apart(s, edits) && k < |edits|
    ensures Apply(s, edits[k]).Some? && Current(s, edits[k]).Some?
    ensures Current(s, edits[k]) == Some(NewText(edits[k])) ==> Apply(s, edits[k]) == Some(s)
  {
    hide NewText, Where;
    SpanOrdered(s, edits[k]);
    var sp := SpanOf(s, edits[k]);
    assert s == s[..sp.open] + s[sp.open..sp.close] + s[sp.close..];
  }

  lemma {:induction false} ApplyAllFixed(s: string, edits: seq<Edit>, k: nat)
    requires Apart(s, edits) && k <= |edits|
    requires forall i :: 0 <= i < |edits| ==> Current(s, edits[i]) == Some(NewText(edits[i]))
    ensures ApplyAll(s, edits[..k]) == Some(s)
  {
    hide Apart, Current, Apply, NewText;
    if k > 0 {
      ApplyAllFixed(s, edits, k - 1);
      assert edits[..k][..k-1] == edits[..k-1];
      ApartApplies(s, edits, k - 1);
    } else {
      assert edits[..k] == [];
    }
  }

  /** Updating puts every text in place, and updating again changes nothing. */
  lemma UpdateIdempotent(s: string, edits: seq<Edit>)
    requires Apart(s, edits) && Clean(edits)
    ensures var r := ApplyAll(s, edits);
            && r.Some? && ApplyAll(r.value, edits) == r
            && forall i :: 0 <= i < |edits| ==> Current(r.value, edits[i]) == Some(NewText(edits[i]))
  {
    ApplyAllKeeps(s, edits, |edits|);
    assert edits[..|edits|] == edits;
    ApplyAllFixed(ApplyAll(s, edits).value, edits, |edits|);
  }

  lemma {:induction false} ApplyAllStops(s: string, edits: seq<Edit>, n: nat)
    requires n <= |edits| && ApplyAll(s, edits[..n]).None?
    ensures ApplyAll(s, edits).None?
    decreases |edits|
  {
    if n < |edits| {
      assert edits[..|edits|-1][..n] == edits[..n];
      ApplyAllStops(s, edits[..|edits|-1], n);
    } else {
      assert edits[..n] == edits;
    }
  }

  // ---------- the text under edit ----------

  lemma NoFeatures(s: string)
    ensures var i := First(s, ListOpening(), 0);
            FeatureSpan(s).None? <==>
              i.None? || (i.value + |ListOpening()| <= |s| && LineAt(s[i.value+|ListOpening()|..], ")").None?)
  {
    hide ListOpening, LineAt, First;
    FirstFits(s, ListOpening());
  }

  class Ebuild {
    var out: string

    constructor (existing: string)
      ensures out == existing
    {
      out := existing;
    }

    /** Exchanges the value behind the marker; without marker or closing quote nothing changes. */
    method ReplaceQuoted(marker: string, value: string) returns (ok: bool)
      modifies this
      ensures ok <==> Locate(old(out), marker).Some?
      ensures out == if ok then Put(old(out), marker, value).value else old(out)
    {
      hide First, Quote, At;
      var start := First(out, marker, 0);
      if start.None? {
        return false;
      }
      FirstFits(out, marker);
      var after := start.value + |marker|;
      var close := Quote(out, after);
      if close.None? {
        return false;
      }
      Rewritten(out, marker, value);
      out := out[..start.value] + (marker + value + "\"") + out[close.value+1..];
      return true;
    }

    method ReplaceMyfeatures(features: string) returns (ok: bool)
      modifies this
      ensures ok <==> FeatureSpan(old(out)).Some?
      ensures out == if ok then PutFeatures(old(out), features).value else old(out)
    {
      hide ListOpening, First, LineAt, At, FeatureSpan;
      NoFeatures(out);
      var start := First(out, ListOpening(), 0);
      if start.None? {
        return false;
      }
      FirstFits(out, ListOpening());
      var open := start.value + |ListOpening()|;
      var close := FindLine(out, open, ")");
      if close.None? {
        return false;
      }
      FeatureParts(out, Span(start.value, open, close.value));
      FeatureBounds(out);
      var body := if features == "" then "" else features + "\n";
      out := out[..open] + body + out[close.value..];
      return true;
    }

    /** The edits one after the other, up to the first whose region is not there. */
    method Update(edits: seq<Edit>) returns (ok: bool)
      modifies this
      ensures ok <==> ApplyAll(old(out), edits).Some?
      ensures ok ==> Some(out) == ApplyAll(old(out), edits)
      ensures !ok ==> exists k :: 0 <= k < |edits| && ApplyAll(old(out), edits[..k]) == Some(out) && Where(out, edits[k]).None?
    {
      hide Locate, FeatureSpan, Put, PutFeatures, Get, GetFeatures;
      for i := 0 to |edits|
        invariant ApplyAll(old(out), edits[..i]) == Some(out)
      {
        assert edits[..i+1][..i] == edits[..i];
        ApplyPuts(out, edits[i]);
        match edits[i] {
          case Quoted(marker, value) => ok := ReplaceQuoted(marker, value);
          case Features(list) => ok := ReplaceMyfeatures(list);
        }
        if !ok {
          ApplyAllStops(old(out), edits, i + 1);
          return;
        }
      }
      assert edits[..|edits|] == edits;
      ok := true;
    }
  }
}
