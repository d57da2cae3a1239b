/** `LICENSE` token lists: how they are printed, read and evaluated. */
module LicenseTokens {

  type Token = string

  datatype Tree = Word(name: Token) | AnyOf(children: seq<Tree>) | AllOf(children: seq<Tree>)

  predicate Special(t: Token) {
    t == "||" || t == "(" || t == ")"
  }

  /** No word looks like a bracket or an any-of marker. */
  predicate Wordy(t: Tree)
    decreases t
  {
    match t
    case Word(w) => !Special(w)
    case AnyOf(cs) => Readable(cs)
    case AllOf(cs) => Readable(cs)
  }

  predicate Readable(ts: seq<Tree>)
    decreases ts
  {
    ts == [] || (Wordy(ts[0]) && Readable(ts[1..]))
  }

  lemma {:induction false} ReadableConcat(a: seq<Tree>, b: seq<Tree>)
    ensures Readable(a + b) <==> Readable(a) && Readable(b)
  {
    if a == [] {
      assert a + b == b;
    } else {
      ReadableConcat(a[1..], b);
      assert (a + b)[1..] == a[1..] + b;
    }
  }

  lemma ReadableOne(t: Tree)
    ensures Readable([t]) <==> Wordy(t)
  {
  }

  // ---------- printing and reading ----------

  function Print(t: Tree): seq<Token>
    decreases t
  {
    match t
    case Word(w) => [w]
    case AnyOf(cs) => ["||", "("] + PrintAll(cs) + [")"]
    case AllOf(cs) => ["("] + PrintAll(cs) + [")"]
  }

  function PrintAll(ts: seq<Tree>): seq<Token>
    decreases ts
  {
    if ts == [] then [] else Print(ts[0]) + PrintAll(ts[1..])
  }

  lemma {:induction false} PrintConcat(a: seq<Tree>, b: seq<Tree>)
    ensures PrintAll(a + b) == PrintAll(a) + PrintAll(b)
  {
    hide Print;
    if a == [] {
      assert a + b == b;
    } else {
      PrintConcat(a[1..], b);
      assert (a + b)[1..] == a[1..] + b;
      Assoc(Print(a[0]), PrintAll(a[1..]), PrintAll(b));
    }
  }

  lemma Assoc(a: seq<Token>, b: seq<Token>, c: seq<Token>)
    ensures a + b + c == a + (b + c)
  {
  }

  lemma PrintOne(t: Tree)
    ensures PrintAll([t]) == Print(t)
  {
  }

  /** Entries up to a closing bracket, the end, or something malformed; and what is left. */
  function Entries(toks: seq<Token>): (r: (seq<Tree>, seq<Token>))
    ensures |r.1| <= |toks|
    decreases |toks|
  {
    if toks == [] || toks[0] == ")" then ([], toks)
    else if toks[0] == "||" || toks[0] == "(" then
      var open := if toks[0] == "||" then 1 else 0;
      if |toks| > open && toks[open] == "(" then
        var inner := Entries(toks[open+1..]);
        if inner.1 != [] && inner.1[0] == ")" then
          var more := Entries(inner.1[1..]);
          ([if open == 1 then AnyOf(inner.0) else AllOf(inner.0)] + more.0, more.1)
        else ([], toks)
      else ([], toks)
    else
      var more := Entries(toks[1..]);
      ([Word(toks[0])] + more.0, more.1)
  }

  datatype Reading = Malformed | Read(trees: seq<Tree>)

  function Parse(toks: seq<Token>): Reading {
    var r := Entries(toks);
    if r.1 == [] then Read(r.0) else Malformed
  }

  function Opening(any: bool): seq<Token> {
    if any then ["||", "("] else ["("]
  }

  function Group(any: bool, children: seq<Tree>): Tree {
    if any then AnyOf(children) else AllOf(children)
  }

  lemma EntriesOfWord(w: Token, tail: seq<Token>)
    requires !Special(w)
    ensures Entries([w] + tail) == ([Word(w)] + Entries(tail).0, Entries(tail).1)
  {
  }

  lemma EntriesOfGroup(any: bool, inside: seq<Token>, tail: seq<Token>)
    requires var inner := Entries(inside); inner.1 == [")"] + tail
    ensures Entries(Opening(any) + inside)
         == ([Group(any, Entries(inside).0)] + Entries(tail).0, Entries(tail).1)
  {
  }

  /** Reading undoes printing. */
  lemma {:induction false} EntriesPrint(ts: seq<Tree>, rest: seq<Token>)
    requires Readable(ts) && (rest == [] || rest[0] == ")")
    ensures Entries(PrintAll(ts) + rest) == (ts, rest)
    decreases ts
  {
    if ts == [] {
      assert PrintAll(ts) + rest == rest;
    } else {
      hide Entries;
      var tail := PrintAll(ts[1..]) + rest;
      EntriesPrint(ts[1..], rest);
      EntryPrint(ts[0], tail);
      Assoc(Print(ts[0]), PrintAll(ts[1..]), rest);
      assert ts == [ts[0]] + ts[1..];
    }
  }

  lemma {:induction false} EntryPrint(t: Tree, tail: seq<Token>)
    requires Wordy(t)
    ensures Entries(Print(t) + tail) == ([t] + Entries(tail).0, Entries(tail).1)
    decreases t
  {
    hide Entries;
    match t {
      case Word(w) =>
        EntriesOfWord(w, tail);
      case _ =>
        var inside := PrintAll(t.children) + ([")"] + tail);
        EntriesPrint(t.children, [")"] + tail);
        EntriesOfGroup(t.AnyOf?, inside, tail);
        assert Print(t) + tail == Opening(t.AnyOf?) + inside;
    }
  }

  lemma ParsePrint(ts: seq<Tree>)
    requires Readable(ts)
    ensures Parse(PrintAll(ts)) == Read(ts)
  {
    EntriesPrint(ts, []);
    assert PrintAll(ts) + [] == PrintAll(ts);
  }

  /** What has been read prints back to the tokens that were consumed. */
  lemma {:induction false} EntriesExact(toks: seq<Token>)
    ensures Readable(Entries(toks).0) && toks == PrintAll(Entries(toks).0) + Entries(toks).1
    decreases |toks|
  {
    var r := Entries(toks);
    if r.0 != [] {
      var open := if toks[0] == "||" then 2 else 1;
      if Special(toks[0]) {
        var inner := Entries(toks[open..]);
        EntriesExact(toks[open..]);
        EntriesExact(inner.1[1..]);
        assert toks == Opening(open == 2) + toks[open..];
        GroupExact(open == 2, inner.0, inner.1, Entries(inner.1[1..]).0, r.1);
      } else {
        EntriesExact(toks[1..]);
        var more := Entries(toks[1..]);
        assert r.0[1..] == more.0;
        assert toks == [toks[0]] + toks[1..];
        Assoc([toks[0]], PrintAll(more.0), more.1);
      }
    }
  }

  lemma GroupExact(any: bool, inside: seq<Tree>, closing: seq<Token>, more: seq<Tree>, rest: seq<Token>)
    requires closing != [] && closing[0] == ")" && closing[1..] == PrintAll(more) + rest
    requires Readable(inside) && Readable(more)
    ensures var ts := [Group(any, inside)] + more;
            Readable(ts) && Opening(any) + (PrintAll(inside) + closing) == PrintAll(ts) + rest
  {
    var t := Group(any, inside);
    assert ([t] + more)[1..] == more;
    assert closing == [")"] + (PrintAll(more) + rest);
    assert Print(t) == Opening(any) + PrintAll(inside) + [")"];
    hide *;
    Regroup(Opening(any), PrintAll(inside), [")"], PrintAll(more), rest);
  }

  lemma Regroup(a: seq<Token>, b: seq<Token>, c: seq<Token>, d: seq<Token>, e: seq<Token>)
    ensures a + (b + (c + (d + e))) == ((a + b + c) + d) + e
  {
    Assoc(c, d, e);
    Assoc(b, c + d, e);
    Assoc(a, b + (c + d), e);
    Assoc(b, c, d);
    Assoc(a, b + c, d);
    Assoc(a, b, c);
  }

  lemma ParseExact(toks: seq<Token>)
    requires Parse(toks).Read?
    ensures Readable(Parse(toks).trees) && toks == PrintAll(Parse(toks).trees)
  {
    EntriesExact(toks);
  }

  // ---------- truth ----------

  /** Acceptance by a set of licenses; `emptyMatches` settles an any-of group without entries. */
  predicate Accepts(t: Tree, ok: set<Token>, emptyMatches: bool)
    decreases t
  {
    match t
    case Word(w) => w in ok
    case AnyOf(cs) => if cs == [] then emptyMatches else AcceptsAny(cs, ok, emptyMatches)
    case AllOf(cs) => AcceptsAll(cs, ok, emptyMatches)
  }

  predicate AcceptsAny(ts: seq<Tree>, ok: set<Token>, emptyMatches: bool)
    decreases ts
  {
    ts != [] && (Accepts(ts[0], ok, emptyMatches) || AcceptsAny(ts[1..], ok, emptyMatches))
  }

  predicate AcceptsAll(ts: seq<Tree>, ok: set<Token>, emptyMatches: bool)
    decreases ts
  {
    ts == [] || (Accepts(ts[0], ok, emptyMatches) && AcceptsAll(ts[1..], ok, emptyMatches))
  }

  lemma {:induction false} AcceptsConcat(a: seq<Tree>, b: seq<Tree>, ok: set<Token>, e: bool)
    ensures AcceptsAll(a + b, ok, e) <==> AcceptsAll(a, ok, e) && AcceptsAll(b, ok, e)
    ensures AcceptsAny(a + b, ok, e) <==> AcceptsAny(a, ok, e) || AcceptsAny(b, ok, e)
  {
    if a == [] {
      assert a + b == b;
    } else {
      AcceptsConcat(a[1..], b, ok, e);
      assert (a + b)[1..] == a[1..] + b;
    }
  }

  lemma AcceptsOne(t: Tree, ok: set<Token>, e: bool)
    ensures AcceptsAll([t], ok, e) <==> Accepts(t, ok, e)
    ensures AcceptsAny([t], ok, e) <==> Accepts(t, ok, e)
  {
  }

  // ---------- a single any-of group ----------

  function Net(t: Token): int {
    if t == "(" then 1 else if t == ")" then -1 else 0
  }

  /** Open brackets minus closed ones in the first `n` tokens. */
  function Depth(toks: seq<Token>, n: nat): int
    requires n <= |toks|
  {
    if n == 0 then 0 else Depth(toks, n - 1) + Net(toks[n-1])
  }

  /** `|| (` whose bracket is closed by the very last token. */
  predicate PureOr(toks: seq<Token>) {
    && |toks| > 2 && toks[0] == "||" && toks[1] == "(" && Depth(toks, |toks|) == 0
    && forall n :: 2 <= n < |toks| ==> Depth(toks, n) > 0
  }

  /** Whether the list is one any-of group, found by tracking the bracket depth. */
  method IsPureOr(toks: seq<Token>) returns (pure: bool)
    ensures pure <==> PureOr(toks)
  {
    if |toks| < 1 || toks[0] != "||" {
      return false;
    }
    if |toks| < 2 || toks[1] != "(" {
      return false;
    }
    var depth := 1;
    assert Depth(toks, 2) == 1 by {
      assert Depth(toks, 1) == 0;
    }
    for i := 2 to |toks|
      invariant depth == Depth(toks, i) > 0
      invariant forall n :: 2 <= n <= i ==> Depth(toks, n) > 0
    {
      if toks[i] == "(" {
        depth := depth + 1;
      } else if toks[i] == ")" {
        depth := depth - 1;
        if depth == 0 {
          assert Depth(toks, i + 1) == 0;
          pure := i - 2 == |toks| - 3;
          if pure {
            assert i + 1 == |toks|;
          } else {
            assert 2 <= i + 1 < |toks|;
          }
          return;
        }
      }
    }
    return false;
  }

  lemma {:induction false} DepthConcat(a: seq<Token>, b: seq<Token>, n: nat)
    requires n <= |b|
    ensures Depth(a + b, |a| + n) == Depth(a, |a|) + Depth(b, n)
  {
    if n == 0 {
      DepthPrefix(a, b, |a|);
    } else {
      DepthConcat(a, b, n - 1);
    }
  }

  lemma {:induction false} DepthPrefix(a: seq<Token>, b: seq<Token>, n: nat)
    requires n <= |a|
    ensures Depth(a + b, n) == Depth(a, n)
  {
    if n > 0 {
      DepthPrefix(a, b, n - 1);
    }
  }

  /** Printed entries are balanced. */
  lemma {:induction false} PrintBalanced(ts: seq<Tree>)
    requires Readable(ts)
    ensures Depth(PrintAll(ts), |PrintAll(ts)|) == 0
    ensures forall n :: 0 <= n <= |PrintAll(ts)| ==> Depth(PrintAll(ts), n) >= 0
    decreases ts
  {
    if ts != [] {
      var t, us := ts[0], ts[1..];
      PrintBalanced(us);
      TreeBalanced(t);
      var a, b := Print(t), PrintAll(us);
      forall n | 0 <= n <= |a + b|
        ensures Depth(a + b, n) >= 0
      {
        if n <= |a| {
          DepthPrefix(a, b, n);
        } else {
          DepthConcat(a, b, n - |a|);
        }
      }
      DepthConcat(a, b, |b|);
    }
  }

  lemma {:induction false} TreeBalanced(t: Tree)
    requires Wordy(t)
    ensures Depth(Print(t), |Print(t)|) == 0
    ensures forall n :: 0 <= n <= |Print(t)| ==> Depth(Print(t), n) >= 0
    decreases t
  {
    match t {
      case Word(w) =>
        assert Depth([w], 1) == Depth([w], 0) + Net(w);
      case _ =>
        PrintBalanced(t.children);
        GroupDepth(t.AnyOf?, PrintAll(t.children));
    }
  }

  /** Inside a printed group the depth stays positive until the last token. */
  lemma GroupDepth(any: bool, body: seq<Token>)
    requires Depth(body, |body|) == 0 && forall n :: 0 <= n <= |body| ==> Depth(body, n) >= 0
    ensures var g := Opening(any) + body + [")"];
            Depth(g, |g|) == 0 && (forall n :: 0 <= n <= |g| ==> Depth(g, n) >= 0)
            && forall n :: |Opening(any)| <= n < |g| ==> Depth(g, n) > 0
  {
    var open := Opening(any);
    var ob := open + body;
    var g := ob + [")"];
    OpeningDepth(any);
    forall n | 0 <= n < |g|
      ensures Depth(g, n) >= 0 && (n >= |open| ==> Depth(g, n) > 0)
    {
      DepthPrefix(ob, [")"], n);
      if n <= |open| {
        DepthPrefix(open, body, n);
      } else {
        DepthConcat(open, body, n - |open|);
      }
    }
    DepthConcat(open, body, |body|);
    DepthPrefix(ob, [")"], |ob|);
    assert g[|ob|] == ")";
  }

  lemma OpeningDepth(any: bool)
    ensures Depth(Opening(any), |Opening(any)|) == 1
    ensures forall n :: 0 <= n < |Opening(any)| ==> Depth(Opening(any), n) == 0
  {
    var open := Opening(any);
    assert Depth(open, 1) == Depth(open, 0) + Net(open[0]);
  }

  /** On readable tokens the depth test recognises exactly a single any-of group. */
  lemma PureOrMeaning(ts: seq<Tree>)
    requires Readable(ts)
    ensures PureOr(PrintAll(ts)) <==> |ts| == 1 && ts[0].AnyOf?
  {
    var toks := PrintAll(ts);
    if ts != [] && ts[0].AnyOf? {
      var g, rest := Print(ts[0]), PrintAll(ts[1..]);
      assert toks == g + rest;
      PrintBalanced(ts[0].children);
      GroupDepth(true, PrintAll(ts[0].children));
      DepthPrefix(g, rest, |g|);
      forall n | 2 <= n < |g|
        ensures Depth(toks, n) > 0
      {
        DepthPrefix(g, rest, n);
      }
      if |ts| == 1 {
        assert rest == [];
        assert toks == g;
      } else {
        PrintNonempty(ts[1]);
        assert |rest| > 0 && Depth(toks, |g|) == 0;
      }
    } else if ts != [] {
      PrintNonempty(ts[0]);
      assert toks[0] == Print(ts[0])[0];
    }
  }

  lemma PrintNonempty(t: Tree)
    ensures Print(t) != []
  {
  }
}
