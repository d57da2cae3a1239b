/** From a postfix SPDX expression to the tokens of an ebuild's `LICENSE`. */
module License {
  import opened Wrappers
  import opened LicenseTokens

  datatype Result<T> = Ok(value: T) | Unmapped | Invalid

  // ---------- the postfix expression ----------

  datatype Item = Req(key: string) | Operator(and: bool)

  /** Operands on the stack after the whole list. */
  function Count(expr: seq<Item>): int {
    if expr == [] then 0 else Count(expr[..|expr|-1]) + if expr[|expr|-1].Req? then 1 else -1
  }

  /** Every operator finds two operands. */
  predicate Postfix(expr: seq<Item>) {
    expr == []
    || (Postfix(expr[..|expr|-1]) && (expr[|expr|-1].Req? || Count(expr[..|expr|-1]) >= 2))
  }

  /** The stack of truth values, given the licenses that hold. */
  function Truths(expr: seq<Item>, holds: set<string>): (stack: seq<bool>)
    requires Postfix(expr)
    ensures |stack| == Count(expr)
  {
    if expr == [] then []
    else
      var s, x := Truths(expr[..|expr|-1], holds), expr[|expr|-1];
      match x
      case Req(key) => s + [key in holds]
      case Operator(and) =>
        var a, b := s[|s|-2], s[|s|-1];
        s[..|s|-2] + [if and then a && b else a || b]
  }

  function Keys(expr: seq<Item>): seq<string> {
    if expr == [] then []
    else Keys(expr[..|expr|-1]) + if expr[|expr|-1].Req? then [expr[|expr|-1].key] else []
  }

  lemma {:induction false} PostfixCount(expr: seq<Item>)
    requires Postfix(expr) && expr != []
    ensures Count(expr) >= 1
  {
    var front := expr[..|expr|-1];
    if front != [] && expr[|expr|-1].Req? {
      PostfixCount(front);
    }
  }

  /** What the machine leaves on top. */
  predicate Top(expr: seq<Item>, holds: set<string>)
    requires Postfix(expr) && expr != []
  {
    PostfixCount(expr);
    Truths(expr, holds)[Count(expr) - 1]
  }

  lemma {:induction false} PostfixPrefix(expr: seq<Item>, n: nat)
    requires n <= |expr| && Postfix(expr)
    ensures Postfix(expr[..n])
  {
    if n < |expr| {
      PostfixPrefix(expr[..|expr|-1], n);
      assert expr[..|expr|-1][..n] == expr[..n];
    } else {
      assert expr[..n] == expr;
    }
  }

  lemma PostfixStep(expr: seq<Item>, i: nat)
    requires i < |expr| && Postfix(expr)
    ensures expr[i].Req? || Count(expr[..i]) >= 2
  {
    PostfixPrefix(expr, i + 1);
    assert expr[..i+1][..i] == expr[..i];
  }

  function Pushed(s: seq<bool>, x: Item, holds: set<string>): seq<bool>
    requires x.Req? || |s| >= 2
  {
    if x.Req? then s + [x.key in holds]
    else s[..|s|-2] + [if x.and then s[|s|-2] && s[|s|-1] else s[|s|-2] || s[|s|-1]]
  }

  lemma TruthsStep(expr: seq<Item>, x: Item, holds: set<string>)
    requires Postfix(expr) && (x.Req? || Count(expr) >= 2)
    ensures Postfix(expr + [x]) && Count(expr + [x]) == Count(expr) + (if x.Req? then 1 else -1)
    ensures Truths(expr + [x], holds) == Pushed(Truths(expr, holds), x, holds)
  {
    assert (expr + [x])[..|expr + [x]|-1] == expr;
  }

  lemma PushedConcat(s: seq<bool>, t: seq<bool>, x: Item, holds: set<string>)
    requires x.Req? || |t| >= 2
    ensures Pushed(s + t, x, holds) == s + Pushed(t, x, holds)
  {
    if x.Operator? {
      assert (s + t)[..|s + t|-2] == s + t[..|t|-2];
    }
  }

  ghost predicate Concatenates(a: seq<Item>, b: seq<Item>, holds: set<string>)
    requires Postfix(a) && Postfix(b)
  {
    && Postfix(a + b) && Count(a + b) == Count(a) + Count(b)
    && Truths(a + b, holds) == Truths(a, holds) + Truths(b, holds)
  }

  lemma ConcatStep(a: seq<Item>, front: seq<Item>, x: Item, holds: set<string>)
    requires Postfix(a) && Postfix(front) && (x.Req? || Count(front) >= 2) && Concatenates(a, front, holds)
    ensures Postfix(front + [x]) && Concatenates(a, front + [x], holds)
  {
    hide Postfix, Truths, Pushed, Count;
    AnyCount(a);
    assert a + (front + [x]) == (a + front) + [x];
    TruthsStep(front, x, holds);
    TruthsStep(a + front, x, holds);
    PushedConcat(Truths(a, holds), Truths(front, holds), x, holds);
  }

  /** The machine works through one list after another as if the first were not there. */
  lemma {:induction false} TruthsConcat(a: seq<Item>, b: seq<Item>, holds: set<string>)
    requires Postfix(a) && Postfix(b)
    ensures Concatenates(a, b, holds)
  {
    if b == [] {
      assert a + b == a;
    } else {
      var front, x := b[..|b|-1], b[|b|-1];
      hide Truths, Concatenates;
      TruthsConcat(a, front, holds);
      assert b == front + [x];
      ConcatStep(a, front, x, holds);
    }
  }

  lemma AnyCount(expr: seq<Item>)
    requires Postfix(expr)
    ensures Count(expr) >= 0
  {
    if expr != [] {
      PostfixCount(expr);
    }
  }

  /** Two expressions followed by an operator: both have to be true, or one of them. */
  lemma OperatorMeans(a: seq<Item>, b: seq<Item>, holds: set<string>)
    requires Postfix(a) && Postfix(b) && Count(a) == Count(b) == 1 && a != [] && b != []
    ensures forall and :: Postfix(a + b + [Operator(and)])
    ensures Top(a + b + [Operator(true)], holds) <==> Top(a, holds) && Top(b, holds)
    ensures Top(a + b + [Operator(false)], holds) <==> Top(a, holds) || Top(b, holds)
  {
    hide Postfix, Count, Truths;
    TruthsConcat(a, b, holds);
    forall and
      ensures Postfix(a + b + [Operator(and)]) && Count(a + b + [Operator(and)]) == 1
      ensures Truths(a + b + [Operator(and)], holds) == Pushed(Truths(a + b, holds), Operator(and), holds)
    {
      TruthsStep(a + b, Operator(and), holds);
    }
  }

  // ---------- the tree ----------

  datatype Node = Leaf(key: string) | And(children: seq<Node>) | Or(children: seq<Node>)

  predicate Means(n: Node, holds: set<string>)
    decreases n
  {
    match n
    case Leaf(key) => key in holds
    case And(cs) => MeansAll(cs, holds)
    case Or(cs) => MeansAny(cs, holds)
  }

  predicate MeansAll(ns: seq<Node>, holds: set<string>)
    decreases ns
  {
    ns == [] || (Means(ns[0], holds) && MeansAll(ns[1..], holds))
  }

  predicate MeansAny(ns: seq<Node>, holds: set<string>)
    decreases ns
  {
    ns != [] && (Means(ns[0], holds) || MeansAny(ns[1..], holds))
  }

  /** Leaves from left to right. */
  function Leaves(n: Node): seq<string>
    decreases n
  {
    match n
    case Leaf(key) => [key]
    case And(cs) => LeavesAll(cs)
    case Or(cs) => LeavesAll(cs)
  }

  function LeavesAll(ns: seq<Node>): seq<string>
    decreases ns
  {
    if ns == [] then [] else Leaves(ns[0]) + LeavesAll(ns[1..])
  }

  /** Operators have at least two operands, none of them the same operator again. */
  predicate Flat(n: Node)
    decreases n
  {
    match n
    case Leaf(_) => true
    case And(cs) => |cs| >= 2 && FlatAll(cs) && forall c :: c in cs ==> !c.And?
    case Or(cs) => |cs| >= 2 && FlatAll(cs) && forall c :: c in cs ==> !c.Or?
  }

  predicate FlatAll(ns: seq<Node>)
    decreases ns
  {
    ns == [] || (Flat(ns[0]) && FlatAll(ns[1..]))
  }

  lemma {:induction false} NodesConcat(a: seq<Node>, b: seq<Node>, holds: set<string>)
    ensures MeansAll(a + b, holds) <==> MeansAll(a, holds) && MeansAll(b, holds)
    ensures MeansAny(a + b, holds) <==> MeansAny(a, holds) || MeansAny(b, holds)
    ensures LeavesAll(a + b) == LeavesAll(a) + LeavesAll(b)
    ensures FlatAll(a + b) <==> FlatAll(a) && FlatAll(b)
  {
    hide Means, Leaves, Flat;
    if a == [] {
      assert a + b == b;
    } else {
      NodesConcat(a[1..], b, holds);
      assert (a + b)[1..] == a[1..] + b;
    }
  }

  lemma NodesOne(n: Node, holds: set<string>)
    ensures MeansAll([n], holds) <==> Means(n, holds)
    ensures MeansAny([n], holds) <==> Means(n, holds)
    ensures LeavesAll([n]) == Leaves(n)
    ensures FlatAll([n]) <==> Flat(n)
  {
  }

  /** The operands a node contributes to an enclosing operator. */
  function Operands(and: bool, n: Node): (ns: seq<Node>)
  {
    match n
    case And(cs) => if and then cs else [n]
    case Or(cs) => if and then [n] else cs
    case Leaf(_) => [n]
  }

  function Joined(and: bool, a: Node, b: Node): Node {
    var cs := Operands(and, a) + Operands(and, b);
    if and then And(cs) else Or(cs)
  }

  lemma OperandsMean(and: bool, n: Node, holds: set<string>)
    requires Flat(n)
    ensures var cs := Operands(and, n);
            && |cs| >= 1 && FlatAll(cs) && LeavesAll(cs) == Leaves(n)
            && (forall c :: c in cs ==> if and then !c.And? else !c.Or?)
            && (Means(n, holds) <==> if and then MeansAll(cs, holds) else MeansAny(cs, holds))
  {
  }

  /** Flattening changes neither the meaning nor the order of the leaves. */
  lemma JoinedMeans(and: bool, a: Node, b: Node, holds: set<string>)
    requires Flat(a) && Flat(b)
    ensures var n := Joined(and, a, b);
            && Flat(n) && Leaves(n) == Leaves(a) + Leaves(b)
            && (Means(n, holds)
                <==> if and then Means(a, holds) && Means(b, holds)
                     else Means(a, holds) || Means(b, holds))
  {
    OperandsMean(and, a, holds);
    OperandsMean(and, b, holds);
    NodesConcat(Operands(and, a), Operands(and, b), holds);
  }

  /** The stack of trees stands for the stack of truth values, whatever holds. */
  ghost predicate Stands(stack: seq<Node>, expr: seq<Item>)
    requires Postfix(expr)
  {
    && |stack| == Count(expr)
    && forall holds: set<string>, i: nat :: i < |stack| ==>
         (Means(stack[i], holds) <==> Truths(expr, holds)[i])
  }

  predicate EachFlat(stack: seq<Node>) {
    forall i :: 0 <= i < |stack| ==> Flat(stack[i])
  }

  lemma PushLeaf(stack: seq<Node>, done: seq<Item>, key: string)
    requires Postfix(done) && Stands(stack, done) && EachFlat(stack)
    requires LeavesAll(stack) == Keys(done)
    ensures var next := stack + [Leaf(key)];
            && Postfix(done + [Req(key)]) && Stands(next, done + [Req(key)])
            && EachFlat(next) && LeavesAll(next) == Keys(done + [Req(key)])
  {
    var expr := done + [Req(key)];
    assert expr[..|expr|-1] == done;
    var next := stack + [Leaf(key)];
    NodesConcat(stack, [Leaf(key)], {});
    NodesOne(Leaf(key), {});
  }

  lemma Combine(stack: seq<Node>, done: seq<Item>, and: bool)
    requires Postfix(done) && Stands(stack, done) && EachFlat(stack)
    requires LeavesAll(stack) == Keys(done) && |stack| >= 2
    ensures var k := |stack| - 2;
            var next := stack[..k] + [Joined(and, stack[k], stack[k+1])];
            && Postfix(done + [Operator(and)]) && Stands(next, done + [Operator(and)])
            && EachFlat(next) && LeavesAll(next) == Keys(done + [Operator(and)])
  {
    hide Stands, Truths, Means, MeansAll, MeansAny, Flat, FlatAll, Leaves, LeavesAll, Joined, Postfix;
    var expr := done + [Operator(and)];
    assert expr[..|expr|-1] == done;
    var k := |stack| - 2;
    var a, b := stack[k], stack[k+1];
    var n := Joined(and, a, b);
    var next := stack[..k] + [n];
    CombineMeans(stack, done, and);
    JoinedMeans(and, a, b, {});
    NodesConcat(stack[..k], [n], {});
    NodesOne(n, {});
    NodesOne(a, {});
    NodesOne(b, {});
    NodesConcat([a], [b], {});
    assert [a] + [b] == [a, b];
    NodesConcat(stack[..k], [a, b], {});
    assert stack[..k] + [a, b] == stack;
  }

  lemma CombineMeans(stack: seq<Node>, done: seq<Item>, and: bool)
    requires Postfix(done) && Stands(stack, done) && EachFlat(stack) && |stack| >= 2
    ensures var k := |stack| - 2;
            Postfix(done + [Operator(and)])
            && Stands(stack[..k] + [Joined(and, stack[k], stack[k+1])], done + [Operator(and)])
  {
    hide Flat, Means, Joined;
    var expr := done + [Operator(and)];
    assert expr[..|expr|-1] == done;
    var k := |stack| - 2;
    var n := Joined(and, stack[k], stack[k+1]);
    var next := stack[..k] + [n];
    forall holds: set<string>, i: nat | i < |next|
      ensures Means(next[i], holds) <==> Truths(expr, holds)[i]
    {
      JoinedMeans(and, stack[k], stack[k+1], holds);
      assert Means(stack[k], holds) <==> Truths(done, holds)[k];
      assert Means(stack[k+1], holds) <==> Truths(done, holds)[k+1];
      assert i < k ==> (Means(stack[i], holds) <==> Truths(done, holds)[i]);
    }
  }

  /**
   * The tree for the expression's last operand: it means what the stack machine
   * computes, under every set of licenses that hold, and is flattened.
   */
  method BuildTree(expr: seq<Item>) returns (tree: Option<Node>)
    ensures tree.Some? <==> Postfix(expr) && expr != []
    ensures tree.Some? ==> Flat(tree.value)
    ensures tree.Some? ==> forall holds: set<string> ::
              Means(tree.value, holds) <==> Top(expr, holds)
    ensures tree.Some? && Count(expr) == 1 ==> Leaves(tree.value) == Keys(expr)
  {
    var stack: seq<Node> := [];
    for i := 0 to |expr|
      invariant Postfix(expr[..i]) && Stands(stack, expr[..i])
      invariant EachFlat(stack) && LeavesAll(stack) == Keys(expr[..i])
    {
      assert expr[..i+1] == expr[..i] + [expr[i]];
      match expr[i] {
        case Req(key) =>
          PushLeaf(stack, expr[..i], key);
          stack := stack + [Leaf(key)];
        case Operator(and) =>
          if |stack| < 2 {
            if Postfix(expr) {
              PostfixStep(expr, i);
            }
            return None;
          }
          Combine(stack, expr[..i], and);
          var b, a := stack[|stack|-1], stack[|stack|-2];
          stack := stack[..|stack|-2] + [Joined(and, a, b)];
      }
    }
    assert expr[..|expr|] == expr;
    if stack == [] {
      if expr != [] {
        PostfixCount(expr);
      }
      return None;
    }
    if |stack| == 1 {
      NodesOne(stack[0], {});
      assert stack == [stack[0]];
    }
    return Some(stack[|stack|-1]);
  }

  // ---------- the mapping ----------

  /** Lower-cased SPDX key to the tokens of its Gentoo value. */
  type Mapping = map<string, seq<Token>>

  function Lookup(key: string, mapping: Mapping): Option<seq<Token>> {
    if key in mapping then Some(mapping[key])
    else if key != "" && key[|key|-1] == '+' && key[..|key|-1] in mapping
      then Some(mapping[key[..|key|-1]])
    else None
  }

  /** The key as it is goes first; with a plus sign and no entry of its own, the one without decides; else there is none. */
  lemma LookupMeans(key: string, base: string, mapping: Mapping)
    ensures key in mapping ==> Lookup(key, mapping) == Some(mapping[key])
    ensures key !in mapping && key == base + "+" ==>
              Lookup(key, mapping) == if base in mapping then Some(mapping[base]) else None
    ensures key !in mapping && (forall b :: key != b + "+") ==> Lookup(key, mapping) == None
  {
    if key != "" && key[|key|-1] == '+' {
      assert key == key[..|key|-1] + "+";
    }
  }

  predicate Mapped(keys: seq<string>, mapping: Mapping) {
    forall i :: 0 <= i < |keys| ==> Lookup(keys[i], mapping).Some?
  }

  /** The entries of a well-formed value. */
  function ValueTrees(toks: seq<Token>): seq<Tree> {
    if Parse(toks).Read? then Parse(toks).trees else []
  }

  /** A value that keeps its meaning as one alternative of an any-of group. */
  predicate Usable(toks: seq<Token>, e: bool) {
    Parse(toks).Read? && toks != [] && (e ==> toks != ["||", "(", ")"])
  }

  /** The values that the keys are looked up as are usable. */
  predicate AllUsable(keys: seq<string>, mapping: Mapping, e: bool)
    requires Mapped(keys, mapping)
  {
    forall i :: 0 <= i < |keys| ==> Usable(Lookup(keys[i], mapping).value, e)
  }

  /** The keys whose value the set `ok` satisfies. */
  ghost predicate Holding(holds: set<string>, keys: seq<string>, mapping: Mapping, ok: set<Token>, e: bool)
    requires Mapped(keys, mapping)
  {
    forall i :: 0 <= i < |keys| ==>
      (keys[i] in holds <==> AcceptsAll(ValueTrees(Lookup(keys[i], mapping).value), ok, e))
  }

  // ---------- rendering ----------

  /** A value's tokens where they stand as one alternative of an any-of group. */
  function Alternative(toks: seq<Token>): seq<Token> {
    if |toks| <= 1 then toks
    else if PureOr(toks) then toks[2..|toks|-1]
    else ["("] + toks + [")"]
  }

  function Rendered(n: Node, inOr: bool, mapping: Mapping): seq<Token>
    requires Mapped(Leaves(n), mapping)
    decreases n
  {
    match n
    case And(cs) =>
      var each := RenderedEach(cs, false, mapping);
      if inOr then ["("] + each + [")"] else each
    case Or(cs) =>
      var each := RenderedEach(cs, true, mapping);
      if inOr then each else ["||", "("] + each + [")"]
    case Leaf(key) =>
      var toks := Lookup([key][0], mapping).value;
      if inOr then Alternative(toks) else toks
  }

  function RenderedEach(ns: seq<Node>, inOr: bool, mapping: Mapping): seq<Token>
    requires Mapped(LeavesAll(ns), mapping)
    decreases ns
  {
    if ns == [] then []
    else
      MappedConcat(Leaves(ns[0]), LeavesAll(ns[1..]), mapping);
      Rendered(ns[0], inOr, mapping) + RenderedEach(ns[1..], inOr, mapping)
  }

  lemma MappedConcat(a: seq<string>, b: seq<string>, mapping: Mapping)
    ensures Mapped(a + b, mapping) <==> Mapped(a, mapping) && Mapped(b, mapping)
  {
    if Mapped(a + b, mapping) {
      forall i | 0 <= i < |a| ensures Lookup(a[i], mapping).Some? {
        assert (a + b)[i] == a[i];
      }
      forall i | 0 <= i < |b| ensures Lookup(b[i], mapping).Some? {
        assert (a + b)[|a| + i] == b[i];
      }
    }
  }

  lemma {:induction false} RenderedConcat(a: seq<Node>, b: seq<Node>, inOr: bool, mapping: Mapping)
    requires Mapped(LeavesAll(a + b), mapping)
    ensures Mapped(LeavesAll(a), mapping) && Mapped(LeavesAll(b), mapping)
    ensures RenderedEach(a + b, inOr, mapping)
         == RenderedEach(a, inOr, mapping) + RenderedEach(b, inOr, mapping)
  {
    hide Rendered, Leaves, Mapped;
    NodesConcat(a, b, {});
    MappedConcat(LeavesAll(a), LeavesAll(b), mapping);
    if a == [] {
      assert a + b == b;
    } else {
      assert (a + b)[1..] == a[1..] + b;
      MappedConcat(Leaves(a[0]), LeavesAll(a[1..]), mapping);
      MappedConcat(Leaves(a[0]), LeavesAll(a[1..] + b), mapping);
      RenderedConcat(a[1..], b, inOr, mapping);
      Assoc(Rendered(a[0], inOr, mapping), RenderedEach(a[1..], inOr, mapping),
            RenderedEach(b, inOr, mapping));
    }
  }

  lemma RenderedStep(ns: seq<Node>, i: nat, inOr: bool, mapping: Mapping)
    requires i < |ns|
    ensures Mapped(LeavesAll(ns[..i+1]), mapping)
       <==> Mapped(LeavesAll(ns[..i]), mapping) && Mapped(Leaves(ns[i]), mapping)
    ensures Mapped(LeavesAll(ns[..i+1]), mapping) ==>
              (RenderedEach(ns[..i+1], inOr, mapping)
               == RenderedEach(ns[..i], inOr, mapping) + Rendered(ns[i], inOr, mapping))
  {
    hide Rendered, Leaves, Mapped;
    assert ns[..i+1] == ns[..i] + [ns[i]];
    NodesConcat(ns[..i], [ns[i]], {});
    NodesOne(ns[i], {});
    MappedConcat(LeavesAll(ns[..i]), Leaves(ns[i]), mapping);
    if Mapped(LeavesAll(ns[..i+1]), mapping) {
      RenderedConcat(ns[..i], [ns[i]], inOr, mapping);
      assert [ns[i]][1..] == [];
      MappedConcat(Leaves(ns[i]), LeavesAll([]), mapping);
    }
  }

  lemma UnmappedPart(ns: seq<Node>, i: nat, mapping: Mapping)
    requires i <= |ns| && !Mapped(LeavesAll(ns[..i]), mapping)
    ensures !Mapped(LeavesAll(ns), mapping)
  {
    assert ns == ns[..i] + ns[i..];
    NodesConcat(ns[..i], ns[i..], {});
    MappedConcat(LeavesAll(ns[..i]), LeavesAll(ns[i..]), mapping);
  }

  class Renderer {
    const mapping: Mapping
    var out: seq<Token>

    constructor (mapping: Mapping)
      ensures this.mapping == mapping && out == []
    {
      this.mapping := mapping;
      out := [];
    }

    /** Appends the node's tokens; stops at a leaf without a Gentoo license. */
    method Render(n: Node, inOr: bool) returns (ok: bool)
      modifies this
      ensures ok <==> Mapped(Leaves(n), mapping)
      ensures ok ==> out == old(out) + Rendered(n, inOr, mapping)
      decreases n, 1
    {
      match n {
        case And(cs) =>
          if inOr { out := out + ["("]; }
          ok := RenderChildren(n, false);
          if ok && inOr { out := out + [")"]; }
        case Or(cs) =>
          if !inOr { out := out + ["||", "("]; }
          ok := RenderChildren(n, true);
          if ok && !inOr { out := out + [")"]; }
        case Leaf(key) =>
          var found := Lookup(key, mapping);
          assert [key][0] == key;
          if found.None? {
            return false;
          }
          var toks := found.value;
          if |toks| > 1 && inOr {
            var pure := IsPureOr(toks);
            if pure {
              out := out + toks[2..|toks|-1];
            } else {
              out := out + ["("] + toks + [")"];
            }
          } else {
            out := out + toks;
          }
          ok := true;
      }
    }

    method RenderChildren(n: Node, inOr: bool) returns (ok: bool)
      requires !n.Leaf?
      modifies this
      ensures ok <==> Mapped(LeavesAll(n.children), mapping)
      ensures ok ==> out == old(out) + RenderedEach(n.children, inOr, mapping)
      decreases n, 0
    {
      var cs := n.children;
      for i := 0 to |cs|
        invariant Mapped(LeavesAll(cs[..i]), mapping)
        invariant out == old(out) + RenderedEach(cs[..i], inOr, mapping)
      {
        ok := Render(cs[i], inOr);
        RenderedStep(cs, i, inOr, mapping);
        if !ok {
          UnmappedPart(cs, i + 1, mapping);
          return;
        }
      }
      assert cs[..|cs|] == cs;
      ok := true;
    }
  }

  // ---------- what the rendered tokens say ----------

  /** The values that the keys are looked up as are well formed. */
  predicate AllReadable(keys: seq<string>, mapping: Mapping)
    requires Mapped(keys, mapping)
  {
    forall i :: 0 <= i < |keys| ==> Parse(Lookup(keys[i], mapping).value).Read?
  }

  lemma ReadableKeys(a: seq<string>, b: seq<string>, mapping: Mapping)
    requires Mapped(a, mapping) && Mapped(b, mapping) && Mapped(a + b, mapping) && AllReadable(a + b, mapping)
    ensures AllReadable(a, mapping) && AllReadable(b, mapping)
  {
    assert forall i :: 0 <= i < |a| ==> (a + b)[i] == a[i];
    assert forall i :: 0 <= i < |b| ==> (a + b)[|a| + i] == b[i];
  }

  lemma UsableKeys(a: seq<string>, b: seq<string>, mapping: Mapping, e: bool)
    requires Mapped(a, mapping) && Mapped(b, mapping) && Mapped(a + b, mapping) && AllUsable(a + b, mapping, e)
    ensures AllUsable(a, mapping, e) && AllUsable(b, mapping, e)
  {
    assert forall i :: 0 <= i < |a| ==> (a + b)[i] == a[i];
    assert forall i :: 0 <= i < |b| ==> (a + b)[|a| + i] == b[i];
  }

  function AlternativeTrees(toks: seq<Token>): seq<Tree> {
    var ts := ValueTrees(toks);
    if |toks| <= 1 then ts
    else if |ts| == 1 && ts[0].AnyOf? then ts[0].children
    else [AllOf(ts)]
  }

  lemma AlternativePrints(toks: seq<Token>)
    requires Parse(toks).Read?
    ensures Readable(AlternativeTrees(toks))
    ensures Alternative(toks) == PrintAll(AlternativeTrees(toks))
  {
    var ts := ValueTrees(toks);
    ParseExact(toks);
    if |toks| > 1 {
      PureOrMeaning(ts);
      if |ts| == 1 && ts[0].AnyOf? {
        PrintOne(ts[0]);
        assert toks == ["||", "("] + PrintAll(ts[0].children) + [")"];
      } else {
        PrintOne(AllOf(ts));
        ReadableOne(AllOf(ts));
      }
    }
  }

  predicate SameAlternative(toks: seq<Token>, ok: set<Token>, e: bool) {
    AcceptsAny(AlternativeTrees(toks), ok, e) <==> AcceptsAll(ValueTrees(toks), ok, e)
  }

  /**
   * Standing as an alternative keeps a value's meaning for every accepted set
   * exactly when the value has an entry and is not a lone empty any-of group
   * that counts as satisfied.
   */
  lemma AlternativeExact(toks: seq<Token>, e: bool)
    requires Parse(toks).Read?
    ensures (forall ok: set<Token> :: SameAlternative(toks, ok, e)) <==> Usable(toks, e)
  {
    var ts := ValueTrees(toks);
    ParseExact(toks);
    LoneEmpty(toks);
    if ts == [AnyOf([])] {
      forall ok: set<Token>
        ensures SameAlternative(toks, ok, e) <==> !e
      {
        AcceptsOne(ts[0], ok, e);
      }
      assert SameAlternative(toks, {}, e) <==> !e;
    } else if ts == [] {
      assert !SameAlternative(toks, {}, e);
    } else {
      PrintNonempty(ts[0]);
      forall ok: set<Token>
        ensures SameAlternative(toks, ok, e)
      {
        AcceptsOne(ts[0], ok, e);
        AcceptsOne(AllOf(ts), ok, e);
        if |toks| <= 1 {
          ShortPrint(ts);
        }
      }
    }
  }

  lemma LoneEmpty(toks: seq<Token>)
    requires Parse(toks).Read?
    ensures ValueTrees(toks) == [AnyOf([])] <==> toks == ["||", "(", ")"]
  {
    ParseExact(toks);
    ParsePrint([AnyOf([])]);
    PrintOne(AnyOf([]));
    assert Print(AnyOf([])) == ["||", "(", ")"];
  }

  lemma ShortPrint(ts: seq<Tree>)
    requires ts != [] && |PrintAll(ts)| <= 1
    ensures ts == [ts[0]]
  {
    PrintNonempty(ts[0]);
    if |ts| > 1 {
      PrintNonempty(ts[1]);
    }
  }

  function RenderedTrees(n: Node, inOr: bool, mapping: Mapping): seq<Tree>
    requires Mapped(Leaves(n), mapping)
    decreases n
  {
    match n
    case And(cs) =>
      var each := RenderedTreesEach(cs, false, mapping);
      if inOr then [AllOf(each)] else each
    case Or(cs) =>
      var each := RenderedTreesEach(cs, true, mapping);
      if inOr then each else [AnyOf(each)]
    case Leaf(key) =>
      var toks := Lookup([key][0], mapping).value;
      if inOr then AlternativeTrees(toks) else ValueTrees(toks)
  }

  function RenderedTreesEach(ns: seq<Node>, inOr: bool, mapping: Mapping): seq<Tree>
    requires Mapped(LeavesAll(ns), mapping)
    decreases ns
  {
    if ns == [] then []
    else
      MappedConcat(Leaves(ns[0]), LeavesAll(ns[1..]), mapping);
      RenderedTrees(ns[0], inOr, mapping) + RenderedTreesEach(ns[1..], inOr, mapping)
  }

  /** Whatever the grouping, the tokens are the printed form of the rendered entries. */
  lemma {:induction false} RenderedPrints(n: Node, inOr: bool, mapping: Mapping)
    requires Mapped(Leaves(n), mapping) && AllReadable(Leaves(n), mapping)
    ensures Readable(RenderedTrees(n, inOr, mapping))
    ensures Rendered(n, inOr, mapping) == PrintAll(RenderedTrees(n, inOr, mapping))
    decreases n, 0
  {
    match n {
      case And(cs) =>
        RenderedPrintsEach(cs, false, mapping);
        PrintOne(AllOf(RenderedTreesEach(cs, false, mapping)));
        ReadableOne(AllOf(RenderedTreesEach(cs, false, mapping)));
      case Or(cs) =>
        RenderedPrintsEach(cs, true, mapping);
        PrintOne(AnyOf(RenderedTreesEach(cs, true, mapping)));
        ReadableOne(AnyOf(RenderedTreesEach(cs, true, mapping)));
      case Leaf(key) =>
        var toks := Lookup([key][0], mapping).value;
        AlternativePrints(toks);
        ParseExact(toks);
    }
  }

  lemma {:induction false} RenderedPrintsEach(ns: seq<Node>, inOr: bool, mapping: Mapping)
    requires Mapped(LeavesAll(ns), mapping) && AllReadable(LeavesAll(ns), mapping)
    ensures Readable(RenderedTreesEach(ns, inOr, mapping))
    ensures RenderedEach(ns, inOr, mapping) == PrintAll(RenderedTreesEach(ns, inOr, mapping))
    decreases ns, 1
  {
    hide Rendered, RenderedTrees, Print, Wordy, Leaves;
    if ns != [] {
      MappedConcat(Leaves(ns[0]), LeavesAll(ns[1..]), mapping);
      ReadableKeys(Leaves(ns[0]), LeavesAll(ns[1..]), mapping);
      RenderedPrints(ns[0], inOr, mapping);
      RenderedPrintsEach(ns[1..], inOr, mapping);
      var a, b := RenderedTrees(ns[0], inOr, mapping), RenderedTreesEach(ns[1..], inOr, mapping);
      PrintConcat(a, b);
      ReadableConcat(a, b);
    }
  }

  /**
   * The rendered entries mean what the node means: all of them at the top or inside
   * an all-of, any of them inside an any-of.
   */
  lemma {:induction false} RenderedMeans(
      n: Node, inOr: bool, mapping: Mapping, holds: set<string>, ok: set<Token>, e: bool)
    requires Flat(n) && Mapped(Leaves(n), mapping) && AllUsable(Leaves(n), mapping, e)
    requires Holding(holds, Leaves(n), mapping, ok, e)
    ensures var ts := RenderedTrees(n, inOr, mapping);
            && (e ==> ts != [])
            && (Means(n, holds) <==> if inOr then AcceptsAny(ts, ok, e) else AcceptsAll(ts, ok, e))
    decreases n, 0
  {
    match n {
      case And(cs) =>
        RenderedMeansEach(cs, false, mapping, holds, ok, e);
        AcceptsOne(AllOf(RenderedTreesEach(cs, false, mapping)), ok, e);
      case Or(cs) =>
        RenderedMeansEach(cs, true, mapping, holds, ok, e);
        AcceptsOne(AnyOf(RenderedTreesEach(cs, true, mapping)), ok, e);
      case Leaf(key) =>
        assert [key][0] == key;
        LeafMeans(key, mapping, e);
        AlternativeExact(Lookup(key, mapping).value, e);
        assert SameAlternative(Lookup(key, mapping).value, ok, e);
    }
  }

  lemma LeafMeans(key: string, mapping: Mapping, e: bool)
    requires Lookup(key, mapping).Some? && Usable(Lookup(key, mapping).value, e)
    ensures var toks := Lookup(key, mapping).value;
            Usable(toks, e) && ValueTrees(toks) != [] && (e ==> AlternativeTrees(toks) != [])
  {
    var toks := Lookup(key, mapping).value;
    ParseExact(toks);
    AlternativeExact(toks, e);
    AlternativePrints(toks);
  }

  lemma {:induction false} RenderedMeansEach(
      ns: seq<Node>, inOr: bool, mapping: Mapping, holds: set<string>, ok: set<Token>, e: bool)
    requires FlatAll(ns) && Mapped(LeavesAll(ns), mapping) && AllUsable(LeavesAll(ns), mapping, e)
    requires Holding(holds, LeavesAll(ns), mapping, ok, e)
    ensures var ts := RenderedTreesEach(ns, inOr, mapping);
            && (e && ns != [] ==> ts != [])
            && (inOr ==> (MeansAny(ns, holds) <==> AcceptsAny(ts, ok, e)))
            && (!inOr ==> (MeansAll(ns, holds) <==> AcceptsAll(ts, ok, e)))
    decreases ns, 1
  {
    hide Rendered, RenderedTrees, Accepts, Flat, Means, Leaves;
    if ns != [] {
      var here, later := Leaves(ns[0]), LeavesAll(ns[1..]);
      MappedConcat(here, later, mapping);
      HoldingConcat(here, later, mapping, holds, ok, e);
      UsableKeys(here, later, mapping, e);
      RenderedMeans(ns[0], inOr, mapping, holds, ok, e);
      RenderedMeansEach(ns[1..], inOr, mapping, holds, ok, e);
      AcceptsConcat(RenderedTrees(ns[0], inOr, mapping), RenderedTreesEach(ns[1..], inOr, mapping), ok, e);
    }
  }

  lemma HoldingConcat(
      a: seq<string>, b: seq<string>, mapping: Mapping, holds: set<string>, ok: set<Token>, e: bool)
    requires Mapped(a, mapping) && Mapped(b, mapping) && Mapped(a + b, mapping)
    requires Holding(holds, a + b, mapping, ok, e)
    ensures Holding(holds, a, mapping, ok, e) && Holding(holds, b, mapping, ok, e)
  {
    forall i | 0 <= i < |a|
      ensures a[i] in holds <==> AcceptsAll(ValueTrees(Lookup(a[i], mapping).value), ok, e)
    {
      assert (a + b)[i] == a[i];
    }
    forall i | 0 <= i < |b|
      ensures b[i] in holds <==> AcceptsAll(ValueTrees(Lookup(b[i], mapping).value), ok, e)
    {
      assert (a + b)[|a| + i] == b[i];
    }
  }

  // ---------- the whole conversion ----------

  /** What the SPDX parser hands over: one operand is left at the end. */
  predicate Complete(expr: seq<Item>) {
    Postfix(expr) && Count(expr) == 1
  }

  /** The tokens read back as entries that all hold exactly when the expression does. */
  ghost predicate Faithful(expr: seq<Item>, mapping: Mapping, toks: seq<Token>)
    requires Complete(expr) && Mapped(Keys(expr), mapping)
  {
    forall e: bool, holds: set<string>, ok: set<Token> ::
      AllUsable(Keys(expr), mapping, e) && Holding(holds, Keys(expr), mapping, ok, e) ==>
        (AcceptsAll(ValueTrees(toks), ok, e) <==> Top(expr, holds))
  }

  lemma UsableReadable(keys: seq<string>, mapping: Mapping, e: bool)
    requires Mapped(keys, mapping) && AllUsable(keys, mapping, e)
    ensures AllReadable(keys, mapping)
  {
  }

  /** The expression's tree, and its tokens unless a leaf is unmapped or the tokens do not read back. */
  method SpdxToEbuild(expr: seq<Item>, mapping: Mapping) returns (r: Result<seq<Token>>, ghost tree: Node)
    requires Complete(expr)
    ensures Leaves(tree) == Keys(expr) && forall holds: set<string> :: Means(tree, holds) <==> Top(expr, holds)
    ensures r.Unmapped? <==> !Mapped(Keys(expr), mapping)
    ensures r.Invalid? <==> Mapped(Keys(expr), mapping) && Parse(Rendered(tree, false, mapping)).Malformed?
    ensures r.Invalid? ==> !AllReadable(Keys(expr), mapping)
    ensures r.Ok? ==> r.value == Rendered(tree, false, mapping) && Parse(r.value).Read? && Faithful(expr, mapping, r.value)
  {
    var built := BuildTree(expr);
    assert expr != [];
    var n := built.value;
    tree := n;
    var renderer := new Renderer(mapping);
    var ok := renderer.Render(n, false);
    if !ok {
      return Unmapped, n;
    }
    var toks := renderer.out;
    assert toks == Rendered(n, false, mapping);
    if AllReadable(Keys(expr), mapping) {
      RenderedReads(n, mapping);
    }
    forall e: bool, holds: set<string>, good: set<Token>
      | AllUsable(Keys(expr), mapping, e) && Holding(holds, Keys(expr), mapping, good, e)
      ensures AcceptsAll(ValueTrees(toks), good, e) <==> Top(expr, holds)
    {
      UsableReadable(Keys(expr), mapping, e);
      RenderedReads(n, mapping);
      RenderedMeans(n, false, mapping, holds, good, e);
    }
    r := if Parse(toks).Read? then Ok(toks) else Invalid;
  }

  lemma RenderedReads(n: Node, mapping: Mapping)
    requires Mapped(Leaves(n), mapping) && AllReadable(Leaves(n), mapping)
    ensures Parse(Rendered(n, false, mapping)) == Read(RenderedTrees(n, false, mapping))
  {
    RenderedPrints(n, false, mapping);
    ParsePrint(RenderedTrees(n, false, mapping));
  }
}
