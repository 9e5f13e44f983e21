/** Which declaration encloses each token, and which one encloses a cursor. */
module TokenOwners {
  import opened Lsp

  /** A declaration: its half-open range covers its body and so its children. */
  datatype Node = Node(id: string, isProject: bool, start: Pos, end: Pos, children: seq<Node>)

  predicate Contains(n: Node, pos: Pos) {
    AtMost(n.start, pos) && Before(pos, n.end)
  }

  /** Sibling ranges are non-empty, ascending and disjoint, and hold the ranges of their children. */
  ghost predicate Laminar(nodes: seq<Node>)
    decreases nodes
  {
    && (forall i :: 0 <= i < |nodes| ==> Nested(nodes[i]))
    && (forall i, j :: 0 <= i < j < |nodes| ==> AtMost(nodes[i].end, nodes[j].start))
  }

  ghost predicate Nested(n: Node)
    decreases n
  {
    && Before(n.start, n.end)
    && (forall i :: 0 <= i < |n.children| ==> AtMost(n.start, n.children[i].start) && AtMost(n.children[i].end, n.end))
    && Laminar(n.children)
  }

  /** The naive search: the enclosing declarations from the outermost to the innermost. */
  function ChainAt(nodes: seq<Node>, pos: Pos): seq<Node>
    decreases nodes
  {
    if nodes == [] then []
    else if Contains(nodes[0], pos) then [nodes[0]] + ChainAt(nodes[0].children, pos)
    else ChainAt(nodes[1..], pos)
  }

  ghost predicate Within(n: Node, nodes: seq<Node>)
    decreases nodes
  {
    exists i :: 0 <= i < |nodes| && (n == nodes[i] || Within(n, nodes[i].children))
  }

  lemma {:induction false} WithinRange(n: Node, nodes: seq<Node>, m: Node, pos: Pos)
    requires Nested(m) && nodes == m.children && Within(n, nodes) && Contains(n, pos)
    ensures Contains(m, pos)
    decreases nodes
  {
    var i :| 0 <= i < |nodes| && (n == nodes[i] || Within(n, nodes[i].children));
    if n != nodes[i] {
      WithinRange(n, nodes[i].children, nodes[i], pos);
    }
  }

  lemma {:induction false} ChainFrom(nodes: seq<Node>, pos: Pos, k: nat)
    requires k <= |nodes| && forall j :: 0 <= j < k ==> !Contains(nodes[j], pos)
    ensures ChainAt(nodes, pos) == ChainAt(nodes[k..], pos)
    decreases k
  {
    if k == 0 {
      assert nodes[0..] == nodes;
    } else {
      ChainFrom(nodes[1..], pos, k - 1);
      assert nodes[1..][k - 1..] == nodes[k..];
    }
  }

  /** The chain is exactly the set of declarations that contain the position. */
  lemma {:induction false} ChainIsAllEnclosing(nodes: seq<Node>, pos: Pos, n: Node)
    requires Laminar(nodes)
    ensures n in ChainAt(nodes, pos) <==> Within(n, nodes) && Contains(n, pos)
    decreases nodes
  {
    if i :| 0 <= i < |nodes| && Contains(nodes[i], pos) {
      forall j | 0 <= j < i ensures !Contains(nodes[j], pos) {}
      ChainFrom(nodes, pos, i);
      assert nodes[i..][0] == nodes[i];
      assert ChainAt(nodes, pos) == [nodes[i]] + ChainAt(nodes[i].children, pos);
      assert Nested(nodes[i]);
      ChainIsAllEnclosing(nodes[i].children, pos, n);
      if Within(n, nodes) && Contains(n, pos) {
        var j :| 0 <= j < |nodes| && (n == nodes[j] || Within(n, nodes[j].children));
        if n != nodes[j] { WithinRange(n, nodes[j].children, nodes[j], pos); }
        assert Contains(nodes[j], pos);
        assert j == i;
      }
    } else {
      ChainFrom(nodes, pos, |nodes|);
      if Within(n, nodes) && Contains(n, pos) {
        var j :| 0 <= j < |nodes| && (n == nodes[j] || Within(n, nodes[j].children));
        if n != nodes[j] { WithinRange(n, nodes[j].children, nodes[j], pos); }
      }
    }
  }

  lemma {:induction false} NothingAhead(nodes: seq<Node>, pos: Pos)
    requires forall j :: 0 <= j < |nodes| ==> !Contains(nodes[j], pos)
    ensures ChainAt(nodes, pos) == []
  {
    ChainFrom(nodes, pos, |nodes|);
  }

  // ---- every declaration once ------------------------------------------------------------------

  /** Every declaration of the forest, with its multiplicity. */
  ghost function Declared(nodes: seq<Node>): multiset<Node>
    decreases nodes
  {
    if nodes == [] then multiset{}
    else multiset{nodes[0]} + Declared(nodes[0].children) + Declared(nodes[1..])
  }

  /** The declarations of the forest that a sweep standing at pos may still enter. */
  ghost function Ahead(nodes: seq<Node>, pos: Pos): multiset<Node>
    decreases nodes
  {
    if nodes == [] then multiset{}
    else if Before(pos, nodes[0].end) then multiset{nodes[0]} + Declared(nodes[0].children) + Ahead(nodes[1..], pos)
    else Ahead(nodes[1..], pos)
  }

  lemma {:induction false} AheadShrinks(nodes: seq<Node>, pos: Pos, later: Pos)
    requires AtMost(pos, later)
    ensures Ahead(nodes, later) <= Ahead(nodes, pos)
    decreases |nodes|
  {
    if nodes != [] {
      AheadShrinks(nodes[1..], pos, later);
    }
  }

  lemma {:induction false} AheadIsDeclared(nodes: seq<Node>, pos: Pos)
    ensures Ahead(nodes, pos) <= Declared(nodes)
    decreases |nodes|
  {
    if nodes != [] {
      AheadIsDeclared(nodes[1..], pos);
    }
  }

  lemma {:induction false} DeclaredIsWithin(nodes: seq<Node>, n: Node)
    ensures n in Declared(nodes) <==> Within(n, nodes)
    decreases nodes
  {
    if nodes != [] {
      DeclaredIsWithin(nodes[0].children, n);
      DeclaredIsWithin(nodes[1..], n);
      assert forall i :: 0 <= i < |nodes| - 1 ==> nodes[1..][i] == nodes[i + 1];
      assert Within(n, nodes) <==> n == nodes[0] || Within(n, nodes[0].children) || Within(n, nodes[1..]) by {
        if Within(n, nodes) {
          var i :| 0 <= i < |nodes| && (n == nodes[i] || Within(n, nodes[i].children));
          if i > 0 { assert nodes[1..][i - 1] == nodes[i]; }
        }
      }
    }
  }

  /** What a declaration holds is less than what holds the declaration. */
  lemma {:induction false} WithinSmaller(n: Node, nodes: seq<Node>)
    requires Within(n, nodes)
    ensures |Declared(n.children)| < |Declared(nodes)|
    decreases nodes
  {
    if n != nodes[0] {
      if Within(n, nodes[0].children) {
        WithinSmaller(n, nodes[0].children);
      } else {
        var i :| 0 <= i < |nodes| && (n == nodes[i] || Within(n, nodes[i].children));
        assert nodes[1..][i - 1] == nodes[i];
        WithinSmaller(n, nodes[1..]);
      }
    }
  }

  lemma {:induction false} WithinSpan(n: Node, m: Node, nodes: seq<Node>)
    requires Nested(m) && nodes == m.children && Within(n, nodes)
    ensures AtMost(m.start, n.start) && AtMost(n.end, m.end) && Before(n.start, n.end)
    decreases nodes
  {
    var i :| 0 <= i < |nodes| && (n == nodes[i] || Within(n, nodes[i].children));
    assert Nested(nodes[i]);
    if n != nodes[i] {
      WithinSpan(n, nodes[i], nodes[i].children);
    }
  }

  /** In a laminar forest no declaration occurs twice. */
  lemma {:induction false} DeclaredOnce(nodes: seq<Node>, n: Node)
    requires Laminar(nodes)
    ensures Declared(nodes)[n] <= 1
    decreases nodes
  {
    hide Within, Nested, Laminar, Declared;
    DeclaredHead(nodes, n);
    if nodes != [] {
      var m, rest := nodes[0], nodes[1..];
      LaminarRest(nodes);
      DeclaredOnce(m.children, n);
      DeclaredOnce(rest, n);
      DeclaredIsWithin(m.children, n);
      DeclaredIsWithin(rest, n);
      if n == m && Within(n, m.children) {
        WithinSmaller(m, m.children);
      }
      if Within(n, rest) {
        StartsAfter(m, rest, n);
        if n != m && Within(n, m.children) { WithinSpan(n, m, m.children); }
      }
    }
  }

  lemma DeclaredHead(nodes: seq<Node>, n: Node)
    ensures Declared(nodes)[n] ==
            if nodes == [] then 0
            else (if n == nodes[0] then 1 else 0) + Declared(nodes[0].children)[n] + Declared(nodes[1..])[n]
  {}

  lemma LaminarRest(nodes: seq<Node>)
    requires Laminar(nodes) && nodes != []
    ensures Nested(nodes[0]) && Laminar(nodes[0].children) && Laminar(nodes[1..])
    ensures forall i :: 0 <= i < |nodes| - 1 ==> AtMost(nodes[0].end, nodes[1..][i].start)
  {
    assert forall i :: 0 <= i < |nodes| - 1 ==> nodes[1..][i] == nodes[i + 1];
  }

  lemma StartsAfter(m: Node, rest: seq<Node>, n: Node)
    requires Laminar(rest) && (forall i :: 0 <= i < |rest| ==> AtMost(m.end, rest[i].start)) && Within(n, rest)
    ensures AtMost(m.end, n.start) && Before(n.start, n.end)
  {
    var i :| 0 <= i < |rest| && (n == rest[i] || Within(n, rest[i].children));
    assert Nested(rest[i]);
    if n != rest[i] {
      WithinSpan(n, rest[i], rest[i].children);
    }
  }

  lemma AheadUnfold(nodes: seq<Node>, i: nat, pos: Pos)
    requires i < |nodes|
    ensures Before(pos, nodes[i].end) ==>
              Ahead(nodes[i..], pos) == multiset{nodes[i]} + Declared(nodes[i].children) + Ahead(nodes[i + 1..], pos)
    ensures !Before(pos, nodes[i].end) ==> Ahead(nodes[i..], pos) == Ahead(nodes[i + 1..], pos)
  {
    assert nodes[i..][1..] == nodes[i + 1..];
  }

  // ---- the stack -------------------------------------------------------------------------------

  /** A sibling list being walked: everything before idx is behind the sweep. */
  datatype OwnerFrame = OwnerFrame(children: seq<Node>, idx: nat, scope: Option<Node>)

  /** One frame is well placed: laminar siblings, of which those before idx have ended by pos. */
  ghost predicate Placed(f: OwnerFrame, pos: Pos) {
    && f.idx <= |f.children| && Laminar(f.children)
    && forall j :: 0 <= j < f.idx ==> AtMost(f.children[j].end, pos)
  }

  /** The frame above walks the children of the declaration the frame below points at. */
  ghost predicate Linked(below: OwnerFrame, above: OwnerFrame) {
    && below.idx < |below.children|
    && above.scope == Some(below.children[below.idx])
    && above.children == below.children[below.idx].children
  }

  /** The stack from its base up, all of its scopes started by pos. */
  ghost predicate Stacked(top: seq<Node>, stack: seq<OwnerFrame>, pos: Pos)
    decreases |stack|
  {
    && |stack| > 0
    && Placed(stack[|stack| - 1], pos)
    && if |stack| == 1 then stack[0].children == top && stack[0].scope == None
       else
         var init := stack[..|stack| - 1];
         && Stacked(top, init, pos)
         && Linked(init[|init| - 1], stack[|stack| - 1])
         && AtMost(stack[|stack| - 1].scope.value.start, pos)
  }

  /** The declarations on the stack, outermost first. */
  function Scopes(stack: seq<OwnerFrame>): seq<Node> {
    if |stack| <= 1 then []
    else Scopes(stack[..|stack| - 1]) + (match stack[|stack| - 1].scope case None => [] case Some(n) => [n])
  }

  function Top(stack: seq<OwnerFrame>): OwnerFrame
    requires stack != []
  {
    stack[|stack| - 1]
  }

  function Pop(stack: seq<OwnerFrame>): seq<OwnerFrame>
    requires stack != []
  {
    stack[..|stack| - 1]
  }

  /** The innermost scope on the stack has not ended at pos. */
  ghost predicate Open(stack: seq<OwnerFrame>, pos: Pos)
    requires stack != []
  {
    Top(stack).scope.Some? ==> Before(pos, Top(stack).scope.value.end)
  }

  lemma {:induction false} Later(top: seq<Node>, stack: seq<OwnerFrame>, pos: Pos, later: Pos)
    requires Stacked(top, stack, pos) && AtMost(pos, later)
    ensures Stacked(top, stack, later)
    decreases |stack|
  {
    if |stack| > 1 {
      Later(top, Pop(stack), pos, later);
    }
  }

  /** An open innermost scope leaves every scope below it open. */
  lemma OpenBelow(top: seq<Node>, stack: seq<OwnerFrame>, pos: Pos)
    requires Stacked(top, stack, pos) && |stack| > 1 && Open(stack, pos)
    ensures Open(Pop(stack), pos)
  {
    var below := Pop(stack);
    if |below| > 1 {
      assert Stacked(top, Pop(below), pos) && Linked(Top(Pop(below)), Top(below));
      assert Nested(Top(below).scope.value);
    }
  }

  lemma {:induction false} ScopesPrefixOfChain(top: seq<Node>, stack: seq<OwnerFrame>, pos: Pos)
    requires Stacked(top, stack, pos) && Open(stack, pos)
    ensures ChainAt(top, pos) == Scopes(stack) + ChainAt(Top(stack).children[Top(stack).idx..], pos)
    decreases |stack|
  {
    hide ChainAt, Laminar;
    var f := Top(stack);
    ChainFrom(f.children, pos, f.idx);
    if |stack| > 1 {
      OpenBelow(top, stack, pos);
      ScopesPrefixOfChain(top, Pop(stack), pos);
      var g := Top(Pop(stack));
      ChainStep(g.children, g.idx, pos);
    }
  }

  lemma ChainStep(nodes: seq<Node>, i: nat, pos: Pos)
    requires i < |nodes| && Contains(nodes[i], pos)
    ensures ChainAt(nodes[i..], pos) == [nodes[i]] + ChainAt(nodes[i].children, pos)
  {}

  function Remaining(f: OwnerFrame, skip: nat): seq<Node> {
    if f.idx + skip <= |f.children| then f.children[f.idx + skip..] else []
  }

  /** What the sweep may still enter, from the innermost frame down. */
  ghost function Unentered(stack: seq<OwnerFrame>, pos: Pos): multiset<Node>
    requires stack != []
  {
    Ahead(Remaining(Top(stack), 0), pos) + UnenteredBelow(Pop(stack), pos)
  }

  ghost function UnenteredBelow(stack: seq<OwnerFrame>, pos: Pos): multiset<Node>
    decreases |stack|
  {
    if stack == [] then multiset{}
    else Ahead(Remaining(Top(stack), 1), pos) + UnenteredBelow(Pop(stack), pos)
  }

  lemma {:induction false} UnenteredBelowShrinks(stack: seq<OwnerFrame>, pos: Pos, later: Pos)
    requires AtMost(pos, later)
    ensures UnenteredBelow(stack, later) <= UnenteredBelow(stack, pos)
    decreases |stack|
  {
    if stack != [] {
      AheadShrinks(Remaining(Top(stack), 1), pos, later);
      UnenteredBelowShrinks(Pop(stack), pos, later);
    }
  }

  lemma PopStep(top: seq<Node>, stack: seq<OwnerFrame>, pos: Pos)
    requires Stacked(top, stack, pos) && |stack| > 1 && !Open(stack, pos)
    ensures Stacked(top, Pop(stack), pos)
    ensures Unentered(Pop(stack), pos) <= Unentered(stack, pos)
  {
    hide Ahead, Laminar;
    var f := Top(Pop(stack));
    AheadUnfold(f.children, f.idx, pos);
  }

  lemma SkipStep(top: seq<Node>, stack: seq<OwnerFrame>, pos: Pos)
    requires Stacked(top, stack, pos) && Top(stack).idx < |Top(stack).children|
    requires !Before(pos, Top(stack).children[Top(stack).idx].end)
    ensures var f := Top(stack); var next := Pop(stack) + [f.(idx := f.idx + 1)];
            && Stacked(top, next, pos) && Scopes(next) == Scopes(stack)
            && Unentered(next, pos) == Unentered(stack, pos)
  {
    hide Ahead, Laminar;
    var f := Top(stack);
    var next := Pop(stack) + [f.(idx := f.idx + 1)];
    assert Pop(next) == Pop(stack);
    AheadUnfold(f.children, f.idx, pos);
  }

  lemma PushStep(top: seq<Node>, stack: seq<OwnerFrame>, pos: Pos)
    requires Stacked(top, stack, pos) && Top(stack).idx < |Top(stack).children|
    requires Contains(Top(stack).children[Top(stack).idx], pos)
    ensures var child := Top(stack).children[Top(stack).idx];
            var next := stack + [OwnerFrame(child.children, 0, Some(child))];
            && Stacked(top, next, pos) && Open(next, pos)
            && multiset{child} + Unentered(next, pos) <= Unentered(stack, pos)
  {
    hide Ahead, Laminar, Declared;
    var f := Top(stack);
    var child := f.children[f.idx];
    var next := stack + [OwnerFrame(child.children, 0, Some(child))];
    assert Pop(next) == stack;
    assert Laminar(child.children) by { ChildrenLaminar(f.children, f.idx); }
    AheadUnfold(f.children, f.idx, pos);
    AheadIsDeclared(child.children, pos);
    assert child.children[0..] == child.children;
  }

  lemma ChildrenLaminar(nodes: seq<Node>, i: nat)
    requires Laminar(nodes) && i < |nodes|
    ensures Laminar(nodes[i].children)
  {
    assert Nested(nodes[i]);
  }

  lemma NoneBefore(nodes: seq<Node>, i: nat, pos: Pos)
    requires Laminar(nodes) && i < |nodes| && Before(pos, nodes[i].start)
    ensures ChainAt(nodes[i..], pos) == []
  {
    forall j | i <= j < |nodes| ensures !Contains(nodes[j], pos) {
      assert Nested(nodes[i]) && (i < j ==> AtMost(nodes[i].end, nodes[j].start));
    }
    NothingAhead(nodes[i..], pos);
  }

  /** Drop the scopes that ended before the token. */
  method PopEnded(ghost top: seq<Node>, stack: seq<OwnerFrame>, pos: Pos) returns (kept: seq<OwnerFrame>)
    requires Stacked(top, stack, pos)
    ensures Stacked(top, kept, pos) && Open(kept, pos)
    ensures Unentered(kept, pos) <= Unentered(stack, pos)
  {
    hide Unentered, Laminar;
    kept := stack;
    while |kept| > 1 && AtMost(kept[|kept| - 1].scope.value.end, pos)
      invariant Stacked(top, kept, pos)
      invariant Unentered(kept, pos) <= Unentered(stack, pos)
      decreases |kept|
    {
      PopStep(top, kept, pos);
      kept := kept[..|kept| - 1];
    }
  }

  /** Pass the siblings that ended before the token. */
  method SkipEnded(ghost top: seq<Node>, stack: seq<OwnerFrame>, pos: Pos) returns (s: seq<OwnerFrame>)
    requires Stacked(top, stack, pos) && Open(stack, pos)
    ensures Stacked(top, s, pos) && Open(s, pos)
    ensures Scopes(s) == Scopes(stack) && Unentered(s, pos) == Unentered(stack, pos)
    ensures var f := Top(s); f.idx < |f.children| ==> Before(pos, f.children[f.idx].end)
  {
    hide Unentered, Scopes, Laminar;
    s := stack;
    while s[|s| - 1].idx < |s[|s| - 1].children| && AtMost(s[|s| - 1].children[s[|s| - 1].idx].end, pos)
      invariant Stacked(top, s, pos) && Open(s, pos)
      invariant Scopes(s) == Scopes(stack) && Unentered(s, pos) == Unentered(stack, pos)
      decreases |s[|s| - 1].children| - s[|s| - 1].idx
    {
      SkipStep(top, s, pos);
      var f := s[|s| - 1];
      s := s[..|s| - 1] + [f.(idx := f.idx + 1)];
    }
  }

  lemma Fewer(a: multiset<Node>, b: multiset<Node>)
    requires a <= b
    ensures |a| <= |b|
  {
    assert b == a + (b - a);
  }

  /** Enter every declaration around the token that is not on the stack yet. */
  method Descend(ghost top: seq<Node>, stack: seq<OwnerFrame>, pos: Pos)
    returns (s: seq<OwnerFrame>, ghost entered: multiset<Node>)
    requires Stacked(top, stack, pos) && Open(stack, pos)
    ensures s != [] && Stacked(top, s, pos) && Open(s, pos)
    ensures Scopes(s) == ChainAt(top, pos)
    ensures entered + Unentered(s, pos) <= Unentered(stack, pos)
  {
    hide Unentered, Scopes, Laminar, ChainAt;
    s, entered := stack, multiset{};
    while true
      invariant Stacked(top, s, pos) && Open(s, pos)
      invariant entered + Unentered(s, pos) <= Unentered(stack, pos)
      decreases |Unentered(s, pos)|
    {
      s := SkipEnded(top, s, pos);
      var f := s[|s| - 1];
      ScopesPrefixOfChain(top, s, pos);
      if f.idx >= |f.children| {
        NothingAhead(f.children[f.idx..], pos);
        break;
      }
      var child := f.children[f.idx];
      if Before(pos, child.start) {
        NoneBefore(f.children, f.idx, pos);
        break;
      }
      PushStep(top, s, pos);
      ghost var before := Unentered(s, pos);
      entered := entered + multiset{child};
      s := s + [OwnerFrame(child.children, 0, Some(child))];
      Fewer(multiset{child} + Unentered(s, pos), before);
    }
  }

  /** The tokens arrive in source order. */
  ghost predicate Ordered(starts: seq<Pos>) {
    forall i, j :: 0 <= i < j < |starts| ==> AtMost(starts[i], starts[j])
  }

  /**
   * One pass over the tokens. An owner comes with the declarations around it, outermost first, so the
   * last element of its chain is the node the source stores. No declaration is entered twice.
   */
  method AssignTokenOwners(top: seq<Node>, starts: seq<Pos>)
    returns (owners: seq<seq<Node>>, ghost entered: multiset<Node>)
    requires Laminar(top) && Ordered(starts)
    ensures |owners| == |starts|
    ensures forall t :: 0 <= t < |starts| ==> owners[t] == ChainAt(top, starts[t])
    ensures entered <= Declared(top) && forall n :: entered[n] <= 1
  {
    hide Unentered, Scopes, Laminar, ChainAt, Declared, Stacked;
    owners, entered := [], multiset{};
    var stack := [OwnerFrame(top, 0, None)];
    var t := 0;
    while t < |starts|
      invariant 0 <= t <= |starts| && |owners| == t
      invariant forall u :: 0 <= u < t ==> owners[u] == ChainAt(top, starts[u])
      invariant stack != []
      invariant t == 0 ==> stack == [OwnerFrame(top, 0, None)] && entered == multiset{}
      invariant entered <= Declared(top)
      invariant t > 0 ==> Stacked(top, stack, starts[t - 1])
      invariant t > 0 ==> entered + Unentered(stack, starts[t - 1]) <= Declared(top)
    {
      var pos := starts[t];
      Arrive(top, stack, starts, t, entered);
      var s := PopEnded(top, stack, pos);
      ghost var more;
      s, more := Descend(top, s, pos);
      stack, entered := s, entered + more;
      owners := owners + [Scopes(stack)];
      t := t + 1;
    }
    forall n ensures entered[n] <= 1 {
      DeclaredOnce(top, n);
    }
  }

  lemma Arrive(top: seq<Node>, stack: seq<OwnerFrame>, starts: seq<Pos>, t: nat, entered: multiset<Node>)
    requires Laminar(top) && Ordered(starts) && t < |starts|
    requires stack != []
    requires t == 0 ==> stack == [OwnerFrame(top, 0, None)] && entered == multiset{}
    requires t > 0 ==> Stacked(top, stack, starts[t - 1])
    requires t > 0 ==> entered + Unentered(stack, starts[t - 1]) <= Declared(top)
    ensures Stacked(top, stack, starts[t]) && entered + Unentered(stack, starts[t]) <= Declared(top)
  {
    hide Laminar, Ahead, Declared;
    if t == 0 {
      AheadIsDeclared(top, starts[0]);
      assert top[0..] == top;
    } else {
      assert AtMost(starts[t - 1], starts[t]);
      Later(top, stack, starts[t - 1], starts[t]);
      AheadShrinks(Remaining(Top(stack), 0), starts[t - 1], starts[t]);
      UnenteredBelowShrinks(Pop(stack), starts[t - 1], starts[t]);
    }
  }
}
