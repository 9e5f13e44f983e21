/** Putting the declarations hoisted out of the project block back under it. */
module OwnerScope {
  import opened Lsp
  import opened TokenOwners

  predicate RangeWithin(inner: Node, outer: Node) {
    AtMost(outer.start, inner.start) && AtMost(inner.end, outer.end)
  }

  ghost predicate Disjoint(a: Node, b: Node) {
    AtMost(a.end, b.start) || AtMost(b.end, a.start)
  }

  /** Well-formed top-level declarations in any order: any two are disjoint. */
  ghost predicate Apart(nodes: seq<Node>) {
    && (forall i :: 0 <= i < |nodes| ==> Nested(nodes[i]))
    && (forall i, j :: 0 <= i < j < |nodes| ==> Disjoint(nodes[i], nodes[j]))
  }

  /** What the grammar builds: hoisted declarations apart, each inside the project or apart from it. */
  ghost predicate Hoisted(children: seq<Node>, p: Option<nat>) {
    match p
    case None => Apart(children)
    case Some(i) =>
      && i < |children| && Before(children[i].start, children[i].end)
      && Apart(Others(children, i))
      && forall j :: 0 <= j < |children| && j != i ==>
           || (AtMost(children[i].start, children[j].start) && AtMost(children[j].end, children[i].end))
           || Disjoint(children[j], children[i])
  }

  function Others(children: seq<Node>, i: nat): seq<Node>
    requires i < |children|
  {
    children[..i] + children[i + 1..]
  }

  /** The first project declaration. */
  ghost predicate IsFirstProject(children: seq<Node>, p: Option<nat>) {
    match p
    case None => forall j :: 0 <= j < |children| ==> !children[j].isProject
    case Some(i) => i < |children| && children[i].isProject && forall j :: 0 <= j < i ==> !children[j].isProject
  }

  // ---- sorting by start ------------------------------------------------------------------------

  function InsertByStart(n: Node, sorted: seq<Node>): seq<Node> {
    if sorted == [] then [n]
    else if Before(n.start, sorted[0].start) then [n] + sorted
    else [sorted[0]] + InsertByStart(n, sorted[1..])
  }

  function SortByStart(nodes: seq<Node>): seq<Node> {
    if nodes == [] then []
    else InsertByStart(nodes[|nodes| - 1], SortByStart(nodes[..|nodes| - 1]))
  }

  lemma {:induction false} InsertKeepsLaminar(n: Node, sorted: seq<Node>)
    requires Laminar(sorted) && Nested(n) && forall m :: m in sorted ==> Disjoint(n, m)
    ensures Laminar(InsertByStart(n, sorted))
    ensures forall m :: m in InsertByStart(n, sorted) <==> m == n || m in sorted
    decreases |sorted|
  {
    hide Nested;
    if sorted != [] {
      var r := InsertByStart(n, sorted);
      Ranged(n);
      Ranged(sorted[0]);
      if Before(n.start, sorted[0].start) {
        assert sorted[0] in sorted && Disjoint(n, sorted[0]);
        forall j | 0 <= j < |sorted| ensures AtMost(n.end, sorted[j].start) {
          Ranged(sorted[j]);
        }
        forall i, j | 0 <= i < j < |r| ensures AtMost(r[i].end, r[j].start) {
          if i > 0 { assert r[i] == sorted[i - 1] && r[j] == sorted[j - 1]; }
        }
      } else {
        var rest := sorted[1..];
        assert forall i :: 0 <= i < |rest| ==> rest[i] == sorted[i + 1];
        InsertKeepsLaminar(n, rest);
        var tail := InsertByStart(n, rest);
        assert r == [sorted[0]] + tail;
        forall m | m in tail ensures AtMost(sorted[0].end, m.start) {
          if m != n {
            var i :| 0 <= i < |rest| && rest[i] == m;
            assert m == sorted[i + 1];
          } else {
            assert sorted[0] in sorted && Disjoint(n, sorted[0]);
          }
        }
        forall i, j | 0 <= i < j < |r| ensures AtMost(r[i].end, r[j].start) {
          assert r[j] == tail[j - 1] && tail[j - 1] in tail;
          if i > 0 { assert r[i] == tail[i - 1]; }
        }
        forall i | 0 <= i < |r| ensures Nested(r[i]) {
          if i > 0 { assert r[i] == tail[i - 1]; }
        }
      }
    }
  }

  lemma Ranged(n: Node)
    requires Nested(n)
    ensures Before(n.start, n.end) && Laminar(n.children)
  {}

  /** Disjoint declarations in any order become a laminar list of the same declarations. */
  lemma {:induction false} SortMakesLaminar(nodes: seq<Node>)
    requires Apart(nodes)
    ensures Laminar(SortByStart(nodes))
    ensures forall m :: m in SortByStart(nodes) <==> m in nodes
    decreases |nodes|
  {
    hide Nested, Disjoint;
    if nodes != [] {
      var init := nodes[..|nodes| - 1];
      var n := nodes[|nodes| - 1];
      SortMakesLaminar(init);
      forall m | m in SortByStart(init) ensures Disjoint(n, m) {
        var i :| 0 <= i < |init| && init[i] == m;
        assert Disjoint(nodes[i], nodes[|nodes| - 1]);
        Swapped(nodes[i], n);
      }
      InsertKeepsLaminar(n, SortByStart(init));
      assert nodes == init + [n];
    }
  }

  lemma Swapped(a: Node, b: Node)
    requires Disjoint(a, b)
    ensures Disjoint(b, a)
  {}

  // ---- the two frames --------------------------------------------------------------------------

  function Inside(nodes: seq<Node>, project: Node, want: bool): seq<Node> {
    if nodes == [] then []
    else
      var init := Inside(nodes[..|nodes| - 1], project, want);
      if RangeWithin(nodes[|nodes| - 1], project) == want then init + [nodes[|nodes| - 1]] else init
  }

  lemma {:induction false} InsideKeepsApart(nodes: seq<Node>, project: Node, want: bool)
    requires Apart(nodes)
    ensures Apart(Inside(nodes, project, want))
    ensures forall m :: m in Inside(nodes, project, want) <==> m in nodes && RangeWithin(m, project) == want
    decreases |nodes|
  {
    hide Nested, Disjoint, RangeWithin;
    if nodes != [] {
      var init := nodes[..|nodes| - 1];
      var n := nodes[|nodes| - 1];
      InsideKeepsApart(init, project, want);
      assert nodes == init + [n];
      var kept := Inside(init, project, want);
      forall i | 0 <= i < |kept| ensures Disjoint(kept[i], n) {
        assert kept[i] in init;
        var j :| 0 <= j < |init| && init[j] == kept[i];
        assert Disjoint(nodes[j], nodes[|nodes| - 1]);
      }
    }
  }

  /** The project as the sweep sees it: around the hoisted declarations inside its range. */
  function Reclaimed(children: seq<Node>, i: nat): Node
    requires i < |children|
  {
    children[i].(children := SortByStart(Inside(Others(children, i), children[i], true)))
  }

  function ScopeOf(children: seq<Node>, p: Option<nat>): seq<Node>
    requires p.Some? ==> p.value < |children|
  {
    match p
    case None => SortByStart(children)
    case Some(i) => SortByStart(Inside(Others(children, i), children[i], false) + [Reclaimed(children, i)])
  }

  /** The layout is laminar, whatever order the declarations were hoisted in. */
  lemma ScopeIsLaminar(children: seq<Node>, p: Option<nat>)
    requires Hoisted(children, p)
    ensures Laminar(ScopeOf(children, p))
  {
    if p == None {
      SortMakesLaminar(children);
    } else {
      FramesApart(children, p.value);
      SortMakesLaminar(Inside(Others(children, p.value), children[p.value], false) + [Reclaimed(children, p.value)]);
    }
  }

  lemma ReclaimedNested(children: seq<Node>, i: nat)
    requires Hoisted(children, Some(i))
    ensures Nested(Reclaimed(children, i))
    ensures forall m :: m in Reclaimed(children, i).children <==> m in Others(children, i) && RangeWithin(m, children[i])
  {
    hide Apart, Inside, SortByStart, Laminar, Disjoint;
    var r := Reclaimed(children, i);
    var inside := Inside(Others(children, i), children[i], true);
    InsideKeepsApart(Others(children, i), children[i], true);
    SortMakesLaminar(inside);
    forall k | 0 <= k < |r.children| ensures RangeWithin(r.children[k], r) {
      assert r.children[k] in r.children && r.children[k] in inside;
    }
  }

  lemma OutsideDisjoint(children: seq<Node>, i: nat, m: Node)
    requires Hoisted(children, Some(i)) && m in Others(children, i) && !RangeWithin(m, children[i])
    ensures Disjoint(m, Reclaimed(children, i))
  {
    hide Apart, Inside, SortByStart;
    var j :| 0 <= j < |Others(children, i)| && Others(children, i)[j] == m;
    assert m == children[if j < i then j else j + 1];
  }

  lemma FramesApart(children: seq<Node>, i: nat)
    requires Hoisted(children, Some(i))
    ensures Apart(Inside(Others(children, i), children[i], false) + [Reclaimed(children, i)])
  {
    hide Nested, Disjoint, RangeWithin, Reclaimed, Others, Inside;
    var outside := Inside(Others(children, i), children[i], false);
    InsideKeepsApart(Others(children, i), children[i], false);
    ReclaimedNested(children, i);
    forall k | 0 <= k < |outside| ensures Disjoint(outside[k], Reclaimed(children, i)) {
      assert outside[k] in outside;
      OutsideDisjoint(children, i, outside[k]);
    }
  }

  // ---- what the layout means -------------------------------------------------------------------

  /** Among disjoint declarations, the one containing the position heads the chain. */
  lemma ChainThrough(nodes: seq<Node>, n: Node, pos: Pos)
    requires Apart(nodes) && n in nodes && Contains(n, pos)
    ensures ChainAt(nodes, pos) == [n] + ChainAt(n.children, pos)
  {
    hide Nested;
    var i :| 0 <= i < |nodes| && nodes[i] == n;
    forall j | 0 <= j < i ensures !Contains(nodes[j], pos) {
      assert Disjoint(nodes[j], nodes[i]);
    }
    ChainFrom(nodes, pos, i);
    ChainStep(nodes, i, pos);
  }

  lemma LaminarApart(nodes: seq<Node>)
    requires Laminar(nodes)
    ensures Apart(nodes)
  {}

  /** Sorting disjoint declarations changes no chain. */
  lemma SortKeepsChains(nodes: seq<Node>, pos: Pos)
    requires Apart(nodes)
    ensures ChainAt(SortByStart(nodes), pos) == ChainAt(nodes, pos)
  {
    hide Apart, Contains, SortByStart, ChainAt, Laminar;
    SortMakesLaminar(nodes);
    LaminarApart(SortByStart(nodes));
    if n :| n in nodes && Contains(n, pos) {
      ChainThrough(nodes, n, pos);
      ChainThrough(SortByStart(nodes), n, pos);
    } else {
      assert forall j :: 0 <= j < |SortByStart(nodes)| ==> SortByStart(nodes)[j] in nodes;
      NothingAhead(nodes, pos);
      NothingAhead(SortByStart(nodes), pos);
    }
  }

  /** The search of the declarations as the grammar left them, the project in front where it covers the position. */
  function NaiveChain(children: seq<Node>, p: Option<nat>, pos: Pos): seq<Node>
    requires p.Some? ==> p.value < |children|
  {
    match p
    case None => ChainAt(children, pos)
    case Some(i) =>
      (if Contains(children[i], pos) then [Reclaimed(children, i)] else []) + ChainAt(Others(children, i), pos)
  }

  /**
   * The re-nested layout gives the chain that a search of the declarations as the grammar left them
   * gives, with the project in front exactly where its own range covers the position.
   */
  lemma ScopeKeepsChains(children: seq<Node>, p: Option<nat>, pos: Pos)
    requires Hoisted(children, p)
    ensures ChainAt(ScopeOf(children, p), pos) == NaiveChain(children, p, pos)
  {
    hide Apart, SortByStart, ChainAt, Laminar, Nested, Others, Inside;
    if p == None {
      SortKeepsChains(children, pos);
    } else {
      var i := p.value;
      var frame := Inside(Others(children, i), children[i], false) + [Reclaimed(children, i)];
      FramesApart(children, i);
      SortKeepsChains(frame, pos);
      InsideKeepsApart(Others(children, i), children[i], false);
      InsideKeepsApart(Others(children, i), children[i], true);
      if Contains(children[i], pos) {
        assert Reclaimed(children, i) == frame[|frame| - 1];
        ChainThrough(frame, Reclaimed(children, i), pos);
        SortKeepsChains(Inside(Others(children, i), children[i], true), pos);
        ChainOfPart(children, i, pos, true);
      } else {
        ChainOfPart(children, i, pos, false);
        ChainOfInit(Inside(Others(children, i), children[i], false), Reclaimed(children, i), pos);
      }
    }
  }

  lemma ChainOfInit(nodes: seq<Node>, last: Node, pos: Pos)
    requires Apart(nodes + [last]) && Apart(nodes) && !Contains(last, pos)
    ensures ChainAt(nodes + [last], pos) == ChainAt(nodes, pos)
  {
    hide Apart, Contains, ChainAt;
    if n :| n in nodes && Contains(n, pos) {
      ChainThrough(nodes, n, pos);
      ChainThrough(nodes + [last], n, pos);
    } else {
      NothingAhead(nodes, pos);
      NothingAhead(nodes + [last], pos);
    }
  }

  /** A position in the project lies in hoisted declarations of the project only, and the other way round. */
  lemma ChainOfPart(children: seq<Node>, i: nat, pos: Pos, want: bool)
    requires Hoisted(children, Some(i)) && Contains(children[i], pos) == want
    ensures ChainAt(Inside(Others(children, i), children[i], want), pos) == ChainAt(Others(children, i), pos)
  {
    hide Apart, Inside, ChainAt, Nested;
    var part := Inside(Others(children, i), children[i], want);
    InsideKeepsApart(Others(children, i), children[i], want);
    if n :| n in Others(children, i) && Contains(n, pos) {
      ChainThrough(Others(children, i), n, pos);
      ChainThrough(part, n, pos);
    } else {
      assert forall j :: 0 <= j < |part| ==> part[j] in part;
      NothingAhead(Others(children, i), pos);
      NothingAhead(part, pos);
    }
  }

  // ---- the code --------------------------------------------------------------------------------

  method FindProject(children: seq<Node>) returns (p: Option<nat>)
    ensures IsFirstProject(children, p)
  {
    p := None;
    for i := 0 to |children|
      invariant p == None
      invariant forall j :: 0 <= j < i ==> !children[j].isProject
    {
      if children[i].isProject {
        return Some(i);
      }
    }
  }

  /** Build the frame the sweep starts from; the project carries its scope-children in it. */
  method BuildOwnerScope(children: seq<Node>) returns (top: seq<Node>, p: Option<nat>)
    ensures IsFirstProject(children, p) && top == ScopeOf(children, p)
  {
    p := FindProject(children);
    if p == None {
      top := SortByStart(children);
    } else {
      var project := children[p.value];
      var hoisted := children[..p.value] + children[p.value + 1..];
      var kids: seq<Node> := [];
      top := [];
      for k := 0 to |hoisted|
        invariant kids == Inside(hoisted[..k], project, true)
        invariant top == Inside(hoisted[..k], project, false)
      {
        assert hoisted[..k + 1][..k] == hoisted[..k];
        if RangeWithin(hoisted[k], project) {
          kids := kids + [hoisted[k]];
        } else {
          top := top + [hoisted[k]];
        }
      }
      assert hoisted[..|hoisted|] == hoisted;
      top := SortByStart(top + [project.(children := SortByStart(kids))]);
    }
  }

  /**
   * The whole pass: a token's owner chain is the naive one over the unsorted, un-nested declarations,
   * behind the project when the token lies in the project's range.
   */
  method OwnTokens(children: seq<Node>, starts: seq<Pos>)
    returns (owners: seq<seq<Node>>, ghost p: Option<nat>)
    requires forall q :: IsFirstProject(children, q) ==> Hoisted(children, q)
    requires Ordered(starts)
    ensures IsFirstProject(children, p) && |owners| == |starts|
    ensures forall t :: 0 <= t < |starts| ==> owners[t] == NaiveChain(children, p, starts[t])
  {
    hide ChainAt, Hoisted, NaiveChain, ScopeOf, Laminar, Declared, Ordered;
    var top;
    top, p := BuildOwnerScope(children);
    ScopeIsLaminar(children, p);
    ghost var entered;
    owners, entered := AssignTokenOwners(top, starts);
    forall t | 0 <= t < |starts| ensures owners[t] == NaiveChain(children, p, starts[t]) {
      ScopeKeepsChains(children, p, starts[t]);
    }
  }
}
