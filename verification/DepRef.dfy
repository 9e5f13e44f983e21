/** Task references: printing them relative to the referring task, and resolving them in a project tree. */
module DepRef {
  import opened Lsp

  /** The parser generator numbers the keywords; only its being one non-zero number matters here. */
  const KW_TASK := 258

  /** A node of the assembled project tree; the synthetic root has keyword 0 and no id. */
  datatype ProjectNode = ProjectNode(keyword: int, id: Option<string>, children: seq<ProjectNode>)

  /** A node is named by the child indices that lead to it from the root. */
  type Place = seq<nat>

  predicate InTree(root: ProjectNode, p: Place)
    decreases |p|
  {
    p == [] || (p[0] < |root.children| && InTree(root.children[p[0]], p[1..]))
  }

  function NodeAt(root: ProjectNode, p: Place): ProjectNode
    requires InTree(root, p)
    decreases |p|
  {
    if p == [] then root else NodeAt(root.children[p[0]], p[1..])
  }

  // ---- dotted paths ----------------------------------------------------------------------------

  function Join(segs: seq<string>): string {
    if segs == [] then ""
    else if |segs| == 1 then segs[0]
    else segs[0] + "." + Join(segs[1..])
  }

  function UpToDot(s: string): (k: nat)
    ensures k <= |s| && (k < |s| ==> s[k] == '.') && forall i :: 0 <= i < k ==> s[i] != '.'
  {
    if s == "" || s[0] == '.' then 0 else 1 + UpToDot(s[1..])
  }

  /** Splitting at dots skips empty segments. */
  function SplitDottedPath(s: string): seq<string>
    decreases |s|
  {
    if s == "" then []
    else if s[0] == '.' then SplitDottedPath(s[1..])
    else
      var k := UpToDot(s);
      [s[..k]] + SplitDottedPath(s[k..])
  }

  predicate IsSegment(s: string) {
    s != "" && forall i :: 0 <= i < |s| ==> s[i] != '.'
  }

  ghost predicate Segments(segs: seq<string>) {
    forall i :: 0 <= i < |segs| ==> IsSegment(segs[i])
  }

  lemma LaterSegments(segs: seq<string>, c: nat)
    requires Segments(segs) && c <= |segs|
    ensures Segments(segs[c..])
  {}

  lemma {:induction false} SplitJoin(segs: seq<string>)
    requires Segments(segs)
    ensures SplitDottedPath(Join(segs)) == segs
    decreases |segs|
  {
    if segs != [] {
      var s := Join(segs);
      assert IsSegment(segs[0]);
      assert s[..|segs[0]|] == segs[0];
      assert forall i :: 0 <= i < |segs[0]| ==> s[i] == segs[0][i];
      assert |segs| > 1 ==> s[|segs[0]|] == '.';
      assert UpToDot(s) == |segs[0]|;
      if |segs| > 1 {
        SplitJoin(segs[1..]);
        var rest := s[|segs[0]|..];
        assert rest[1..] == Join(segs[1..]);
        assert rest[0] == '.';
      } else {
        assert s[|segs[0]|..] == "";
      }
    }
  }

  lemma SplitUnfold(s: string)
    requires s != ""
    ensures var k := UpToDot(s);
            SplitDottedPath(s) == if s[0] == '.' then SplitDottedPath(s[1..]) else [s[..k]] + SplitDottedPath(s[k..])
    ensures s[0] != '.' ==> UpToDot(s) > 0
  {
  }

  /** Empty segments count for nothing wherever they are: a dot only separates. */
  lemma {:induction false} SplitAtDot(s: string, t: string)
    ensures SplitDottedPath(s + "." + t) == SplitDottedPath(s) + SplitDottedPath(t)
    ensures (forall i :: 0 <= i < |s| ==> s[i] != '.') ==> SplitDottedPath(s) == if s == "" then [] else [s]
    decreases |s|
  {
    assert SplitDottedPath("") == [];
    hide SplitDottedPath, UpToDot;
    var all, rest := s + "." + t, "." + t;
    assert all == s + rest && rest[0] == '.' && rest[1..] == t;
    SplitUnfold(rest);
    SplitUnfold(all);
    if s == "" {
      assert all == rest;
    } else {
      SplitUnfold(s);
      if s[0] == '.' {
        assert all[1..] == s[1..] + "." + t;
        SplitAtDot(s[1..], t);
      } else {
        var k := UpToDot(s);
        UpToDotLonger(s, rest);
        if k < |s| {
          assert all[..k] == s[..k] && all[k..] == s[k..] + "." + t;
          SplitAtDot(s[k..], t);
        } else {
          assert all[..k] == s && s[..k] == s && s[k..] == "" && all[k..] == rest;
        }
      }
    }
  }

  /** Appending from a dot on does not move the first dot. */
  lemma {:induction false} UpToDotLonger(s: string, t: string)
    requires t != "" && t[0] == '.'
    ensures UpToDot(s + t) == UpToDot(s)
  {
    if s == "" {
      assert s + t == t;
    } else if s[0] != '.' {
      assert (s + t)[1..] == s[1..] + t;
      UpToDotLonger(s[1..], t);
    }
  }

  // ---- looking down ----------------------------------------------------------------------------

  predicate IsTask(n: ProjectNode, id: string) {
    n.keyword == KW_TASK && n.id == Some(id)
  }

  ghost predicate IsChildTask(children: seq<ProjectNode>, id: string, r: Option<nat>) {
    match r
    case None => forall i :: 0 <= i < |children| ==> !IsTask(children[i], id)
    case Some(i) => i < |children| && IsTask(children[i], id) && forall j :: 0 <= j < i ==> !IsTask(children[j], id)
  }

  function ChildTask(children: seq<ProjectNode>, id: string): (r: Option<nat>)
    ensures IsChildTask(children, id, r)
    ensures r.Some? ==> children[r.value].keyword == KW_TASK && children[r.value].id == Some(id)
    ensures forall i :: 0 <= i < |children| && children[i].keyword == KW_TASK && children[i].id == Some(id) ==>
              r.Some? && r.value <= i
  {
    if children == [] then None
    else if IsTask(children[0], id) then Some(0)
    else
      match ChildTask(children[1..], id)
      case None => None
      case Some(i) => Some(i + 1)
  }

  /** The descent from a node, one segment at a time; the result continues the place of the start. */
  function Descend(start: ProjectNode, segs: seq<string>): Option<Place>
    decreases |segs|
  {
    if segs == [] then Some([])
    else
      match ChildTask(start.children, segs[0])
      case None => None
      case Some(i) =>
        match Descend(start.children[i], segs[1..])
        case None => None
        case Some(p) => Some([i] + p)
  }

  lemma {:induction false} DescendStep(start: ProjectNode, segs: seq<string>, id: string)
    ensures Descend(start, segs) == None ==> Descend(start, segs + [id]) == None
    ensures var p := Descend(start, segs);
            p.Some? ==>
              && InTree(start, p.value)
              && Descend(start, segs + [id]) ==
                 match ChildTask(NodeAt(start, p.value).children, id)
                 case None => None
                 case Some(i) => Some(p.value + [i])
    decreases |segs|
  {
    var all := segs + [id];
    if segs == [] {
      assert all[1..] == [];
      var next := ChildTask(start.children, id);
      assert next.Some? ==> [next.value] + [] == [] + [next.value];
    } else {
      assert all[0] == segs[0] && all[1..] == segs[1..] + [id];
      var c := ChildTask(start.children, segs[0]);
      if c.Some? {
        DescendStep(start.children[c.value], segs[1..], id);
        var p := Descend(start.children[c.value], segs[1..]);
        if p.Some? {
          var place := [c.value] + p.value;
          assert place[1..] == p.value && NodeAt(start, place) == NodeAt(start.children[c.value], p.value);
          var next := ChildTask(NodeAt(start, place).children, id);
          assert next.Some? ==> [c.value] + (p.value + [next.value]) == place + [next.value];
        }
      }
    }
  }

  /** Find the first segment among the children, then go down child by child. */
  method FindTask(start: ProjectNode, segs: seq<string>) returns (r: Option<Place>)
    ensures r == if segs == [] then None else Descend(start, segs)
  {
    if |segs| == 0 {
      return None;
    }
    var first := ChildTask(start.children, segs[0]);
    DescendStep(start, [], segs[0]);
    assert segs[..1] == [] + [segs[0]] && Descend(start, []) == Some([]);
    if first == None {
      DescendDead(start, segs, 1);
      return None;
    }
    assert [] + [first.value] == [first.value];
    var place, cur := [first.value], start.children[first.value];
    for s := 1 to |segs|
      invariant Descend(start, segs[..s]) == Some(place) && InTree(start, place) && NodeAt(start, place) == cur
    {
      DescendStep(start, segs[..s], segs[s]);
      assert segs[..s + 1] == segs[..s] + [segs[s]];
      var next := ChildTask(cur.children, segs[s]);
      if next == None {
        DescendDead(start, segs, s + 1);
        return None;
      }
      NodeStep(start, place, next.value);
      place, cur := place + [next.value], cur.children[next.value];
    }
    assert segs[..|segs|] == segs;
    r := Some(place);
  }

  lemma {:induction false} DescendDead(start: ProjectNode, segs: seq<string>, k: nat)
    requires k <= |segs| && Descend(start, segs[..k]) == None
    ensures Descend(start, segs) == None
    decreases |segs| - k
  {
    if k == |segs| {
      assert segs[..k] == segs;
    } else {
      DescendStep(start, segs[..k], segs[k]);
      assert segs[..k + 1] == segs[..k] + [segs[k]];
      DescendDead(start, segs, k + 1);
    }
  }

  lemma {:induction false} NodeStep(root: ProjectNode, p: Place, i: nat)
    requires InTree(root, p) && i < |NodeAt(root, p).children|
    ensures InTree(root, p + [i]) && NodeAt(root, p + [i]) == NodeAt(root, p).children[i]
    decreases |p|
  {
    if p != [] {
      NodeStep(root.children[p[0]], p[1..], i);
      assert (p + [i])[1..] == p[1..] + [i];
    } else {
      assert (p + [i])[1..] == [];
    }
  }

  lemma {:induction false} Prefixes(root: ProjectNode, p: Place, k: nat)
    requires InTree(root, p) && k <= |p|
    ensures InTree(root, p[..k]) && InTree(NodeAt(root, p[..k]), p[k..])
    decreases |p|
  {
    if k == 0 {
      assert p[0..] == p && p[..0] == [];
    } else {
      var child, rest, q := root.children[p[0]], p[1..], p[..k];
      Prefixes(child, rest, k - 1);
      assert q[0] == p[0] && q[1..] == rest[..k - 1] && rest[k - 1..] == p[k..];
    }
  }

  // ---- climbing --------------------------------------------------------------------------------

  /** One level per bang; the synthetic root is the ceiling. */
  function Climb(root: ProjectNode, p: Place, bangs: nat): Option<Place>
    requires InTree(root, p)
    decreases bangs
  {
    if bangs == 0 then Some(p)
    else if p == [] then None
    else
      var parent := p[..|p| - 1];
      Prefixes(root, p, |p| - 1);
      if NodeAt(root, parent).keyword == 0 then None else Climb(root, parent, bangs - 1)
  }

  /** Below the root every keyword is a real one. */
  ghost predicate Rooted(root: ProjectNode) {
    && root.keyword == 0
    && forall p: Place :: p != [] && InTree(root, p) ==> NodeAt(root, p).keyword != 0
  }

  /** A climb arrives exactly if it stops below the root. */
  lemma {:induction false} ClimbArrives(root: ProjectNode, p: Place, bangs: nat)
    requires Rooted(root) && InTree(root, p)
    ensures Climb(root, p, bangs).Some? <==> bangs == 0 || bangs < |p|
    ensures Climb(root, p, bangs).Some? ==> Climb(root, p, bangs).value == p[..|p| - bangs]
    decreases bangs
  {
    if bangs == 0 {
      assert p[..|p|] == p;
    } else if p != [] {
      var parent := p[..|p| - 1];
      Prefixes(root, p, |p| - 1);
      if parent != [] {
        ClimbArrives(root, parent, bangs - 1);
        if bangs < |p| { assert parent[..|parent| - (bangs - 1)] == p[..|p| - bangs]; }
      }
    }
  }

  // ---- resolving -------------------------------------------------------------------------------

  datatype Reference = Reference(bangs: nat, path: string)

  /** What a reference means to its owner, computed afresh. */
  function Resolved(root: ProjectNode, owner: Place, ref: Reference): Option<Place>
    requires InTree(root, owner)
  {
    var segs := SplitDottedPath(ref.path);
    if segs == [] then None
    else if ref.bangs == 0 then Descend(root, segs)
    else
      match Climb(root, owner, ref.bangs)
      case None => None
      case Some(a) =>
        ClimbStays(root, owner, ref.bangs);
        match Descend(NodeAt(root, a), segs)
        case None => None
        case Some(p) => Some(a + p)
  }

  lemma {:induction false} ClimbStays(root: ProjectNode, p: Place, bangs: nat)
    requires InTree(root, p)
    ensures Climb(root, p, bangs).Some? ==> InTree(root, Climb(root, p, bangs).value)
    decreases bangs
  {
    if bangs > 0 && p != [] {
      Prefixes(root, p, |p| - 1);
      if NodeAt(root, p[..|p| - 1]).keyword != 0 { ClimbStays(root, p[..|p| - 1], bangs - 1); }
    }
  }

  /** A reference on a task, with the answer it got the first time. */
  class ProjectDep {
    const root: ProjectNode
    const owner: Place
    const ref: Reference
    var memo: Option<Option<Place>>

    ghost predicate Valid()
      reads this
    {
      InTree(root, owner) && (memo.Some? ==> memo.value == Resolved(root, owner, ref))
    }

    constructor (root: ProjectNode, owner: Place, ref: Reference)
      requires InTree(root, owner)
      ensures Valid() && this.root == root && this.owner == owner && this.ref == ref && memo == None
    {
      this.root, this.owner, this.ref, memo := root, owner, ref, None;
    }

    /** First call or later, the answer is the fresh one. */
    method ProjectDepResolve() returns (r: Option<Place>)
      requires Valid()
      modifies this`memo
      ensures Valid() && r == Resolved(root, owner, ref) && memo == Some(r)
    {
      if memo.Some? {
        return memo.value;
      }
      var segs := SplitDottedPath(ref.path);
      r := None;
      if |segs| > 0 {
        if ref.bangs == 0 {
          r := FindTask(root, segs);
        } else {
          var ancestor := owner;
          var escaped := false;
          var b := 0;
          while b < ref.bangs && !escaped
            invariant b <= ref.bangs && InTree(root, ancestor)
            invariant Climb(root, owner, ref.bangs) == if escaped then None else Climb(root, ancestor, ref.bangs - b)
            decreases ref.bangs - b, !escaped
          {
            if ancestor == [] {
              escaped := true;
            } else {
              Prefixes(root, ancestor, |ancestor| - 1);
              if NodeAt(root, ancestor[..|ancestor| - 1]).keyword == 0 {
                escaped := true;
              } else {
                ancestor := ancestor[..|ancestor| - 1];
                b := b + 1;
              }
            }
          }
          if !escaped {
            var found := FindTask(NodeAt(root, ancestor), segs);
            r := if found == None then None else Some(ancestor + found.value);
          }
        }
      }
      memo := Some(r);
    }
  }

  // ---- printing --------------------------------------------------------------------------------

  function CommonLength(s: seq<string>, t: seq<string>): (c: nat)
    ensures c <= |s| && c <= |t| && s[..c] == t[..c] && (c < |s| && c < |t| ==> s[c] != t[c])
  {
    if s == [] || t == [] || s[0] != t[0] then 0 else 1 + CommonLength(s[1..], t[1..])
  }

  /** One bang for each level above the common ancestor, then the way down. */
  method PrintReference(source: seq<string>, target: seq<string>) returns (ref: Reference)
    ensures var c := CommonLength(source, target); ref == Reference(|source| - c, Join(target[c..]))
  {
    var c := 0;
    while c < |source| && c < |target| && source[c] == target[c]
      invariant c <= CommonLength(source, target)
      decreases |source| - c
    {
      c := c + 1;
    }
    ref := Reference(|source| - c, Join(target[c..]));
  }

  /** The dotted id of a task. */
  ghost predicate HasIds(root: ProjectNode, p: Place, ids: seq<string>)
    requires InTree(root, p)
    decreases |p|
  {
    && |ids| == |p|
    && (p != [] ==> IsTask(root.children[p[0]], ids[0]) && HasIds(root.children[p[0]], p[1..], ids[1..]))
  }

  ghost predicate DistinctSiblings(root: ProjectNode) {
    forall p: Place :: InTree(root, p) ==>
      var cs := NodeAt(root, p).children;
      forall i, j, id :: 0 <= i < j < |cs| && IsTask(cs[i], id) ==> !IsTask(cs[j], id)
  }

  lemma SubtreeDistinct(root: ProjectNode, i: nat)
    requires DistinctSiblings(root) && i < |root.children|
    ensures DistinctSiblings(root.children[i])
    ensures forall j: nat, id :: j < |root.children| && IsTask(root.children[i], id) && IsTask(root.children[j], id) ==> j == i
  {
    assert InTree(root, []);
    forall p: Place | InTree(root.children[i], p)
      ensures InTree(root, [i] + p) && NodeAt(root, [i] + p) == NodeAt(root.children[i], p) {
      assert ([i] + p)[1..] == p;
    }
  }

  /** The descent along a task's ids arrives at the task and nowhere else. */
  lemma {:induction false} DescendFinds(root: ProjectNode, p: Place, ids: seq<string>)
    requires DistinctSiblings(root) && InTree(root, p) && HasIds(root, p, ids)
    ensures Descend(root, ids) == Some(p)
    decreases |p|
  {
    if p != [] {
      SubtreeDistinct(root, p[0]);
      DescendFinds(root.children[p[0]], p[1..], ids[1..]);
      assert p == [p[0]] + p[1..];
    }
  }

  /** Tasks whose ids agree for a while share their ancestors for as long. */
  lemma {:induction false} SameIdsSamePlace(root: ProjectNode, p: Place, q: Place, ids: seq<string>, more: seq<string>, c: nat)
    requires DistinctSiblings(root) && InTree(root, p) && InTree(root, q)
    requires HasIds(root, p, ids) && HasIds(root, q, more) && c <= |p| && c <= |q| && ids[..c] == more[..c]
    ensures p[..c] == q[..c]
    ensures InTree(root, q[..c]) && InTree(NodeAt(root, q[..c]), q[c..]) && HasIds(NodeAt(root, q[..c]), q[c..], more[c..])
    ensures DistinctSiblings(NodeAt(root, q[..c]))
    decreases c
  {
    if c > 0 {
      SubtreeDistinct(root, p[0]);
      assert ids[0] == ids[..c][0] && more[0] == more[..c][0];
      assert ids[1..][..c - 1] == ids[..c][1..] && more[1..][..c - 1] == more[..c][1..];
      SameIdsSamePlace(root.children[p[0]], p[1..], q[1..], ids[1..], more[1..], c - 1);
      assert p[..c] == [p[0]] + p[1..][..c - 1] && q[..c] == [q[0]] + q[1..][..c - 1];
      assert q[..c][1..] == q[1..][..c - 1] && q[c..] == q[1..][c - 1..] && more[c..] == more[1..][c - 1..];
    } else {
      assert q[0..] == q && more[0..] == more && q[..0] == [];
    }
  }

  lemma {:induction false} DescendDepth(root: ProjectNode, segs: seq<string>)
    ensures Descend(root, segs).Some? ==> |Descend(root, segs).value| == |segs|
    decreases |segs|
  {
    if segs != [] && ChildTask(root.children, segs[0]).Some? {
      DescendDepth(root.children[ChildTask(root.children, segs[0]).value], segs[1..]);
    }
  }

  /**
   * The printed reference resolves to its target exactly if source and target share an enclosing task
   * and neither is that task: climbing onto the synthetic root is refused.
   */
  lemma PrintedResolvesExactly(root: ProjectNode, owner: Place, target: Place, source: seq<string>, ids: seq<string>)
    requires Rooted(root) && DistinctSiblings(root) && InTree(root, owner) && InTree(root, target)
    requires HasIds(root, owner, source) && HasIds(root, target, ids) && owner != []
    requires Segments(ids)
    ensures var c := CommonLength(source, ids);
            (Resolved(root, owner, Reference(|source| - c, Join(ids[c..]))) == Some(target))
            <==> (1 <= c < |source| && c < |ids|)
  {
    hide *;
    var c := CommonLength(source, ids);
    IdsAsDeep(root, owner, source);
    IdsAsDeep(root, target, ids);
    if 1 <= c < |source| && c < |ids| {
      SharedAncestorResolves(root, owner, target, source, ids, c);
    } else if c < |source| {
      PrintedRefused(root, owner, |source| - c, ids, c);
    } else {
      TooShallow(root, owner, ids, c);
    }
  }

  lemma IdsAsDeep(root: ProjectNode, p: Place, ids: seq<string>)
    requires InTree(root, p) && HasIds(root, p, ids)
    ensures |ids| == |p|
  {}

  /** The ancestor two tasks share as far as their ids do, and the way down to the second. */
  lemma SharedAncestor(root: ProjectNode, owner: Place, target: Place, source: seq<string>, ids: seq<string>, c: nat)
    returns (a: Place, way: Place)
    requires DistinctSiblings(root) && InTree(root, owner) && InTree(root, target)
    requires HasIds(root, owner, source) && HasIds(root, target, ids) && c <= |owner| && c <= |target|
    requires |source| == |owner| && |ids| == |target| && source[..c] == ids[..c]
    ensures |a| == c && a + way == target && a <= owner && InTree(root, a)
    ensures InTree(NodeAt(root, a), way) && HasIds(NodeAt(root, a), way, ids[c..]) && DistinctSiblings(NodeAt(root, a))
  {
    hide *;
    SameIdsSamePlace(root, owner, target, source, ids, c);
    a, way := target[..c], target[c..];
  }

  lemma SharedAncestorResolves(root: ProjectNode, owner: Place, target: Place, source: seq<string>, ids: seq<string>, c: nat)
    requires Rooted(root) && DistinctSiblings(root) && InTree(root, owner) && InTree(root, target)
    requires HasIds(root, owner, source) && HasIds(root, target, ids) && |source| == |owner| && |ids| == |target|
    requires Segments(ids) && 1 <= c < |source| && c < |ids| && source[..c] == ids[..c]
    ensures Resolved(root, owner, Reference(|source| - c, Join(ids[c..]))) == Some(target)
  {
    hide *;
    var a, way := SharedAncestor(root, owner, target, source, ids, c);
    var bangs, segs := |source| - c, ids[c..];
    LaterSegments(ids, c);
    ClimbTo(root, owner, bangs, a);
    ResolvesFrom(root, owner, bangs, a, way, segs);
  }

  lemma ClimbTo(root: ProjectNode, owner: Place, bangs: nat, a: Place)
    requires Rooted(root) && InTree(root, owner) && a != [] && |a| + bangs == |owner| && a <= owner
    ensures Climb(root, owner, bangs) == Some(a)
  {
    ClimbArrives(root, owner, bangs);
    assert owner[..|owner| - bangs] == a;
  }

  /** From the ancestor the climb arrives at, the ids of the way down lead down that way. */
  lemma ResolvesFrom(root: ProjectNode, owner: Place, bangs: nat, a: Place, way: Place, segs: seq<string>)
    requires InTree(root, owner) && InTree(root, a) && bangs > 0
    requires Climb(root, owner, bangs) == Some(a)
    requires DistinctSiblings(NodeAt(root, a)) && InTree(NodeAt(root, a), way) && HasIds(NodeAt(root, a), way, segs)
    requires segs != [] && Segments(segs)
    ensures Resolved(root, owner, Reference(bangs, Join(segs))) == Some(a + way)
  {
    hide DistinctSiblings, Join, SplitDottedPath, Climb, Descend, HasIds, NodeAt, InTree, Segments;
    SplitJoin(segs);
    DescendFinds(NodeAt(root, a), way, segs);
  }

  lemma PrintedRefused(root: ProjectNode, owner: Place, bangs: nat, ids: seq<string>, c: nat)
    requires Rooted(root) && InTree(root, owner) && Segments(ids) && c <= |ids|
    requires 0 < bangs && (c == |ids| || bangs >= |owner|)
    ensures Resolved(root, owner, Reference(bangs, Join(ids[c..]))) == None
  {
    hide *;
    LaterSegments(ids, c);
    RefusedClimb(root, owner, Reference(bangs, Join(ids[c..])), ids[c..]);
  }

  /** No way down, or a climb as high as the root: no result. */
  lemma RefusedClimb(root: ProjectNode, owner: Place, ref: Reference, segs: seq<string>)
    requires Rooted(root) && InTree(root, owner) && ref.path == Join(segs)
    requires Segments(segs)
    requires segs == [] || (ref.bangs > 0 && ref.bangs >= |owner|)
    ensures Resolved(root, owner, ref) == None
  {
    hide Rooted, Join, SplitDottedPath, Climb, Descend, NodeAt, InTree, Segments;
    SplitJoin(segs);
    ClimbArrives(root, owner, ref.bangs);
  }

  /** An absolute reference with a shortened path names something less deep. */
  lemma TooShallow(root: ProjectNode, owner: Place, ids: seq<string>, c: nat)
    requires InTree(root, owner) && 0 < c <= |ids| && Segments(ids)
    ensures Resolved(root, owner, Reference(0, Join(ids[c..]))).Some? ==>
              |Resolved(root, owner, Reference(0, Join(ids[c..]))).value| < |ids|
  {
    hide Join, SplitDottedPath, Climb, Descend, NodeAt, InTree, Segments;
    LaterSegments(ids, c);
    SplitJoin(ids[c..]);
    DescendDepth(root, ids[c..]);
  }

  /** The full dotted path resolves absolutely, whoever refers. */
  lemma AbsoluteResolves(root: ProjectNode, owner: Place, target: Place, ids: seq<string>)
    requires DistinctSiblings(root) && InTree(root, owner) && InTree(root, target) && target != []
    requires HasIds(root, target, ids) && Segments(ids)
    ensures Resolved(root, owner, Reference(0, Join(ids))) == Some(target)
  {
    SplitJoin(ids);
    DescendFinds(root, target, ids);
  }

  /** As many bangs as the owner is deep never resolve, whatever the path. */
  lemma TooManyBangs(root: ProjectNode, owner: Place, ref: Reference)
    requires Rooted(root) && InTree(root, owner) && owner != [] && ref.bangs >= |owner|
    ensures Resolved(root, owner, ref) == None
  {
    ClimbArrives(root, owner, ref.bangs);
  }

  /** Two tasks of one file without a task around them. */
  function TwoTasks(a: string, b: string): ProjectNode {
    ProjectNode(0, None, [ProjectNode(KW_TASK, Some(a), []), ProjectNode(KW_TASK, Some(b), [])])
  }

  lemma TwoTasksTree(a: string, b: string, p: Place)
    requires InTree(TwoTasks(a, b), p)
    ensures p == [] || p == [0] || p == [1]
    ensures p != [] ==> NodeAt(TwoTasks(a, b), p) == TwoTasks(a, b).children[p[0]]
  {
    if p != [] { assert p[1..] == []; }
  }

  /** The smallest project a printed reference fails in: from task a to task b it is "!b", which is refused,
      where the absolute "b" would have done. */
  lemma RootTasksMiss(a: string, b: string)
    requires IsSegment(a) && IsSegment(b) && a != b
    ensures var root := TwoTasks(a, b);
            && Rooted(root) && DistinctSiblings(root) && InTree(root, [0]) && InTree(root, [1])
            && HasIds(root, [0], [a]) && HasIds(root, [1], [b])
            && Resolved(root, [0], Reference(|[a]| - CommonLength([a], [b]), Join([b][CommonLength([a], [b])..]))) == None
            && Resolved(root, [0], Reference(1, b)) == None && Resolved(root, [0], Reference(0, b)) == Some([1])
  {
    var root := TwoTasks(a, b);
    forall p: Place | InTree(root, p)
      ensures p == [] || NodeAt(root, p) == root.children[p[0]]
    {
      TwoTasksTree(a, b, p);
    }
    assert [0][1..] == [] && [1][1..] == [] && [a][1..] == [] && [b][1..] == [] && [b][0..] == [b];
    assert Segments([b]) && Join([b]) == b;
    assert CommonLength([a], [b]) == 0;
    assert Rooted(root) && DistinctSiblings(root) && HasIds(root, [0], [a]) && HasIds(root, [1], [b]);
    hide *;
    TooManyBangs(root, [0], Reference(1, b));
    AbsoluteResolves(root, [0], [1], [b]);
  }
}
