/** Which documents make up each project: include closures first, singletons for the rest. */
module Workspace {
  import opened Lsp

  /** An include target as written, and its normal form if normalising changes it. */
  datatype Include = Include(uri: string, canon: Option<string>)

  /** One slot of the document store; a slot is parsed when it holds a snapshot. */
  datatype Document = Document(uri: string, inUse: bool, parsed: bool, isCcRoot: bool, includes: seq<Include>)

  ghost predicate IsFirst(store: seq<Document>, uri: string, r: Option<nat>) {
    match r
    case None => forall i :: 0 <= i < |store| ==> !(store[i].inUse && store[i].uri == uri)
    case Some(i) =>
      && i < |store| && store[i].inUse && store[i].uri == uri
      && forall j :: 0 <= j < i ==> !(store[j].inUse && store[j].uri == uri)
  }

  function FirstNamed(store: seq<Document>, uri: string): (r: Option<nat>)
    ensures IsFirst(store, uri, r)
  {
    if store == [] then None
    else if store[0].inUse && store[0].uri == uri then Some(0)
    else
      match FirstNamed(store[1..], uri)
      case None => None
      case Some(i) => Some(i + 1)
  }

  /** The document of an exact name, else of the normal form. */
  function DocFind(store: seq<Document>, inc: Include): (r: Option<nat>)
    ensures r.Some? ==> r.value < |store| && store[r.value].inUse
    ensures r.Some? ==> store[r.value].uri == inc.uri || Some(store[r.value].uri) == inc.canon
    ensures forall i :: 0 <= i < |store| && store[i].inUse && store[i].uri == inc.uri ==>
              r.Some? && r.value <= i && store[r.value].uri == inc.uri
    ensures forall i :: 0 <= i < |store| && store[i].inUse && Some(store[i].uri) == inc.canon ==>
              r.Some? && (r.value <= i || store[r.value].uri == inc.uri)
  {
    var exact := FirstNamed(store, inc.uri);
    assert IsFirst(store, inc.uri, exact);
    if exact.Some? || inc.canon.None? then exact
    else
      assert IsFirst(store, inc.canon.value, FirstNamed(store, inc.canon.value));
      FirstNamed(store, inc.canon.value)
  }

  // ---- reachability ----------------------------------------------------------------------------

  ghost predicate Edge(store: seq<Document>, a: nat, b: nat) {
    && a < |store| && b < |store| && store[b].parsed
    && exists k :: 0 <= k < |store[a].includes| && DocFind(store, store[a].includes[k]) == Some(b)
  }

  ghost predicate Path(store: seq<Document>, p: seq<nat>) {
    p != [] && p[0] < |store| && forall i :: 0 <= i < |p| - 1 ==> Edge(store, p[i], p[i + 1])
  }

  /** Some chain of includes through parsed documents leads from one document to the other. */
  ghost predicate Reachable(store: seq<Document>, a: nat, b: nat) {
    exists p :: Path(store, p) && p[0] == a && p[|p| - 1] == b
  }

  lemma ReachSelf(store: seq<Document>, a: nat)
    requires a < |store|
    ensures Reachable(store, a, a)
  {
    assert Path(store, [a]);
  }

  lemma ReachStep(store: seq<Document>, a: nat, b: nat, c: nat)
    requires Reachable(store, a, b) && Edge(store, b, c)
    ensures Reachable(store, a, c)
  {
    var p :| Path(store, p) && p[0] == a && p[|p| - 1] == b;
    var q := p + [c];
    forall i | 0 <= i < |q| - 1 ensures Edge(store, q[i], q[i + 1]) {
      if i < |p| - 1 { assert Edge(store, p[i], p[i + 1]); }
    }
    assert Path(store, q);
  }

  /** A set that holds the start and everything its members include holds all that is reachable. */
  lemma {:induction false} ClosedHoldsReachable(store: seq<Document>, closed: seq<nat>, p: seq<nat>)
    requires Path(store, p) && p[0] in closed
    requires forall a, b :: a in closed && Edge(store, a, b) ==> b in closed
    ensures p[|p| - 1] in closed
    decreases |p|
  {
    if |p| > 1 {
      assert Edge(store, p[0], p[1]);
      var q := p[1..];
      forall i | 0 <= i < |q| - 1 ensures Edge(store, q[i], q[i + 1]) {
        assert Edge(store, p[i + 1], p[i + 2]);
      }
      ClosedHoldsReachable(store, closed, q);
    }
  }

  ghost predicate NoRepeats(s: seq<nat>) {
    forall i, j :: 0 <= i < j < |s| ==> s[i] != s[j]
  }

  lemma {:induction false} NoRepeatsBound(s: seq<nat>, n: nat)
    requires NoRepeats(s) && forall i :: 0 <= i < |s| ==> s[i] < n
    ensures |s| <= n
    decreases n
  {
    if s != [] {
      assert s[0] < n;
      if k :| 0 <= k < |s| && s[k] == n - 1 {
        NoRepeatsBound(s[..k] + s[k + 1..], n - 1);
      } else {
        NoRepeatsBound(s, n - 1);
      }
    }
  }

  // ---- one project -----------------------------------------------------------------------------

  /** The include targets among the first k of document a that the search follows. */
  ghost predicate Followed(store: seq<Document>, visited: seq<nat>, a: nat, k: nat)
    requires a < |store| && k <= |store[a].includes|
  {
    forall i :: 0 <= i < k ==>
      var child := DocFind(store, store[a].includes[i]);
      child.Some? && store[child.value].parsed ==> child.value in visited
  }

  ghost predicate Search(store: seq<Document>, root: nat, visited: seq<nat>) {
    && NoRepeats(visited) && visited != [] && visited[0] == root
    && forall i :: 0 <= i < |visited| ==> visited[i] < |store| && Reachable(store, root, visited[i])
  }

  lemma SearchGrows(store: seq<Document>, root: nat, visited: seq<nat>, cur: nat, k: nat, child: nat)
    requires Search(store, root, visited) && cur in visited && k < |store[cur].includes|
    requires DocFind(store, store[cur].includes[k]) == Some(child) && store[child].parsed && child !in visited
    ensures Search(store, root, visited + [child]) && |visited| < |store|
  {
    assert Edge(store, cur, child);
    ReachStep(store, root, cur, child);
    NoRepeatsBound(visited + [child], |store|);
  }

  lemma SearchIsClosure(store: seq<Document>, root: nat, visited: seq<nat>)
    requires Search(store, root, visited)
    requires forall i :: 0 <= i < |visited| ==> Followed(store, visited, visited[i], |store[visited[i]].includes|)
    ensures forall n: nat :: n in visited <==> Reachable(store, root, n)
  {
    forall a, b | a in visited && Edge(store, a, b) ensures b in visited {
      var k :| 0 <= k < |store[a].includes| && DocFind(store, store[a].includes[k]) == Some(b);
      assert Followed(store, visited, a, |store[a].includes|);
    }
    forall n: nat | Reachable(store, root, n) ensures n in visited {
      var p :| Path(store, p) && p[0] == root && p[|p| - 1] == n;
      ClosedHoldsReachable(store, visited, p);
    }
  }

  /** The place of a document in the store is claimed by the first project that reaches it. */
  function Claim(index: int, pidx: nat): int {
    if index < 0 then pidx else index
  }

  /**
   * Breadth-first over the includes. The queue and the visited list hold the same documents, so one
   * sequence with a head stands for both; copied lists the documents folded into the project.
   */
  method ProjectPopulateFromRoot(store: seq<Document>, index: array<int>, pidx: nat, root: nat) returns (copied: seq<nat>)
    requires root < |store| == index.Length
    modifies index
    ensures NoRepeats(copied) && copied != [] && copied[0] == root
    ensures forall n: nat :: n in copied <==> Reachable(store, root, n)
    ensures forall n: nat :: n in copied ==> n < |store|
    ensures forall n :: 0 <= n < |store| ==>
              index[n] == if Reachable(store, root, n) then Claim(old(index[n]), pidx) else old(index[n])
  {
    hide Reachable, DocFind, NoRepeats;
    copied := [root];
    index[root] := Claim(index[root], pidx);
    var head := 0;
    StartSearch(store, root);
    while head < |copied|
      invariant head <= |copied| <= |store| && Search(store, root, copied)
      invariant forall i :: 0 <= i < head ==> Followed(store, copied, copied[i], |store[copied[i]].includes|)
      invariant forall n :: 0 <= n < |store| ==>
                  index[n] == if n in copied then Claim(old(index[n]), pidx) else old(index[n])
      decreases |store| - head
    {
      var cur := copied[head];
      head := head + 1;
      for k := 0 to |store[cur].includes|
        invariant head <= |copied| <= |store| && Search(store, root, copied) && copied[head - 1] == cur
        invariant forall i :: 0 <= i < head - 1 ==> Followed(store, copied, copied[i], |store[copied[i]].includes|)
        invariant Followed(store, copied, cur, k)
        invariant forall n :: 0 <= n < |store| ==>
                    index[n] == if n in copied then Claim(old(index[n]), pidx) else old(index[n])
      {
        var child := DocFind(store, store[cur].includes[k]);
        FoundInStore(store, store[cur].includes[k]);
        if child.Some? && store[child.value].parsed && child.value !in copied {
          SearchGrows(store, root, copied, cur, k, child.value);
          copied := copied + [child.value];
          index[child.value] := Claim(index[child.value], pidx);
        }
      }
    }
    SearchIsClosure(store, root, copied);
  }

  lemma FoundInStore(store: seq<Document>, inc: Include)
    ensures DocFind(store, inc).Some? ==> DocFind(store, inc).value < |store|
  {}

  lemma StartSearch(store: seq<Document>, root: nat)
    requires root < |store|
    ensures Search(store, root, [root]) && |[root]| <= |store|
  {
    ReachSelf(store, root);
  }

  // ---- the whole snapshot ----------------------------------------------------------------------

  /** A project under its root document, with the documents folded into its tree. */
  datatype Project = Project(root: nat, fromCompileCommands: bool, copied: seq<nat>)

  predicate IsRoot(d: Document) {
    d.inUse && d.isCcRoot && d.parsed
  }

  predicate HasEntry(d: Document) {
    d.inUse && d.parsed
  }

  /** Pass 1 so far: one project a root among the first k slots, in slot order. */
  ghost predicate Closures(store: seq<Document>, projects: seq<Project>, k: nat) {
    && k <= |store|
    && (forall i :: 0 <= i < |projects| ==>
          && projects[i].fromCompileCommands && projects[i].root < k && IsRoot(store[projects[i].root])
          && NoRepeats(projects[i].copied)
          && forall n: nat :: n in projects[i].copied <==> Reachable(store, projects[i].root, n))
    && (forall i, j :: 0 <= i < j < |projects| ==> projects[i].root < projects[j].root)
    && (forall r :: 0 <= r < k && IsRoot(store[r]) ==> exists i :: 0 <= i < |projects| && projects[i].root == r)
  }

  /** The first of the projects whose closure holds the document, or -1. */
  ghost predicate FirstClaim(projects: seq<Project>, n: nat, index: int) {
    if index < 0 then index == -1 && forall i :: 0 <= i < |projects| ==> n !in projects[i].copied
    else index < |projects| && n in projects[index].copied && forall i :: 0 <= i < index ==> n !in projects[i].copied
  }

  lemma FirstClaimNext(projects: seq<Project>, p: Project, n: nat, before: int)
    requires FirstClaim(projects, n, before)
    ensures FirstClaim(projects + [p], n, if n in p.copied then Claim(before, |projects|) else before)
  {
    var next := projects + [p];
    assert forall i :: 0 <= i < |projects| ==> next[i] == projects[i];
  }

  lemma ClosuresNext(store: seq<Document>, projects: seq<Project>, k: nat, p: Project)
    requires Closures(store, projects, k) && k < |store| && IsRoot(store[k])
    requires p.root == k && p.fromCompileCommands && NoRepeats(p.copied)
    requires forall n: nat :: n in p.copied <==> Reachable(store, k, n)
    ensures Closures(store, projects + [p], k + 1)
  {
    var next := projects + [p];
    forall r | 0 <= r < k + 1 && IsRoot(store[r]) ensures exists i :: 0 <= i < |next| && next[i].root == r {
      if r < k {
        var i :| 0 <= i < |projects| && projects[i].root == r;
        assert next[i].root == r;
      } else {
        assert next[|projects|].root == r;
      }
    }
  }

  /** Pass 1: a project for every compile_commands root, over its include closure. */
  method AssembleClosures(store: seq<Document>, index: array<int>) returns (projects: seq<Project>)
    requires index.Length == |store| && forall n :: 0 <= n < |store| ==> index[n] == -1
    modifies index
    ensures Closures(store, projects, |store|)
    ensures forall n :: 0 <= n < |store| ==> FirstClaim(projects, n, index[n])
  {
    hide Closures, FirstClaim, Reachable, NoRepeats;
    projects := [];
    StartClosures(store);
    for k := 0 to |store|
      invariant Closures(store, projects, k)
      invariant forall n :: 0 <= n < |store| ==> FirstClaim(projects, n, index[n])
    {
      if store[k].inUse && store[k].isCcRoot && store[k].parsed {
        ghost var before := index[..];
        var copied := ProjectPopulateFromRoot(store, index, |projects|, k);
        var p := Project(k, true, copied);
        ClosuresNext(store, projects, k, p);
        forall n | 0 <= n < |store| ensures FirstClaim(projects + [p], n, index[n]) {
          assert FirstClaim(projects, n, before[n]);
          FirstClaimNext(projects, p, n, before[n]);
        }
        projects := projects + [p];
      } else {
        ClosuresSkip(store, projects, k);
      }
    }
  }

  lemma StartClosures(store: seq<Document>)
    ensures Closures(store, [], 0)
    ensures forall n: nat :: FirstClaim([], n, -1)
  {}

  lemma ClosuresSkip(store: seq<Document>, projects: seq<Project>, k: nat)
    requires Closures(store, projects, k) && k < |store| && !IsRoot(store[k])
    ensures Closures(store, projects, k + 1)
  {}

  /** What a document's project must be: the first root's that reaches it, else its own singleton. */
  ghost predicate RightProject(store: seq<Document>, closures: nat, projects: seq<Project>, n: nat, index: int) {
    && closures <= |projects| && 0 <= index < |projects| && n in projects[index].copied
    && (index < closures ==> forall i :: 0 <= i < index ==> !Reachable(store, projects[i].root, n))
    && (index >= closures ==> projects[index] == Project(n, false, [n])
                              && forall i :: 0 <= i < closures ==> !Reachable(store, projects[i].root, n))
  }

  lemma ClaimIsRight(store: seq<Document>, projects: seq<Project>, n: nat, index: int)
    requires Closures(store, projects, |store|) && FirstClaim(projects, n, index) && index >= 0
    ensures RightProject(store, |projects|, projects, n, index)
  {}

  lemma RightStays(store: seq<Document>, closures: nat, projects: seq<Project>, p: Project, n: nat, index: int)
    requires RightProject(store, closures, projects, n, index)
    ensures RightProject(store, closures, projects + [p], n, index)
  {}

  lemma OrphanIsRight(store: seq<Document>, roots: seq<Project>, projects: seq<Project>, n: nat, claim: int)
    requires Closures(store, roots, |store|) && roots <= projects && FirstClaim(roots, n, claim) && claim < 0
    ensures RightProject(store, |roots|, projects + [Project(n, false, [n])], n, |projects|)
  {
    forall i | 0 <= i < |roots| ensures !Reachable(store, projects[i].root, n) {
      assert projects[i] == roots[i];
    }
  }

  /**
   * Both passes. Every document with an entry ends in exactly one project: the first compile_commands
   * project whose closure reaches it, or a singleton of its own; projects have distinct roots.
   */
  method BuildWorkspaceSnapshot(store: seq<Document>)
    returns (projects: seq<Project>, index: array<int>, ghost closures: nat)
    ensures fresh(index) && index.Length == |store| && closures <= |projects|
    ensures Closures(store, projects[..closures], |store|)
    ensures forall n :: 0 <= n < |store| && HasEntry(store[n]) ==> RightProject(store, closures, projects, n, index[n])
    ensures forall i :: closures <= i < |projects| ==>
              projects[i].root < |store| && HasEntry(store[projects[i].root]) && index[projects[i].root] == i
              && projects[i] == Project(projects[i].root, false, [projects[i].root])
  {
    hide Closures, FirstClaim, RightProject;
    index := new int[|store|](_ => -1);
    projects := AssembleClosures(store, index);
    ghost var roots := projects;
    closures := |roots|;
    forall n | 0 <= n < |store| && index[n] >= 0 ensures RightProject(store, closures, projects, n, index[n]) {
      ClaimIsRight(store, roots, n, index[n]);
    }
    ghost var claims := index[..];
    for k := 0 to |store|
      invariant roots <= projects
      invariant forall n :: k <= n < |store| ==> index[n] == claims[n]
      invariant forall n :: 0 <= n < |store| && index[n] >= 0 ==> RightProject(store, closures, projects, n, index[n])
      invariant forall n :: 0 <= n < k && HasEntry(store[n]) ==> index[n] >= 0
      invariant forall i :: closures <= i < |projects| ==>
              projects[i].root < k && HasEntry(store[projects[i].root]) && index[projects[i].root] == i
              && projects[i] == Project(projects[i].root, false, [projects[i].root])
    {
      if store[k].inUse && store[k].parsed && index[k] < 0 {
        assert FirstClaim(roots, k, claims[k]);
        OrphanIsRight(store, roots, projects, k, claims[k]);
        forall n | 0 <= n < |store| && index[n] >= 0
          ensures RightProject(store, closures, projects + [Project(k, false, [k])], n, index[n])
        {
          RightStays(store, closures, projects, Project(k, false, [k]), n, index[n]);
        }
        index[k] := |projects|;
        projects := projects + [Project(k, false, [k])];
      }
    }
    assert projects[..closures] == roots;
  }

  /** No two projects have the same root, so none is named twice in the diagnostics registry. */
  lemma DistinctRoots(store: seq<Document>, projects: seq<Project>, closures: nat, index: seq<int>)
    requires closures <= |projects| && |index| == |store|
    requires Closures(store, projects[..closures], |store|)
    requires forall n :: 0 <= n < |store| && HasEntry(store[n]) ==> RightProject(store, closures, projects, n, index[n])
    requires forall i :: closures <= i < |projects| ==>
              projects[i].root < |store| && HasEntry(store[projects[i].root]) && index[projects[i].root] == i
    ensures forall i, j :: 0 <= i < j < |projects| ==> projects[i].root != projects[j].root
  {
    var roots := projects[..closures];
    forall i, j | 0 <= i < j < |projects| ensures projects[i].root != projects[j].root {
      if j < closures {
        assert roots[i].root < roots[j].root;
      } else if i < closures {
        assert roots[i] == projects[i];
        ReachSelf(store, projects[i].root);
        assert RightProject(store, closures, projects, projects[j].root, j);
      }
    }
  }
}
