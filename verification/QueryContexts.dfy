/** Which documents of a published snapshot a query gets to see. */
module QueryContexts {
  import opened Lsp
  import opened Workspace

  /** A document's entry in the workspace snapshot; project is -1 while unclaimed. */
  datatype Entry = Entry(uri: string, hasSnap: bool, project: int)

  predicate IsPrimary(d: Entry, primary: Option<string>) {
    d.hasSnap && primary == Some(d.uri)
  }

  /** The project of the first entry of the primary document, -1 if there is none. */
  ghost predicate IsPrimaryProject(docs: seq<Entry>, primary: Option<string>, project: int) {
    || (project == -1 && forall i :: 0 <= i < |docs| && docs[i].hasSnap ==> primary != Some(docs[i].uri))
    || (exists i :: 0 <= i < |docs| && docs[i].hasSnap && primary == Some(docs[i].uri) && docs[i].project == project
                    && forall j :: 0 <= j < i && docs[j].hasSnap ==> primary != Some(docs[j].uri))
  }

  /** A published workspace snapshot: its entries, and how many projects it has. */
  datatype Published = Published(docs: seq<Entry>, numProjects: nat)

  /** The entries a query sees, the place of the primary one among them, the primary document's previous
      snapshot, and the project whose root the query gets. */
  datatype Context = Context(seen: seq<nat>, primaryIdx: int, prevSnap: Option<nat>, projectRoot: Option<int>)

  /** The name of the open document a request means. */
  ghost function UriOf(store: seq<Document>, named: Option<Include>): Option<string> {
    if named == None || DocFind(store, named.value) == None then None
    else Some(store[DocFind(store, named.value).value].uri)
  }

  /** The query's own document, every document for a workspace-wide query, and the documents of its project;
      only parsed ones. */
  ghost predicate SeenExactly(docs: seq<Entry>, primary: Option<string>, project: int, wantAll: bool, seen: seq<nat>) {
    forall i: nat :: i in seen <==>
      && i < |docs| && docs[i].hasSnap
      && (wantAll || primary == Some(docs[i].uri) || (project >= 0 && docs[i].project == project))
  }

  /** Exactly what a query sees of a snapshot: each entry once, in order, and the last primary one marked. */
  ghost predicate Sees(docs: seq<Entry>, primary: Option<string>, project: int, wantAll: bool, seen: seq<nat>, primaryIdx: int) {
    && (forall k :: 0 <= k < |seen| ==> seen[k] < |docs|)
    && (forall j, k :: 0 <= j < k < |seen| ==> seen[j] < seen[k])
    && SeenExactly(docs, primary, project, wantAll, seen)
    && -1 <= primaryIdx < |seen|
    && (primaryIdx >= 0 ==> docs[seen[primaryIdx]].hasSnap && primary == Some(docs[seen[primaryIdx]].uri))
    && (forall k :: primaryIdx < k < |seen| ==> primary != Some(docs[seen[k]].uri))
    && (primaryIdx == -1 ==> forall i :: 0 <= i < |docs| && docs[i].hasSnap ==> primary != Some(docs[i].uri))
  }

  /** The first pass, up to the primary document. */
  method PrimaryProject(docs: seq<Entry>, primary: Option<string>) returns (project: int)
    ensures IsPrimaryProject(docs, primary, project)
  {
    project := -1;
    for i := 0 to |docs|
      invariant project == -1 && forall j :: 0 <= j < i ==> !IsPrimary(docs[j], primary)
    {
      if IsPrimary(docs[i], primary) {
        return docs[i].project;
      }
    }
  }

  /** One pass over the entries. */
  method SeenEntries(docs: seq<Entry>, primary: Option<string>, project: int, wantAll: bool)
    returns (seen: seq<nat>, primaryIdx: int)
    ensures Sees(docs, primary, project, wantAll, seen, primaryIdx)
  {
    seen, primaryIdx := [], -1;
    for n := 0 to |docs|
      invariant forall k :: 0 <= k < |seen| ==> seen[k] < n
      invariant forall j, k :: 0 <= j < k < |seen| ==> seen[j] < seen[k]
      invariant forall m: nat :: m in seen <==>
                  && m < n && docs[m].hasSnap
                  && (wantAll || primary == Some(docs[m].uri) || (project >= 0 && docs[m].project == project))
      invariant -1 <= primaryIdx < |seen|
      invariant primaryIdx >= 0 ==> IsPrimary(docs[seen[primaryIdx]], primary)
      invariant forall k :: primaryIdx < k < |seen| ==> !IsPrimary(docs[seen[k]], primary)
      invariant primaryIdx == -1 ==> forall m :: 0 <= m < n ==> !IsPrimary(docs[m], primary)
    {
      var d := docs[n];
      if d.hasSnap && (IsPrimary(d, primary) || wantAll || (project >= 0 && d.project == project)) {
        if IsPrimary(d, primary) {
          primaryIdx := |seen|;
        }
        seen := seen + [n];
      }
    }
  }

  /**
   * The context of one query. The primary document's previous snapshot is pinned even when the snapshot
   * does not have the document yet; without a published snapshot nothing else is there.
   */
  method BuildQueryContext(store: seq<Document>, prevSnaps: seq<Option<nat>>, ws: Option<Published>,
                           named: Option<Include>, wantAll: bool)
    returns (qc: Context)
    requires |prevSnaps| == |store|
    ensures qc.prevSnap == if named.Some? && DocFind(store, named.value).Some?
                           then prevSnaps[DocFind(store, named.value).value] else None
    ensures ws == None ==> qc.seen == [] && qc.primaryIdx == -1 && qc.projectRoot == None
    ensures ws.Some? ==>
              exists project ::
                && IsPrimaryProject(ws.value.docs, UriOf(store, named), project)
                && Sees(ws.value.docs, UriOf(store, named), project, wantAll, qc.seen, qc.primaryIdx)
                && qc.projectRoot == if 0 <= project < ws.value.numProjects then Some(project) else None
  {
    var d: Option<nat> := None;
    if named.Some? {
      d := DocFind(store, named.value);
    }
    var prevSnap := if d.Some? then prevSnaps[d.value] else None;
    var primary := if d.Some? then Some(store[d.value].uri) else None;
    if ws == None {
      return Context([], -1, prevSnap, None);
    }
    var docs := ws.value.docs;
    var project := PrimaryProject(docs, primary);
    var seen, primaryIdx := SeenEntries(docs, primary, project, wantAll);
    assert primary == UriOf(store, named);
    assert IsPrimaryProject(docs, UriOf(store, named), project);
    qc := Context(seen, primaryIdx, prevSnap, if 0 <= project < ws.value.numProjects then Some(project) else None);
  }

  // ---- queries over an assembled workspace -------------------------------------------------------

  /** The snapshot's entries: one for each slot, with the project the assembly gave it. */
  function EntriesOf(store: seq<Document>, index: seq<int>): seq<Entry>
    requires |index| == |store|
  {
    seq(|store|, i requires 0 <= i < |store| => Entry(store[i].uri, store[i].inUse && store[i].parsed, index[i]))
  }

  /** The assembly gave every parsed document the project it belongs to, and no two documents share a name. */
  ghost predicate Assembled(store: seq<Document>, closures: nat, projects: seq<Project>, index: seq<int>) {
    && |index| == |store| && closures <= |projects|
    && Closures(store, projects[..closures], |store|)
    && (forall n :: 0 <= n < |store| && store[n].inUse && store[n].parsed ==>
          RightProject(store, closures, projects, n, index[n]))
    && (forall i, j :: 0 <= i < j < |store| && store[i].inUse && store[j].inUse ==> store[i].uri != store[j].uri)
  }

  lemma OneName(store: seq<Document>, closures: nat, projects: seq<Project>, index: seq<int>, n: nat, project: int)
    requires Assembled(store, closures, projects, index) && n < |store| && store[n].inUse && store[n].parsed
    requires IsPrimaryProject(EntriesOf(store, index), Some(store[n].uri), project)
    ensures project == index[n]
  {
    hide Closures, RightProject;
    var docs := EntriesOf(store, index);
    assert docs[n].hasSnap && docs[n].uri == store[n].uri;
    var i :| 0 <= i < |docs| && docs[i].hasSnap && Some(store[n].uri) == Some(docs[i].uri) && docs[i].project == project;
    assert store[i].inUse && store[i].uri == store[n].uri;
    assert !(i < n) && !(n < i);
  }

  /** A query about a document outside every include closure sees that document alone. */
  lemma OrphanStandsAlone(store: seq<Document>, closures: nat, projects: seq<Project>, index: seq<int>, n: nat,
                          project: int, seen: seq<nat>, m: nat)
    requires Assembled(store, closures, projects, index) && n < |store| && store[n].inUse && store[n].parsed
    requires forall i :: 0 <= i < closures ==> !Reachable(store, projects[i].root, n)
    requires IsPrimaryProject(EntriesOf(store, index), Some(store[n].uri), project)
    requires SeenExactly(EntriesOf(store, index), Some(store[n].uri), project, false, seen)
    ensures m in seen <==> m == n
  {
    hide IsPrimaryProject, Reachable;
    OneName(store, closures, projects, index, n, project);
    InFirst(store, closures, projects, index, n);
    if m < |store| && store[m].inUse && store[m].parsed {
      assert RightProject(store, closures, projects, n, index[n]) && RightProject(store, closures, projects, m, index[m]);
      assert m != n ==> store[m].uri != store[n].uri;
    }
  }

  /** A query about a document of some closure sees exactly the parsed documents of the first closure it is
      in which no earlier closure has: all of them are included from one root. */
  lemma SiblingsShareARoot(store: seq<Document>, closures: nat, projects: seq<Project>, index: seq<int>, n: nat,
                           project: int, seen: seq<nat>, m: nat)
    requires Assembled(store, closures, projects, index) && n < |store| && store[n].inUse && store[n].parsed
    requires exists i :: 0 <= i < closures && Reachable(store, projects[i].root, n)
    requires IsPrimaryProject(EntriesOf(store, index), Some(store[n].uri), project)
    requires SeenExactly(EntriesOf(store, index), Some(store[n].uri), project, false, seen)
    ensures 0 <= project < closures && Reachable(store, projects[project].root, n)
    ensures m in seen <==>
              && m < |store| && store[m].inUse && store[m].parsed && Reachable(store, projects[project].root, m)
              && forall i :: 0 <= i < project ==> !Reachable(store, projects[i].root, m)
  {
    hide IsPrimaryProject, Reachable;
    OneName(store, closures, projects, index, n, project);
    InFirst(store, closures, projects, index, n);
    if m < |store| && store[m].inUse && store[m].parsed {
      InFirst(store, closures, projects, index, m);
      assert m != n ==> store[m].uri != store[n].uri;
    }
  }

  /** Belonging to a closure's project is being reached from its root and from no earlier one. */
  lemma InFirst(store: seq<Document>, closures: nat, projects: seq<Project>, index: seq<int>, n: nat)
    requires Assembled(store, closures, projects, index) && n < |store| && store[n].inUse && store[n].parsed
    ensures forall p :: 0 <= p < closures ==>
              (index[n] == p <==> Reachable(store, projects[p].root, n)
                                  && forall i :: 0 <= i < p ==> !Reachable(store, projects[i].root, n))
    ensures index[n] < closures <==> exists i :: 0 <= i < closures && Reachable(store, projects[i].root, n)
    ensures index[n] >= 0
  {
    hide Reachable;
    assert RightProject(store, closures, projects, n, index[n]);
    assert forall i :: 0 <= i < closures ==> projects[..closures][i] == projects[i];
  }
}
