/** Which diagnostics workers run: one for each project of the newest workspace snapshot. */
module DiagRegistry {
  datatype Mode = SyntaxOnly | Full

  datatype Project = Project(id: string, mode: Mode)

  /** A worker thread; born tells threads of the same project apart. */
  datatype Worker = Worker(project: Project, born: nat)

  /** A worker told to stop and joined; clear asks it to remove its markers first. */
  datatype Stop = Stop(worker: Worker, clear: bool)

  function Stops(workers: seq<Worker>, clear: bool): seq<Stop> {
    seq(|workers|, i requires 0 <= i < |workers| => Stop(workers[i], clear))
  }

  ghost predicate OnePerProject(workers: seq<Worker>) {
    forall i, j :: 0 <= i < j < |workers| ==> workers[i].project.id != workers[j].project.id
  }

  /** Swap-with-last removal. */
  function RemoveAt(workers: seq<Worker>, i: nat): seq<Worker>
    requires i < |workers|
  {
    workers[i := workers[|workers| - 1]][..|workers| - 1]
  }

  lemma RemovedOne(workers: seq<Worker>, i: nat)
    requires i < |workers| && OnePerProject(workers)
    ensures OnePerProject(RemoveAt(workers, i))
    ensures forall w :: w in RemoveAt(workers, i) <==> w in workers && w != workers[i]
  {
    var r := RemoveAt(workers, i);
    forall w | w in workers && w != workers[i] ensures w in r {
      var k :| 0 <= k < |workers| && workers[k] == w;
      assert r[if k == |workers| - 1 then i else k] == w;
    }
  }

  /** Workspace snapshots name each project once. */
  ghost predicate Distinct(projects: seq<Project>) {
    forall i, j :: 0 <= i < j < |projects| ==> projects[i].id != projects[j].id
  }

  class Registry {
    var workers: seq<Worker>
    var spawned: nat
    var stops: seq<Stop>             // every worker retired so far, in order

    ghost predicate Valid()
      reads this
    {
      OnePerProject(workers) && forall w :: w in workers ==> w.born < spawned
    }

    constructor ()
      ensures Valid() && workers == [] && stops == []
    {
      workers, spawned, stops := [], 0, [];
    }

    method Retire(w: Worker, clear: bool)
      modifies this`stops
      ensures stops == old(stops) + [Stop(w, clear)]
    {
      stops := stops + [Stop(w, clear)];
    }

    method Find(id: string) returns (i: nat)
      ensures i <= |workers| && (i < |workers| ==> workers[i].project.id == id)
      ensures i == |workers| ==> forall j :: 0 <= j < |workers| ==> workers[j].project.id != id
    {
      i := 0;
      while i < |workers|
        invariant i <= |workers| && forall j :: 0 <= j < i ==> workers[j].project.id != id
      {
        if workers[i].project.id == id {
          return;
        }
        i := i + 1;
      }
    }

    /** Find the project's worker, replacing one that runs in another mode. */
    method AcquireProjectWorker(p: Project) returns (w: Worker, retired: seq<Worker>)
      requires Valid()
      modifies this
      ensures Valid() && w in workers && w.project == p
      ensures forall v :: v in workers <==> v == w || (v in old(workers) && v.project.id != p.id)
      ensures forall v :: v in retired <==> v in old(workers) && v.project.id == p.id && v.project != p
      ensures w in old(workers) || (w.born == old(spawned) && forall v :: v in old(workers) ==> v.project != p)
      ensures spawned >= old(spawned)
      ensures stops == old(stops) + Stops(retired, true)
    {
      var i := Find(p.id);
      retired := [];
      if i < |workers| && workers[i].project == p {
        w := workers[i];
        return;
      }
      if i < |workers| {
        retired := [workers[i]];
        RemovedOne(workers, i);
        workers := RemoveAt(workers, i);
        Retire(retired[0], true);
      }
      w := Worker(p, spawned);
      workers, spawned := workers + [w], spawned + 1;
    }

    /**
     * One worker for each project, in its mode: a worker of a project that stays in its mode is kept,
     * every other one is retired with its markers removed, and nobody else is. Each project's worker is
     * asked for a run, in the order of the projects.
     */
    method Update(projects: seq<Project>) returns (retired: seq<Worker>, requested: seq<Worker>)
      requires Valid() && Distinct(projects)
      modifies this
      ensures Valid()
      ensures forall p :: p in projects ==> exists w :: w in workers && w.project == p
      ensures forall w :: w in workers ==> w.project in projects && (w in old(workers) || w.born >= old(spawned))
      ensures forall w :: w in old(workers) && w.project in projects ==> w in workers
      ensures forall w :: w in retired <==> w in old(workers) && w.project !in projects
      ensures stops == old(stops) + Stops(retired, true)
      ensures |requested| == |projects|
      ensures forall k :: 0 <= k < |projects| ==> requested[k].project == projects[k] && requested[k] in workers
    {
      hide Swept, Distinct, OnePerProject;
      ghost var before := workers;
      ghost var start := spawned;
      retired, requested := [], [];
      var seen: set<Worker> := {};
      assert projects[..0] == [];
      NoneSwept(before, start);
      for k := 0 to |projects|
        invariant Valid() && spawned >= start
        invariant Swept(before, workers, seen, retired, projects[..k], start)
        invariant stops == old(stops) + Stops(retired, true)
        invariant |requested| == k && forall i :: 0 <= i < k ==> requested[i].project == projects[i] && requested[i] in seen
      {
        ghost var held := workers;
        var w, more := AcquireProjectWorker(projects[k]);
        SweptOne(before, held, workers, seen, retired, more, projects, k, start, w);
        seen := seen + {w};
        retired := retired + more;
        requested := requested + [w];
      }
      assert projects[..|projects|] == projects;
      AllSwept(before, workers, seen, retired, projects, start);
      var gone := RetireUnseen(seen);
      retired := retired + gone;
    }

    /** Retire what was not seen, wherever the swaps put it. */
    method RetireUnseen(seen: set<Worker>) returns (retired: seq<Worker>)
      requires Valid() && forall v :: v in seen ==> v in workers
      modifies this`workers, this`stops
      ensures Valid() && stops == old(stops) + Stops(retired, true)
      ensures forall v :: v in workers <==> v in seen
      ensures forall v :: v in retired <==> v in old(workers) && v !in seen
    {
      retired := [];
      var i := 0;
      while i < |workers|
        invariant i <= |workers| && Valid()
        invariant forall v :: v in seen ==> v in workers
        invariant forall j :: 0 <= j < i ==> workers[j] in seen
        invariant forall v :: v in retired ==> v in old(workers) && v !in seen
        invariant forall v :: v in old(workers) <==> v in workers || v in retired
        invariant stops == old(stops) + Stops(retired, true)
        decreases |workers| - i
      {
        if workers[i] !in seen {
          Retire(workers[i], true);
          retired := retired + [workers[i]];
          RemovedOne(workers, i);
          workers := RemoveAt(workers, i);
        } else {
          i := i + 1;
        }
      }
    }

    /** At the end of the server every worker stops, and none clears what the client shows. */
    method Shutdown()
      requires Valid()
      modifies this
      ensures Valid() && workers == [] && stops == old(stops) + Stops(old(workers), false)
    {
      for i := 0 to |workers|
        invariant workers == old(workers) && stops == old(stops) + Stops(workers[..i], false)
      {
        Retire(workers[i], false);
      }
      assert workers[..|workers|] == workers;
      workers := [];
    }
  }

  ghost predicate Named(projects: seq<Project>, id: string) {
    exists i :: 0 <= i < |projects| && projects[i].id == id
  }

  /** After some projects: their workers are there and seen, the others' old workers are still there. */
  ghost predicate Swept(before: seq<Worker>, workers: seq<Worker>, seen: set<Worker>, retired: seq<Worker>,
                        done: seq<Project>, start: nat) {
    && (forall p :: p in done ==> exists w :: w in seen && w.project == p)
    && (forall w :: w in seen ==> w in workers && w.project in done && (w in before || w.born >= start))
    && (forall w :: w in workers && w !in seen ==> w in before && !Named(done, w.project.id))
    && (forall w :: w in before && (w.project in done || !Named(done, w.project.id)) ==> w in workers)
    && (forall w :: w in retired <==> w in before && Named(done, w.project.id) && w.project !in done)
  }

  lemma NoneSwept(before: seq<Worker>, start: nat)
    ensures Swept(before, before, {}, [], [], start)
  {}

  lemma SweptOne(before: seq<Worker>, held: seq<Worker>, workers: seq<Worker>, seen: set<Worker>, retired: seq<Worker>,
                 more: seq<Worker>, projects: seq<Project>, k: nat, start: nat, w: Worker)
    requires Distinct(projects) && k < |projects| && Swept(before, held, seen, retired, projects[..k], start)
    requires w in workers && w.project == projects[k] && (w in held || w.born >= start)
    requires w !in held ==> forall v :: v in held ==> v.project != projects[k]
    requires forall v :: v in workers <==> v == w || (v in held && v.project.id != projects[k].id)
    requires forall v :: v in more <==> v in held && v.project.id == projects[k].id && v.project != projects[k]
    requires OnePerProject(held)
    ensures Swept(before, workers, seen + {w}, retired + more, projects[..k + 1], start)
  {
    var done := projects[..k];
    var next := projects[..k + 1];
    assert next == done + [projects[k]];
    assert !Named(done, projects[k].id);
    forall q | q in done ensures Named(done, q.id) {
      var i :| 0 <= i < |done| && done[i] == q;
    }
    forall id ensures Named(next, id) <==> Named(done, id) || id == projects[k].id {
      if Named(done, id) {
        var i :| 0 <= i < |done| && done[i].id == id;
        assert next[i].id == id;
      }
      if id == projects[k].id { assert next[k].id == id; }
    }
  }

  lemma AllSwept(before: seq<Worker>, workers: seq<Worker>, seen: set<Worker>, retired: seq<Worker>,
                 projects: seq<Project>, start: nat)
    requires Swept(before, workers, seen, retired, projects, start)
    ensures forall p :: p in projects ==> exists w :: w in seen && w.project == p
    ensures forall w :: w in seen ==> w in workers && w.project in projects && (w in before || w.born >= start)
    ensures forall w :: w in retired ==> w in before && w.project !in projects
    ensures forall w :: w in workers && w !in seen ==> w in before && w.project !in projects
    ensures forall w :: w in before && w.project in projects ==> w in seen
    ensures forall w :: w in before && w.project !in projects && w !in retired ==> w in workers && w !in seen
  {
    forall p | p in projects ensures Named(projects, p.id) {
      var i :| 0 <= i < |projects| && projects[i] == p;
    }
  }
}
