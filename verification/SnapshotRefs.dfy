/**
 * Reference counts of the two snapshot layers. A place is one pointer that owns a reference: a document
 * slot's field, the workspace snapshot under construction, the published pointer, a query's fields, a
 * diagnostics worker's fields, a workspace snapshot's entry for a document, or a thread's local pointer
 * on its way to a release.
 */
module SnapshotRefs {
  import opened Lsp

  datatype Ref = Doc(d: nat) | Ws(w: nat)

  datatype Place =
    | SlotSnap(slot: nat) | SlotPrev(slot: nat) | Building | Published
    | QueryPrev(query: nat) | QueryWs(query: nat)
    | Pending(worker: nat) | Running(worker: nat)
    | Member(w: nat, i: nat)
    | Local(ticket: nat)

  /** The layer a field points into. */
  predicate Fits(p: Place, r: Ref) {
    match p
    case SlotSnap(_) => r.Doc?
    case SlotPrev(_) => r.Doc?
    case QueryPrev(_) => r.Doc?
    case Member(_, _) => r.Doc?
    case Local(_) => true
    case _ => r.Ws?
  }

  /**
   * holds and count are the program's memory. members remembers what a workspace snapshot was built
   * from, freed lists the snapshots in the order their counts reached zero; names at or above unused
   * are free.
   */
  datatype State = State(
    holds: map<Place, Ref>, count: map<Ref, nat>, members: map<nat, seq<nat>>, freed: seq<Ref>, unused: nat)

  const START := State(map[], map[], map[], [], 0)

  ghost predicate WellTyped(s: State) {
    forall p :: p in s.holds ==> s.holds[p] in s.count && Fits(p, s.holds[p])
  }

  // ---- what the code does with one pointer -----------------------------------------------------

  /** docsnap_new: a snapshot with count 1, owned by p. */
  function NewDoc(s: State, p: Place): State {
    s.(holds := s.holds[p := Doc(s.unused)], count := s.count[Doc(s.unused) := 1], unused := s.unused + 1)
  }

  /** ws_alloc: an empty workspace snapshot with count 1, owned by the coordinator that builds it. */
  function NewWs(s: State): State {
    s.(holds := s.holds[Building := Ws(s.unused)], count := s.count[Ws(s.unused) := 1],
       members := s.members[s.unused := []], unused := s.unused + 1)
  }

  /** docsnap_acquire or ws_acquire of what from owns, stored in p; a null pointer is stored as null. */
  function Acquire(s: State, from: Place, p: Place): State {
    if from in s.holds && s.holds[from] in s.count then
      var r := s.holds[from];
      s.(holds := s.holds[p := r], count := s.count[r := s.count[r] + 1])
    else s
  }

  /** Ownership passes from p to q. */
  function Move(s: State, p: Place, q: Place): State {
    if p in s.holds then s.(holds := (s.holds - {p})[q := s.holds[p]]) else s
  }

  /** The pointer in p is taken into a local variable that is about to be released. */
  function Detach(s: State, p: Place): State {
    Move(s, p, Local(s.unused)).(unused := s.unused + 1)
  }

  /** The atomic decrement; the thread that brings a count to zero frees the snapshot. */
  function Decrement(s: State, p: Place): State {
    if p in s.holds && s.holds[p] in s.count && s.count[s.holds[p]] > 0 then
      var r := s.holds[p];
      s.(holds := s.holds - {p}, count := s.count[r := s.count[r] - 1],
         freed := if s.count[r] == 1 then s.freed + [r] else s.freed)
    else s
  }

  /** One more entry of workspace snapshot w, with a reference of its own to the slot's snapshot. */
  function AddMember(s: State, w: nat, slot: nat): State {
    if SlotSnap(slot) in s.holds && s.holds[SlotSnap(slot)].Doc? && w in s.members then
      Acquire(s, SlotSnap(slot), Member(w, |s.members[w]|))
        .(members := s.members[w := s.members[w] + [s.holds[SlotSnap(slot)].d]])
    else s
  }

  // ---- the steps -------------------------------------------------------------------------------

  datatype Step =
    | InstallParse(slot: nat, parsed: bool) | ClearParse(slot: nat)
    | BeginBuild | AddEntry(slot: nat) | Publish
    | Pin(query: nat, primary: Option<nat>) | FinishQuery(query: nat)
    | Request(worker: nat) | StartRun(worker: nat) | FinishRun(worker: nat) | DropPending(worker: nat)
    | Release(p: Place)

  /** The locals of releasing threads, and the entries of a workspace snapshot being torn down. */
  ghost predicate Releasable(s: State, p: Place) {
    p in s.holds && (p.Local? || (p.Member? && Ws(p.w) in s.freed))
  }

  ghost predicate Enabled(s: State, step: Step) {
    match step
    case BeginBuild => Building !in s.holds
    case AddEntry(_) => Building in s.holds && s.holds[Building].Ws?
    case Publish => Building in s.holds
    case Pin(q, _) => QueryPrev(q) !in s.holds && QueryWs(q) !in s.holds
    case StartRun(k) => Pending(k) in s.holds && Running(k) !in s.holds
    case Release(p) => Releasable(s, p)
    case _ => true
  }

  function Installed(s: State, i: nat, parsed: bool): State {
    var t := Move(Detach(s, SlotPrev(i)), SlotSnap(i), SlotPrev(i));
    if parsed then NewDoc(t, SlotSnap(i)) else t
  }

  /** The finished snapshot replaces the published one, which is then released. */
  function Republished(s: State): State {
    Move(Detach(s, Published), Building, Published)
  }

  function WithQuery(s: State, q: nat, primary: Option<nat>): State {
    Acquire(if primary.Some? then Acquire(s, SlotPrev(primary.value), QueryPrev(q)) else s, Published, QueryWs(q))
  }

  function After(s: State, step: Step): State
    requires Enabled(s, step)
  {
    match step
    case InstallParse(i, parsed) => Installed(s, i, parsed)
    case ClearParse(i) => Detach(Detach(s, SlotSnap(i)), SlotPrev(i))
    case BeginBuild => NewWs(s)
    case AddEntry(slot) => AddMember(s, s.holds[Building].w, slot)
    case Publish => Republished(s)
    case Pin(q, primary) => WithQuery(s, q, primary)
    case FinishQuery(q) => Detach(Detach(s, QueryPrev(q)), QueryWs(q))
    case Request(k) => Acquire(Detach(s, Pending(k)), Published, Pending(k))
    case StartRun(k) => Move(s, Pending(k), Running(k))
    case FinishRun(k) => Detach(s, Running(k))
    case DropPending(k) => Detach(s, Pending(k))
    case Release(p) => Decrement(s, p)
  }

  /** The states a run can reach. */
  ghost function Exec(steps: seq<Step>): Option<State> {
    if steps == [] then Some(START)
    else
      match Exec(steps[..|steps| - 1])
      case None => None
      case Some(s) => if Enabled(s, steps[|steps| - 1]) then Some(After(s, steps[|steps| - 1])) else None
  }

  // ---- the invariant ---------------------------------------------------------------------------

  ghost function Holders(holds: map<Place, Ref>, r: Ref): set<Place> {
    set p | p in holds && holds[p] == r
  }

  /** A count is the number of places that own a reference. */
  ghost predicate Counted(s: State) {
    forall r :: r in s.count ==> s.count[r] == |Holders(s.holds, r)|
  }

  /** Freed, once, is what has count zero. */
  ghost predicate FreedOnce(s: State) {
    && (forall r :: r in s.freed <==> r in s.count && s.count[r] == 0)
    && (forall i, j :: 0 <= i < j < |s.freed| ==> s.freed[i] != s.freed[j])
  }

  ghost predicate NamesUsed(s: State) {
    && (forall t: nat :: Local(t) in s.holds ==> t < s.unused)
    && (forall d: nat :: Doc(d) in s.count ==> d < s.unused)
    && (forall w: nat :: Ws(w) in s.count ==> w < s.unused)
    && (forall w: nat :: w in s.members <==> Ws(w) in s.count)
  }

  /** A workspace snapshot that is not being torn down owns a reference for each of its entries. */
  ghost predicate MembersOwned(s: State) {
    && (forall w: nat, i: nat :: Member(w, i) in s.holds ==> w in s.members && i < |s.members[w]|)
    && (forall w: nat, i: nat :: w in s.members && Ws(w) !in s.freed && i < |s.members[w]| ==>
          Member(w, i) in s.holds && s.holds[Member(w, i)] == Doc(s.members[w][i]))
  }

  ghost predicate Inv(s: State) {
    WellTyped(s) && Counted(s) && FreedOnce(s) && NamesUsed(s) && MembersOwned(s)
  }

  // ---- what the counts promise -----------------------------------------------------------------

  /** In every run a count is the number of places that own a reference, and what nothing holds is freed exactly once. */
  lemma CountsAreHolders(steps: seq<Step>, s: State, r: Ref)
    requires Exec(steps) == Some(s) && r in s.count
    ensures s.count[r] == |Holders(s.holds, r)|
    ensures r in s.freed <==> Holders(s.holds, r) == {}
    ensures forall i, j :: 0 <= i < |s.freed| && 0 <= j < |s.freed| && s.freed[i] == r == s.freed[j] ==> i == j
  {
    InvHolds(steps);
    assert s.count[r] == |Holders(s.holds, r)|;
  }

  /** A held workspace snapshot is alive, and so is every document snapshot reachable from it. */
  lemma HeldIsAlive(steps: seq<Step>, s: State, p: Place)
    requires Exec(steps) == Some(s) && p in s.holds
    ensures s.holds[p] !in s.freed
    ensures s.holds[p].Ws? ==>
              var w := s.holds[p].w;
              && w in s.members
              && forall i :: 0 <= i < |s.members[w]| ==>
                   && Member(w, i) in s.holds && s.holds[Member(w, i)] == Doc(s.members[w][i])
                   && Doc(s.members[w][i]) !in s.freed
  {
    hide Holders;
    InvHolds(steps);
    HeldIsCounted(s, p);
    if s.holds[p].Ws? {
      var w := s.holds[p].w;
      forall i | 0 <= i < |s.members[w]|
        ensures Member(w, i) in s.holds && s.holds[Member(w, i)] == Doc(s.members[w][i]) && Doc(s.members[w][i]) !in s.freed
      {
        HeldIsCounted(s, Member(w, i));
      }
    }
  }

  /**
   * Nothing leaks: once every thread has done its releases, what is alive is owned by a document slot,
   * the published pointer, a query, a worker, or a live workspace snapshot.
   */
  lemma NothingLeaks(steps: seq<Step>, s: State, r: Ref)
    requires Exec(steps) == Some(s) && r in s.count && r !in s.freed
    ensures (exists p :: Enabled(s, Release(p)))
         || exists p :: p in s.holds && s.holds[p] == r && !p.Local? && (p.Member? ==> Ws(p.w) !in s.freed)
  {
    InvHolds(steps);
    CountsAreHolders(steps, s, r);
    var p :| p in Holders(s.holds, r);
    assert Enabled(s, Release(p)) || (!p.Local? && (p.Member? ==> Ws(p.w) !in s.freed));
  }

  // ---- why every step keeps the invariant ------------------------------------------------------

  lemma {:induction false} InvHolds(steps: seq<Step>)
    ensures Exec(steps).Some? ==> Inv(Exec(steps).value)
    decreases |steps|
  {
    hide Inv, Enabled, After;
    if steps == [] {
      StartInv();
    } else {
      InvHolds(steps[..|steps| - 1]);
      var before := Exec(steps[..|steps| - 1]);
      if before.Some? && Enabled(before.value, steps[|steps| - 1]) {
        KeepsInv(before.value, steps[|steps| - 1]);
      }
    }
  }

  lemma StartInv()
    ensures Inv(START)
  {}

  /** Every step of every thread keeps the counts equal to the holders. */
  lemma KeepsInv(s: State, step: Step)
    requires Inv(s) && Enabled(s, step)
    ensures Inv(After(s, step))
  {
    hide Counted, FreedOnce, NamesUsed, MembersOwned;
    match step
    case InstallParse(i, parsed) =>
      var t := Detach(s, SlotPrev(i));
      KeepsDetach(s, SlotPrev(i));
      KeepsMove(t, SlotSnap(i), SlotPrev(i));
      KeepsNew(Move(t, SlotSnap(i), SlotPrev(i)), SlotSnap(i));
    case ClearParse(i) => KeepsDetach(s, SlotSnap(i)); KeepsDetach(Detach(s, SlotSnap(i)), SlotPrev(i));
    case BeginBuild => KeepsNewWs(s);
    case AddEntry(slot) => HeldIsCounted(s, Building); KeepsAddMember(s, s.holds[Building].w, slot);
    case Publish => KeepsDetach(s, Published); KeepsMove(Detach(s, Published), Building, Published);
    case Pin(q, primary) =>
      if primary.Some? {
        KeepsAcquire(s, SlotPrev(primary.value), QueryPrev(q));
        KeepsAcquire(Acquire(s, SlotPrev(primary.value), QueryPrev(q)), Published, QueryWs(q));
      } else {
        KeepsAcquire(s, Published, QueryWs(q));
      }
    case FinishQuery(q) => KeepsDetach(s, QueryPrev(q)); KeepsDetach(Detach(s, QueryPrev(q)), QueryWs(q));
    case Request(k) => KeepsDetach(s, Pending(k)); KeepsAcquire(Detach(s, Pending(k)), Published, Pending(k));
    case StartRun(k) => KeepsMove(s, Pending(k), Running(k));
    case FinishRun(k) => KeepsDetach(s, Running(k));
    case DropPending(k) => KeepsDetach(s, Pending(k));
    case Release(p) => HeldIsCounted(s, p); KeepsDecrement(s, p);
  }

  lemma PutCounts(holds: map<Place, Ref>, p: Place, r: Ref, q: Ref)
    requires p !in holds
    ensures |Holders(holds[p := r], q)| == |Holders(holds, q)| + if q == r then 1 else 0
  {
    assert Holders(holds[p := r], q) == Holders(holds, q) + if q == r then {p} else {};
  }

  lemma CutCounts(holds: map<Place, Ref>, p: Place, q: Ref)
    requires p in holds
    ensures |Holders(holds - {p}, q)| == |Holders(holds, q)| - if q == holds[p] then 1 else 0
  {
    assert Holders(holds - {p}, q) == Holders(holds, q) - {p};
  }

  /** What owns a reference owns one to something alive. */
  lemma HeldIsCounted(s: State, p: Place)
    requires Inv(s) && p in s.holds
    ensures s.count[s.holds[p]] > 0 && s.holds[p] !in s.freed
    ensures s.holds[p].Ws? ==> s.holds[p].w in s.members
  {
    assert p in Holders(s.holds, s.holds[p]);
  }

  lemma KeepsNew(s: State, p: Place)
    requires Inv(s) && p !in s.holds && Fits(p, Doc(0)) && !p.Member? && !p.Local?
    ensures Inv(NewDoc(s, p))
  {
    hide Holders;
    var t := NewDoc(s, p);
    var r := Doc(s.unused);
    Unheld(s, r);
    forall q | q in t.count ensures t.count[q] == |Holders(t.holds, q)| {
      PutCounts(s.holds, p, r, q);
    }
  }

  lemma Unheld(s: State, r: Ref)
    requires WellTyped(s) && r !in s.count
    ensures |Holders(s.holds, r)| == 0
  {
    assert Holders(s.holds, r) == {};
  }

  lemma KeepsNewWs(s: State)
    requires Inv(s) && Building !in s.holds
    ensures Inv(NewWs(s))
  {
    hide Holders;
    var t := NewWs(s);
    var r := Ws(s.unused);
    Unheld(s, r);
    forall q | q in t.count ensures t.count[q] == |Holders(t.holds, q)| {
      PutCounts(s.holds, Building, r, q);
    }
  }

  lemma KeepsAcquire(s: State, from: Place, p: Place)
    requires Inv(s) && p !in s.holds && !p.Member? && !p.Local?
    requires from in s.holds ==> Fits(p, s.holds[from])
    ensures Inv(Acquire(s, from, p))
  {
    hide Holders;
    var t := Acquire(s, from, p);
    if from in s.holds {
      HeldIsCounted(s, from);
      forall q | q in t.count ensures t.count[q] == |Holders(t.holds, q)| {
        PutCounts(s.holds, p, s.holds[from], q);
      }
    }
  }

  lemma KeepsAddMember(s: State, w: nat, slot: nat)
    requires Inv(s) && w in s.members && Ws(w) !in s.freed
    ensures Inv(AddMember(s, w, slot))
  {
    hide Holders;
    var from := SlotSnap(slot);
    var t := AddMember(s, w, slot);
    if from in s.holds {
      HeldIsCounted(s, from);
      forall q | q in t.count ensures t.count[q] == |Holders(t.holds, q)| {
        PutCounts(s.holds, Member(w, |s.members[w]|), s.holds[from], q);
      }
    }
  }

  lemma KeepsMove(s: State, p: Place, q: Place)
    requires Inv(s) && q !in s.holds && !p.Member? && !q.Member? && (q.Local? ==> q.ticket < s.unused)
    requires p in s.holds ==> Fits(q, s.holds[p])
    ensures Inv(Move(s, p, q))
  {
    hide Holders;
    var t := Move(s, p, q);
    if p in s.holds {
      forall r | r in t.count ensures t.count[r] == |Holders(t.holds, r)| {
        CutCounts(s.holds, p, r);
        PutCounts(s.holds - {p}, q, s.holds[p], r);
      }
    }
  }

  lemma KeepsDetach(s: State, p: Place)
    requires Inv(s) && !p.Member?
    ensures Inv(Detach(s, p))
    ensures p !in Detach(s, p).holds
  {
    hide Counted, FreedOnce, NamesUsed, MembersOwned, WellTyped;
    KeepsName(s);
    KeepsMove(s.(unused := s.unused + 1), p, Local(s.unused));
  }

  lemma KeepsName(s: State)
    requires Inv(s)
    ensures Inv(s.(unused := s.unused + 1)) && Local(s.unused) !in s.holds
  {
    hide Holders;
  }

  lemma KeepsDecrement(s: State, p: Place)
    requires Inv(s) && p in s.holds && s.count[s.holds[p]] > 0
    requires p.Member? ==> Ws(p.w) in s.freed
    ensures Inv(Decrement(s, p))
  {
    hide Holders;
    var t := Decrement(s, p);
    forall q | q in t.count ensures t.count[q] == |Holders(t.holds, q)| {
      CutCounts(s.holds, p, q);
    }
  }

  // ---- what each step does to the pointers -------------------------------------------------------

  function At(s: State, p: Place): Option<Ref> {
    if p in s.holds then Some(s.holds[p]) else None
  }

  /** Every pointer but those named, and but the locals of threads about to release, is as it was. */
  ghost predicate Untouched(s: State, t: State, named: set<Place>) {
    forall p: Place :: p !in named && !p.Local? ==> At(t, p) == At(s, p)
  }

  lemma DetachEmpties(s: State, p: Place)
    requires Inv(s) && !p.Local?
    ensures var t := Detach(s, p);
            && At(t, p) == None && Untouched(s, t, {p}) && t.count == s.count && t.members == s.members
            && At(t, Local(s.unused)) == At(s, p)
  {}

  /** A parse moves the current snapshot to the previous place and puts a new one, known to nobody, in its
      own; a failed parse leaves that empty. What was the previous snapshot is about to be released. */
  lemma InstallParseRotates(s: State, i: nat, parsed: bool)
    requires Inv(s)
    ensures var t := After(s, InstallParse(i, parsed));
            && At(t, SlotPrev(i)) == At(s, SlotSnap(i))
            && (parsed ==> exists d: nat :: At(t, SlotSnap(i)) == Some(Doc(d)) && Doc(d) !in s.count)
            && (!parsed ==> At(t, SlotSnap(i)) == None)
            && At(t, Local(s.unused)) == At(s, SlotPrev(i))
            && Untouched(s, t, {SlotSnap(i), SlotPrev(i)})
  {
    DetachEmpties(s, SlotPrev(i));
    var d := Detach(s, SlotPrev(i));
    hide Detach;
    if parsed { assert At(After(s, InstallParse(i, parsed)), SlotSnap(i)) == Some(Doc(d.unused)); }
  }

  lemma ClearParseEmpties(s: State, i: nat)
    requires Inv(s)
    ensures var t := After(s, ClearParse(i));
            At(t, SlotSnap(i)) == None && At(t, SlotPrev(i)) == None && Untouched(s, t, {SlotSnap(i), SlotPrev(i)})
  {
    hide Inv;
    KeepsDetach(s, SlotSnap(i));
    DetachEmpties(s, SlotSnap(i));
    DetachEmpties(Detach(s, SlotSnap(i)), SlotPrev(i));
  }

  /** Building starts with an empty workspace snapshot known to nobody else. */
  lemma BeginBuildIsNew(s: State)
    requires Inv(s) && Enabled(s, BeginBuild)
    ensures var t := After(s, BeginBuild);
            && (exists w: nat :: At(t, Building) == Some(Ws(w)) && Ws(w) !in s.count && w in t.members && t.members[w] == [])
            && Untouched(s, t, {Building})
  {
    assert At(After(s, BeginBuild), Building) == Some(Ws(s.unused));
  }

  /** An entry is the document snapshot that is current in the slot; a slot without one has no entry. */
  lemma AddEntryRecords(s: State, slot: nat)
    requires Inv(s) && Enabled(s, AddEntry(slot))
    ensures var t := After(s, AddEntry(slot)); var w := s.holds[Building].w;
            && w in s.members && w in t.members
            && (At(s, SlotSnap(slot)) == None ==> t == s)
            && (At(s, SlotSnap(slot)).Some? ==>
                  && t.members[w] == s.members[w] + [At(s, SlotSnap(slot)).value.d]
                  && At(t, Member(w, |s.members[w]|)) == At(s, SlotSnap(slot))
                  && Untouched(s, t, {Member(w, |s.members[w]|)}))
  {
    assert s.holds[Building] in s.count;
    if SlotSnap(slot) in s.holds { assert Fits(SlotSnap(slot), s.holds[SlotSnap(slot)]); }
  }

  /** Publishing puts the built snapshot, with its entries, in the published place; the old one is about to be released. */
  lemma PublishPublishes(s: State)
    requires Inv(s) && Enabled(s, Publish)
    ensures var t := After(s, Publish);
            && At(t, Published) == At(s, Building) && At(t, Building) == None && t.members == s.members
            && At(t, Local(s.unused)) == At(s, Published)
            && Untouched(s, t, {Published, Building})
  {
    DetachEmpties(s, Published);
    hide Detach;
  }

  /** A query holds what is published when it is pinned, and the previous snapshot of its document. */
  lemma PinHoldsPublished(s: State, q: nat, primary: Option<nat>)
    requires Inv(s) && Enabled(s, Pin(q, primary))
    ensures var t := After(s, Pin(q, primary));
            && At(t, QueryWs(q)) == At(s, Published)
            && At(t, QueryPrev(q)) == (if primary.Some? then At(s, SlotPrev(primary.value)) else None)
            && Untouched(s, t, {QueryWs(q), QueryPrev(q)})
  {
    if primary.Some? && SlotPrev(primary.value) in s.holds { HeldIsCounted(s, SlotPrev(primary.value)); }
    if Published in s.holds { HeldIsCounted(s, Published); }
  }

  lemma FinishQueryEmpties(s: State, q: nat)
    requires Inv(s)
    ensures var t := After(s, FinishQuery(q));
            At(t, QueryWs(q)) == None && At(t, QueryPrev(q)) == None && Untouched(s, t, {QueryWs(q), QueryPrev(q)})
  {
    hide Inv;
    KeepsDetach(s, QueryPrev(q));
    DetachEmpties(s, QueryPrev(q));
    DetachEmpties(Detach(s, QueryPrev(q)), QueryWs(q));
  }

  /** A worker is asked for what is published; an older request still pending is about to be released. */
  lemma RequestIsPublished(s: State, k: nat)
    requires Inv(s)
    ensures var t := After(s, Request(k));
            && At(t, Pending(k)) == At(s, Published) && At(t, Local(s.unused)) == At(s, Pending(k))
            && Untouched(s, t, {Pending(k)})
  {
    DetachEmpties(s, Pending(k));
    if Published in s.holds { HeldIsCounted(s, Published); }
    hide Detach;
  }

  /** A run takes over the pending request, and gives it up when finished or told to stop. */
  lemma RunsTakeRequests(s: State, k: nat)
    requires Inv(s)
    ensures Enabled(s, StartRun(k)) ==>
              var t := After(s, StartRun(k));
              At(t, Running(k)) == At(s, Pending(k)) && At(t, Pending(k)) == None && Untouched(s, t, {Running(k), Pending(k)})
    ensures At(After(s, FinishRun(k)), Running(k)) == None && Untouched(s, After(s, FinishRun(k)), {Running(k)})
    ensures At(After(s, DropPending(k)), Pending(k)) == None && Untouched(s, After(s, DropPending(k)), {Pending(k)})
  {
    DetachEmpties(s, Running(k));
    DetachEmpties(s, Pending(k));
    hide Detach;
  }

  /** A release gives up one reference, and frees what had no other. */
  lemma ReleaseGivesUp(s: State, p: Place)
    requires Inv(s) && Enabled(s, Release(p))
    ensures var t, r := After(s, Release(p)), s.holds[p];
            && At(t, p) == None && (forall q :: q != p ==> At(t, q) == At(s, q))
            && r in s.count && s.count[r] > 0 && t.count == s.count[r := s.count[r] - 1]
            && t.freed == (if s.count[r] == 1 then s.freed + [r] else s.freed)
  {
    HeldIsCounted(s, p);
  }

  /** What may happen at any time: parses, requests and ends of runs always; a build when none is going on;
      a query not yet pinned; a run when one is asked for; and every release that is due. */
  lemma StepsAreFree(s: State, k: nat, other: nat, flag: bool)
    ensures Enabled(s, InstallParse(k, flag)) && Enabled(s, ClearParse(k)) && Enabled(s, FinishQuery(k))
    ensures Enabled(s, Request(k)) && Enabled(s, FinishRun(k)) && Enabled(s, DropPending(k))
    ensures At(s, Building) == None ==> Enabled(s, BeginBuild)
    ensures At(s, Building).Some? && At(s, Building).value.Ws? ==> Enabled(s, AddEntry(k)) && Enabled(s, Publish)
    ensures At(s, QueryPrev(k)) == None && At(s, QueryWs(k)) == None ==>
              Enabled(s, Pin(k, None)) && Enabled(s, Pin(k, Some(other)))
    ensures At(s, Pending(k)).Some? && At(s, Running(k)) == None ==> Enabled(s, StartRun(k))
    ensures At(s, Local(k)).Some? ==> Enabled(s, Release(Local(k)))
    ensures At(s, Member(k, other)).Some? && Ws(k) in s.freed ==> Enabled(s, Release(Member(k, other)))
  {}
}
