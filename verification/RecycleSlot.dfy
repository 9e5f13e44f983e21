/**
 * The one-buffer cache of retired token-span buffers: a parse takes what is there, a release puts a
 * large buffer back if the slot is empty and frees it otherwise.
 */
module RecycleSlot {
  import opened Lsp

  const TOK_SPANS_RECYCLE_MIN_BYTES := 32 * 1024 * 1024

  /** Buffers are named by allocation order; an owner is a parse, its output or a snapshot. */
  datatype State = State(slot: Option<nat>, bytes: seq<nat>, owned: map<nat, nat>, freed: seq<nat>)

  datatype Step =
    | Take(owner: nat)                            // a parse starts with whatever the slot holds
    | Allocate(owner: nat, size: nat)             // or with its first allocation
    | Grow(owner: nat, size: nat, moved: bool)    // a reallocation may move the buffer and free the old one
    | HandOver(owner: nat, to: nat)               // from the parse to its output, from there to a snapshot
    | Release(owner: nat)

  ghost predicate Enabled(s: State, step: Step) {
    match step
    case Take(o) => o !in s.owned
    case Allocate(o, _) => o !in s.owned
    case Grow(o, _, _) => o in s.owned && s.owned[o] < |s.bytes|
    case HandOver(o, to) => o in s.owned && to !in s.owned
    case Release(o) => o in s.owned && s.owned[o] < |s.bytes|
  }

  ghost function After(s: State, step: Step): State
    requires Enabled(s, step)
  {
    match step
    case Take(o) => if s.slot.Some? then s.(slot := None, owned := s.owned[o := s.slot.value]) else s
    case Allocate(o, size) => s.(bytes := s.bytes + [size], owned := s.owned[o := |s.bytes|])
    case Grow(o, size, moved) =>
      if moved then
        s.(bytes := s.bytes + [size], owned := s.owned[o := |s.bytes|], freed := s.freed + [s.owned[o]])
      else s.(bytes := s.bytes[s.owned[o] := size])
    case HandOver(o, to) => s.(owned := (s.owned - {o})[to := s.owned[o]])
    case Release(o) =>
      var b := s.owned[o];
      if s.bytes[b] >= TOK_SPANS_RECYCLE_MIN_BYTES && s.slot.None? then s.(slot := Some(b), owned := s.owned - {o})
      else s.(owned := s.owned - {o}, freed := s.freed + [b])
  }

  function InSlot(s: State, b: nat): int { if s.slot == Some(b) then 1 else 0 }

  ghost function Owners(s: State, b: nat): set<nat> { set o | o in s.owned && s.owned[o] == b }

  /** How often a buffer is somewhere: in the slot, with an owner, freed. */
  ghost function Uses(s: State, b: nat): int {
    InSlot(s, b) + |Owners(s, b)| + multiset(s.freed)[b]
  }

  /** Every buffer ever allocated is in one place: in the slot, with one owner, or freed once. */
  ghost predicate Inv(s: State) {
    && (forall b: nat :: Uses(s, b) == if b < |s.bytes| then 1 else 0)
    && (s.slot.Some? ==> s.slot.value < |s.bytes| && s.bytes[s.slot.value] >= TOK_SPANS_RECYCLE_MIN_BYTES)
  }

  ghost function Exec(steps: seq<Step>): Option<State> {
    if steps == [] then Some(State(None, [], map[], []))
    else
      match Exec(steps[..|steps| - 1])
      case None => None
      case Some(s) => if Enabled(s, steps[|steps| - 1]) then Some(After(s, steps[|steps| - 1])) else None
  }

  lemma OneOwner(s: State, o: nat)
    requires Inv(s) && o in s.owned
    ensures Owners(s, s.owned[o]) == {o} && s.owned[o] < |s.bytes| && s.slot != Some(s.owned[o])
  {
    var b := s.owned[o];
    assert Uses(s, b) == if b < |s.bytes| then 1 else 0;
    assert o in Owners(s, b);
    assert Owners(s, b) == {o} + (Owners(s, b) - {o});
  }

  /** A step changes the owners of a buffer by the owner it speaks of. */
  lemma OwnersAfter(s: State, step: Step, b: nat)
    requires Inv(s) && Enabled(s, step)
    ensures var was, now := Owners(s, b), Owners(After(s, step), b);
            match step
            case Take(o) => now == (if s.slot == Some(b) then was + {o} else was)
            case Allocate(o, _) => now == (if b == |s.bytes| then was + {o} else was)
            case Grow(o, _, moved) =>
              now == (if moved && b == |s.bytes| then was + {o} else if moved && b == s.owned[o] then was - {o} else was)
            case HandOver(o, to) => now == (if b == s.owned[o] then was - {o} + {to} else was)
            case Release(o) => now == (if b == s.owned[o] then was - {o} else was)
  {
    var was, now := Owners(s, b), Owners(After(s, step), b);
    match step {
      case Take(o) =>
      case Allocate(o, _) =>
      case Grow(o, _, moved) =>
        OneOwner(s, o);
        if moved && b == |s.bytes| {
          assert now == was + {o};
        } else if moved && b == s.owned[o] {
          forall p | p in now ensures p in was && p != o { assert p in s.owned; }
        }
      case HandOver(o, to) =>
        if b == s.owned[o] { assert now == was - {o} + {to}; }
      case Release(o) =>
        if b == s.owned[o] { assert now == was - {o}; }
    }
  }

  lemma KeepsUses(s: State, step: Step, b: nat)
    requires Inv(s) && Enabled(s, step)
    ensures var t := After(s, step); Uses(t, b) == if b < |t.bytes| then 1 else 0
  {
    assert Uses(s, b) == if b < |s.bytes| then 1 else 0;
    OwnersAfter(s, step, b);
    if step.Grow? || step.HandOver? || step.Release? { OneOwner(s, step.owner); }
    hide Owners;
  }

  lemma KeepsInv(s: State, step: Step)
    requires Inv(s) && Enabled(s, step)
    ensures Inv(After(s, step))
  {
    var t := After(s, step);
    forall b: nat ensures Uses(t, b) == if b < |t.bytes| then 1 else 0 {
      KeepsUses(s, step, b);
    }
    if step.Grow? { OneOwner(s, step.owner); }
    hide Uses;
  }

  lemma {:induction false} ExecInv(steps: seq<Step>)
    ensures Exec(steps).Some? ==> Inv(Exec(steps).value)
    decreases |steps|
  {
    hide Enabled, After;
    if steps == [] {
      forall b: nat ensures Uses(State(None, [], map[], []), b) == 0 {
        assert Owners(State(None, [], map[], []), b) == {};
      }
    } else {
      ExecInv(steps[..|steps| - 1]);
      var before := Exec(steps[..|steps| - 1]);
      if before.Some? && Enabled(before.value, steps[|steps| - 1]) {
        KeepsInv(before.value, steps[|steps| - 1]);
      }
    }
  }

  /** Under any mix of takes, moves and releases no two owners share a buffer, what an owner has is neither
      cached nor freed, and no buffer is lost or freed twice. */
  lemma NeverLostOrShared(steps: seq<Step>, s: State, b: nat)
    requires Exec(steps) == Some(s)
    ensures forall o, p :: o in s.owned && p in s.owned && s.owned[o] == s.owned[p] ==> o == p
    ensures forall o :: o in s.owned ==> s.owned[o] < |s.bytes| && s.slot != Some(s.owned[o]) && s.owned[o] !in s.freed
    ensures b < |s.bytes| <==> s.slot == Some(b) || (exists o :: o in s.owned && s.owned[o] == b) || b in s.freed
    ensures multiset(s.freed)[b] <= 1 && (s.slot == Some(b) ==> b !in s.freed)
  {
    ExecInv(steps);
    forall o | o in s.owned
      ensures var b := s.owned[o]; Owners(s, b) == {o} && b < |s.bytes| && s.slot != Some(b) && b !in s.freed
    {
      OneOwner(s, o);
      assert Uses(s, s.owned[o]) == 1;
    }
    forall o, p | o in s.owned && p in s.owned && s.owned[o] == s.owned[p] ensures o == p {
      assert p in Owners(s, s.owned[o]);
    }
    assert Uses(s, b) == if b < |s.bytes| then 1 else 0;
    if o :| o in Owners(s, b) {
      assert o in s.owned && s.owned[o] == b;
    } else {
      assert Owners(s, b) == {};
    }
  }

  /** Only the two atomic operations touch the slot, so a buffer a parse takes is nobody else's. */
  lemma TakenIsExclusive(steps: seq<Step>, s: State, owner: nat)
    requires Exec(steps) == Some(s) && s.slot.Some? && owner !in s.owned
    ensures var b, t := s.slot.value, After(s, Take(owner));
            && (forall o :: o in s.owned ==> s.owned[o] != b) && b !in s.freed
            && t.slot == None && t.owned == s.owned[owner := b] && Owners(t, b) == {owner}
            && b < |s.bytes| && s.bytes[b] >= 33554432
  {
    ExecInv(steps);
    NeverLostOrShared(steps, s, s.slot.value);
    KeepsInv(s, Take(owner));
    OneOwner(After(s, Take(owner)), owner);
  }

  /** A release of 32 MB or more goes back to an empty slot; anything else is freed, and nothing else moves. */
  lemma ReleaseRecycles(s: State, owner: nat)
    requires Enabled(s, Release(owner))
    ensures var b, t := s.owned[owner], After(s, Release(owner));
            && owner !in t.owned && (forall o :: o != owner ==> (o in t.owned <==> o in s.owned))
            && (forall o :: o in t.owned ==> t.owned[o] == s.owned[o]) && t.bytes == s.bytes
            && if s.slot == None && s.bytes[b] >= 33554432 then t.slot == Some(b) && t.freed == s.freed
               else t.slot == s.slot && t.freed == s.freed + [b]
  {}

  /** Nobody waits for anybody: whoever owns nothing may take or allocate, an owner may grow its buffer,
      hand it over or release it, whatever the slot and the others hold. */
  lemma OwnersRunFreely(steps: seq<Step>, s: State, o: nat, to: nat, size: nat, moved: bool)
    requires Exec(steps) == Some(s)
    ensures o !in s.owned ==> Enabled(s, Take(o)) && Enabled(s, Allocate(o, size))
    ensures o in s.owned ==> Enabled(s, Grow(o, size, moved)) && Enabled(s, Release(o))
    ensures o in s.owned && to !in s.owned ==> Enabled(s, HandOver(o, to))
  {
    ExecInv(steps);
    if o in s.owned { OneOwner(s, o); }
  }
}
