/** Logged memory and register effects, and what replaying or rewinding them does. */
module RopEffects {
  import opened Bytes
  import opened Counting
  import opened RopMemory

  /** One logged access; `after` equals `before` until the iteration is finalized. */
  datatype Event = Event(address: nat, before: seq<Byte>, after: seq<Byte>, write: bool, stack: bool)
  {
    ghost predicate Covers(a: nat) { write && address <= a < address + |before| }
  }

  // ---------- Replay and rewind ----------

  function Written(m: map<nat, Byte>, e: Event): map<nat, Byte> {
    if e.write then Overlay(m, e.address, e.after) else m
  }

  function Unwritten(m: map<nat, Byte>, e: Event): map<nat, Byte> {
    if e.write then Overlay(m, e.address, e.before) else m
  }

  /** Apply the `after` bytes in log order. */
  ghost function Replay(m: map<nat, Byte>, events: seq<Event>): map<nat, Byte> {
    if events == [] then m else Written(Replay(m, events[..|events| - 1]), events[|events| - 1])
  }

  /** Apply the `before` bytes in reverse log order. */
  ghost function Rewind(m: map<nat, Byte>, events: seq<Event>): map<nat, Byte> {
    if events == [] then m else Rewind(Unwritten(m, events[|events| - 1]), events[..|events| - 1])
  }

  lemma {:induction false} ReplayKeys(m: map<nat, Byte>, events: seq<Event>)
    ensures Replay(m, events).Keys == m.Keys
  {
    if events != [] {
      ReplayKeys(m, events[..|events| - 1]);
    }
  }

  lemma {:induction false} ReplayConcat(m: map<nat, Byte>, first: seq<Event>, second: seq<Event>)
    ensures Replay(m, first + second) == Replay(Replay(m, first), second)
  {
    if second == [] {
      assert first + second == first;
    } else {
      ReplayConcat(m, first, second[..|second| - 1]);
      assert (first + second)[..|first + second| - 1] == first + second[..|second| - 1];
    }
  }

  /** Logging one more access, and storing through it, is undone by one more rewind step. */
  lemma RewindStore(m: map<nat, Byte>, events: seq<Event>, e: Event, data: seq<Byte>)
    requires BytesAt(m, e.address, e.before) && |data| == |e.before|
    ensures Rewind(if e.write then Overlay(m, e.address, data) else m, events + [e]) == Rewind(m, events)
  {
    assert (events + [e])[..|events|] == events;
    if e.write {
      var undone := Overlay(Overlay(m, e.address, data), e.address, e.before);
      forall a | a in m ensures undone[a] == m[a] {
        if e.address <= a < e.address + |data| {
          assert ByteAt(m, e.address + (a - e.address), e.before[a - e.address]);
        }
      }
      assert undone == m;
    }
  }

  /** Rewinding ignores the `after` bytes. */
  ghost predicate SameBefore(a: Event, b: Event) {
    a.address == b.address && a.before == b.before && a.write == b.write && a.stack == b.stack
  }

  lemma {:induction false} RewindIgnoresAfter(m: map<nat, Byte>, a: seq<Event>, b: seq<Event>)
    requires |a| == |b| && forall k :: 0 <= k < |a| ==> SameBefore(a[k], b[k])
    ensures Rewind(m, a) == Rewind(m, b)
  {
    if a != [] {
      var last := |a| - 1;
      assert SameBefore(a[last], b[last]);
      RewindIgnoresAfter(Unwritten(m, a[last]), a[..last], b[..last]);
    }
  }

  // ---------- What a log is charged for ----------

  /** Bytes charged for a log: those before and those after each access. */
  function EventBytes(events: seq<Event>): nat {
    if events == [] then 0 else EventBytes(events[..|events| - 1]) + |events[|events| - 1].before| * 2
  }

  lemma EventBytesLast(events: seq<Event>, e: Event)
    ensures EventBytes(events + [e]) == EventBytes(events) + |e.before| * 2
  {
    assert (events + [e])[..|events|] == events;
  }

  lemma {:induction false} EventBytesSame(a: seq<Event>, b: seq<Event>)
    requires |a| == |b| && forall k :: 0 <= k < |a| ==> SameBefore(a[k], b[k])
    ensures EventBytes(a) == EventBytes(b)
  {
    if a != [] {
      assert SameBefore(a[|a| - 1], b[|a| - 1]);
      EventBytesSame(a[..|a| - 1], b[..|b| - 1]);
    }
  }

  // ---------- Finalizing an iteration ----------

  ghost predicate Touches(events: seq<Event>, a: nat) {
    exists k :: 0 <= k < |events| && events[k].Covers(a)
  }

  /** Every byte that differs lies in the range of a logged store. */
  ghost predicate Confined(before: map<nat, Byte>, after: map<nat, Byte>, events: seq<Event>) {
    && before.Keys == after.Keys
    && forall a :: a in before && before[a] != after[a] ==> Touches(events, a)
  }

  /** Each store's `after` holds the bytes its range has at the end. */
  ghost predicate Finalized(m: map<nat, Byte>, events: seq<Event>) {
    forall k :: 0 <= k < |events| ==> Final(m, events[k])
  }

  ghost predicate Final(m: map<nat, Byte>, e: Event) {
    e.write ==> |e.after| == |e.before| && BytesAt(m, e.address, e.after)
  }

  lemma {:induction false} FinalizedReplayAt(before: map<nat, Byte>, after: map<nat, Byte>, events: seq<Event>, a: nat)
    requires before.Keys == after.Keys && Finalized(after, events) && a in before
    ensures a in Replay(before, events)
    ensures Replay(before, events)[a] == if Touches(events, a) then after[a] else before[a]
  {
    ReplayKeys(before, events);
    if events != [] {
      var front, last := events[..|events| - 1], events[|events| - 1];
      FinalizedReplayAt(before, after, front, a);
      ReplayKeys(before, front);
      assert Touches(events, a) <==> Touches(front, a) || last.Covers(a) by {
        if Touches(events, a) {
          var k :| 0 <= k < |events| && events[k].Covers(a);
          assert k < |front| ==> front[k].Covers(a);
        }
        if Touches(front, a) {
          var k :| 0 <= k < |front| && front[k].Covers(a);
          assert events[k].Covers(a);
        }
      }
      if last.Covers(a) {
        assert Final(after, last);
        assert ByteAt(after, last.address + (a - last.address), last.after[a - last.address]);
      }
    }
  }

  /**
   Overlapping stores of one iteration: since all of them carry the final bytes,
   replaying them gives the final memory.
   */
  lemma FinalizedReplay(before: map<nat, Byte>, after: map<nat, Byte>, events: seq<Event>)
    requires Confined(before, after, events) && Finalized(after, events)
    ensures Replay(before, events) == after
  {
    ReplayKeys(before, events);
    forall a | a in before ensures Replay(before, events)[a] == after[a] {
      FinalizedReplayAt(before, after, events, a);
    }
  }

  // ---------- Registers ----------

  datatype Change = Change(name: string, before: nat, after: nat)

  /** The registers that changed, in register order. */
  function Changes(names: seq<string>, before: map<string, nat>, after: map<string, nat>): seq<Change>
    requires forall i :: 0 <= i < |names| ==> names[i] in before && names[i] in after
  {
    if names == [] then []
    else
      var front := Changes(names[..|names| - 1], before, after);
      var name := names[|names| - 1];
      if before[name] != after[name] then front + [Change(name, before[name], after[name])] else front
  }

  function Applied(registers: map<string, nat>, changes: seq<Change>): map<string, nat> {
    if changes == [] then registers
    else
      var last := changes[|changes| - 1];
      Applied(registers, changes[..|changes| - 1])[last.name := last.after]
  }

  function Reverted(registers: map<string, nat>, changes: seq<Change>): map<string, nat>
    decreases |changes|
  {
    if changes == [] then registers
    else
      var last := changes[|changes| - 1];
      Reverted(registers[last.name := last.before], changes[..|changes| - 1])
  }

  /** `after` on the names in `done`, `before` elsewhere. */
  ghost function Mixed(done: set<string>, before: map<string, nat>, after: map<string, nat>): map<string, nat>
    requires before.Keys == after.Keys
  {
    map n | n in before :: if n in done then after[n] else before[n]
  }

  lemma MixedStep(done: set<string>, name: string, before: map<string, nat>, after: map<string, nat>)
    requires before.Keys == after.Keys && name in before && name !in done
    ensures Mixed(done + {name}, before, after) == Mixed(done, before, after)[name := after[name]]
    ensures Mixed(done, before, after) == Mixed(done + {name}, before, after)[name := before[name]]
    ensures before[name] == after[name] ==> Mixed(done + {name}, before, after) == Mixed(done, before, after)
  {
  }

  lemma {:induction false} ChangesApply(names: seq<string>, before: map<string, nat>, after: map<string, nat>)
    requires before.Keys == after.Keys && Distinct(names) && forall i :: 0 <= i < |names| ==> names[i] in before
    ensures Applied(before, Changes(names, before, after)) == Mixed(Elements(names), before, after)
    ensures Reverted(Mixed(Elements(names), before, after), Changes(names, before, after)) == before
  {
    if names == [] {
      assert Mixed(Elements(names), before, after) == before;
    } else {
      var front, name := names[..|names| - 1], names[|names| - 1];
      ChangesApply(front, before, after);
      assert Elements(names) == Elements(front) + {name} by {
        assert names == front + [name];
      }
      MixedStep(Elements(front), name, before, after);
      if before[name] != after[name] {
        LastChange(Changes(front, before, after), Change(name, before[name], after[name]), before,
                   Mixed(Elements(names), before, after));
      }
    }
  }

  lemma LastChange(rest: seq<Change>, last: Change, before: map<string, nat>, after: map<string, nat>)
    ensures Applied(before, rest + [last]) == Applied(before, rest)[last.name := last.after]
    ensures Reverted(after, rest + [last]) == Reverted(after[last.name := last.before], rest)
  {
    assert (rest + [last])[..|rest|] == rest;
  }

  /** Recorded register values come from the two register files. */
  lemma {:induction false} ChangesFit(names: seq<string>, before: map<string, nat>, after: map<string, nat>, limit: nat)
    requires forall i :: 0 <= i < |names| ==> names[i] in before && names[i] in after
    requires forall n :: n in before ==> before[n] < limit
    requires forall n :: n in after ==> after[n] < limit
    ensures |Changes(names, before, after)| <= |names|
    ensures forall k :: 0 <= k < |Changes(names, before, after)| ==>
              Changes(names, before, after)[k].before < limit && Changes(names, before, after)[k].after < limit
  {
    if names != [] {
      ChangesFit(names[..|names| - 1], before, after, limit);
    }
  }
}
