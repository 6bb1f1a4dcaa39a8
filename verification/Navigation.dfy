/**
 The bounded navigation history of the disassembly: following an address, moving back
 and forward over entries that cannot be shown, and what a round trip restores.
 */
module Navigation {
  import opened Wrappers

  datatype Location = Location(address: nat, function_: Option<nat>, line: Option<nat>, span: Option<nat>)

  datatype MemoryRegion = MemoryRegion(start: nat, end: nat, executable: bool)

  const CAPACITY: nat := 256

  function At(address: nat): Location { Location(address, None, None, None) }

  /** Where the decompiler's keyboard selection stands, and for which cursor. */
  datatype Keyboard = Keyboard(cursor: nat, function_: Option<nat>, line: Option<nat>, span: Option<nat>)

  /** What the traversal reads and writes; `entries` are the used part of the history. */
  datatype State = State(cursor: nat, entries: seq<Location>, index: nat, restore: Option<Location>, keyboard: Keyboard)

  predicate InBounds(s: State) {
    |s.entries| <= CAPACITY && if s.entries == [] then s.index == 0 else s.index < |s.entries|
  }

  predicate IsExecutable(regions: seq<MemoryRegion>, address: nat) {
    exists k :: 0 <= k < |regions| && regions[k].executable && regions[k].start <= address < regions[k].end
  }

  /** The location to come back to: the restored source position if the cursor is still there. */
  function Current(s: State): Location {
    if s.restore.Some? && s.restore.value.address == s.cursor then s.restore.value
    else if s.keyboard.cursor == s.cursor then
      Location(s.cursor, s.keyboard.function_, s.keyboard.line, s.keyboard.span)
    else At(s.cursor)
  }

  function Moved(s: State, address: nat): State {
    s.(cursor := address, restore := None, keyboard := Keyboard(address, s.keyboard.function_, None, None))
  }

  // ---------- Following ----------

  /** The entries up to the current one, which is brought up to date. */
  function Left(s: State): seq<Location>
    requires InBounds(s)
  {
    if s.entries != [] then s.entries[..s.index] + [Current(s)]
    else if s.cursor != 0 then [Current(s)]
    else []
  }

  function Last<T>(s: seq<T>, count: nat): seq<T> { if |s| <= count then s else s[|s| - count..] }

  function Followed(s: State, address: nat): State
    requires InBounds(s)
  {
    if address == s.cursor then Moved(s, address)
    else
      var entries := Last(Left(s) + [At(address)], CAPACITY);
      Moved(s, address).(entries := entries, index := |entries| - 1)
  }

  lemma FollowedInBounds(s: State, address: nat)
    requires InBounds(s)
    ensures InBounds(Followed(s, address))
    ensures address != s.cursor ==> Followed(s, address).index == |Followed(s, address).entries| - 1
    ensures Followed(s, address).cursor == address
    ensures Current(Followed(s, address)).line == None && Current(Followed(s, address)).span == None
  {
  }

  // ---------- Moving back and forward ----------

  predicate Lands(location: Location, cursor: nat, regions: seq<MemoryRegion>) {
    location.address != cursor && IsExecutable(regions, location.address)
  }

  predicate Beyond(from: nat, k: nat, forward: bool) { if forward then from < k else k < from }

  /** The nearest entry in a direction that can be shown and is not the cursor's own. */
  function Landing(entries: seq<Location>, from: nat, forward: bool, cursor: nat,
                   regions: seq<MemoryRegion>): Option<nat>
    requires from < |entries|
    decreases if forward then |entries| - from else from
  {
    if (if forward then from + 1 >= |entries| else from == 0) then None
    else
      var next := if forward then from + 1 else from - 1;
      if Lands(entries[next], cursor, regions) then Some(next) else Landing(entries, next, forward, cursor, regions)
  }

  ghost predicate NoneBetween(entries: seq<Location>, from: nat, to: nat, forward: bool, cursor: nat,
                              regions: seq<MemoryRegion>) {
    forall k: nat :: k < |entries| && Beyond(from, k, forward) && Beyond(k, to, forward) ==>
      !Lands(entries[k], cursor, regions)
  }

  lemma {:induction false} LandingIsNearest(entries: seq<Location>, from: nat, forward: bool, cursor: nat,
                                            regions: seq<MemoryRegion>)
    requires from < |entries|
    ensures var landing := Landing(entries, from, forward, cursor, regions);
            if landing.Some? then
              && landing.value < |entries| && Beyond(from, landing.value, forward)
              && Lands(entries[landing.value], cursor, regions)
              && NoneBetween(entries, from, landing.value, forward, cursor, regions)
            else forall k: nat :: k < |entries| && Beyond(from, k, forward) ==> !Lands(entries[k], cursor, regions)
    decreases if forward then |entries| - from else from
  {
    if !(if forward then from + 1 >= |entries| else from == 0) {
      var next := if forward then from + 1 else from - 1;
      if !Lands(entries[next], cursor, regions) {
        LandingIsNearest(entries, next, forward, cursor, regions);
      }
    }
  }

  function Traversed(s: State, stopped: bool, regions: seq<MemoryRegion>, forward: bool): State
    requires InBounds(s)
  {
    if !stopped || s.entries == [] then s
    else
      var entries := s.entries[s.index := Current(s)];
      var landing := Landing(entries, s.index, forward, s.cursor, regions);
      LandingIsNearest(entries, s.index, forward, s.cursor, regions);
      if landing.None? then s.(entries := entries) else Arrived(s.(entries := entries), landing.value)
  }

  function Arrived(s: State, at: nat): State
    requires at < |s.entries|
  {
    var location := s.entries[at];
    Moved(s, location.address).(
      index := at,
      restore := if location.function_.Some? && location.line.Some? then Some(location) else None)
  }

  /**
   After a move the restored source position is the entry landed on when it has one, and none
   otherwise; the place shown is that entry, or its address without a line.
   */
  lemma LandingRestored(s: State, regions: seq<MemoryRegion>, forward: bool)
    requires InBounds(s) && Traversed(s, true, regions, forward).cursor != s.cursor
    ensures var there := Traversed(s, true, regions, forward);
            && there.index < |there.entries| && there.entries[there.index].address == there.cursor
            && var entry := there.entries[there.index];
               if entry.function_.Some? && entry.line.Some? then
                 there.restore == Some(entry) && Current(there) == entry
               else
                 there.restore == None && Current(there).line == None
  {
    TraversedInBounds(s, true, regions, forward);
  }

  lemma TraversedInBounds(s: State, stopped: bool, regions: seq<MemoryRegion>, forward: bool)
    requires InBounds(s)
    ensures InBounds(Traversed(s, stopped, regions, forward))
    ensures |Traversed(s, stopped, regions, forward).entries| == |s.entries|
    ensures Traversed(s, stopped, regions, forward).cursor != s.cursor ==>
              IsExecutable(regions, Traversed(s, stopped, regions, forward).cursor)
  {
    if s.entries != [] {
      LandingIsNearest(s.entries[s.index := Current(s)], s.index, forward, s.cursor, regions);
    }
  }

  /**
   A move in one direction and then the other comes back to the address that was left
   exactly when that address can still be shown, however many entries are skipped.
   */
  lemma ThereAndBack(s: State, regions: seq<MemoryRegion>, forward: bool)
    requires InBounds(s)
    requires Traversed(s, true, regions, forward).cursor != s.cursor
    ensures InBounds(Traversed(s, true, regions, forward))
    ensures Traversed(Traversed(s, true, regions, forward), true, regions, !forward).cursor == s.cursor
       <==> IsExecutable(regions, s.cursor)
    ensures var there := Traversed(s, true, regions, forward);
            var back := Traversed(there, true, regions, !forward);
            IsExecutable(regions, s.cursor) ==>
              && (back.index == s.index <==> NoneAt(s, there.index, forward))
              && (back.index == s.index && Current(s).function_.Some? && Current(s).line.Some? ==>
                    Current(back) == Current(s))
  {
    var there := Traversed(s, true, regions, forward);
    TraversedInBounds(s, true, regions, forward);
    TraversedInBounds(there, true, regions, !forward);
    var entries := s.entries[s.index := Current(s)];
    LandingIsNearest(entries, s.index, forward, s.cursor, regions);
    assert there == Arrived(s.(entries := entries), there.index);
    var again := entries[there.index := Current(there)];
    LandingIsNearest(again, there.index, !forward, there.cursor, regions);
    if IsExecutable(regions, s.cursor) {
      WayBack(s, entries, again, there, regions, forward);
    }
  }

  /** None of the entries between the current one and another carries the address of the cursor. */
  ghost predicate NoneAt(s: State, to: nat, forward: bool) {
    forall k: nat :: k < |s.entries| && Beyond(s.index, k, forward) && Beyond(k, to, forward) ==>
      s.entries[k].address != s.cursor
  }

  lemma WayBack(s: State, entries: seq<Location>, again: seq<Location>, there: State, regions: seq<MemoryRegion>,
                forward: bool)
    requires s.index < |entries| && entries[s.index].address == s.cursor && IsExecutable(regions, s.cursor)
    requires there.index < |entries| && Beyond(s.index, there.index, forward)
             && there.cursor == entries[there.index].address
    requires there.cursor != s.cursor && NoneBetween(entries, s.index, there.index, forward, s.cursor, regions)
    requires |again| == |entries| && forall k :: 0 <= k < |entries| && k != there.index ==> again[k] == entries[k]
    ensures var landing := Landing(again, there.index, !forward, there.cursor, regions);
            landing.Some? && landing.value < |again| && again[landing.value].address == s.cursor
  {
    LandingIsNearest(again, there.index, !forward, there.cursor, regions);
    assert Lands(again[s.index], there.cursor, regions) && Beyond(there.index, s.index, !forward);
  }

  /** A source position left comes back, whether it had been restored or selected with the keyboard. */
  ghost predicate SourceRestored(left: State, back: State) {
    && (Current(left).function_.Some? && Current(left).line.Some? ==> Current(back) == Current(left))
    && var restored := left.restore.Some? && left.restore.value.address == left.cursor;
       && (restored && left.restore.value.function_.Some? && left.restore.value.line.Some? ==>
             back.restore == left.restore)
       && (!restored && left.keyboard.cursor == left.cursor
           && left.keyboard.function_.Some? && left.keyboard.line.Some? ==>
             back.restore == Some(Location(left.cursor, left.keyboard.function_, left.keyboard.line,
                                           left.keyboard.span)))
  }

  /** Back after following an address returns to the address and the source position that were left. */
  lemma FollowThenBack(s: State, address: nat, regions: seq<MemoryRegion>)
    requires InBounds(s) && address != s.cursor && (s.entries != [] || s.cursor != 0)
    requires IsExecutable(regions, s.cursor)
    ensures InBounds(Followed(s, address))
    ensures Traversed(Followed(s, address), true, regions, false).cursor == s.cursor
    ensures Current(s) in Followed(s, address).entries
    ensures SourceRestored(s, Traversed(Followed(s, address), true, regions, false))
  {
    var after := Followed(s, address);
    FollowedInBounds(s, address);
    var n := |after.entries|;
    assert after.entries[n - 1] == At(address) && after.entries[n - 2] == Current(s);
    var entries := after.entries[after.index := Current(after)];
    assert entries[n - 2].address == s.cursor;
    assert Landing(entries, n - 1, false, address, regions) == Some(n - 2);
  }

  // ---------- Runs ----------

  /**
   What a user can do: select a row (panels also keep or reset the restored position), follow an
   address, go back or forward, start over.
   */
  datatype Action =
    | Select(cursor: nat, restore: Option<Location>, keyboard: Keyboard)
    | Jump(address: nat)
    | Travel(stopped: bool, regions: seq<MemoryRegion>, forward: bool)
    | Restart

  function After(s: State, action: Action): State
    requires InBounds(s)
  {
    match action
    case Select(cursor, restore, keyboard) => s.(cursor := cursor, restore := restore, keyboard := keyboard)
    case Jump(address) => Followed(s, address)
    case Travel(stopped, regions, forward) => Traversed(s, stopped, regions, forward)
    case Restart => State(s.cursor, [], 0, None, Keyboard(0, None, None, None))
  }

  lemma AfterInBounds(s: State, action: Action)
    requires InBounds(s)
    ensures InBounds(After(s, action))
  {
    match action
    case Select(_, _, _) =>
    case Jump(address) => FollowedInBounds(s, address);
    case Travel(stopped, regions, forward) => TraversedInBounds(s, stopped, regions, forward);
    case Restart =>
  }

  ghost predicate IsRun(states: seq<State>, actions: seq<Action>) {
    && |states| == |actions| + 1 && states[0].entries == [] && states[0].index == 0
    && forall k :: 0 <= k < |actions| ==> Leads(states, actions, k)
  }

  ghost predicate Leads(states: seq<State>, actions: seq<Action>, k: nat)
    requires k < |actions| && k + 1 < |states|
  {
    InBounds(states[k]) ==> states[k + 1] == After(states[k], actions[k])
  }

  /** Over every run from an empty history, the index stays inside at most 256 entries. */
  lemma {:induction false} RunInBounds(states: seq<State>, actions: seq<Action>, k: nat)
    requires IsRun(states, actions) && k < |states|
    ensures InBounds(states[k])
  {
    if k > 0 {
      RunInBounds(states, actions, k - 1);
      assert Leads(states, actions, k - 1);
      AfterInBounds(states[k - 1], actions[k - 1]);
    }
  }

  /** Anywhere in a run, going back after a jump restores an address that can still be shown. */
  lemma RunJumpBack(states: seq<State>, actions: seq<Action>, k: nat, regions: seq<MemoryRegion>)
    requires IsRun(states, actions) && k + 1 < |actions|
    requires actions[k].Jump? && actions[k].address != states[k].cursor
    requires actions[k + 1] == Travel(true, regions, false)
    requires (states[k].entries != [] || states[k].cursor != 0) && IsExecutable(regions, states[k].cursor)
    ensures states[k + 2].cursor == states[k].cursor && SourceRestored(states[k], states[k + 2])
  {
    RunInBounds(states, actions, k);
    RunInBounds(states, actions, k + 1);
    assert Leads(states, actions, k) && Leads(states, actions, k + 1);
    FollowThenBack(states[k], actions[k].address, regions);
  }

  /** One entry beyond a full history pushes the oldest one out. */
  lemma LastDropsFirst<T>(entries: seq<T>, entry: T)
    requires |entries| <= CAPACITY
    ensures Last(entries + [entry], CAPACITY) == (if |entries| == CAPACITY then entries[1..] else entries) + [entry]
  {
  }

  // ---------- The state object ----------

  class Navigator {
    const history: array<Location>
    var size: nat
    var index: nat
    var cursor: nat
    var scrollTarget: Option<nat>
    var sourceRestore: Option<Location>
    var keyboard: Keyboard
    /** The addresses whose instructions the engine was asked for. */
    var requested: seq<nat>

    ghost predicate Valid()
      reads this, history
    {
      history.Length == CAPACITY && size <= CAPACITY && InBounds(View())
    }

    ghost function View(): State
      reads this, history
      requires size <= history.Length
    {
      State(cursor, history[..size], index, sourceRestore, keyboard)
    }

    constructor (cursor: nat)
      ensures Valid() && fresh(history) && View() == State(cursor, [], 0, None, Keyboard(0, None, None, None))
    {
      history := new Location[CAPACITY](_ => At(0));
      size, index, this.cursor := 0, 0, cursor;
      scrollTarget, sourceRestore, requested := None, None, [];
      keyboard := Keyboard(0, None, None, None);
    }

    function Here(): Location
      reads this
    {
      if sourceRestore.Some? && sourceRestore.value.address == cursor then sourceRestore.value
      else if keyboard.cursor == cursor then Location(cursor, keyboard.function_, keyboard.line, keyboard.span)
      else At(cursor)
    }

    /** Show an address; the history stays. */
    method Apply(address: nat)
      requires Valid()
      modifies this
      ensures Valid() && View() == Moved(old(View()), address)
      ensures scrollTarget == Some(address) && requested == old(requested) + [address]
    {
      cursor, scrollTarget, sourceRestore := address, Some(address), None;
      keyboard := keyboard.(cursor := address, line := None, span := None);
      requested := requested + [address];
    }

    method Reset()
      requires Valid()
      modifies this
      ensures Valid() && View() == State(old(cursor), [], 0, None, Keyboard(0, None, None, None))
      ensures requested == old(requested)
    {
      size, index, sourceRestore := 0, 0, None;
      keyboard := Keyboard(0, None, None, None);
    }

    method Follow(address: nat)
      requires Valid()
      modifies this, history
      ensures Valid() && View() == Followed(old(View()), address)
      ensures scrollTarget == Some(address) && requested == old(requested) + [address]
    {
      FollowedInBounds(View(), address);
      if address != cursor {
        Leave();
        Enter(address);
      }
      Apply(address);
    }

    /** Bring the current entry up to date and forget the entries after it. */
    method Leave()
      requires Valid()
      modifies this`size, history
      ensures size <= CAPACITY && history[..size] == Left(old(View()))
    {
      if size != 0 {
        history[index] := Here();
        size := index + 1;
      } else if cursor != 0 {
        history[size] := Here();
        size := size + 1;
      }
    }

    /** Append an entry; a full history drops its oldest one first. */
    method Enter(address: nat)
      requires history.Length == CAPACITY && size <= CAPACITY
      modifies this`size, this`index, history
      ensures 0 < size <= CAPACITY && index == size - 1
      ensures history[..size] == Last(old(history[..size]) + [At(address)], CAPACITY)
    {
      ghost var entries := history[..size];
      if size == history.Length {
        DropOldest();
      }
      ghost var kept := history[..size];
      history[size] := At(address);
      size := size + 1;
      index := size - 1;
      assert history[..size] == kept + [At(address)];
      LastDropsFirst(entries, At(address));
    }

    /** Shift the entries of a full history by one. */
    method DropOldest()
      requires history.Length == CAPACITY && size == CAPACITY
      modifies this`size, history
      ensures size == CAPACITY - 1 && history[..size] == old(history[..])[1..]
    {
      forall i | 0 <= i < history.Length - 1 {
        history[i] := history[i + 1];
      }
      size := size - 1;
    }

    method Executable(regions: seq<MemoryRegion>, address: nat) returns (executable: bool)
      ensures executable == IsExecutable(regions, address)
    {
      for k := 0 to |regions|
        invariant forall j :: 0 <= j < k ==> !(regions[j].executable && regions[j].start <= address < regions[j].end)
      {
        if regions[k].executable && regions[k].start <= address < regions[k].end {
          return true;
        }
      }
      return false;
    }

    /** Back or forward to the nearest entry that can be shown. */
    method Traverse(stopped: bool, regions: seq<MemoryRegion>, forward: bool)
      requires Valid()
      modifies this, history
      ensures Valid() && View() == Traversed(old(View()), stopped, regions, forward)
      ensures cursor == old(cursor) ==> requested == old(requested)
      ensures cursor != old(cursor) ==> requested == old(requested) + [cursor] && scrollTarget == Some(cursor)
    {
      TraversedInBounds(View(), stopped, regions, forward);
      if !stopped || size == 0 {
        return;
      }
      ghost var before := View();
      history[index] := Here();
      assert history[..size] == before.entries[index := Current(before)];
      LandingIsNearest(history[..size], index, forward, cursor, regions);
      var landing := Nearest(regions, forward);
      if landing.Some? {
        Arrive(landing.value);
      }
    }

    /** The search over the entries beyond the current one. */
    method Nearest(regions: seq<MemoryRegion>, forward: bool) returns (landing: Option<nat>)
      requires Valid() && size != 0
      ensures landing == Landing(history[..size], index, forward, cursor, regions)
    {
      ghost var entries := history[..size];
      var candidate: nat := index;
      while if forward then candidate + 1 < size else candidate > 0
        invariant candidate < size
        invariant Landing(entries, candidate, forward, cursor, regions)
                  == Landing(entries, index, forward, cursor, regions)
        decreases if forward then size - candidate else candidate
      {
        candidate := if forward then candidate + 1 else candidate - 1;
        var location := history[candidate];
        assert location == entries[candidate];
        var shown := Executable(regions, location.address);
        if location.address != cursor && shown {
          return Some(candidate);
        }
      }
      landing := None;
    }

    /** Show an entry, and its source position if it has one. */
    method Arrive(at: nat)
      requires Valid() && at < size
      modifies this
      ensures Valid() && View() == Arrived(old(View()), at)
      ensures cursor == old(history[at]).address && requested == old(requested) + [cursor]
              && scrollTarget == Some(cursor)
    {
      var location := history[at];
      assert location == history[..size][at];
      index := at;
      Apply(location.address);
      if location.function_.Some? && location.line.Some? {
        sourceRestore := Some(location);
      }
    }
  }
}
