// DbScheduler on mutable entry objects: reconciling in place, remembering the
// run state of vanished keys, and clearing a heap that aliases live entries.

module BeatObjects {
  import opened Basics
  import opened BeatScheduler

  class Entry {
    const name: Key
    var spec: Spec
    var lastRun: Time
    var runs: nat

    constructor (name: Key, spec: Spec, lastRun: Time, runs: nat)
      ensures this.name == name
      ensures this.spec == spec && this.lastRun == lastRun && this.runs == runs
    {
      this.name, this.spec, this.lastRun, this.runs := name, spec, lastRun, runs;
    }

    predicate EditableFieldsEqual(other: Entry)
      reads this, other
    {
      spec == other.spec
    }

    // ScheduleEntry.update replaces the editable fields only.
    method Update(other: Entry)
      modifies `spec
      ensures spec == other.spec
    {
      spec := other.spec;
    }
  }

  // An event of Celery's heap; the heap is indexed by the entry's name.
  datatype HeapEvent = HeapEvent(entry: Entry, timedFor: Spec)

  class DbScheduler {
    var schedule: map<Key, Entry>
    var removed: map<Key, RunState>
    var heap: Option<map<Key, HeapEvent>>
    var lastRefreshAt: Time

    // The values of the live entries, and all entry objects ever created.
    ghost var live: map<Key, EntryState>
    ghost var entries: set<Entry>

    ghost predicate EntriesValid()
      reads this, entries
    {
      && live.Keys == schedule.Keys
      && schedule.Keys !! removed.Keys
      && forall k :: k in schedule ==>
           && schedule[k] in entries && schedule[k].name == k
           && live[k] == EntryState(schedule[k].spec, schedule[k].lastRun, schedule[k].runs)
    }

    // Every event aliases the live entry of its key and was timed for the
    // spec that entry has now.
    ghost predicate HeapAgrees()
      reads this
    {
      heap.Some? ==>
        && heap.value.Keys == schedule.Keys == live.Keys
        && forall k :: k in schedule ==> heap.value[k] == HeapEvent(schedule[k], live[k].spec)
    }

    ghost predicate Valid()
      reads this, entries
    {
      EntriesValid() && HeapAgrees()
    }

    // The abstract state. HeapAgrees pins the heap's references and timings
    // to the live entries, so following them yields the events of these.
    ghost function View(): Beat
      reads this
    {
      Beat(live, removed, if heap.None? then None else Some(Events(live)), lastRefreshAt)
    }

    // The earlier entries are still there, as the same objects.
    ghost predicate Extends(earlier: map<Key, Entry>)
      reads this
    {
      forall k :: k in earlier ==> k in schedule && schedule[k] == earlier[k]
    }

    constructor ()
      ensures Valid() && View() == Initial()
    {
      schedule, removed, heap, lastRefreshAt := map[], map[], None, 0.0;
      live, entries := map[], {};
    }

    // One turn of the first loop of _merge_schedule: drop a key missing from
    // the build and remember its run state.
    method Retire(key: Key)
      requires EntriesValid() && key in schedule
      modifies `schedule, `removed, `live
      ensures EntriesValid()
      ensures schedule == old(schedule) - {key} && live == old(live) - {key}
      ensures removed == old(removed)[key := StateOf(old(live)[key])]
    {
      var entry := schedule[key];
      schedule := schedule - {key};
      removed := removed[key := RunState(entry.lastRun, entry.runs)];
      live := live - {key};
    }

    method RetireMissing(build: map<Key, Spec>) returns (changed: bool)
      requires EntriesValid()
      modifies `schedule, `removed, `live
      ensures EntriesValid()
      ensures var missing := old(live).Keys - build.Keys;
              && schedule == old(schedule) - missing
              && live == old(live) - missing
              && removed == Remembering(old(live), old(removed), missing)
              && (changed <==> missing != {})
    {
      changed := false;
      var gone := schedule.Keys - build.Keys;
      ghost var retired: set<Key> := {};
      while gone != {}
        invariant EntriesValid()
        invariant gone !! retired && gone + retired == old(live).Keys - build.Keys
        invariant schedule == old(schedule) - retired
        invariant live == old(live) - retired
        invariant removed == Remembering(old(live), old(removed), retired)
        invariant changed <==> retired != {}
      {
        var key :| key in gone;
        RetireStep(old(schedule), retired, key);
        RetireStep(old(live), retired, key);
        RememberStep(old(live), old(removed), retired, key);
        Retire(key);
        changed := true;
        gone, retired := gone - {key}, retired + {key};
      }
    }

    // One turn of the second loop: create or revive a missing entry, update a
    // changed one in place, leave an unchanged one alone.
    method ReconcileKey(key: Key, spec: Spec, now: Time) returns (changed: bool)
      requires EntriesValid()
      modifies `schedule, `removed, `live, `entries, if key in schedule then {schedule[key]} else {}
      ensures EntriesValid() && fresh(entries - old(entries))
      ensures live == old(live)[key := MergedState(old(live), old(removed), key, spec, now)]
      ensures removed == old(removed) - {key}
      ensures key in schedule && schedule == old(schedule)[key := schedule[key]]
      ensures if key in old(schedule) then schedule == old(schedule) else fresh(schedule[key])
      ensures changed <==> key !in old(live) || old(live)[key].spec != spec
    {
      changed := false;
      var created := new Entry(key, spec, now, 0);
      if key !in schedule {
        Admit(created);
        changed := true;
      } else if !schedule[key].EditableFieldsEqual(created) {
        schedule[key].Update(created);
        live := live[key := live[key].(spec := spec)];
        changed := true;
      }
    }

    // A missing entry takes over the run state remembered for its key, if any.
    method Admit(created: Entry)
      requires EntriesValid() && created !in entries && created.name !in schedule
      modifies `schedule, `removed, `live, `entries, created
      ensures EntriesValid() && entries == old(entries) + {created}
      ensures schedule == old(schedule)[created.name := created]
      ensures removed == old(removed) - {created.name}
      ensures var key, spec := created.name, old(created.spec);
              live == old(live)[key :=
                if key in old(removed)
                then EntryState(spec, old(removed)[key].lastRun, old(removed)[key].runs)
                else EntryState(spec, old(created.lastRun), old(created.runs))]
    {
      var key := created.name;
      if key in removed {
        created.lastRun, created.runs := removed[key].lastRun, removed[key].runs;
        removed := removed - {key};
      }
      Place(created);
    }

    // self.schedule[entry.name] = entry
    method Place(entry: Entry)
      requires EntriesValid() && entry !in entries && entry.name !in removed
      modifies `schedule, `live, `entries
      ensures EntriesValid()
      ensures schedule == old(schedule)[entry.name := entry]
      ensures live == old(live)[entry.name := EntryState(entry.spec, entry.lastRun, entry.runs)]
      ensures entries == old(entries) + {entry}
    {
      schedule := schedule[entry.name := entry];
      live := live[entry.name := EntryState(entry.spec, entry.lastRun, entry.runs)];
      entries := entries + {entry};
    }

    // The second loop.
    method Reconcile(build: map<Key, Spec>, clock: Key -> Time) returns (changed: bool)
      requires EntriesValid()
      requires live.Keys <= build.Keys
      modifies `schedule, `removed, `live, `entries, entries
      ensures EntriesValid() && fresh(entries - old(entries))
      ensures live == Reconciled(old(live), old(removed), build, clock, build.Keys)
      ensures removed == old(removed) - build.Keys
      ensures Extends(old(schedule))
      ensures changed <==> AnyNews(old(live), build, build.Keys)
    {
      ghost var live0, removed0, schedule0 := live, removed, schedule;
      ghost var done: set<Key> := {};
      changed := false;
      var todo := build.Keys;
      ReconcileStart(live, removed, build, clock);
      while todo != {}
        invariant EntriesValid()
        invariant todo !! done && todo + done == build.Keys
        invariant live == Reconciled(live0, removed0, build, clock, done)
        invariant removed == removed0 - done
        invariant Extends(schedule0)
        invariant fresh(entries - old(entries))
        invariant changed <==> AnyNews(live0, build, done)
      {
        var key :| key in todo;
        ReconcileStep(live0, removed0, build, clock, done, key, live, removed);
        RetireStep(removed0, done, key);
        var news := ReconcileKey(key, build[key], clock(key));
        changed := changed || news;
        todo, done := todo - {key}, done + {key};
      }
      assert done == build.Keys;
    }

    // _merge_schedule: true exactly when the key-to-spec view changed; false
    // leaves every entry the same object with the same fields.
    method MergeSchedule(build: map<Key, Spec>, clock: Key -> Time) returns (changed: bool)
      requires EntriesValid()
      modifies `schedule, `removed, `live, `entries, entries
      ensures EntriesValid() && fresh(entries - old(entries))
      ensures live == MergedLive(old(live), old(removed), build, clock)
      ensures removed == MergedRemoved(old(live), old(removed), build)
      ensures changed <==> Specs(old(live)) != build
      ensures forall k :: k in old(schedule) && k in schedule ==> schedule[k] == old(schedule)[k]
      ensures !changed ==>
                schedule == old(schedule) && live == old(live) && removed == old(removed)
    {
      ghost var live0, removed0 := live, removed;
      var retired := RetireMissing(build);
      ghost var kept, remembered := live, removed;
      var reconciled := Reconcile(build, clock);
      changed := retired || reconciled;
      MergeEnds(live0, removed0, kept, remembered, build, clock, retired, reconciled);
      if !changed { assert schedule.Keys == old(schedule).Keys; }
    }

    // _refresh_schedule: one refresh step of the abstract machine. Entries
    // that stay keep their identity.
    method RefreshSchedule(now: Time, interval: int, build: Build, clock: Key -> Time)
      requires Valid()
      modifies this, entries
      ensures Valid() && fresh(entries - old(entries))
      ensures View() == DoRefresh(old(View()), Refresh(now, interval, build, clock))
      ensures var waited := old(now - lastRefreshAt);
              if waited >= 1.0 && waited >= interval as real then
                && lastRefreshAt == now
                && (build.Built? && build.specs != map[] ==> Specs(live) == build.specs)
              else View() == old(View()) && schedule == old(schedule)
      ensures forall k :: k in old(schedule) && k in schedule ==> schedule[k] == old(schedule)[k]
    {
      RefreshTiming(View(), now, interval, build, clock);
      if now - lastRefreshAt < Wait(interval) { return; }
      lastRefreshAt := now;
      if build.Failed? || build.specs == map[] { return; }
      var changed := MergeSchedule(build.specs, clock);
      if changed { heap := None; }
    }

    // Celery's populate_heap.
    method PopulateHeap()
      requires Valid()
      modifies `heap
      ensures Valid() && heap.Some? && View() == DoStep(old(View()), Populate)
    {
      heap := Some(map k | k in schedule :: HeapEvent(schedule[k], schedule[k].spec));
    }

    // Celery's handling of a due event, with reserve and heappush: a new entry
    // object takes the fired one's place in the schedule and in the heap.
    method FireEvent(key: Key, at: Time)
      requires Valid() && heap.Some? && key in heap.value
      modifies `schedule, `heap, `live, `entries
      ensures fresh(entries - old(entries))
      ensures Valid() && View() == DoFire(old(View()), key, at)
      ensures key in schedule && fresh(schedule[key])
      ensures schedule == old(schedule)[key := schedule[key]]
    {
      FireMeaning(View(), key, at);
      Succeed(key, at);
    }

    // next(entry), reserved in place of the entry itself.
    method Succeed(key: Key, at: Time)
      requires Valid() && heap.Some? && key in heap.value
      modifies `schedule, `heap, `live, `entries
      ensures Valid() && heap.Some? && fresh(entries - old(entries))
      ensures key in schedule && fresh(schedule[key])
      ensures schedule == old(schedule)[key := schedule[key]]
      ensures live == old(live)[key := Successor(old(live)[key], at)]
    {
      var entry := heap.value[key].entry;
      var next := new Entry(entry.name, entry.spec, at, entry.runs + 1);
      Reserve(next);
    }

    method Reserve(next: Entry)
      requires Valid() && next !in entries
      requires heap.Some? && next.name in heap.value
      modifies `schedule, `heap, `live, `entries
      ensures Valid() && heap.Some?
      ensures schedule == old(schedule)[next.name := next]
      ensures entries == old(entries) + {next}
      ensures live == old(live)[next.name := EntryState(next.spec, next.lastRun, next.runs)]
    {
      Place(next);
      heap := Some(heap.value[next.name := HeapEvent(next, next.spec)]);
    }

    // The library's tick: repopulate a cleared heap, or one it finds outdated
    // itself, and fire at most one due event.
    method LibraryTick(outdated: bool, due: Option<Key>, at: Time)
      requires Valid()
      modifies this
      ensures Valid() && fresh(entries - old(entries))
      ensures View() == TickSteps(old(View()), outdated, due, at)
    {
      if heap.None? || outdated { PopulateHeap(); }
      if due.Some? { FireIfScheduled(due.value, at); }
    }

    method FireIfScheduled(key: Key, at: Time)
      requires Valid() && heap.Some?
      modifies this
      ensures Valid() && fresh(entries - old(entries))
      ensures View() == DoStep(old(View()), Fire(key, at))
    {
      if key in heap.value { FireEvent(key, at); }
    }

    // tick: refresh, then the library's tick.
    method Tick(now: Time, interval: int, build: Build, clock: Key -> Time,
                outdated: bool, due: Option<Key>, at: Time)
      requires Valid()
      modifies this, entries
      ensures Valid() && fresh(entries - old(entries))
      ensures View() == TickSteps(DoStep(old(View()), Refresh(now, interval, build, clock)),
                                  outdated, due, at)
    {
      RefreshSchedule(now, interval, build, clock);
      LibraryTick(outdated, due, at);
    }
  }

  // The steps of the abstract machine that the library's tick takes.
  function TickSteps(b: Beat, outdated: bool, due: Option<Key>, at: Time): Beat {
    var ready := if b.heap.None? || outdated then DoStep(b, Populate) else b;
    if due.Some? then DoStep(ready, Fire(due.value, at)) else ready
  }

  // The memory of removed keys after the given live keys were retired.
  ghost function Remembering(live: map<Key, EntryState>, removed: map<Key, RunState>,
                             retired: set<Key>): map<Key, RunState>
    requires retired <= live.Keys
  {
    map k | k in removed.Keys + retired ::
      if k in retired then StateOf(live[k]) else removed[k]
  }

  lemma RetireStep<V>(m: map<Key, V>, retired: set<Key>, key: Key)
    ensures (m - retired) - {key} == m - (retired + {key})
  {
  }

  lemma RememberStep(live: map<Key, EntryState>, removed: map<Key, RunState>,
                     retired: set<Key>, key: Key)
    requires retired <= live.Keys && key in live
    ensures Remembering(live, removed, retired)[key := StateOf(live[key])]
            == Remembering(live, removed, retired + {key})
  {
  }

  // The live entries after the given keys of a build were reconciled.
  ghost function Reconciled(live: map<Key, EntryState>, removed: map<Key, RunState>,
                            build: map<Key, Spec>, clock: Key -> Time, done: set<Key>)
    : map<Key, EntryState>
    requires done <= build.Keys
  {
    map k | k in live.Keys + done ::
      if k in done then MergedState(live, removed, k, build[k], clock(k)) else live[k]
  }

  lemma ReconcileStart(live: map<Key, EntryState>, removed: map<Key, RunState>,
                       build: map<Key, Spec>, clock: Key -> Time)
    ensures Reconciled(live, removed, build, clock, {}) == live
  {
  }

  lemma ReconcileStep(live: map<Key, EntryState>, removed: map<Key, RunState>,
                      build: map<Key, Spec>, clock: Key -> Time, done: set<Key>, key: Key,
                      now: map<Key, EntryState>, left: map<Key, RunState>)
    requires done <= build.Keys && key in build && key !in done
    requires now == Reconciled(live, removed, build, clock, done) && left == removed - done
    ensures && now[key := MergedState(now, left, key, build[key], clock(key))]
               == Reconciled(live, removed, build, clock, done + {key})
            && (AnyNews(live, build, done + {key}) <==>
                AnyNews(live, build, done) || key !in now || now[key].spec != build[key])
  {
    if AnyNews(live, build, done) {
      var k :| k in done && IsNews(live, build, k);
      assert k in done + {key};
    }
    assert IsNews(live, build, key) ==> key in done + {key} && AnyNews(live, build, done + {key});
  }

  // The two loops together make the merge of the abstract machine.
  lemma MergeMeaning(live: map<Key, EntryState>, removed: map<Key, RunState>,
                     build: map<Key, Spec>, clock: Key -> Time)
    requires live.Keys !! removed.Keys
    ensures var missing := live.Keys - build.Keys;
            var kept, remembered := live - missing, Remembering(live, removed, missing);
            && Reconciled(kept, remembered, build, clock, build.Keys) == MergedLive(live, removed, build, clock)
            && remembered - build.Keys == MergedRemoved(live, removed, build)
            && (Specs(live) != build <==> missing != {} || AnyNews(kept, build, build.Keys))
  {
    var missing := live.Keys - build.Keys;
    if missing == {} {
      assert live - missing == live;
      SpecsDiffer(live, build);
    } else {
      var k :| k in missing;
      assert k in Specs(live) && k !in build;
    }
  }

  // What the two loops leave, given what each of them did.
  lemma MergeEnds(live: map<Key, EntryState>, removed: map<Key, RunState>,
                  kept: map<Key, EntryState>, remembered: map<Key, RunState>,
                  build: map<Key, Spec>, clock: Key -> Time, retired: bool, reconciled: bool)
    requires live.Keys !! removed.Keys
    requires kept == live - (live.Keys - build.Keys)
    requires remembered == Remembering(live, removed, live.Keys - build.Keys)
    requires retired <==> live.Keys - build.Keys != {}
    requires reconciled <==> AnyNews(kept, build, build.Keys)
    ensures Reconciled(kept, remembered, build, clock, build.Keys)
            == MergedLive(live, removed, build, clock)
    ensures remembered - build.Keys == MergedRemoved(live, removed, build)
    ensures retired || reconciled <==> Specs(live) != build
    ensures !retired && !reconciled ==>
              && MergedLive(live, removed, build, clock) == live
              && MergedRemoved(live, removed, build) == removed
              && live.Keys == build.Keys
  {
    MergeMeaning(live, removed, build, clock);
    if Specs(live) == build { UnchangedMerge(live, removed, build, clock); }
  }

  // The build adds or changes k.
  ghost predicate IsNews(live: map<Key, EntryState>, build: map<Key, Spec>, k: Key)
    requires k in build
  {
    k !in live || live[k].spec != build[k]
  }

  ghost predicate AnyNews(live: map<Key, EntryState>, build: map<Key, Spec>, keys: set<Key>)
    requires keys <= build.Keys
  {
    exists k :: k in keys && IsNews(live, build, k)
  }

  lemma SpecsDiffer(live: map<Key, EntryState>, build: map<Key, Spec>)
    requires live.Keys <= build.Keys
    ensures Specs(live) != build <==> AnyNews(live, build, build.Keys)
  {
    if AnyNews(live, build, build.Keys) {
      var k :| k in build && IsNews(live, build, k);
      assert k !in Specs(live) || Specs(live)[k] != build[k];
    } else {
      assert forall k :: k in build ==> !IsNews(live, build, k);
      assert forall k :: k in build ==> Specs(live)[k] == build[k];
      assert Specs(live) == build;
    }
  }
}
