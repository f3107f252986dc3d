// DbScheduler: the beat schedule as an abstract state machine over runs. The
// class in BeatObjects.dfy is proved to implement it on heap-allocated entries.

module BeatScheduler {
  import opened Basics

  type Key = string

  datatype Schedule = Interval(seconds: int) | Crontab(expression: string)

  // The editable fields of an entry.
  datatype Spec = Spec(task: string, schedule: Schedule, args: string, kwargs: string, options: string)

  type Time = real

  // A live entry's value.
  datatype EntryState = EntryState(spec: Spec, lastRun: Time, runs: nat)

  // What is remembered of a key that vanished from a build.
  datatype RunState = RunState(lastRun: Time, runs: nat)

  // A scheduled event: the entry it will fire, and the spec its time was
  // computed from.
  datatype Event = Event(entry: EntryState, timedFor: Spec)

  datatype Beat = Beat(
    live: map<Key, EntryState>,
    removed: map<Key, RunState>,
    heap: Option<map<Key, Event>>,
    lastRefresh: Time)

  // DbScheduler.__init__
  function Initial(): Beat { Beat(map[], map[], None, 0.0) }

  // ---------------------------------------------------------- merge

  function StateOf(e: EntryState): RunState { RunState(e.lastRun, e.runs) }

  // The entry a build leaves under one of its keys: a live or remembered key
  // keeps its run state, a new one starts now.
  function MergedState(live: map<Key, EntryState>, removed: map<Key, RunState>,
                       key: Key, spec: Spec, now: Time): EntryState {
    if key in live then live[key].(spec := spec)
    else if key in removed then EntryState(spec, removed[key].lastRun, removed[key].runs)
    else EntryState(spec, now, 0)
  }

  function MergedLive(live: map<Key, EntryState>, removed: map<Key, RunState>,
                      build: map<Key, Spec>, clock: Key -> Time): map<Key, EntryState> {
    map k | k in build :: MergedState(live, removed, k, build[k], clock(k))
  }

  function MergedRemoved(live: map<Key, EntryState>, removed: map<Key, RunState>,
                         build: map<Key, Spec>): map<Key, RunState> {
    map k | k in live.Keys + removed.Keys && k !in build ::
      if k in live then StateOf(live[k]) else removed[k]
  }

  // The key-to-spec view of the schedule.
  function Specs(live: map<Key, EntryState>): map<Key, Spec> {
    map k | k in live :: live[k].spec
  }

  // ---------------------------------------------------------- steps

  // What build_beat_schedule delivers: an exception, or a dict that may be
  // empty or partial.
  datatype Build = Failed | Built(specs: map<Key, Spec>)

  // One refresh reads the monotonic clock, the interval from the
  // configuration, a build, and the wall clock for every created entry.
  datatype Step =
    | Refresh(now: Time, interval: int, build: Build, clock: Key -> Time)
    | Populate
    | Fire(key: Key, at: Time)

  function Wait(interval: int): Time {
    (if interval > 1 then interval else 1) as real
  }

  predicate IsDue(b: Beat, now: Time, interval: int) {
    now - b.lastRefresh >= Wait(interval)
  }

  predicate IsEffective(b: Beat, s: Step) {
    s.Refresh? && IsDue(b, s.now, s.interval) && s.build.Built? && s.build.specs != map[]
  }

  function DoRefresh(b: Beat, s: Step): Beat
    requires s.Refresh?
  {
    if !IsDue(b, s.now, s.interval) then b
    else if !IsEffective(b, s) then b.(lastRefresh := s.now)
    else
      Beat(MergedLive(b.live, b.removed, s.build.specs, s.clock),
           MergedRemoved(b.live, b.removed, s.build.specs),
           if Specs(b.live) != s.build.specs then None else b.heap,
           s.now)
  }

  // Celery's populate_heap: one event per live entry.
  function Events(live: map<Key, EntryState>): map<Key, Event> {
    map k | k in live :: Event(live[k], live[k].spec)
  }

  // Celery's tick on one due event: the entry is replaced by its successor,
  // in the schedule under the entry's name and in the heap.
  function Successor(e: EntryState, at: Time): EntryState {
    EntryState(e.spec, at, e.runs + 1)
  }

  predicate CanFire(b: Beat, key: Key) {
    b.heap.Some? && key in b.heap.value
  }

  function DoFire(b: Beat, key: Key, at: Time): Beat
    requires CanFire(b, key)
  {
    var next := Successor(b.heap.value[key].entry, at);
    b.(live := b.live[key := next],
       heap := Some(b.heap.value[key := Event(next, next.spec)]))
  }

  lemma FireMeaning(b: Beat, key: Key, at: Time)
    requires key in b.live && b.heap == Some(Events(b.live))
    ensures var live := b.live[key := Successor(b.live[key], at)];
            DoFire(b, key, at) == b.(live := live, heap := Some(Events(live)))
  {
    var live := b.live[key := Successor(b.live[key], at)];
    assert DoFire(b, key, at).heap.value == Events(live);
  }

  // A step that is not possible leaves the state alone.
  function DoStep(b: Beat, s: Step): Beat {
    match s
    case Refresh(_, _, _, _) => DoRefresh(b, s)
    case Populate => b.(heap := Some(Events(b.live)))
    case Fire(key, at) => if CanFire(b, key) then DoFire(b, key, at) else b
  }

  function Run(steps: seq<Step>): Beat {
    if steps == [] then Initial()
    else DoStep(Run(steps[..|steps| - 1]), steps[|steps| - 1])
  }

  // ---------------------------------------------------------- invariants

  // Live and remembered keys are disjoint, and a heap holds exactly one event
  // per live key: its current entry, timed for its current spec.
  ghost predicate Sound(b: Beat) {
    && b.live.Keys !! b.removed.Keys
    && (b.heap.Some? ==> b.heap.value == Events(b.live))
  }

  lemma StepKeepsSound(b: Beat, s: Step)
    requires Sound(b)
    ensures Sound(DoStep(b, s))
  {
    var b' := DoStep(b, s);
    if IsEffective(b, s) && Specs(b.live) == s.build.specs {
      UnchangedMerge(b.live, b.removed, s.build.specs, s.clock);
    }
    if s.Fire? && CanFire(b, s.key) {
      assert b'.heap.value == Events(b'.live);
    }
  }

  // A build with the same keys and specs changes nothing at all.
  lemma UnchangedMerge(live: map<Key, EntryState>, removed: map<Key, RunState>,
                       build: map<Key, Spec>, clock: Key -> Time)
    requires live.Keys !! removed.Keys
    requires Specs(live) == build
    ensures MergedLive(live, removed, build, clock) == live
    ensures MergedRemoved(live, removed, build) == removed
  {
    assert build.Keys == live.Keys;
    forall k | k in build ensures MergedState(live, removed, k, build[k], clock(k)) == live[k] {
      assert build[k] == Specs(live)[k];
    }
  }

  // The waiting time is max(refresh_seconds, 1), written out.
  predicate Waited(b: Beat, now: Time, interval: int) {
    now - b.lastRefresh >= 1.0 && now - b.lastRefresh >= interval as real
  }

  // A refresh acts exactly when both bounds have passed since the last one:
  // then it moves the timer, and a non-empty successful build becomes the live
  // schedule. Before that it leaves everything as it was.
  lemma RefreshTiming(b: Beat, now: Time, interval: int, build: Build, clock: Key -> Time)
    ensures var after := DoStep(b, Refresh(now, interval, build, clock));
            if Waited(b, now, interval) then
              && after.lastRefresh == now
              && (build.Built? && build.specs != map[] ==> Specs(after.live) == build.specs)
              && (build.Failed? || build.specs == map[] ==> after == b.(lastRefresh := now))
            else after == b
  {
  }

  // A failed or empty build costs nothing but the timer, and so does a build
  // that brings what is already there: the heap is not rebuilt for it.
  lemma RefreshWithoutNews(b: Beat, s: Step)
    requires Sound(b) && s.Refresh?
    requires IsEffective(b, s) ==> s.build.specs == Specs(b.live)
    ensures DoStep(b, s) ==
            b.(lastRefresh := if IsDue(b, s.now, s.interval) then s.now else b.lastRefresh)
  {
    if IsEffective(b, s) {
      UnchangedMerge(b.live, b.removed, s.build.specs, s.clock);
    }
  }

  lemma {:induction false} RunIsSound(steps: seq<Step>)
    ensures Sound(Run(steps))
  {
    if steps != [] {
      RunIsSound(steps[..|steps| - 1]);
      StepKeepsSound(Run(steps[..|steps| - 1]), steps[|steps| - 1]);
    }
  }

  // ---------------------------------------------------------- the last build

  // The specs of the last effective build of a run.
  function LastBuild(steps: seq<Step>): map<Key, Spec> {
    if steps == [] then map[]
    else
      var before, s := steps[..|steps| - 1], steps[|steps| - 1];
      if IsEffective(Run(before), s) then s.build.specs else LastBuild(before)
  }

  // After any run the live schedule carries exactly the specs of the last
  // non-empty successful build.
  lemma {:induction false} LiveIsLastBuild(steps: seq<Step>)
    ensures Specs(Run(steps).live) == LastBuild(steps)
  {
    if steps != [] {
      var before, s := steps[..|steps| - 1], steps[|steps| - 1];
      LiveIsLastBuild(before);
      RunIsSound(before);
      var b := Run(before);
      if s.Fire? && CanFire(b, s.key) {
        assert b.heap.value[s.key] == Events(b.live)[s.key];
        assert Specs(DoFire(b, s.key, s.at).live) == Specs(b.live);
      }
    }
  }

  // No removed key and no stale spec ever fires: whatever fires at any point
  // of any run is a key of the last effective build, with that build's spec,
  // at a time computed for that spec, and on the live entry's own counters.
  lemma FiringIsCurrent(steps: seq<Step>, key: Key)
    requires CanFire(Run(steps), key)
    ensures key in LastBuild(steps) && key in Run(steps).live && key !in Run(steps).removed
    ensures var e := Run(steps).heap.value[key];
            && e.entry == Run(steps).live[key]
            && e.entry.spec == e.timedFor == LastBuild(steps)[key]
  {
    RunIsSound(steps);
    LiveIsLastBuild(steps);
    assert Run(steps).heap.value[key] == Events(Run(steps).live)[key];
    assert Specs(Run(steps).live)[key] == Run(steps).live[key].spec;
  }

  // ---------------------------------------------------------- cadence

  // The reference account of one key: it starts counting at the first
  // effective build that names it, and from then on only its own firings
  // matter, however often the key vanishes and returns.
  function Account(steps: seq<Step>, key: Key): Option<RunState> {
    if steps == [] then None
    else
      var before, s := steps[..|steps| - 1], steps[|steps| - 1];
      var account := Account(before, key);
      if IsEffective(Run(before), s) && key in s.build.specs && account.None? then
        Some(RunState(s.clock(key), 0))
      else if s.Fire? && s.key == key && CanFire(Run(before), key) && account.Some? then
        Some(RunState(s.at, account.value.runs + 1))
      else account
  }

  // How often a key fired.
  function Firings(steps: seq<Step>, key: Key): nat {
    if steps == [] then 0
    else
      var before, s := steps[..|steps| - 1], steps[|steps| - 1];
      Firings(before, key)
      + if s.Fire? && s.key == key && CanFire(Run(before), key) then 1 else 0
  }

  // The keys of all effective builds.
  function EverBuilt(steps: seq<Step>): set<Key> {
    if steps == [] then {}
    else
      var before, s := steps[..|steps| - 1], steps[|steps| - 1];
      EverBuilt(before) + if IsEffective(Run(before), s) then s.build.specs.Keys else {}
  }

  // What the scheduler knows of a key, live or remembered.
  function Known(b: Beat, key: Key): Option<RunState> {
    if key in b.live then Some(StateOf(b.live[key]))
    else if key in b.removed then Some(b.removed[key])
    else None
  }

  lemma StepKeepsAccount(b: Beat, s: Step, key: Key)
    requires Sound(b)
    ensures Known(DoStep(b, s), key) ==
            if IsEffective(b, s) && key in s.build.specs && Known(b, key).None? then
              Some(RunState(s.clock(key), 0))
            else if s.Fire? && s.key == key && CanFire(b, key) then
              Some(RunState(s.at, Known(b, key).value.runs + 1))
            else Known(b, key)
  {
    if s.Fire? && CanFire(b, s.key) {
      assert b.heap.value[s.key] == Events(b.live)[s.key];
    }
  }

  // Cadence is conserved over whole runs.
  lemma {:induction false} CadenceIsConserved(steps: seq<Step>, key: Key)
    ensures Known(Run(steps), key) == Account(steps, key)
    ensures Account(steps, key).Some? ==> Account(steps, key).value.runs == Firings(steps, key)
    ensures Account(steps, key).Some? <==> key in EverBuilt(steps)
    ensures Firings(steps, key) > 0 ==> key in EverBuilt(steps)
  {
    if steps != [] {
      var before, s := steps[..|steps| - 1], steps[|steps| - 1];
      CadenceIsConserved(before, key);
      RunIsSound(before);
      StepKeepsAccount(Run(before), s, key);
      if CanFire(Run(before), key) {
        FiringIsCurrent(before, key);
      }
    }
  }

  // Live and remembered keys are disjoint and together are exactly the keys
  // ever built.
  lemma KnownKeysAreEverBuilt(steps: seq<Step>)
    ensures Run(steps).live.Keys !! Run(steps).removed.Keys
    ensures Run(steps).live.Keys + Run(steps).removed.Keys == EverBuilt(steps)
  {
    RunIsSound(steps);
    forall key ensures key in EverBuilt(steps) <==>
                       key in Run(steps).live.Keys + Run(steps).removed.Keys {
      CadenceIsConserved(steps, key);
    }
  }

  // ---------------------------------------------------------- build rate

  // The monotonic times at which a run attempted a build.
  function Attempts(steps: seq<Step>): seq<Time> {
    if steps == [] then []
    else
      var before, s := steps[..|steps| - 1], steps[|steps| - 1];
      Attempts(before)
      + if s.Refresh? && IsDue(Run(before), s.now, s.interval) then [s.now] else []
  }

  ghost predicate IntervalAtLeast(steps: seq<Step>, wait: Time) {
    forall i :: 0 <= i < |steps| && steps[i].Refresh? ==>
      wait <= 1.0 || wait <= steps[i].interval as real
  }

  // An attempt is made exactly when both bounds have passed since the last one.
  lemma AttemptedExactly(before: seq<Step>, s: Step)
    ensures Attempts(before + [s]) ==
            if s.Refresh? && Waited(Run(before), s.now, s.interval)
            then Attempts(before) + [s.now] else Attempts(before)
  {
    var steps := before + [s];
    assert steps[..|steps| - 1] == before && steps[|steps| - 1] == s;
  }

  ghost predicate Spread(times: seq<Time>, wait: Time) {
    forall i, j :: 0 <= i && j == i + 1 < |times| ==> times[j] - times[i] >= wait
  }

  lemma SpreadAppend(times: seq<Time>, next: Time, wait: Time)
    requires Spread(times, wait)
    requires times != [] ==> next - times[|times| - 1] >= wait
    ensures Spread(times + [next], wait)
  {
  }

  // The attempts lie apart, the first one not before the wait has passed on the
  // clock, and the timer stands at the last.
  ghost predicate IsPaced(times: seq<Time>, lastRefresh: Time, wait: Time) {
    && lastRefresh == (if times == [] then 0.0 else times[|times| - 1])
    && (times != [] ==> times[0] >= wait)
    && Spread(times, wait)
  }

  lemma StepIsPaced(b: Beat, s: Step, times: seq<Time>, wait: Time)
    requires IsPaced(times, b.lastRefresh, wait)
    requires s.Refresh? ==> wait <= 1.0 || wait <= s.interval as real
    ensures IsPaced(if s.Refresh? && Waited(b, s.now, s.interval) then times + [s.now] else times,
                    DoStep(b, s).lastRefresh, wait)
  {
    if s.Refresh? {
      RefreshTiming(b, s.now, s.interval, s.build, s.clock);
      if Waited(b, s.now, s.interval) { SpreadAppend(times, s.now, wait); }
    }
  }

  // Consecutive attempts lie at least one waiting time apart, and the first
  // one does not come before one waiting time on the monotonic clock.
  lemma {:induction false} AttemptsSpread(steps: seq<Step>, wait: Time)
    requires IntervalAtLeast(steps, wait)
    ensures IsPaced(Attempts(steps), Run(steps).lastRefresh, wait)
  {
    if steps != [] {
      var before, s := steps[..|steps| - 1], steps[|steps| - 1];
      AttemptsSpread(before, wait);
      AttemptedExactly(before, s);
      assert before + [s] == steps;
      StepIsPaced(Run(before), s, Attempts(before), wait);
    }
  }

  lemma {:induction false} SpreadApart(a: seq<Time>, wait: Time, i: nat, j: nat)
    requires Spread(a, wait)
    requires i <= j < |a|
    ensures a[j] - a[i] >= (j - i) as real * wait
    decreases j - i
  {
    if i < j {
      SpreadApart(a, wait, i, j - 1);
      assert (j - i) as real * wait == (j - 1 - i) as real * wait + wait;
    }
  }

  // The attempts i..j of a run that fall within a window of length T number
  // at most floor(T / R) + 1, where R = max(refresh_seconds, 1).
  lemma AttemptRate(steps: seq<Step>, interval: int, i: nat, j: nat, window: Time)
    requires forall k :: 0 <= k < |steps| && steps[k].Refresh? ==> steps[k].interval >= interval
    requires i <= j < |Attempts(steps)|
    requires Attempts(steps)[j] - Attempts(steps)[i] <= window
    ensures j - i + 1 <= (window / (if interval > 1 then interval as real else 1.0)).Floor + 1
  {
    var r := if interval > 1 then interval as real else 1.0;
    assert r == Wait(interval);
    AttemptsSpread(steps, r);
    SpreadApart(Attempts(steps), r, i, j);
    RateBound(j - i, r, Attempts(steps)[j] - Attempts(steps)[i], window);
  }

  lemma RateBound(n: nat, r: real, span: real, window: real)
    requires r > 0.0 && n as real * r <= span <= window
    ensures n <= (window / r).Floor
  {
    QuotientBound(n as real, r, window);
  }

  lemma QuotientBound(n: real, r: real, t: real)
    requires r > 0.0
    ensures n * r <= t ==> n <= t / r
  {
    var q := t / r;
    if n > q {
      assert (n - q) * r > 0.0;
      assert n * r > q * r == t;
    }
  }

  // The very first refresh may be skipped: while the monotonic clock is below
  // the interval nothing is loaded, whatever the build would deliver.
  lemma FirstRefreshMayBeSkipped(s: Step)
    requires s.Refresh?
    ensures Run([s]) == Initial() <==> s.now < 1.0 || s.now < s.interval as real
  {
    assert [s][..0] == [];
    assert Run([s]) == DoStep(Run([]), s);
  }
}
