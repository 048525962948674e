/**
 bitbake/lib/bb/monitordisk.py, `diskMonitor.check`: what is said and done while the free space or the
 free inodes of a directory are below their minimum.
 */
module DiskMonitor {
  import opened Options

  datatype Action = WARN | STOPTASKS | HALT

  /** The key of `devDict`. */
  datatype Key = Key(path: string, action: Action)

  /** What `os.statvfs` answers: free bytes, all inodes, and free inodes (-1 on some file systems). */
  datatype Sample = Sample(freeSpace: nat, files: nat, freeInode: int)

  /** The entries of `devDict`, `preFreeS`, `preFreeI` and `checked` under one key. */
  datatype KeyState = KeyState(minSpace: Option<int>, minInode: Option<int>, preS: int, preI: int, checked: bool)

  datatype Limits = Limits(spaceInterval: nat, inodeInterval: nat)

  datatype Event = WarnSpace(free: int) | WarnInode(free: int) | Finish(halt: bool)

  predicate IsLow(min: Option<int>, free: int) {
    min.Some? && min.value != 0 && free < min.value
  }

  predicate Warns(pre: int, free: int, interval: nat, checked: bool) {
    pre == 0 || (pre - free > interval && !checked)
  }

  /** Some file systems cannot run out of inodes; they report none at all, or -1 free ones. */
  predicate Dynamic(sample: Sample) {
    sample.files == 0 || sample.freeInode == -1
  }

  function StopEvents(action: Action, checked: bool): seq<Event> {
    if action == WARN || checked then [] else [Finish(action == HALT)]
  }

  function SpaceEvents(s: KeyState, action: Action, l: Limits, sample: Sample): seq<Event> {
    if !IsLow(s.minSpace, sample.freeSpace) then []
    else if Warns(s.preS, sample.freeSpace, l.spaceInterval, s.checked) then
      [WarnSpace(sample.freeSpace)] + StopEvents(action, s.checked)
    else StopEvents(action, s.checked)
  }

  function AfterSpace(s: KeyState, action: Action, l: Limits, sample: Sample): KeyState {
    if !IsLow(s.minSpace, sample.freeSpace) then s
    else s.(preS := if Warns(s.preS, sample.freeSpace, l.spaceInterval, s.checked) then sample.freeSpace else s.preS,
            checked := s.checked || action != WARN)
  }

  function InodeEvents(s: KeyState, action: Action, l: Limits, sample: Sample): seq<Event> {
    if !IsLow(s.minInode, sample.freeInode) || Dynamic(sample) then []
    else if Warns(s.preI, sample.freeInode, l.inodeInterval, s.checked) then
      [WarnInode(sample.freeInode)] + StopEvents(action, s.checked)
    else StopEvents(action, s.checked)
  }

  function AfterInode(s: KeyState, action: Action, l: Limits, sample: Sample): KeyState {
    if !IsLow(s.minInode, sample.freeInode) then s
    else if Dynamic(sample) then s.(minInode := None)
    else s.(preI := if Warns(s.preI, sample.freeInode, l.inodeInterval, s.checked) then sample.freeInode else s.preI,
            checked := s.checked || action != WARN)
  }

  /** One turn of the loop of `check` for one key. */
  function EventsOf(s: KeyState, action: Action, l: Limits, sample: Sample): seq<Event> {
    SpaceEvents(s, action, l, sample) + InodeEvents(AfterSpace(s, action, l, sample), action, l, sample)
  }

  function Next(s: KeyState, action: Action, l: Limits, sample: Sample): KeyState {
    AfterInode(AfterSpace(s, action, l, sample), action, l, sample)
  }

  class Monitor {
    const limits: Limits
    const keys: seq<Key>
    var state: map<Key, KeyState>

    ghost predicate Valid() reads this {
      && (forall k :: k in keys ==> k in state)
      && forall i, j :: 0 <= i < j < |keys| ==> keys[i] != keys[j]
    }

    /** The fields start at 0 and False for every key. */
    constructor (limits: Limits, keys: seq<Key>, minima: map<Key, (Option<int>, Option<int>)>)
      requires (forall k :: k in keys ==> k in minima) && forall i, j :: 0 <= i < j < |keys| ==> keys[i] != keys[j]
      ensures Valid() && this.limits == limits && this.keys == keys
      ensures forall k :: k in keys ==> state[k] == KeyState(minima[k].0, minima[k].1, 0, 0, false)
    {
      this.limits, this.keys := limits, keys;
      state := map k | k in minima :: KeyState(minima[k].0, minima[k].1, 0, 0, false);
    }

    /** The space half of the loop body. */
    method CheckSpace(k: Key, sample: Sample) returns (events: seq<Event>)
      requires k in state
      modifies this
      ensures events == SpaceEvents(old(state[k]), k.action, limits, sample)
      ensures state == old(state)[k := AfterSpace(old(state[k]), k.action, limits, sample)]
    {
      events := [];
      var s := state[k];
      if s.minSpace.Some? && s.minSpace.value != 0 && sample.freeSpace < s.minSpace.value {
        if s.preS == 0 || (s.preS - sample.freeSpace > limits.spaceInterval && !s.checked) {
          events := events + [WarnSpace(sample.freeSpace)];
          s := s.(preS := sample.freeSpace);
        }
        if k.action == STOPTASKS && !s.checked {
          s := s.(checked := true);
          events := events + [Finish(false)];
        } else if k.action == HALT && !s.checked {
          s := s.(checked := true);
          events := events + [Finish(true)];
        }
      }
      state := state[k := s];
    }

    /** The inode half. */
    method CheckInode(k: Key, sample: Sample) returns (events: seq<Event>)
      requires k in state
      modifies this
      ensures events == InodeEvents(old(state[k]), k.action, limits, sample)
      ensures state == old(state)[k := AfterInode(old(state[k]), k.action, limits, sample)]
    {
      events := [];
      var s := state[k];
      if s.minInode.Some? && s.minInode.value != 0 && sample.freeInode < s.minInode.value {
        if sample.files == 0 || sample.freeInode == -1 {
          state := state[k := s.(minInode := None)];
          return;
        }
        if s.preI == 0 || (s.preI - sample.freeInode > limits.inodeInterval && !s.checked) {
          events := events + [WarnInode(sample.freeInode)];
          s := s.(preI := sample.freeInode);
        }
        if k.action == STOPTASKS && !s.checked {
          s := s.(checked := true);
          events := events + [Finish(false)];
        } else if k.action == HALT && !s.checked {
          s := s.(checked := true);
          events := events + [Finish(true)];
        }
      }
      state := state[k := s];
    }

    /** The body of the loop of `check`. */
    method CheckKey(k: Key, sample: Sample) returns (events: seq<Event>)
      requires k in state
      modifies this
      ensures events == EventsOf(old(state[k]), k.action, limits, sample)
      ensures state == old(state)[k := Next(old(state[k]), k.action, limits, sample)]
    {
      hide SpaceEvents, InodeEvents, AfterSpace, AfterInode;
      var space := CheckSpace(k, sample);
      var inode := CheckInode(k, sample);
      events := space + inode;
    }

    /** `check`; the keys do not influence each other. */
    method Check(samples: map<Key, Sample>) returns (events: map<Key, seq<Event>>)
      requires Valid() && forall k :: k in keys ==> k in samples
      modifies this
      ensures Valid() && forall k :: k in keys ==>
        && k in events && events[k] == EventsOf(old(state)[k], k.action, limits, samples[k])
        && state[k] == Next(old(state)[k], k.action, limits, samples[k])
    {
      hide EventsOf, Next;
      events := map[];
      for i := 0 to |keys|
        invariant Valid()
        invariant forall j :: 0 <= j < i ==>
          && keys[j] in events && events[keys[j]] == EventsOf(old(state)[keys[j]], keys[j].action, limits, samples[keys[j]])
          && state[keys[j]] == Next(old(state)[keys[j]], keys[j].action, limits, samples[keys[j]])
        invariant forall j :: i <= j < |keys| ==> state[keys[j]] == old(state)[keys[j]]
      {
        var more := CheckKey(keys[i], samples[keys[i]]);
        events := events[keys[i] := more];
      }
    }
  }

  // ---- runs ----

  /** A key after a run of `check`s. */
  function After(s: KeyState, action: Action, l: Limits, run: seq<Sample>): KeyState {
    if run == [] then s else Next(After(s, action, l, run[..|run| - 1]), action, l, run[|run| - 1])
  }

  function AllEvents(s: KeyState, action: Action, l: Limits, run: seq<Sample>): seq<Event> {
    if run == [] then [] else
      var init := run[..|run| - 1];
      AllEvents(s, action, l, init) + EventsOf(After(s, action, l, init), action, l, run[|run| - 1])
  }

  datatype Kind = SpaceWarning | InodeWarning | Stop

  function KindOf(e: Event): Kind {
    match e
    case WarnSpace(_) => SpaceWarning
    case WarnInode(_) => InodeWarning
    case Finish(_) => Stop
  }

  function Count(events: seq<Event>, kind: Kind): nat {
    if events == [] then 0 else
      Count(events[..|events| - 1], kind) + if KindOf(events[|events| - 1]) == kind then 1 else 0
  }

  lemma {:induction false} CountJoin(a: seq<Event>, b: seq<Event>, kind: Kind)
    ensures Count(a + b, kind) == Count(a, kind) + Count(b, kind)
    decreases |b|
  {
    if b == [] {
      assert a + b == a;
    } else {
      CountJoin(a, b[..|b| - 1], kind);
      assert (a + b)[..|a + b| - 1] == a + b[..|b| - 1];
    }
  }

  lemma CountStops(action: Action, checked: bool, kind: Kind)
    ensures Count(StopEvents(action, checked), kind) == if kind == Stop && action != WARN && !checked then 1 else 0
  {
  }

  lemma SpaceCounts(s: KeyState, action: Action, l: Limits, sample: Sample, kind: Kind)
    ensures var low := IsLow(s.minSpace, sample.freeSpace);
      Count(SpaceEvents(s, action, l, sample), kind) ==
        match kind
        case SpaceWarning => if low && Warns(s.preS, sample.freeSpace, l.spaceInterval, s.checked) then 1 else 0
        case InodeWarning => 0
        case Stop => if low && action != WARN && !s.checked then 1 else 0
  {
    CountStops(action, s.checked, kind);
    CountJoin([WarnSpace(sample.freeSpace)], StopEvents(action, s.checked), kind);
  }

  lemma InodeCounts(s: KeyState, action: Action, l: Limits, sample: Sample, kind: Kind)
    ensures var low := IsLow(s.minInode, sample.freeInode) && !Dynamic(sample);
      Count(InodeEvents(s, action, l, sample), kind) ==
        match kind
        case SpaceWarning => 0
        case InodeWarning => if low && Warns(s.preI, sample.freeInode, l.inodeInterval, s.checked) then 1 else 0
        case Stop => if low && action != WARN && !s.checked then 1 else 0
  {
    CountStops(action, s.checked, kind);
    CountJoin([WarnInode(sample.freeInode)], StopEvents(action, s.checked), kind);
  }

  /** One more `check` adds its own events. */
  lemma TurnCounts(s: KeyState, action: Action, l: Limits, run: seq<Sample>, kind: Kind)
    requires run != []
    ensures var before, sample := After(s, action, l, run[..|run| - 1]), run[|run| - 1];
      Count(AllEvents(s, action, l, run), kind) == Count(AllEvents(s, action, l, run[..|run| - 1]), kind)
        + Count(SpaceEvents(before, action, l, sample), kind)
        + Count(InodeEvents(AfterSpace(before, action, l, sample), action, l, sample), kind)
  {
    var before, sample := After(s, action, l, run[..|run| - 1]), run[|run| - 1];
    CountJoin(AllEvents(s, action, l, run[..|run| - 1]), EventsOf(before, action, l, sample), kind);
    CountJoin(SpaceEvents(before, action, l, sample),
              InodeEvents(AfterSpace(before, action, l, sample), action, l, sample), kind);
  }

  ghost predicate Fresh(s: KeyState) {
    s.preS == 0 && s.preI == 0 && !s.checked
  }

  lemma OneMore(w: int, c: int)
    ensures w * c == (w - 1) * c + c
  {
  }

  /** After `w` warnings at one level each, the last level warned at is this far below the minimum. */
  ghost predicate Descended(w: nat, pre: int, min: int, interval: nat) {
    if w == 0 then pre == 0 else pre >= 1 && pre + (w - 1) * (interval + 1) <= min - 1
  }

  lemma DescendedStep(w: nat, pre: int, min: int, interval: nat, free: int, checked: bool)
    requires Descended(w, pre, min, interval) && 0 < free < min && Warns(pre, free, interval, checked)
    ensures Descended(w + 1, free, min, interval)
  {
    if w > 0 { OneMore(w, interval + 1); }
  }

  lemma DescendedBound(w: nat, pre: int, min: int, interval: nat)
    requires Descended(w, pre, min, interval) && min > 0
    ensures (w - 1) * (interval + 1) <= min - 2
  {
    if w == 0 { OneMore(0, interval + 1); }
  }

  /** Free space is never quite gone. */
  ghost predicate SpaceLeft(run: seq<Sample>) {
    forall i :: 0 <= i < |run| ==> run[i].freeSpace > 0
  }

  ghost predicate InodesLeft(run: seq<Sample>) {
    forall i :: 0 <= i < |run| ==> run[i].freeInode > 0 || Dynamic(run[i])
  }

  /** What a run of `w` space warnings leaves behind. */
  ghost predicate SpaceOk(w: nat, s: KeyState, action: Action, min: int, interval: nat) {
    && s.minSpace == Some(min) && Descended(w, s.preS, min, interval)
    && (action != WARN ==> w <= 1 && (w == 1 ==> s.checked))
  }

  lemma SpaceTurn(w: nat, s: KeyState, action: Action, l: Limits, min: int, sample: Sample)
    requires SpaceOk(w, s, action, min, l.spaceInterval) && sample.freeSpace > 0
    ensures var warns := IsLow(s.minSpace, sample.freeSpace) && Warns(s.preS, sample.freeSpace, l.spaceInterval, s.checked);
      SpaceOk(if warns then w + 1 else w, Next(s, action, l, sample), action, min, l.spaceInterval)
  {
    if IsLow(s.minSpace, sample.freeSpace) && Warns(s.preS, sample.freeSpace, l.spaceInterval, s.checked) {
      DescendedStep(w, s.preS, min, l.spaceInterval, sample.freeSpace, s.checked);
    }
  }

  lemma SpaceStart(s: KeyState, action: Action, l: Limits)
    requires Fresh(s) && s.minSpace.Some?
    ensures Count(AllEvents(s, action, l, []), SpaceWarning) == 0
    ensures SpaceOk(0, s, action, s.minSpace.value, l.spaceInterval)
  {
  }

  lemma {:induction false} SpaceDescends(s: KeyState, action: Action, l: Limits, run: seq<Sample>)
    requires Fresh(s) && s.minSpace.Some? && SpaceLeft(run)
    ensures SpaceOk(Count(AllEvents(s, action, l, run), SpaceWarning), After(s, action, l, run), action,
                    s.minSpace.value, l.spaceInterval)
    decreases |run|
  {
    hide Count, SpaceEvents, InodeEvents, AllEvents, SpaceOk, Next, IsLow, Warns;
    if run == [] {
      SpaceStart(s, action, l);
    } else {
      var init, sample := run[..|run| - 1], run[|run| - 1];
      SpaceDescends(s, action, l, init);
      var before := After(s, action, l, init);
      TurnCounts(s, action, l, run, SpaceWarning);
      SpaceCounts(before, action, l, sample, SpaceWarning);
      InodeCounts(AfterSpace(before, action, l, sample), action, l, sample, SpaceWarning);
      SpaceTurn(Count(AllEvents(s, action, l, init), SpaceWarning), before, action, l, s.minSpace.value, sample);
    }
  }

  /** While some space is left, warnings are at least an interval apart, so there are not many. */
  lemma SpaceWarningBound(s: KeyState, action: Action, l: Limits, run: seq<Sample>)
    requires Fresh(s) && s.minSpace.Some? && s.minSpace.value > 0 && SpaceLeft(run)
    ensures var w := Count(AllEvents(s, action, l, run), SpaceWarning);
      && (w - 1) * (l.spaceInterval + 1) <= s.minSpace.value - 2
      && (action != WARN ==> w <= 1)
  {
    hide Descended, Count, AllEvents, After;
    SpaceDescends(s, action, l, run);
    DescendedBound(Count(AllEvents(s, action, l, run), SpaceWarning), After(s, action, l, run).preS,
                   s.minSpace.value, l.spaceInterval);
  }

  lemma {:induction false} InodesDescend(s: KeyState, action: Action, l: Limits, run: seq<Sample>)
    requires Fresh(s) && s.minInode.Some? && InodesLeft(run)
    ensures var w, now := Count(AllEvents(s, action, l, run), InodeWarning), After(s, action, l, run);
      && (now.minInode == s.minInode || now.minInode == None)
      && Descended(w, now.preI, s.minInode.value, l.inodeInterval)
      && (action != WARN ==> w <= 1 && (w == 1 ==> now.checked))
    decreases |run|
  {
    if run != [] {
      hide Count, SpaceEvents, InodeEvents, AllEvents;
      var init, sample := run[..|run| - 1], run[|run| - 1];
      InodesDescend(s, action, l, init);
      var before := After(s, action, l, init);
      var mid := AfterSpace(before, action, l, sample);
      TurnCounts(s, action, l, run, InodeWarning);
      SpaceCounts(before, action, l, sample, InodeWarning);
      InodeCounts(mid, action, l, sample, InodeWarning);
      var low := IsLow(mid.minInode, sample.freeInode) && !Dynamic(sample);
      if low && Warns(mid.preI, sample.freeInode, l.inodeInterval, mid.checked) {
        DescendedStep(Count(AllEvents(s, action, l, init), InodeWarning), before.preI, s.minInode.value,
                      l.inodeInterval, sample.freeInode, mid.checked);
      }
    }
  }

  lemma InodeWarningBound(s: KeyState, action: Action, l: Limits, run: seq<Sample>)
    requires Fresh(s) && s.minInode.Some? && s.minInode.value > 0 && InodesLeft(run)
    ensures var w := Count(AllEvents(s, action, l, run), InodeWarning);
      && (w - 1) * (l.inodeInterval + 1) <= s.minInode.value - 2
      && (action != WARN ==> w <= 1)
  {
    hide Descended, Count, AllEvents, After;
    InodesDescend(s, action, l, run);
    DescendedBound(Count(AllEvents(s, action, l, run), InodeWarning), After(s, action, l, run).preI,
                   s.minInode.value, l.inodeInterval);
  }

  // ---- two successive warnings ----

  /** Check `i` of the run warns about the space. */
  ghost predicate WarnsAt(s: KeyState, action: Action, l: Limits, run: seq<Sample>, i: nat)
    requires i < |run|
  {
    var before := After(s, action, l, run[..i]);
    IsLow(before.minSpace, run[i].freeSpace) && Warns(before.preS, run[i].freeSpace, l.spaceInterval, before.checked)
  }

  /** Check `j` is the next to warn after check `i`. */
  ghost predicate NextWarning(s: KeyState, action: Action, l: Limits, run: seq<Sample>, i: nat, j: nat) {
    && i < j < |run| && WarnsAt(s, action, l, run, i) && WarnsAt(s, action, l, run, j)
    && forall k :: i < k < j ==> !WarnsAt(s, action, l, run, k)
  }

  lemma AfterOneMore(s: KeyState, action: Action, l: Limits, run: seq<Sample>, k: nat)
    requires k < |run|
    ensures var before, after := After(s, action, l, run[..k]), After(s, action, l, run[..k + 1]);
      && after.minSpace == before.minSpace
      && after.preS == if WarnsAt(s, action, l, run, k) then run[k].freeSpace else before.preS
  {
    assert run[..k + 1][..k] == run[..k];
  }

  /** Until the next warning the level of the last one is remembered. */
  lemma {:induction false} LevelStays(s: KeyState, action: Action, l: Limits, run: seq<Sample>, i: nat, k: nat)
    requires i < k <= |run| && WarnsAt(s, action, l, run, i)
    requires forall m :: i < m < k ==> !WarnsAt(s, action, l, run, m)
    ensures After(s, action, l, run[..k]).preS == run[i].freeSpace
    decreases k
  {
    hide WarnsAt, After;
    if k > i + 1 { LevelStays(s, action, l, run, i, k - 1); }
    AfterOneMore(s, action, l, run, k - 1);
  }

  lemma {:induction false} MinimumStays(s: KeyState, action: Action, l: Limits, run: seq<Sample>, k: nat)
    requires k <= |run|
    ensures After(s, action, l, run[..k]).minSpace == s.minSpace
  {
    if k > 0 {
      MinimumStays(s, action, l, run, k - 1);
      AfterOneMore(s, action, l, run, k - 1);
    }
  }

  /** All pairs of successive warnings, the first at level `a`, are more than the interval apart. */
  ghost predicate Apart(s: KeyState, action: Action, l: Limits, a: nat) {
    forall run: seq<Sample>, i: nat, j: nat :: NextWarning(s, action, l, run, i, j) && run[i].freeSpace == a ==>
      a - run[j].freeSpace > l.spaceInterval
  }

  /** The interval is kept after a warning at level `a` exactly if that level is not 0. */
  lemma ApartIff(s: KeyState, action: Action, l: Limits, a: nat)
    requires Fresh(s) && s.minSpace.Some? && a < s.minSpace.value
    ensures Apart(s, action, l, a) <==> a != 0
  {
    if a != 0 {
      forall run: seq<Sample>, i: nat, j: nat | NextWarning(s, action, l, run, i, j) && run[i].freeSpace == a
        ensures a - run[j].freeSpace > l.spaceInterval
      {
        LevelStays(s, action, l, run, i, j);
      }
    } else {
      TwiceFull(s, action, l);
    }
  }

  /** The disk is full at two checks in a row: both warn. */
  lemma TwiceFull(s: KeyState, action: Action, l: Limits)
    requires Fresh(s) && s.minSpace.Some? && s.minSpace.value > 0
    ensures !Apart(s, action, l, 0)
  {
    var full := Sample(0, 0, 0);
    var run := [full, full];
    assert run[..0] == [] && run[..1] == [full];
    AfterOneMore(s, action, l, run, 0);
    assert NextWarning(s, action, l, run, 0, 1);
  }

  /** After a warning at level 0 every check that finds the space low warns, whatever is free. */
  lemma ZeroForgets(s: KeyState, action: Action, l: Limits, run: seq<Sample>, i: nat)
    requires i + 1 < |run| && WarnsAt(s, action, l, run, i) && run[i].freeSpace == 0
    ensures WarnsAt(s, action, l, run, i + 1) <==> IsLow(s.minSpace, run[i + 1].freeSpace)
  {
    LevelStays(s, action, l, run, i, i + 1);
    MinimumStays(s, action, l, run, i + 1);
  }

  /** A key stops the run queue once, by either of its checks, and never if it only warns. */
  lemma {:induction false} StopsOnce(s: KeyState, action: Action, l: Limits, run: seq<Sample>)
    requires Fresh(s)
    ensures var stops := Count(AllEvents(s, action, l, run), Stop);
      && stops == (if After(s, action, l, run).checked then 1 else 0)
      && (action == WARN ==> stops == 0)
    decreases |run|
  {
    if run != [] {
      var init, sample := run[..|run| - 1], run[|run| - 1];
      StopsOnce(s, action, l, init);
      var before := After(s, action, l, init);
      TurnCounts(s, action, l, run, Stop);
      SpaceCounts(before, action, l, sample, Stop);
      InodeCounts(AfterSpace(before, action, l, sample), action, l, sample, Stop);
    }
  }

  /** HALT stops the running tasks too; STOPTASKS lets them finish. */
  lemma {:induction false} StopKind(s: KeyState, action: Action, l: Limits, run: seq<Sample>, e: Event)
    requires e in AllEvents(s, action, l, run) && e.Finish?
    ensures action != WARN && (e.halt <==> action == HALT)
    decreases |run|
  {
    var init, sample := run[..|run| - 1], run[|run| - 1];
    if e in AllEvents(s, action, l, init) { StopKind(s, action, l, init, e); }
  }

  /** Whether one `check` finds the key low. */
  predicate FindsLow(s: KeyState, sample: Sample) {
    IsLow(s.minSpace, sample.freeSpace) || (IsLow(s.minInode, sample.freeInode) && !Dynamic(sample))
  }

  ghost predicate EverLow(s: KeyState, action: Action, l: Limits, run: seq<Sample>) {
    exists i :: 0 <= i < |run| && FindsLow(After(s, action, l, run[..i]), run[i])
  }

  lemma EverLowSnoc(s: KeyState, action: Action, l: Limits, run: seq<Sample>)
    requires run != []
    ensures var init := run[..|run| - 1];
      EverLow(s, action, l, run) <==> EverLow(s, action, l, init) || FindsLow(After(s, action, l, init), run[|run| - 1])
  {
    hide After, FindsLow;
    var init, last := run[..|run| - 1], |run| - 1;
    forall i | 0 <= i < last ensures init[..i] == run[..i] && init[i] == run[i] {}
    if EverLow(s, action, l, init) {
      var i :| 0 <= i < |init| && FindsLow(After(s, action, l, init[..i]), init[i]);
      assert FindsLow(After(s, action, l, run[..i]), run[i]);
    }
    if EverLow(s, action, l, run) {
      var i :| 0 <= i < |run| && FindsLow(After(s, action, l, run[..i]), run[i]);
      if i < last { assert FindsLow(After(s, action, l, init[..i]), init[i]); }
    }
    assert run[..last] == init;
  }

  /** The run queue has been stopped exactly if some `check` of the run found the key low. */
  lemma {:induction false} StopsIffLow(s: KeyState, action: Action, l: Limits, run: seq<Sample>)
    requires Fresh(s) && action != WARN
    ensures Count(AllEvents(s, action, l, run), Stop) == 1 <==> EverLow(s, action, l, run)
    decreases |run|
  {
    hide Count, AllEvents, EverLow;
    StopsOnce(s, action, l, run);
    if run == [] {
      NeverLow(s, action, l);
    } else {
      StopsIffLow(s, action, l, run[..|run| - 1]);
      StopsOnce(s, action, l, run[..|run| - 1]);
      EverLowSnoc(s, action, l, run);
    }
  }

  lemma NeverLow(s: KeyState, action: Action, l: Limits)
    ensures !EverLow(s, action, l, []) && Count(AllEvents(s, action, l, []), Stop) == 0
  {
  }

  /** A full disk resets the memory of the last warning: then every `check` warns. */
  lemma {:induction false} FullDiskWarnsEachTime(s: KeyState, action: Action, l: Limits, run: seq<Sample>)
    requires Fresh(s) && s.minSpace.Some? && s.minSpace.value > 0
    requires forall i :: 0 <= i < |run| ==> run[i].freeSpace == 0
    ensures Count(AllEvents(s, action, l, run), SpaceWarning) == |run|
    ensures After(s, action, l, run).preS == 0 && After(s, action, l, run).minSpace == s.minSpace
    decreases |run|
  {
    if run != [] {
      var init, sample := run[..|run| - 1], run[|run| - 1];
      FullDiskWarnsEachTime(s, action, l, init);
      var before := After(s, action, l, init);
      TurnCounts(s, action, l, run, SpaceWarning);
      SpaceCounts(before, action, l, sample, SpaceWarning);
      InodeCounts(AfterSpace(before, action, l, sample), action, l, sample, SpaceWarning);
    }
  }
}
