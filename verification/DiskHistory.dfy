/**
 When bitbake/lib/bb/monitordisk.py warns and stops, told by what it was given and what it has said so far:
 the fields that `check` keeps do not show in it.
 */
module DiskHistory {
  import opened DiskMonitor
  import opened Options

  /** The minimum is set, not zero, and more than what is free. */
  predicate Below(min: Option<int>, free: int) {
    match min
    case None => false
    case Some(m) => m != 0 && free < m
  }

  /** The events of check `i` of the run. */
  function Says(s: KeyState, action: Action, l: Limits, run: seq<Sample>, i: nat): seq<Event>
    requires i < |run|
  {
    EventsOf(After(s, action, l, run[..i]), action, l, run[i])
  }

  predicate SaysSpace(s: KeyState, action: Action, l: Limits, run: seq<Sample>, i: nat)
    requires i < |run|
  {
    exists e :: e in Says(s, action, l, run, i) && e.WarnSpace?
  }

  predicate SaysInode(s: KeyState, action: Action, l: Limits, run: seq<Sample>, i: nat)
    requires i < |run|
  {
    exists e :: e in Says(s, action, l, run, i) && e.WarnInode?
  }

  predicate SaysStop(s: KeyState, action: Action, l: Limits, run: seq<Sample>, i: nat)
    requires i < |run|
  {
    exists e :: e in Says(s, action, l, run, i) && e.Finish?
  }

  /** One of the first `n` checks has stopped the run queue. */
  ghost predicate Stopped(s: KeyState, action: Action, l: Limits, run: seq<Sample>, n: nat)
    requires n <= |run|
  {
    exists i :: 0 <= i < n && SaysStop(s, action, l, run, i)
  }

  /** The level warned at last by the first `n` checks, or 0. */
  function LastSpace(s: KeyState, action: Action, l: Limits, run: seq<Sample>, n: nat): int
    requires n <= |run|
  {
    if n == 0 then 0
    else if SaysSpace(s, action, l, run, n - 1) then run[n - 1].freeSpace
    else LastSpace(s, action, l, run, n - 1)
  }

  function LastInode(s: KeyState, action: Action, l: Limits, run: seq<Sample>, n: nat): int
    requires n <= |run|
  {
    if n == 0 then 0
    else if SaysInode(s, action, l, run, n - 1) then run[n - 1].freeInode
    else LastInode(s, action, l, run, n - 1)
  }

  /** No inodes at all, or -1 free ones: the file system makes them as it needs them. */
  predicate Endless(sample: Sample) { sample.files == 0 || sample.freeInode == -1 }

  /** The inodes were low at one of the first `n` checks, but without end: they are watched no more. */
  ghost predicate Unwatched(min: Option<int>, run: seq<Sample>, n: nat)
    requires n <= |run|
  {
    exists i :: 0 <= i < n && Below(min, run[i].freeInode) && Endless(run[i])
  }

  // ---- the fields are the history ----

  lemma StopEventsAre(action: Action, checked: bool)
    ensures forall e :: e in StopEvents(action, checked) ==> e.Finish?
    ensures (exists e :: e in StopEvents(action, checked) && e.Finish?) <==> action != WARN && !checked
  {
    if action != WARN && !checked { assert Finish(action == HALT) in StopEvents(action, checked); }
  }

  lemma SpaceSays(s: KeyState, action: Action, l: Limits, sample: Sample)
    ensures var events, low := SpaceEvents(s, action, l, sample), IsLow(s.minSpace, sample.freeSpace);
      && ((exists e :: e in events && e.WarnSpace?) <==>
            low && Warns(s.preS, sample.freeSpace, l.spaceInterval, s.checked))
      && !(exists e :: e in events && e.WarnInode?)
      && ((exists e :: e in events && e.Finish?) <==> low && action != WARN && !s.checked)
  {
    StopEventsAre(action, s.checked);
    hide StopEvents, Warns, IsLow;
    var stops := StopEvents(action, s.checked);
    var w := WarnSpace(sample.freeSpace);
    assert w in [w] + stops && forall e :: e in [w] + stops <==> e == w || e in stops;
  }

  lemma InodeSays(s: KeyState, action: Action, l: Limits, sample: Sample)
    ensures var events, low := InodeEvents(s, action, l, sample), IsLow(s.minInode, sample.freeInode) && !Dynamic(sample);
      && ((exists e :: e in events && e.WarnInode?) <==>
            low && Warns(s.preI, sample.freeInode, l.inodeInterval, s.checked))
      && !(exists e :: e in events && e.WarnSpace?)
      && ((exists e :: e in events && e.Finish?) <==> low && action != WARN && !s.checked)
  {
    StopEventsAre(action, s.checked);
    hide StopEvents, Warns, IsLow, Dynamic;
    var stops := StopEvents(action, s.checked);
    var w := WarnInode(sample.freeInode);
    assert w in [w] + stops && forall e :: e in [w] + stops <==> e == w || e in stops;
  }

  lemma EventsSay(s: KeyState, action: Action, l: Limits, sample: Sample)
    ensures var events, mid := EventsOf(s, action, l, sample), AfterSpace(s, action, l, sample);
      var spaceLow := IsLow(s.minSpace, sample.freeSpace);
      var inodeLow := IsLow(s.minInode, sample.freeInode) && !Dynamic(sample);
      && ((exists e :: e in events && e.WarnSpace?) <==>
            spaceLow && Warns(s.preS, sample.freeSpace, l.spaceInterval, s.checked))
      && ((exists e :: e in events && e.WarnInode?) <==>
            inodeLow && Warns(s.preI, sample.freeInode, l.inodeInterval, mid.checked))
      && ((exists e :: e in events && e.Finish?) <==> (spaceLow || inodeLow) && action != WARN && !s.checked)
      && mid.preI == s.preI && mid.minInode == s.minInode && (mid.checked <==> s.checked || (spaceLow && action != WARN))
  {
    var mid := AfterSpace(s, action, l, sample);
    SpaceSays(s, action, l, sample);
    InodeSays(mid, action, l, sample);
    var a, b := SpaceEvents(s, action, l, sample), InodeEvents(mid, action, l, sample);
    hide SpaceEvents, InodeEvents, Warns, IsLow, Dynamic;
    assert forall e :: e in EventsOf(s, action, l, sample) <==> e in a || e in b;
  }

  /** What the fields of a key hold after `n` checks. */
  ghost predicate Remembered(s: KeyState, action: Action, l: Limits, run: seq<Sample>, n: nat)
    requires n <= |run|
  {
    var now := After(s, action, l, run[..n]);
    && now.minSpace == s.minSpace && now.preS == LastSpace(s, action, l, run, n)
    && now.minInode == (if Unwatched(s.minInode, run, n) then None else s.minInode)
    && now.preI == LastInode(s, action, l, run, n)
    && (now.checked <==> Stopped(s, action, l, run, n))
  }

  lemma BelowIff(min: Option<int>, free: int)
    ensures Below(min, free) <==> IsLow(min, free)
  {
  }

  lemma StoppedMore(s: KeyState, action: Action, l: Limits, run: seq<Sample>, n: nat)
    requires n < |run|
    ensures Stopped(s, action, l, run, n + 1) <==> Stopped(s, action, l, run, n) || SaysStop(s, action, l, run, n)
  {
    hide SaysStop;
  }

  lemma UnwatchedMore(min: Option<int>, run: seq<Sample>, n: nat)
    requires n < |run|
    ensures Unwatched(min, run, n + 1) <==> Unwatched(min, run, n) || (Below(min, run[n].freeInode) && Endless(run[n]))
  {
    hide Below, Endless;
  }

  lemma NextFields(s: KeyState, action: Action, l: Limits, sample: Sample)
    ensures var next, mid := Next(s, action, l, sample), AfterSpace(s, action, l, sample);
      var spaceLow := IsLow(s.minSpace, sample.freeSpace);
      var inodeLow := IsLow(s.minInode, sample.freeInode) && !Dynamic(sample);
      && next.minSpace == s.minSpace
      && next.minInode == (if IsLow(s.minInode, sample.freeInode) && Dynamic(sample) then None else s.minInode)
      && next.preS == (if spaceLow && Warns(s.preS, sample.freeSpace, l.spaceInterval, s.checked) then sample.freeSpace
                       else s.preS)
      && next.preI == (if inodeLow && Warns(s.preI, sample.freeInode, l.inodeInterval, mid.checked) then sample.freeInode
                       else s.preI)
      && (next.checked <==> s.checked || ((spaceLow || inodeLow) && action != WARN))
  {
    hide Warns, IsLow, Dynamic;
  }

  lemma {:induction false} FieldsAreHistory(s: KeyState, action: Action, l: Limits, run: seq<Sample>, n: nat)
    requires Fresh(s) && n <= |run|
    ensures Remembered(s, action, l, run, n)
  {
    if n > 0 {
      FieldsAreHistory(s, action, l, run, n - 1);
      FieldsStep(s, action, l, run, n - 1);
    }
  }

  lemma FieldsStep(s: KeyState, action: Action, l: Limits, run: seq<Sample>, n: nat)
    requires n < |run| && Remembered(s, action, l, run, n)
    ensures Remembered(s, action, l, run, n + 1)
  {
    hide Next, EventsOf, AfterSpace, Warns, IsLow, Dynamic, Stopped, Unwatched;
    var before := After(s, action, l, run[..n]);
    assert run[..n + 1][..n] == run[..n];
    assert After(s, action, l, run[..n + 1]) == Next(before, action, l, run[n]);
    EventsSay(before, action, l, run[n]);
    NextFields(before, action, l, run[n]);
    StoppedMore(s, action, l, run, n);
    UnwatchedMore(s.minInode, run, n);
    BelowIff(s.minInode, run[n].freeInode);
    assert Dynamic(run[n]) <==> Endless(run[n]) by { EndlessIff(run[n]); }
    hide After, Below, Endless;
    assert IsLow(None, run[n].freeInode) == false by { BelowIff(None, run[n].freeInode); }
  }

  lemma EndlessIff(sample: Sample)
    ensures Dynamic(sample) <==> Endless(sample)
  {
  }

  // ---- when a check warns and stops ----

  /** No warning yet, or the last at level 0; or the level has fallen by more than the interval and no stop came. */
  predicate Due(last: int, free: int, interval: nat, stopped: bool) {
    if last == 0 then true else last > free + interval && !stopped
  }

  /**
   A check warns about the space exactly if it is low and a warning is due; about the inodes likewise, where
   a stop for the space in the same check counts. It stops exactly if something is low, nothing has been
   stopped yet, and the key does more than warn.
   */
  lemma CheckIff(s: KeyState, action: Action, l: Limits, run: seq<Sample>, i: nat)
    requires Fresh(s) && i < |run|
    ensures var stopped := Stopped(s, action, l, run, i);
      var spaceLow := Below(s.minSpace, run[i].freeSpace);
      var inodeLow := Below(s.minInode, run[i].freeInode) && !Endless(run[i]) && !Unwatched(s.minInode, run, i);
      && (SaysSpace(s, action, l, run, i) <==>
            spaceLow && Due(LastSpace(s, action, l, run, i), run[i].freeSpace, l.spaceInterval, stopped))
      && (SaysInode(s, action, l, run, i) <==>
            inodeLow && Due(LastInode(s, action, l, run, i), run[i].freeInode, l.inodeInterval,
                            stopped || (spaceLow && action != WARN)))
      && (SaysStop(s, action, l, run, i) <==> (spaceLow || inodeLow) && !stopped && action != WARN)
  {
    FieldsAreHistory(s, action, l, run, i);
    hide EventsOf, AfterSpace, Stopped, Unwatched, After, LastSpace, LastInode;
    var before := After(s, action, l, run[..i]);
    EventsSay(before, action, l, run[i]);
    BelowIff(s.minSpace, run[i].freeSpace);
    BelowIff(before.minInode, run[i].freeInode);
    EndlessIff(run[i]);
    hide IsLow, Dynamic;
  }

  /** What a warning names is what was free, and only HALT stops running tasks. */
  lemma EventLevels(s: KeyState, action: Action, l: Limits, run: seq<Sample>, i: nat, e: Event)
    requires i < |run| && e in Says(s, action, l, run, i)
    ensures match e
      case WarnSpace(free) => free == run[i].freeSpace
      case WarnInode(free) => free == run[i].freeInode
      case Finish(halt) => action != WARN && (halt <==> action == HALT)
  {
  }
}
