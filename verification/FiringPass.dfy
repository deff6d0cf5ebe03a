/** What one firing pass does to a thread's schedule, a map from each scheduled timer to its key. */
module FiringPass {
  import opened TimerOrder

  predicate Due(time: Time, fireTime: real) {
    !Earlier(At(fireTime), time)
  }

  /** `first` fires before every other timer of the schedule. */
  ghost predicate IsFirst<T>(schedule: map<T, Key>, first: T) {
    first in schedule && forall x :: x in schedule && x != first ==> Before(schedule[first], schedule[x])
  }

  /** `fired` lists, in firing order, the first timers of the schedule, each once, all of them due. */
  ghost predicate FiresInOrder<T>(fired: seq<T>, was: map<T, Key>, fireTime: real) {
    && (forall i :: 0 <= i < |fired| ==> fired[i] in was && Due(was[fired[i]].time, fireTime))
    && (forall i, j :: 0 <= i < j < |fired| ==> Before(was[fired[i]], was[fired[j]]))
    && (forall i, x :: 0 <= i < |fired| && x in was && x !in fired ==> Before(was[fired[i]], was[x]))
  }

  /**
   * The timers that fired have moved to their next time, with counter values from `from` on in firing order, or are
   * gone if they have no next time. The others are as they
   were. */
  ghost predicate Rescheduled<T>(fired: seq<T>, was: map<T, Key>, schedule: map<T, Key>, next: map<T, Time>,
                                 from: nat) {
    && schedule.Keys <= was.Keys <= next.Keys
    && (forall x :: x in was && x !in fired ==> x in schedule && schedule[x] == was[x])
    && (forall i :: 0 <= i < |fired| && fired[i] in was ==>
          if next[fired[i]] == UNSCHEDULED then fired[i] !in schedule
          else fired[i] in schedule && schedule[fired[i]] == Key(next[fired[i]], from + i))
  }

  /** Every due timer of the schedule has fired. */
  ghost predicate AllDueFired<T>(fired: seq<T>, was: map<T, Key>, fireTime: real) {
    forall x :: x in was && Due(was[x].time, fireTime) ==> x in fired
  }

  /** A timer that fires again does so after the pass. */
  ghost predicate NextAreLater<T>(next: map<T, Time>, fireTime: real) {
    forall x :: x in next ==> next[x] == UNSCHEDULED || !Due(next[x], fireTime)
  }

  /** The timers of a schedule that are due. */
  ghost function DueTimers<T>(schedule: map<T, Key>, fireTime: real): set<T> {
    set x | x in schedule && Due(schedule[x].time, fireTime)
  }

  /**
   * The insertion counter can be taken once for each of `unfired` and still order them against the timers, and only
   * those, that are scheduled for a time that one of `unfired` goes on
   to. */
  ghost predicate Room<T>(schedule: map<T, Key>, count: nat, unfired: set<T>, next: map<T, Time>) {
    && |unfired| <= HALF
    && (forall x, y :: x in schedule && y in unfired && y in next && schedule[x].time == next[y] ==>
          count + |unfired| - schedule[x].count <= HALF)
  }

  /** The schedule once `item`, taken at counter value `count`, is set to fire at `time`. */
  function Moved<T>(schedule: map<T, Key>, item: T, time: Time, count: nat): map<T, Key> {
    if time == UNSCHEDULED then schedule - {item} else schedule[item := Key(time, count)]
  }

  /**
   * A pass at `fireTime` that began with schedule `was` and counter value `from`. Timer x, if it fires, goes on to
   * `next[x]`; the due timers in `unfired` have not fired
   yet. */
  datatype Pass<T> = Pass(was: map<T, Key>, from: nat, next: map<T, Time>, fireTime: real,
                          fired: seq<T>, unfired: set<T>, schedule: map<T, Key>, count: nat)
  {
    ghost predicate Good() {
      && NextAreLater(next, fireTime)
      && unfired == DueTimers(was, fireTime) - (set x | x in fired)
      && FiresInOrder(fired, was, fireTime) && Rescheduled(fired, was, schedule, next, from)
      && Room(schedule, count, unfired, next) && count == from + |fired|
    }

    ghost function Fire(item: T): Pass<T>
      requires item in next
    {
      this.(fired := fired + [item], unfired := unfired - {item},
            schedule := Moved(schedule, item, next[item], count), count := count + 1)
    }
  }

  /** The pass as it begins. */
  ghost function Begin<T>(was: map<T, Key>, count: nat, next: map<T, Time>, fireTime: real): Pass<T> {
    Pass(was, count, next, fireTime, [], DueTimers(was, fireTime), was, count)
  }

  lemma BeginIsGood<T>(was: map<T, Key>, count: nat, next: map<T, Time>, fireTime: real)
    requires was.Keys <= next.Keys && NextAreLater(next, fireTime) && Room(was, count, DueTimers(was, fireTime), next)
    ensures Begin(was, count, next, fireTime).Good()
  {
  }

  lemma FiringOrderGrows<T>(fired: seq<T>, was: map<T, Key>, schedule: map<T, Key>, fireTime: real, item: T)
    requires FiresInOrder(fired, was, fireTime) && item in was && item !in fired
    requires forall x :: x in was && x !in fired ==> x in schedule && schedule[x] == was[x]
    requires IsFirst(schedule, item) && Due(schedule[item].time, fireTime)
    ensures FiresInOrder(fired + [item], was, fireTime)
  {
    var more := fired + [item];
    forall i, x | 0 <= i < |more| && x in was && x !in more
      ensures Before(was[more[i]], was[x])
    {
      assert x !in fired && x != more[|fired|];
    }
  }

  /** The schedule's first timer, when due, has not fired in this pass yet. */
  lemma FirstHasNotFired<T>(pass: Pass<T>, item: T)
    requires pass.Good() && IsFirst(pass.schedule, item)
    requires Due(pass.schedule[item].time, pass.fireTime) && pass.schedule[item].time != UNSCHEDULED
    ensures item in pass.was && item !in pass.fired && item in pass.next && pass.next[item] != pass.schedule[item].time
    ensures forall x :: x in pass.was && x !in pass.fired ==> x in pass.schedule && pass.schedule[x] == pass.was[x]
    ensures item in pass.unfired && |pass.unfired| >= 1
  {
    hide FiresInOrder, Room, Before;
  }

  lemma FewerUnfired<T>(fired: seq<T>, unfired: set<T>, due: set<T>, item: T)
    requires unfired == due - (set x | x in fired) && item in unfired
    ensures unfired - {item} == due - (set x | x in fired + [item]) && |unfired - {item}| == |unfired| - 1
  {
  }

  /** Firing it continues the pass. */
  lemma FireFirst<T>(pass: Pass<T>, item: T)
    requires pass.Good() && IsFirst(pass.schedule, item)
    requires Due(pass.schedule[item].time, pass.fireTime) && pass.schedule[item].time != UNSCHEDULED
    ensures item in pass.unfired && item in pass.next && pass.next[item] != pass.schedule[item].time
    ensures forall x :: x in pass.schedule && pass.schedule[x].time == pass.next[item] ==>
      pass.count - pass.schedule[x].count < HALF
    ensures pass.Fire(item).Good()
  {
    hide FiresInOrder, Room, Before, Rescheduled, NextAreLater, IsFirst;
    var Pass(was, from, next, fireTime, fired, unfired, schedule, count) := pass;
    FirstHasNotFired(pass, item);
    FiringOrderGrows(fired, was, schedule, fireTime, item);
    RescheduledGrows(fired, was, schedule, next, from, item);
    FewerUnfired(fired, unfired, DueTimers(was, fireTime), item);
    RoomShrinks(schedule, count, unfired, next, item);
  }

  lemma RescheduledGrows<T>(fired: seq<T>, was: map<T, Key>, schedule: map<T, Key>, next: map<T, Time>, from: nat,
                            item: T)
    requires Rescheduled(fired, was, schedule, next, from) && item in was && item !in fired
    ensures Rescheduled(fired + [item], was, Moved(schedule, item, next[item], from + |fired|), next, from)
  {
    assert forall x :: x in was ==> (x in fired + [item] <==> x in fired || x == item);
  }

  /** Taking the counter once uses up one unit of room. */
  lemma RoomShrinks<T>(schedule: map<T, Key>, count: nat, unfired: set<T>, next: map<T, Time>, item: T)
    requires Room(schedule, count, unfired, next) && item in unfired && item in next
    ensures forall x :: x in schedule && schedule[x].time == next[item] ==> count - schedule[x].count < HALF
    ensures Room(Moved(schedule, item, next[item], count), count + 1, unfired - {item}, next)
  {
    assert |unfired - {item}| == |unfired| - 1;
  }

  /** A pass that stops because no timer is scheduled, or the first one is not due, has fired every due timer. */
  lemma NoneLeftDue<T>(pass: Pass<T>, items: seq<T>)
    requires pass.Good() && (items == [] ==> pass.schedule == map[])
    requires items != [] ==> IsFirst(pass.schedule, items[0]) && !Due(pass.schedule[items[0]].time, pass.fireTime)
    ensures AllDueFired(pass.fired, pass.was, pass.fireTime)
  {
    forall x | x in pass.was && x !in pass.fired
      ensures !Due(pass.was[x].time, pass.fireTime)
    {
      assert pass.schedule[x] == pass.was[x];
    }
  }

  lemma GoodPass<T>(pass: Pass<T>)
    requires pass.Good()
    ensures FiresInOrder(pass.fired, pass.was, pass.fireTime)
    ensures Rescheduled(pass.fired, pass.was, pass.schedule, pass.next, pass.from)
    ensures pass.count == pass.from + |pass.fired|
  {
  }

  /** By seconds and then by counter value. */
  predicate Sooner(a: Key, b: Key)
    requires a.time.At? && b.time.At?
  {
    a.time.seconds < b.time.seconds || (a.time.seconds == b.time.seconds && a.count < b.count)
  }

  /** The order of a pass in seconds: all that fired were due, each before the next and before all that did not fire. */
  lemma InSeconds<T>(fired: seq<T>, was: map<T, Key>, fireTime: real)
    requires FiresInOrder(fired, was, fireTime) && forall x :: x in was ==> was[x].time.At?
    ensures forall i :: 0 <= i < |fired| ==> fired[i] in was && was[fired[i]].time.seconds <= fireTime
    ensures forall i, j :: 0 <= i < j < |fired| ==> Sooner(was[fired[i]], was[fired[j]])
    ensures forall i, x :: 0 <= i < |fired| && x in was && x !in fired ==> Sooner(was[fired[i]], was[x])
    ensures AllDueFired(fired, was, fireTime) <==>
      forall x :: x in was && was[x].time.seconds <= fireTime ==> x in fired
  {
  }

  /** Timers that fired and go on to the same time fire in the same order again, after those that were waiting for
      it. */
  lemma OrderCarriesOver<T>(fired: seq<T>, was: map<T, Key>, schedule: map<T, Key>, next: map<T, Time>, from: nat,
                            fireTime: real, x: T, y: T)
    requires FiresInOrder(fired, was, fireTime) && Rescheduled(fired, was, schedule, next, from)
    requires forall z :: z in was ==> was[z].count < from
    requires y in fired && x in schedule && y in schedule && x != y && schedule[x].time == schedule[y].time
    ensures Before(schedule[x], schedule[y]) <==> x !in fired || Before(was[x], was[y])
  {
    var j :| 0 <= j < |fired| && fired[j] == y;
    if x in fired {
      var i :| 0 <= i < |fired| && fired[i] == x;
      assert i < j ==> Before(was[x], was[y]);
      assert j < i ==> Before(was[y], was[x]);
    }
  }
}
