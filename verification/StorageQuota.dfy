/** Space for an origin's storage, asked for on the main thread and on background threads. */
module StorageQuota {
  import opened Basics

  datatype Decision = Grant | Deny

  /**
   * Where the lock is. A background request keeps it while it waits for the answer to a request for more quota,
   * which comes on the main thread; `Answered` is after the answer and before the request goes
   on. */
  datatype Phase = Unlocked | Asking(space: nat) | Answered(space: nat)

  /** How much of the quota the usage leaves. */
  function Room(quota: nat, usage: nat): nat {
    if usage < quota then quota - usage else 0
  }

  /** What a step did: the space it granted, and the quota and usage it computed the countdown from, if it did. */
  datatype Entry = Entry(granted: nat, read: Option<(nat, nat)>)

  /** The space granted since the usage was last read. */
  function GrantedSinceRead(trace: seq<Entry>): nat {
    if trace == [] then 0
    else
      var last := trace[|trace| - 1];
      last.granted + if last.read.Some? then 0 else GrantedSinceRead(trace[..|trace| - 1])
  }

  /** The room there was when the usage was last read; none before the first time. */
  function RoomAtRead(trace: seq<Entry>): nat {
    if trace == [] then 0
    else
      var last := trace[|trace| - 1];
      if last.read.Some? then Room(last.read.value.0, last.read.value.1) else RoomAtRead(trace[..|trace| - 1])
  }

  /** The countdown before a step and after it: it is set to the room if the usage is read, and then goes down by what
      is granted. */
  predicate IsStep(before: nat, entry: Entry, after: nat) {
    after + entry.granted == if entry.read.Some? then Room(entry.read.value.0, entry.read.value.1) else before
  }

  ghost predicate CountsDown(trace: seq<Entry>, countDowns: seq<nat>) {
    && |countDowns| == |trace| + 1 && countDowns[0] == 0
    && forall i :: 0 <= i < |trace| ==> IsStep(countDowns[i], trace[i], countDowns[i + 1])
  }

  /** The quota and the usage that were last read. */
  function LastRead(trace: seq<Entry>): Option<(nat, nat)> {
    if trace == [] then None
    else
      var last := trace[|trace| - 1];
      if last.read.Some? then last.read else LastRead(trace[..|trace| - 1])
  }

  /** The room in numbers: nothing before the first reading, and then what the usage leaves of the quota. */
  lemma {:induction false} RoomInNumbers(trace: seq<Entry>)
    ensures LastRead(trace).None? ==> RoomAtRead(trace) == 0
    ensures LastRead(trace).Some? ==>
      var (quota, usage) := LastRead(trace).value;
      if usage <= quota then usage + RoomAtRead(trace) == quota else RoomAtRead(trace) == 0
  {
    if trace != [] && trace[|trace| - 1].read.None? {
      RoomInNumbers(trace[..|trace| - 1]);
    }
  }

  lemma OneStepMore(trace: seq<Entry>, entry: Entry)
    ensures GrantedSinceRead(trace + [entry]) == entry.granted + if entry.read.Some? then 0 else GrantedSinceRead(trace)
    ensures RoomAtRead(trace + [entry]) ==
      if entry.read.Some? then Room(entry.read.value.0, entry.read.value.1) else RoomAtRead(trace)
  {
    assert (trace + [entry])[..|trace|] == trace;
  }

  lemma {:induction false} GrantedAndLeft(trace: seq<Entry>, countDowns: seq<nat>, n: nat)
    requires CountsDown(trace, countDowns) && n <= |trace|
    ensures GrantedSinceRead(trace[..n]) + countDowns[n] == RoomAtRead(trace[..n])
    decreases n
  {
    if n > 0 {
      GrantedAndLeft(trace, countDowns, n - 1);
      OneStepMore(trace[..n - 1], trace[n - 1]);
      assert trace[..n] == trace[..n - 1] + [trace[n - 1]];
      assert IsStep(countDowns[n - 1], trace[n - 1], countDowns[n]);
    }
  }

  /** The smallest multiple of the step that is above the usage. */
  lemma StepsAboveUsage(usage: nat, step: nat)
    requires step > 0
    ensures usage < step * (usage / step + 1) <= usage + step
  {
    assert usage == step * (usage / step) + usage % step;
    assert step * (usage / step + 1) == step * (usage / step) + step;
  }

  class StorageQuotaManager {
    var quota: nat
    var usage: nat
    var quotaCountDown: nat
    var quotaUpdatedBasedOnUsage: bool
    var phase: Phase
    const initialQuota: nat
    /** What each step so far did, and the countdown before the first of them and after each. */
    ghost var trace: seq<Entry>
    ghost var countDowns: seq<nat>

    ghost predicate Valid()
      reads this
    {
      && CountsDown(trace, countDowns) && quotaCountDown == countDowns[|trace|]
      && (!quotaUpdatedBasedOnUsage ==> quota == initialQuota && phase == Unlocked && quotaCountDown == 0)
    }

    constructor (quota: nat)
      ensures Valid() && this.quota == quota && phase == Unlocked && trace == []
      ensures usage == 0 && quotaCountDown == 0 && !quotaUpdatedBasedOnUsage
    {
      this.quota, initialQuota, usage, quotaCountDown := quota, quota, 0, 0;
      quotaUpdatedBasedOnUsage, phase, trace, countDowns := false, Unlocked, [], [0];
    }

    method TryGrantRequest(space: nat) returns (granted: bool)
      modifies this`quotaCountDown
      ensures granted <==> space <= old(quotaCountDown)
      ensures quotaCountDown + (if granted then space else 0) == old(quotaCountDown)
    {
      if space <= quotaCountDown {
        quotaCountDown := quotaCountDown - space;
        return true;
      }
      return false;
    }

    /** Once, the quota is raised above the usage: what is used was allowed some time before. */
    method UpdateQuotaBasedOnUsage()
      requires !quotaUpdatedBasedOnUsage ==> quota >= 10
      modifies this`quota, this`quotaUpdatedBasedOnUsage
      ensures quotaUpdatedBasedOnUsage && quota >= old(quota)
      ensures old(quotaUpdatedBasedOnUsage) ==> quota == old(quota)
      ensures !old(quotaUpdatedBasedOnUsage) ==>
        usage < quota && (quota == old(quota) || quota <= usage + old(quota) / 10)
    {
      if !quotaUpdatedBasedOnUsage {
        quotaUpdatedBasedOnUsage := true;
        var step := quota / 10;
        StepsAboveUsage(usage, step);
        var raised := step * (usage / step + 1);
        quota := if raised > quota then raised else quota;
      }
    }

    /** Grants at once if the lock is free and the countdown allows it. Otherwise the request goes to a background
        thread. */
    method RequestSpaceOnMainThread(space: nat) returns (decision: Option<Decision>)
      requires Valid()
      modifies this`quotaCountDown, this`trace, this`countDowns
      ensures Valid()
      ensures decision == if old(phase) == Unlocked && space <= old(quotaCountDown) then Some(Grant) else None
      ensures trace == old(trace) + [Entry(if decision == Some(Grant) then space else 0, None)]
      ensures countDowns == old(countDowns) + [quotaCountDown]
      ensures IsStep(old(quotaCountDown), trace[|trace| - 1], quotaCountDown)
    {
      hide CountsDown;
      if phase == Unlocked {
        var granted := TryGrantRequest(space);
        if granted {
          Record(Entry(space, None));
          return Some(Grant);
        }
      }
      Record(Entry(0, None));
      return None;
    }

    ghost method Record(entry: Entry)
      requires CountsDown(trace, countDowns) && IsStep(countDowns[|trace|], entry, quotaCountDown)
      modifies this`trace, this`countDowns
      ensures trace == old(trace) + [entry] && countDowns == old(countDowns) + [quotaCountDown]
      ensures CountsDown(trace, countDowns)
    {
      trace, countDowns := trace + [entry], countDowns + [quotaCountDown];
    }

    /**
     * At every point of every run, in whatever order the requests of the threads came, the space granted since the last
     * reading and the space left to grant make up the room at that
     reading. */
    lemma NeverMoreThanRoom(n: nat)
      requires Valid() && n <= |trace|
      ensures GrantedSinceRead(trace[..n]) + countDowns[n] == RoomAtRead(trace[..n])
      ensures GrantedSinceRead(trace[..n]) <= RoomAtRead(trace[..n])
      ensures GrantedSinceRead(trace) + quotaCountDown == RoomAtRead(trace)
      ensures GrantedSinceRead(trace[..n]) > 0 ==>
        && LastRead(trace[..n]).Some?
        && var (quota, usage) := LastRead(trace[..n]).value; usage + GrantedSinceRead(trace[..n]) <= quota
    {
      RoomInNumbers(trace[..n]);
      GrantedAndLeft(trace, countDowns, n);
      GrantedAndLeft(trace, countDowns, |trace|);
      assert trace[..|trace|] == trace;
    }

    /** Takes the lock and decides, or keeps the lock and has more quota asked for. `measured` is what the usage turns
        out to be. */
    method RequestSpaceOnBackgroundThread(space: nat, measured: nat) returns (decision: Option<Decision>)
      requires Valid() && phase == Unlocked
      requires quotaUpdatedBasedOnUsage || quota >= 10 || space <= quotaCountDown
      modifies this
      ensures Valid() && quota >= old(quota)
      ensures decision == Some(Grant) <==> space <= old(quotaCountDown) || space <= Room(quota, measured)
      ensures decision == None <==> phase == Asking(space)
      ensures usage == if space <= old(quotaCountDown) then old(usage) else measured
      ensures quotaUpdatedBasedOnUsage == (old(quotaUpdatedBasedOnUsage) || space > old(quotaCountDown))
      ensures decision == None || (decision == Some(Grant) && phase == Unlocked)
      ensures var read := if space <= old(quotaCountDown) then None else Some((quota, measured));
        trace == old(trace) + [Entry(if decision == Some(Grant) then space else 0, read)]
      ensures countDowns == old(countDowns) + [quotaCountDown]
      ensures IsStep(old(quotaCountDown), trace[|trace| - 1], quotaCountDown)
      ensures space <= old(quotaCountDown) || old(quotaUpdatedBasedOnUsage) ==> quota == old(quota)
      ensures space > old(quotaCountDown) && !old(quotaUpdatedBasedOnUsage) ==>
        measured < quota && (quota == old(quota) || quota <= measured + old(quota) / 10)
    {
      hide CountsDown;
      var granted := TryGrantRequest(space);
      if granted {
        Record(Entry(space, None));
        return Some(Grant);
      }
      usage := measured;
      UpdateQuotaBasedOnUsage();
      quotaCountDown := Room(quota, usage);
      granted := TryGrantRequest(space);
      if granted {
        Record(Entry(space, Some((quota, measured))));
        return Some(Grant);
      }
      phase := Asking(space);
      Record(Entry(0, Some((quota, measured))));
      return None;
    }

    /** The answer to the request for more quota, on the main thread and without the lock. */
    method QuotaIncreaseAnswered(newQuota: Option<nat>)
      requires Valid() && phase.Asking?
      modifies this`quota, this`phase
      ensures Valid() && phase == Answered(old(phase).space)
      ensures quota == if newQuota.Some? then newQuota.value else old(quota)
    {
      if newQuota.Some? {
        quota := newQuota.value;
      }
      phase := Answered(phase.space);
    }

    /** The waiting request goes on: it reads the usage again, and is refused if there is still no room. */
    method ResumeRequest(measured: nat) returns (decision: Decision)
      requires Valid() && phase.Answered?
      modifies this
      ensures Valid() && phase == Unlocked && quota == old(quota) && usage == measured
      ensures quotaUpdatedBasedOnUsage == old(quotaUpdatedBasedOnUsage)
      ensures decision == Grant <==> old(phase).space <= Room(quota, measured)
      ensures trace == old(trace) + [Entry(if decision == Grant then old(phase).space else 0, Some((quota, measured)))]
      ensures countDowns == old(countDowns) + [quotaCountDown]
      ensures IsStep(old(quotaCountDown), trace[|trace| - 1], quotaCountDown)
    {
      hide CountsDown;
      var space := phase.space;
      usage := measured;
      quotaCountDown := Room(quota, usage);
      var granted := TryGrantRequest(space);
      phase := Unlocked;
      Record(Entry(if granted then space else 0, Some((quota, measured))));
      return if granted then Grant else Deny;
    }
  }
}
