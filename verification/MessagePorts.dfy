/** Pairs of message ports, and the registry that finds the channel of a port. */
module MessagePorts {
  import opened Basics

  type Process = nat

  datatype Port = Port(process: Process, id: nat)

  datatype Message = Message(data: string, transferredPorts: seq<Port>)

  datatype Activity = Yes | No

  /**
   * One end of a channel. `entangled` and `protected` are the end's two counted references to the channel;
   * `inTransfer` is the one that the end's set of pending transfers may
   hold. */
  datatype End = End(process: Option<Process>, closed: bool, entangled: bool, inTransfer: bool, protected: bool,
                     pending: seq<Message>) {
    /** The counted references to the channel that this end holds. */
    function References(): nat {
      (if entangled then 1 else 0) + (if inTransfer then 1 else 0) + (if protected then 1 else 0)
    }
  }

  /** What happened at one end since it was last closed: the messages accepted for it, and the batches handed out. */
  datatype History = History(accepted: seq<Message>, handed: seq<seq<Message>>)

  /**
   * What holds at each end. Nothing accepted was lost, repeated or put out of order; no batch was empty; the
   * queue is protected exactly while there is something in it; and a process has the end exactly while
   entangled. */
  ghost predicate EndHolds(end: End, history: History) {
    && Concat(history.handed) + end.pending == history.accepted
    && [] !in history.handed
    && (end.protected <==> end.pending != [])
    && (end.entangled <==> end.process.Some?)
  }

  function Posted(end: End, message: Message): End {
    end.(pending := end.pending + [message], protected := true)
  }

  ghost function PostedTo(history: History, message: Message): History {
    history.(accepted := history.accepted + [message])
  }

  function Taken(end: End): End {
    end.(pending := [], protected := false)
  }

  ghost function TakenFrom(history: History, batch: seq<Message>): History {
    history.(handed := history.handed + [batch])
  }

  function Started(port: Port): End {
    End(Some(port.process), false, true, false, false, [])
  }

  function Entangled(end: End, process: Process): End {
    end.(process := Some(process), entangled := true, inTransfer := false)
  }

  function Disentangled(end: End): End {
    end.(process := None, entangled := false, inTransfer := true)
  }

  function Closed(end: End): End {
    End(None, true, false, false, false, [])
  }

  /** An end holds its channel while it is entangled, in transfer or has messages waiting. */
  predicate IsHeldBy(end: End) {
    end.entangled || end.inTransfer || end.pending != []
  }

  /** The invariants of both ends. */
  ghost predicate EndsHold(ends: seq<End>, histories: seq<History>)
    requires |ends| == 2 && |histories| == 2
  {
    && EndHolds(ends[0], histories[0]) && EndHolds(ends[1], histories[1])
  }

  /** The references that the two ends hold. */
  ghost function EndReferences(ends: seq<End>): nat
    requires |ends| == 2
  {
    ends[0].References() + ends[1].References()
  }

  lemma ReplaceEnd(ends: seq<End>, histories: seq<History>, i: nat, end: End, history: History)
    requires |ends| == 2 && |histories| == 2 && EndsHold(ends, histories) && i < 2 && EndHolds(end, history)
    ensures EndsHold(ends[i := end], histories[i := history])
    ensures EndReferences(ends[i := end]) == EndReferences(ends) - ends[i].References() + end.References()
  {
    hide EndHolds, End.References;
  }

  lemma OneEnd(ends: seq<End>, histories: seq<History>, i: nat)
    requires |ends| == 2 && |histories| == 2 && EndsHold(ends, histories) && i < 2
    ensures EndHolds(ends[i], histories[i]) && EndReferences(ends) >= ends[i].References()
  {
    hide EndHolds, End.References;
  }

  lemma PostKeepsEnd(ends: seq<End>, histories: seq<History>, i: nat, message: Message)
    requires |ends| == 2 && |histories| == 2 && EndsHold(ends, histories) && i < 2
    ensures EndsHold(ends[i := Posted(ends[i], message)], histories[i := PostedTo(histories[i], message)])
    ensures EndReferences(ends[i := Posted(ends[i], message)]) ==
      EndReferences(ends) + (if ends[i].pending == [] then 1 else 0) > 0
    ensures ends[i].protected <==> ends[i].pending != []
  {
    var handed, pending := Concat(histories[i].handed), ends[i].pending;
    assert handed + (pending + [message]) == handed + pending + [message];
    OneEnd(ends, histories, i);
    ReplaceEnd(ends, histories, i, Posted(ends[i], message), PostedTo(histories[i], message));
  }

  lemma TakeKeepsEnd(ends: seq<End>, histories: seq<History>, i: nat)
    requires |ends| == 2 && |histories| == 2 && EndsHold(ends, histories) && i < 2
    ensures ends[i].pending == [] ==> ends == ends[i := Taken(ends[i])]
    ensures ends[i].pending != [] ==>
      && EndsHold(ends[i := Taken(ends[i])], histories[i := TakenFrom(histories[i], ends[i].pending)])
      && EndReferences(ends[i := Taken(ends[i])]) == EndReferences(ends) - 1
  {
    hide Concat;
    if ends[i].pending != [] {
      ConcatAppend(histories[i].handed, ends[i].pending);
      assert Concat(histories[i].handed + [ends[i].pending]) + [] == Concat(histories[i].handed) + ends[i].pending;
      ReplaceEnd(ends, histories, i, Taken(ends[i]), TakenFrom(histories[i], ends[i].pending));
    }
  }

  lemma EntangleKeepsEnd(ends: seq<End>, histories: seq<History>, i: nat, process: Process)
    requires |ends| == 2 && |histories| == 2 && EndsHold(ends, histories) && i < 2
    ensures EndsHold(ends[i := Entangled(ends[i], process)], histories)
    ensures EndReferences(ends[i := Entangled(ends[i], process)])
         == EndReferences(ends) + (if ends[i].entangled then 0 else 1) - (if ends[i].inTransfer then 1 else 0) > 0
  {
    ReplaceEnd(ends, histories, i, Entangled(ends[i], process), histories[i]);
    assert histories[i := histories[i]] == histories;
  }

  lemma DisentangleKeepsEnd(ends: seq<End>, histories: seq<History>, i: nat)
    requires |ends| == 2 && |histories| == 2 && EndsHold(ends, histories) && i < 2
    ensures EndsHold(ends[i := Disentangled(ends[i])], histories)
    ensures EndReferences(ends[i := Disentangled(ends[i])])
         == EndReferences(ends) + (if ends[i].inTransfer then 0 else 1) - (if ends[i].entangled then 1 else 0) > 0
  {
    ReplaceEnd(ends, histories, i, Disentangled(ends[i]), histories[i]);
    assert histories[i := histories[i]] == histories;
  }

  lemma CloseKeepsEnd(end: End)
    ensures EndHolds(Closed(end), History([], [])) && Closed(end).References() == 0
  {
  }

  /** A callback that holds a counted reference to the channel until it is called. */
  class Closure {
    const channel: MessagePortChannel

    constructor (channel: MessagePortChannel)
      ensures this.channel == channel
    {
      this.channel := channel;
    }
  }

  class MessagePortChannel {
    const registry: MessagePortChannelRegistry
    const port1: Port
    const port2: Port
    var ends: seq<End>
    var batchesInFlight: nat
    var refCount: nat

    ghost var histories: seq<History>
    /** The batches that were taken and not completed. */
    ghost var inFlight: set<Closure>
    /** The questions about activity that were asked and not answered. */
    ghost var checks: set<Closure>

    predicate IncludesPort(port: Port) {
      port1 == port || port2 == port
    }

    function Index(port: Port): (i: nat)
      ensures i < 2
    {
      if port == port1 then 0 else 1
    }

    /** What stands at each of the two ports. */
    ghost function Ports(): map<Port, End>
      reads this`ends
      requires |ends| == 2
    {
      map[port1 := ends[0], port2 := ends[1]]
    }

    ghost function Histories(): map<Port, History>
      reads this`histories
      requires |histories| == 2
    {
      map[port1 := histories[0], port2 := histories[1]]
    }

    /** The end of a port has that port's number, and the other end is the other port's. */
    lemma IndexIsPort<T>(s: seq<T>, port: Port, x: T)
      requires |s| == 2 && port1 != port2 && IncludesPort(port)
      ensures map[port1 := s[0], port2 := s[1]][port] == s[Index(port)]
      ensures map[port1 := s[Index(port) := x][0], port2 := s[Index(port) := x][1]]
           == map[port1 := s[0], port2 := s[1]][port := x]
    {
    }

    ghost function References(): nat
      reads this`ends, this`inFlight, this`checks
      requires |ends| == 2
    {
      EndReferences(ends) + |inFlight| + |checks|
    }

    ghost predicate ClosuresHold()
      reads this`inFlight, this`checks, this`batchesInFlight
    {
      && batchesInFlight == |inFlight|
      && inFlight !! checks
      && (forall closure :: closure in inFlight + checks ==> closure.channel == this)
    }

    /** All invariants, while `locals` further references are held by local variables. */
    ghost predicate Holding(locals: nat)
      reads this
    {
      && ClosuresHold() && port1 != port2 && |ends| == 2 && |histories| == 2 && EndsHold(ends, histories)
      && refCount == References() + locals
    }

    ghost predicate Valid()
      reads this
    {
      Holding(0)
    }

    /** Nothing has happened yet. */
    ghost predicate Starts()
      reads this
    {
      && |ends| == 2 && |histories| == 2 && inFlight == {} && checks == {}
      && forall port | port in {port1, port2} ::
        && Ports()[port].process == Some(port.process) && Ports()[port].entangled && !Ports()[port].closed
        && !Ports()[port].inTransfer && !Ports()[port].protected && Ports()[port].pending == []
        && Histories()[port] == History([], [])
    }

    lemma Counted()
      requires Valid()
      ensures |ends| == 2 && refCount == References()
    {
    }

    /** Both ends start entangled. The reference returned to the creator is still held. */
    constructor (registry: MessagePortChannelRegistry, port1: Port, port2: Port)
      requires port1 != port2
      requires port1 !in registry.openChannels && port2 !in registry.openChannels
      modifies registry`openChannels
      ensures Holding(1) && this.registry == registry && this.port1 == port1 && this.port2 == port2
      ensures Starts()
      ensures registry.openChannels == old(registry.openChannels)[port1 := this][port2 := this]
    {
      this.registry, this.port1, this.port2 := registry, port1, port2;
      ends := [Started(port1), Started(port2)];
      batchesInFlight, refCount := 0, 3;
      histories, inFlight, checks := [History([], []), History([], [])], {}, {};
      new;
      registry.MessagePortChannelCreated(this);
    }

    /** Drops a reference; the last one takes the channel out of the registry. */
    method Deref()
      requires refCount > 0 && port1 != port2
      requires refCount == 1 ==> registry.Registered(this)
      modifies this`refCount, registry`openChannels
      ensures refCount == old(refCount) - 1
      ensures registry.openChannels ==
        if refCount == 0 then old(registry.openChannels) - {port1, port2} else old(registry.openChannels)
    {
      refCount := refCount - 1;
      if refCount == 0 {
        registry.MessagePortChannelDestroyed(this);
      }
    }

    method ProcessForPort(port: Port) returns (process: Option<Process>)
      requires Valid() && IncludesPort(port)
      ensures process.Some? <==> Ports()[port].entangled
      ensures process == Ports()[port].process
    {
      IndexIsPort(ends, port, ends[Index(port)]);
      return ends[Index(port)].process;
    }

    method EntanglePortWithProcess(port: Port, process: Process)
      requires Valid() && IncludesPort(port)
      modifies this`ends, this`refCount, registry`openChannels
      ensures Valid() && refCount > 0 && registry.openChannels == old(registry.openChannels)
      ensures Ports() == old(Ports())[port := Entangled(old(Ports())[port], process)]
    {
      hide EndsHold, EndReferences;
      var i := Index(port);
      EntangleKeepsEnd(ends, histories, i, process);
      IndexIsPort(ends, port, Entangled(ends[i], process));
      if !ends[i].entangled {
        refCount := refCount + 1;
      }
      var wasInTransfer := ends[i].inTransfer;
      ends := ends[i := ends[i].(process := Some(process), entangled := true, inTransfer := false)];
      if wasInTransfer {
        Deref();
      }
    }

    method DisentanglePort(port: Port)
      requires Valid() && IncludesPort(port)
      modifies this`ends, this`refCount, registry`openChannels
      ensures Valid() && refCount > 0 && registry.openChannels == old(registry.openChannels)
      ensures Ports() == old(Ports())[port := Disentangled(old(Ports())[port])]
    {
      hide EndsHold, EndReferences;
      var i := Index(port);
      DisentangleKeepsEnd(ends, histories, i);
      IndexIsPort(ends, port, Disentangled(ends[i]));
      if !ends[i].inTransfer {
        refCount := refCount + 1;
      }
      var protectedThis := ends[i].entangled;
      ends := ends[i := ends[i].(process := None, entangled := false, inTransfer := true)];
      if protectedThis {
        Deref();
      }
    }

    /** Lets go of the references of an end, and then of the one held meanwhile. */
    method Release(end: End)
      requires refCount > end.References() && port1 != port2
      requires registry.Registered(this)
      modifies this`refCount, registry`openChannels
      ensures refCount == old(refCount) - end.References() - 1
      ensures registry.openChannels ==
        if refCount == 0 then old(registry.openChannels) - {port1, port2} else old(registry.openChannels)
    {
      if end.inTransfer {
        Deref();
      }
      if end.protected {
        Deref();
      }
      if end.entangled {
        Deref();
      }
      Deref();
    }

    /** Forgets everything at one end. The last reference may go with it, so one is held meanwhile. */
    method ClosePort(port: Port)
      requires Valid() && registry.Registered(this) && IncludesPort(port)
      modifies this`ends, this`histories, this`refCount, registry`openChannels
      ensures Valid()
      ensures Ports() == old(Ports())[port := Closed(old(Ports())[port])]
      ensures Histories() == old(Histories())[port := History([], [])]
      ensures registry.openChannels ==
        if refCount == 0 then old(registry.openChannels) - {port1, port2} else old(registry.openChannels)
    {
      hide EndsHold, EndReferences, EndHolds, End.References;
      var i := Index(port);
      refCount := refCount + 1;
      var end := ends[i];
      OneEnd(ends, histories, i);
      CloseKeepsEnd(end);
      IndexIsPort(ends, port, Closed(end));
      IndexIsPort(histories, port, History([], []));
      ReplaceEnd(ends, histories, i, Closed(end), History([], []));
      ends := ends[i := end.(process := None, closed := true)];
      ends := ends[i := ends[i].(pending := [], inTransfer := false, protected := false, entangled := false)];
      assert ends == old(ends)[i := Closed(end)];
      histories := histories[i := History([], [])];
      Release(end);
    }

    /** Queues a message. The answer tells whether the queue was empty, so that the receiver has to be told. */
    method PostMessageToRemote(message: Message, remoteTarget: Port) returns (first: bool)
      requires Valid() && IncludesPort(remoteTarget)
      modifies this`ends, this`refCount, this`histories
      ensures Valid() && refCount > 0
      ensures first <==> old(Ports())[remoteTarget].pending == []
      ensures Ports() == old(Ports())[remoteTarget := Posted(old(Ports())[remoteTarget], message)]
      ensures Histories() == old(Histories())[remoteTarget := PostedTo(old(Histories())[remoteTarget], message)]
    {
      hide EndsHold, EndReferences, EndHolds, End.References;
      var i := Index(remoteTarget);
      PostKeepsEnd(ends, histories, i, message);
      IndexIsPort(ends, remoteTarget, Posted(ends[i], message));
      IndexIsPort(histories, remoteTarget, PostedTo(histories[i], message));
      histories := histories[i := PostedTo(histories[i], message)];
      ends := ends[i := ends[i].(pending := ends[i].pending + [message])];
      if |ends[i].pending| == 1 {
        refCount := refCount + 1;
        ends := ends[i := ends[i].(protected := true)];
        assert ends == old(ends)[i := Posted(old(ends)[i], message)];
        return true;
      }
      assert ends == old(ends)[i := Posted(old(ends)[i], message)];
      return false;
    }

    /** Hands out the whole queue. The queue's reference moves into the callback that says the batch is done. */
    method TakeAllMessagesForPort(port: Port) returns (batch: seq<Message>, completion: Option<Closure>)
      requires Valid() && IncludesPort(port)
      modifies this`ends, this`histories, this`batchesInFlight, this`inFlight
      ensures Valid()
      ensures batch == old(Ports())[port].pending
      ensures completion.Some? <==> batch != []
      ensures Ports() == old(Ports())[port := Taken(old(Ports())[port])]
      ensures batch == [] ==> histories == old(histories) && inFlight == old(inFlight)
      ensures batch != [] ==>
        && fresh(completion.value) && completion.value.channel == this && inFlight == old(inFlight) + {completion.value}
        && Histories() == old(Histories())[port := TakenFrom(old(Histories())[port], batch)]
    {
      hide EndsHold, EndReferences, EndHolds, End.References;
      var i := Index(port);
      TakeKeepsEnd(ends, histories, i);
      IndexIsPort(ends, port, Taken(ends[i]));
      IndexIsPort(histories, port, TakenFrom(histories[i], ends[i].pending));
      batch := ends[i].pending;
      if batch == [] {
        return batch, None;
      }
      ends := ends[i := ends[i].(pending := [])];
      ends := ends[i := ends[i].(protected := false)];
      assert ends == old(ends)[i := Taken(old(ends)[i])];
      histories := histories[i := TakenFrom(histories[i], batch)];
      var closure := PutInFlight();
      return batch, Some(closure);
    }

    /** Counts one more batch in flight, and makes the callback that holds the reference. */
    method PutInFlight() returns (closure: Closure)
      requires ClosuresHold()
      modifies this`batchesInFlight, this`inFlight
      ensures ClosuresHold()
      ensures fresh(closure) && closure.channel == this && inFlight == old(inFlight) + {closure} &&
        |inFlight| == |old(inFlight)| + 1
    {
      batchesInFlight := batchesInFlight + 1;
      closure := new Closure(this);
      inFlight := inFlight + {closure};
    }

    /** The callback of a batch: one fewer in flight, and its reference goes. */
    method CompleteBatch(completion: Closure)
      requires Valid() && completion in inFlight && (refCount > 0 ==> registry.Registered(this))
      modifies this`batchesInFlight, this`refCount, this`inFlight, registry`openChannels
      ensures Valid() && inFlight == old(inFlight) - {completion} && batchesInFlight == old(batchesInFlight) - 1
      ensures registry.openChannels ==
        if refCount == 0 then old(registry.openChannels) - {port1, port2} else old(registry.openChannels)
    {
      OneFewer(inFlight, completion);
      batchesInFlight := batchesInFlight - 1;
      inFlight := inFlight - {completion};
      Deref();
    }

    predicate HasAnyMessagesPendingOrInFlight()
      reads this`batchesInFlight, this`ends
      requires |ends| == 2
    {
      batchesInFlight != 0 || ends[0].pending != [] || ends[1].pending != []
    }

    /** A batch is in flight, or a message waits at some port. */
    ghost predicate IsBusy()
      reads this`inFlight, this`ends
      requires |ends| == 2
    {
      inFlight != {} || exists port :: port in Ports() && Ports()[port].pending != []
    }

    lemma BusyIsPendingOrInFlight()
      requires Valid()
      ensures HasAnyMessagesPendingOrInFlight() <==> IsBusy()
    {
      if ends[0].pending != [] || ends[1].pending != [] {
        assert Ports()[if ends[0].pending != [] then port1 else port2].pending != [];
      }
    }

    /** Answers at once, or has the port's process asked. The question holds a reference until it is answered. */
    method CheckRemotePortForActivity(remotePort: Port) returns (answer: Option<Activity>, question: Option<Closure>)
      requires Valid() && IncludesPort(remotePort)
      modifies this`refCount, this`checks
      ensures Valid() && refCount >= old(refCount)
      ensures answer == Some(No) <==> Ports()[remotePort].closed
      ensures answer == Some(Yes) <==>
        && !Ports()[remotePort].closed
        && (IsBusy() || !Ports()[remotePort].entangled)
      ensures answer.None? <==> question.Some?
      ensures question.None? ==> refCount == old(refCount) && checks == old(checks)
      ensures question.Some? ==>
        fresh(question.value) && question.value.channel == this && checks == old(checks) + {question.value}
    {
      var i := Index(remotePort);
      IndexIsPort(ends, remotePort, ends[i]);
      BusyIsPendingOrInFlight();
      if ends[i].closed {
        return Some(No), None;
      }
      if HasAnyMessagesPendingOrInFlight() {
        return Some(Yes), None;
      }
      if ends[i].process.None? {
        return Some(Yes), None;
      }
      var closure := new Closure(this);
      refCount := refCount + 1;
      checks := checks + {closure};
      return None, Some(closure);
    }

    /** The process answered. Messages may have come in the meantime, so they are looked for again. */
    method AnswerActivity(question: Closure, local: Activity) returns (answer: Activity)
      requires Valid() && question in checks && (refCount > 0 ==> registry.Registered(this))
      modifies this`refCount, this`checks, registry`openChannels
      ensures Valid() && checks == old(checks) - {question}
      ensures answer == Yes <==> local == Yes || IsBusy()
      ensures registry.openChannels ==
        if refCount == 0 then old(registry.openChannels) - {port1, port2} else old(registry.openChannels)
    {
      BusyIsPendingOrInFlight();
      answer := local;
      if local != Yes && HasAnyMessagesPendingOrInFlight() {
        answer := Yes;
      }
      OneFewer(checks, question);
      checks := checks - {question};
      Deref();
    }
  }

  lemma OneFewer<T>(s: set<T>, x: T)
    requires x in s
    ensures |s - {x}| == |s| - 1
  {
  }

  /** The open channels by port. */
  class MessagePortChannelRegistry {
    var openChannels: map<Port, MessagePortChannel>
    /** Every channel made so far, also those that are gone. */
    ghost var created: set<MessagePortChannel>

    ghost predicate Registered(channel: MessagePortChannel)
      reads this`openChannels
    {
      && channel.port1 in openChannels && openChannels[channel.port1] == channel
      && channel.port2 in openChannels && openChannels[channel.port2] == channel
    }

    ghost predicate Unregistered(channel: MessagePortChannel)
      reads this`openChannels
    {
      forall port :: port in openChannels ==> openChannels[port] != channel
    }

    /** A channel stands under both its ports while it has references, and under no port once it has none. */
    ghost predicate Keeps(channel: MessagePortChannel)
      reads this`openChannels, channel
    {
      && channel.registry == this && channel.Valid()
      && (if channel.refCount > 0 then Registered(channel) else Unregistered(channel))
    }

    ghost predicate MapHolds()
      reads this`openChannels, this`created
    {
      forall port :: port in openChannels ==> openChannels[port] in created && openChannels[port].IncludesPort(port)
    }

    ghost predicate Valid()
      reads this, created
    {
      MapHolds() && forall channel :: channel in created ==> Keeps(channel)
    }

    constructor ()
      ensures Valid() && openChannels == map[] && created == {}
    {
      openChannels, created := map[], {};
    }

    method MessagePortChannelCreated(channel: MessagePortChannel)
      requires channel.port1 != channel.port2
      requires channel.port1 !in openChannels && channel.port2 !in openChannels
      modifies this`openChannels
      ensures openChannels == old(openChannels)[channel.port1 := channel][channel.port2 := channel]
    {
      openChannels := openChannels[channel.port1 := channel];
      openChannels := openChannels[channel.port2 := channel];
    }

    method MessagePortChannelDestroyed(channel: MessagePortChannel)
      requires Registered(channel) && channel.port1 != channel.port2
      modifies this`openChannels
      ensures openChannels == old(openChannels) - {channel.port1, channel.port2}
    {
      openChannels := openChannels - {channel.port1};
      openChannels := openChannels - {channel.port2};
    }

    /** The channel changed and kept its own invariants; it went from the map if its last reference went. */
    twostate lemma StillValid(channel: MessagePortChannel)
      requires old(Valid()) && created == old(created) && channel in created && old(channel.refCount) > 0
      requires channel.Valid()
      requires forall other :: other in created && other != channel ==> unchanged(other)
      requires openChannels ==
        if channel.refCount == 0 then old(openChannels) - {channel.port1, channel.port2} else old(openChannels)
      ensures Valid()
    {
      hide MessagePortChannel.Valid;
      assert old(Keeps(channel));
      forall other | other in created
        ensures Keeps(other)
      {
        assert old(Keeps(other));
      }
    }

    /** Makes a channel and drops the creator's reference; the two entangled ends hold the channel. */
    method Create(port1: Port, port2: Port) returns (channel: MessagePortChannel)
      requires port1 != port2 && port1 !in openChannels && port2 !in openChannels
      modifies this`openChannels
      ensures fresh(channel) && channel.Valid() && channel.refCount == 2 && channel.registry == this
      ensures channel.port1 == port1 && channel.port2 == port2 && channel.Starts()
      ensures openChannels == old(openChannels)[port1 := channel][port2 := channel]
    {
      channel := new MessagePortChannel(this, port1, port2);
      channel.Deref();
    }

    method DidCreateMessagePortChannel(port1: Port, port2: Port)
      requires Valid() && port1 != port2 && port1 !in openChannels && port2 !in openChannels
      modifies this
      ensures Valid()
      ensures port1 in openChannels
      ensures var channel := openChannels[port1];
        && openChannels == old(openChannels)[port1 := channel][port2 := channel] && created == old(created) + {channel}
        && fresh(channel) && channel.port1 == port1 && channel.port2 == port2 && channel.Starts()
    {
      hide MessagePortChannel.Valid;
      var channel := Create(port1, port2);
      created := created + {channel};
      forall other | other in created
        ensures Keeps(other)
      {
        assert other != channel ==> old(Keeps(other));
      }
    }

    method DidEntangleLocalToRemote(local: Port, remote: Port, process: Process)
      requires Valid()
      modifies this`openChannels, if local in openChannels then {openChannels[local]} else {}
      ensures Valid() && openChannels == old(openChannels)
      ensures local in openChannels ==>
        var channel := openChannels[local];
        && channel.Ports() == old(channel.Ports())[local := Entangled(old(channel.Ports())[local], process)]
        && channel.histories == old(channel.histories)
        && channel.inFlight == old(channel.inFlight) && channel.checks == old(channel.checks)
    {
      if local !in openChannels {
        return;
      }
      var channel := openChannels[local];
      assert Keeps(channel);
      channel.EntanglePortWithProcess(local, process);
      StillValid(channel);
    }

    method DidDisentangleMessagePort(port: Port)
      requires Valid()
      modifies this`openChannels, if port in openChannels then {openChannels[port]} else {}
      ensures Valid() && openChannels == old(openChannels)
      ensures port in openChannels ==>
        var channel := openChannels[port];
        && channel.Ports() == old(channel.Ports())[port := Disentangled(old(channel.Ports())[port])]
        && channel.histories == old(channel.histories)
        && channel.inFlight == old(channel.inFlight) && channel.checks == old(channel.checks)
    {
      if port !in openChannels {
        return;
      }
      var channel := openChannels[port];
      assert Keeps(channel);
      channel.DisentanglePort(port);
      StillValid(channel);
    }

    /** Closes a port. The channel goes, with its two entries and no others, exactly when that was the last
        reference. */
    method DidCloseMessagePort(port: Port)
      requires Valid()
      modifies this`openChannels, if port in openChannels then {openChannels[port]} else {}
      ensures Valid()
      ensures port !in old(openChannels) ==> openChannels == old(openChannels)
      ensures port in old(openChannels) ==>
        var channel := old(openChannels)[port];
        && channel.Valid() && channel.Ports() == old(channel.Ports())[port := Closed(old(channel.Ports())[port])]
        && channel.Histories() == old(channel.Histories())[port := History([], [])]
        && channel.inFlight == old(channel.inFlight) && channel.checks == old(channel.checks)
        && openChannels ==
          if channel.References() == 0 then old(openChannels) - {channel.port1, channel.port2} else old(openChannels)
    {
      if port !in openChannels {
        return;
      }
      var channel := openChannels[port];
      assert Keeps(channel);
      channel.ClosePort(port);
      StillValid(channel);
    }

    method DidPostMessageToRemote(message: Message, remoteTarget: Port) returns (first: bool)
      requires Valid()
      modifies if remoteTarget in openChannels then {openChannels[remoteTarget]} else {}
      ensures Valid()
      ensures first <==>
        remoteTarget in openChannels && old(openChannels[remoteTarget].Ports())[remoteTarget].pending == []
      ensures remoteTarget in openChannels ==>
        var channel := openChannels[remoteTarget];
        && channel.Ports() == old(channel.Ports())[remoteTarget := Posted(old(channel.Ports())[remoteTarget], message)]
        && channel.Histories()
          == old(channel.Histories())[remoteTarget := PostedTo(old(channel.Histories())[remoteTarget], message)]
        && channel.inFlight == old(channel.inFlight) && channel.checks == old(channel.checks)
    {
      if remoteTarget !in openChannels {
        return false;
      }
      var channel := openChannels[remoteTarget];
      assert Keeps(channel);
      first := channel.PostMessageToRemote(message, remoteTarget);
      StillValid(channel);
    }

    method TakeAllMessagesForPort(port: Port) returns (batch: seq<Message>, completion: Option<Closure>)
      requires Valid()
      modifies if port in openChannels then {openChannels[port]} else {}
      ensures Valid()
      ensures batch ==
        if port in openChannels then old(openChannels[port].Ports())[port].pending else []
      ensures completion.Some? <==> batch != []
      ensures port in openChannels ==>
        var channel := openChannels[port];
        && channel.Ports() == old(channel.Ports())[port := Taken(old(channel.Ports())[port])]
        && channel.checks == old(channel.checks)
        && (batch == [] ==> channel.histories == old(channel.histories) && channel.inFlight == old(channel.inFlight))
        && (batch != [] ==>
          && channel.Histories() == old(channel.Histories())[port := TakenFrom(old(channel.Histories())[port], batch)]
          && completion.value.channel == channel && channel.inFlight == old(channel.inFlight) + {completion.value})
    {
      if port !in openChannels {
        return [], None;
      }
      var channel := openChannels[port];
      assert Keeps(channel);
      batch, completion := channel.TakeAllMessagesForPort(port);
      StillValid(channel);
    }

    /** The receiver is done with a batch. */
    method DidCompleteBatch(completion: Closure)
      requires Valid() && completion.channel in created && completion in completion.channel.inFlight
      modifies this`openChannels, completion.channel
      ensures Valid()
      ensures var channel := completion.channel;
        && channel.inFlight == old(channel.inFlight) - {completion} && channel.checks == old(channel.checks)
        && channel.ends == old(channel.ends) && channel.histories == old(channel.histories)
        && openChannels ==
          if channel.References() == 0 then old(openChannels) - {channel.port1, channel.port2} else old(openChannels)
    {
      hide MessagePortChannel.Holding, MessagePortChannel.References;
      var channel := completion.channel;
      assert Keeps(channel);
      ReferencedBy(channel, completion);
      channel.CompleteBatch(completion);
      channel.Counted();
      StillValid(channel);
    }

    method CheckRemotePortForActivity(remoteTarget: Port) returns (answer: Option<Activity>, question: Option<Closure>)
      requires Valid()
      modifies if remoteTarget in openChannels then {openChannels[remoteTarget]} else {}
      ensures Valid()
      ensures answer.None? <==> question.Some?
      ensures remoteTarget !in openChannels ==> answer == Some(No)
      ensures remoteTarget in openChannels ==>
        var channel := openChannels[remoteTarget]; var end := channel.Ports()[remoteTarget];
        && (answer == Some(No) <==> end.closed)
        && (answer == Some(Yes) <==> !end.closed && (channel.IsBusy() || !end.entangled))
        && channel.ends == old(channel.ends) && channel.histories == old(channel.histories)
        && channel.inFlight == old(channel.inFlight)
        && channel.checks == old(channel.checks) + (if question.Some? then {question.value} else {})
        && (question.Some? ==> question.value.channel == channel)
    {
      if remoteTarget !in openChannels {
        return Some(No), None;
      }
      var channel := openChannels[remoteTarget];
      assert Keeps(channel);
      answer, question := channel.CheckRemotePortForActivity(remoteTarget);
      StillValid(channel);
    }

    /** The process that was asked about its port's activity answers. */
    method DidAnswerActivity(question: Closure, local: Activity) returns (answer: Activity)
      requires Valid() && question.channel in created && question in question.channel.checks
      modifies this`openChannels, question.channel
      ensures Valid()
      ensures var channel := question.channel;
        && channel.checks == old(channel.checks) - {question} && channel.inFlight == old(channel.inFlight)
        && channel.ends == old(channel.ends) && channel.histories == old(channel.histories)
        && (answer == Yes <==> local == Yes || channel.IsBusy())
        && openChannels ==
          if channel.References() == 0 then old(openChannels) - {channel.port1, channel.port2} else old(openChannels)
    {
      hide MessagePortChannel.Holding, MessagePortChannel.References;
      var channel := question.channel;
      assert Keeps(channel);
      ReferencedBy(channel, question);
      answer := channel.AnswerActivity(question, local);
      channel.Counted();
      StillValid(channel);
    }

    /** An outstanding callback keeps its channel. */
    lemma ReferencedBy(channel: MessagePortChannel, closure: Closure)
      requires channel.Valid() && closure in channel.inFlight + channel.checks
      ensures channel.refCount > 0
    {
      if closure in channel.inFlight {
        OneFewer(channel.inFlight, closure);
      } else {
        OneFewer(channel.checks, closure);
      }
    }

    /**
     * Whatever has happened, a channel is found under its ports exactly while something holds it: an entangled end,
     * an end in transfer, an end with messages, a batch in flight or an unanswered
     question. */
    lemma RegisteredWhileHeld(channel: MessagePortChannel)
      requires Valid() && channel in created
      ensures Registered(channel) || Unregistered(channel)
      ensures Registered(channel) <==>
        || (exists i :: 0 <= i < 2 && IsHeldBy(channel.ends[i]))
        || channel.inFlight != {} || channel.checks != {}
    {
      assert Keeps(channel);
      assert channel.ends[0].References() + channel.ends[1].References() > 0 <==>
        exists i :: 0 <= i < 2 && IsHeldBy(channel.ends[i]);
    }

    lemma OpenIsCreated(port: Port)
      requires Valid() && port in openChannels
      ensures openChannels[port] in created && openChannels[port].IncludesPort(port)
      ensures openChannels[port].Valid() && |openChannels[port].ends| == 2 && |openChannels[port].histories| == 2
    {
      assert Keeps(openChannels[port]);
    }

    /** A channel with a message for one of its ports has not gone. */
    lemma StillOpen(channel: MessagePortChannel, port: Port)
      requires Valid() && channel in created && channel.IncludesPort(port)
      requires channel.Ports()[port].pending != []
      ensures channel.References() > 0
    {
      assert Keeps(channel);
      OneEnd(channel.ends, channel.histories, 0);
      OneEnd(channel.ends, channel.histories, 1);
    }

    /** No channel is found under a port that is not its own, so two channels never share a port. */
    lemma OneChannelPerPort(a: MessagePortChannel, b: MessagePortChannel, port: Port)
      requires Valid() && a in created && b in created && a.refCount > 0 && b.refCount > 0
      requires a.IncludesPort(port) && b.IncludesPort(port)
      ensures a == b
    {
      assert Keeps(a) && Keeps(b);
    }

    /** At each port, what was handed out since the last close and what is queued are what was accepted, in order. */
    lemma NothingIsLost(channel: MessagePortChannel, port: Port)
      requires Valid() && channel in created && channel.IncludesPort(port)
      ensures |channel.histories| == 2 && |channel.ends| == 2
      ensures var history, end := channel.Histories()[port], channel.Ports()[port];
        history.accepted == Concat(history.handed) + end.pending
      ensures channel.Ports()[port].protected <==> channel.Ports()[port].pending != []
      ensures channel.batchesInFlight == |channel.inFlight|
    {
      assert Keeps(channel);
    }
  }

  /** A process that saw no activity is overruled by a message that was posted after it was asked. */
  method PostedMeanwhile(registry: MessagePortChannelRegistry, target: Port, message: Message)
    returns (answer: Activity)
    requires registry.Valid() && target in registry.openChannels
    requires !registry.openChannels[target].Ports()[target].closed
    modifies registry`openChannels, registry.openChannels[target]
    ensures registry.Valid() && answer == Yes && registry.openChannels == old(registry.openChannels)
  {
    hide MessagePortChannelRegistry.Valid, MessagePortChannel.Holding, MessagePortChannel.References;
    registry.OpenIsCreated(target);
    var atOnce, question := registry.CheckRemotePortForActivity(target);
    if atOnce.Some? {
      return atOnce.value;
    }
    var first := registry.DidPostMessageToRemote(message, target);
    answer := registry.DidAnswerActivity(question.value, No);
    registry.StillOpen(question.value.channel, target);
  }

  /** A message posted to one port of a new channel is handed out there, and nothing is at the other port. */
  method EachPortHasItsQueue(a: Port, b: Port, message: Message)
    returns (atA: seq<Message>, atB: seq<Message>, processA: Option<Process>, processB: Option<Process>)
    requires a != b
    ensures atA == [] && atB == [message] && processA == Some(a.process) && processB == Some(b.process)
  {
    hide MessagePortChannelRegistry.Valid, MessagePortChannel.Holding, MessagePortChannel.References;
    var registry := new MessagePortChannelRegistry();
    registry.DidCreateMessagePortChannel(a, b);
    registry.OpenIsCreated(a);
    processA := registry.openChannels[a].ProcessForPort(a);
    processB := registry.openChannels[a].ProcessForPort(b);
    var first := registry.DidPostMessageToRemote(message, b);
    var none, completion;
    atA, none := registry.TakeAllMessagesForPort(a);
    atB, completion := registry.TakeAllMessagesForPort(b);
  }
}
