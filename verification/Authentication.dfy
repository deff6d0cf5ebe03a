/** Protection spaces, and which pending challenges one answer may serve. */
module ProtectionSpaces {
  datatype ServerType = HTTP | HTTPS | FTP | FTPS | ProxyHTTP | ProxyHTTPS | ProxyFTP | ProxySOCKS

  datatype Scheme =
    | Default | HTTPBasic | HTTPDigest | HTMLForm | NTLM | Negotiate
    | ClientCertificateRequested | ServerTrustEvaluationRequested | OAuth | Unknown

  datatype ProtectionSpace = ProtectionSpace(host: string, port: int, serverType: ServerType, realm: string,
                                             scheme: Scheme) {
    predicate IsProxy() {
      serverType in {ProxyHTTP, ProxyHTTPS, ProxyFTP, ProxySOCKS}
    }
  }

  /** Realms do not tell proxies apart. */
  predicate Compare(a: ProtectionSpace, b: ProtectionSpace) {
    && a.host == b.host
    && a.port == b.port
    && a.serverType == b.serverType
    && (!a.IsProxy() ==> a.realm == b.realm)
    && a.scheme == b.scheme
  }

  type Handler = nat

  /** A challenge that waits for an answer. Page 0 stands for no page. */
  datatype Challenge = Challenge(page: nat, space: ProtectionSpace, handler: Handler)

  /** Comparing spaces does not compare certificates, so a question about server trust is never put together with
      another. */
  predicate CanCoalesce(challenge: Challenge) {
    challenge.space.scheme != ServerTrustEvaluationRequested
  }

  predicate Coalesce(a: Challenge, b: Challenge) {
    CanCoalesce(a) && b.page == a.page && Compare(a.space, b.space)
  }

  /** Two pending challenges that one answer serves. */
  predicate Together(pending: map<nat, Challenge>, a: nat, b: nat)
    requires a in pending && b in pending
  {
    a == b || Coalesce(pending[a], pending[b])
  }

  /** The pending challenges that an answer to one of them serves. */
  function Class(pending: map<nat, Challenge>, a: nat): set<nat>
    requires a in pending
  {
    set b | b in pending && Together(pending, a, b)
  }

  lemma TogetherIsEquivalence(pending: map<nat, Challenge>, a: nat, b: nat, c: nat)
    requires a in pending && b in pending && c in pending
    ensures Together(pending, a, a)
    ensures Together(pending, a, b) ==> Together(pending, b, a)
    ensures Together(pending, a, b) && Together(pending, b, c) ==> Together(pending, a, c)
  {
  }

  /**
   * One answer serves two challenges exactly if they are from one page and one server, ask in the same way for
   * something other than trust in the server, and name the same realm; for a proxy the realm does not count.
   */
  lemma TogetherInFields(pending: map<nat, Challenge>, a: nat, b: nat)
    requires a in pending && b in pending && a != b
    ensures Together(pending, a, b) <==>
      var c, d := pending[a], pending[b];
      && c.page == d.page && c.space.host == d.space.host && c.space.port == d.space.port
      && c.space.serverType == d.space.serverType
      && c.space.scheme == d.space.scheme && c.space.scheme != ServerTrustEvaluationRequested
      && (c.space.realm == d.space.realm || c.space.serverType == ProxyHTTP || c.space.serverType == ProxyHTTPS
          || c.space.serverType == ProxyFTP || c.space.serverType == ProxySOCKS)
  {
  }

  /** Every pending challenge is served by exactly one challenge whose message was sent. */
  ghost predicate OneSentPerClass(pending: map<nat, Challenge>, sent: set<nat>) {
    && sent <= pending.Keys
    && (forall a :: a in pending ==> exists s :: s in sent && Together(pending, a, s))
    && (forall s, t :: s in sent && t in sent && Together(pending, s, t) ==> s == t)
  }

  lemma JoinedWithoutSending(pending: map<nat, Challenge>, sent: set<nat>, id: nat, challenge: Challenge, other: nat)
    requires OneSentPerClass(pending, sent) && id !in pending && other in pending && Coalesce(challenge, pending[other])
    ensures OneSentPerClass(pending[id := challenge], sent)
  {
    var more := pending[id := challenge];
    var s :| s in sent && Together(pending, other, s);
    TogetherIsEquivalence(more, id, other, s);
    assert Together(more, id, other) && Together(more, other, s);
    forall a | a in more
      ensures exists s :: s in sent && Together(more, a, s)
    {
      if a == id {
        assert s in sent && Together(more, id, s);
      } else {
        var t :| t in sent && Together(pending, a, t);
        assert t in sent && Together(more, a, t);
      }
    }
    forall s, t | s in sent && t in sent && Together(more, s, t)
      ensures s == t
    {
      assert Together(pending, s, t);
    }
  }

  lemma JoinedAndSent(pending: map<nat, Challenge>, sent: set<nat>, id: nat, challenge: Challenge)
    requires OneSentPerClass(pending, sent) && id !in pending
    requires forall other :: other in pending ==> !Coalesce(challenge, pending[other])
    ensures OneSentPerClass(pending[id := challenge], sent + {id})
  {
    var more, sentNow := pending[id := challenge], sent + {id};
    forall a | a in more
      ensures exists s :: s in sentNow && Together(more, a, s)
    {
      if a == id {
        assert id in sentNow && Together(more, id, id);
      } else {
        var t :| t in sent && Together(pending, a, t);
        assert t in sentNow && Together(more, a, t);
      }
    }
    forall s, t | s in sentNow && t in sentNow && Together(more, s, t)
      ensures s == t
    {
      TogetherIsEquivalence(more, s, t, s);
      if s != id && t != id {
        assert Together(pending, s, t);
      }
    }
  }

  /** Answering the sent member of a class takes the whole class away, and with it no other sent member. */
  lemma AnsweredAway(pending: map<nat, Challenge>, sent: set<nat>, id: nat)
    requires OneSentPerClass(pending, sent) && id in sent
    ensures OneSentPerClass(pending - Class(pending, id), sent - {id})
    ensures Class(pending, id) * sent == {id}
  {
    var rest, sentNow := pending - Class(pending, id), sent - {id};
    forall s | s in sent && s in Class(pending, id)
      ensures s == id
    {
    }
    forall a | a in rest
      ensures exists s :: s in sentNow && Together(rest, a, s)
    {
      var s :| s in sent && Together(pending, a, s);
      TogetherIsEquivalence(pending, a, s, id);
      TogetherIsEquivalence(pending, id, a, s);
      assert s in sentNow && Together(rest, a, s);
    }
    forall s, t | s in sentNow && t in sentNow && Together(rest, s, t)
      ensures s == t
    {
      assert Together(pending, s, t);
    }
  }
}

module Authentication {
  import opened ProtectionSpaces

  datatype Disposition = UseCredential | PerformDefaultHandling | Cancel | RejectProtectionSpaceAndContinue

  type Credential = string

  /** A completion handler that was called, and with what. */
  datatype Call = Call(handler: Handler, disposition: Disposition, credential: Credential)

  ghost function Handlers(calls: seq<Call>): set<Handler> {
    set call | call in calls :: call.handler
  }

  /** No handler is called twice. */
  ghost predicate CalledOnce(calls: seq<Call>) {
    forall i, j :: 0 <= i < j < |calls| ==> calls[i].handler != calls[j].handler
  }

  ghost predicate OwnHandlers(pending: map<nat, Challenge>) {
    forall a, b :: a in pending && b in pending && pending[a].handler == pending[b].handler ==> a == b
  }

  /** Every handler received was called or is pending, and none is both. */
  ghost predicate Accounted(pending: map<nat, Challenge>, calls: seq<Call>, received: set<Handler>) {
    && CalledOnce(calls) && OwnHandlers(pending)
    && (forall a :: a in pending ==> pending[a].handler in received && pending[a].handler !in Handlers(calls))
    && Handlers(calls) <= received
    && (forall handler :: handler in received ==>
      handler in Handlers(calls) || exists a :: a in pending && pending[a].handler == handler)
  }

  lemma HandlersOfOneMore(calls: seq<Call>, call: Call)
    ensures Handlers(calls + [call]) == Handlers(calls) + {call.handler}
  {
    forall handler | handler in Handlers(calls)
      ensures handler in Handlers(calls + [call])
    {
      var c :| c in calls && c.handler == handler;
      assert c in calls + [call];
    }
    assert call in calls + [call];
  }

  lemma CalledOnceMore(calls: seq<Call>, call: Call)
    requires CalledOnce(calls) && call.handler !in Handlers(calls)
    ensures CalledOnce(calls + [call])
  {
    forall i | 0 <= i < |calls|
      ensures calls[i].handler != call.handler
    {
      assert calls[i] in calls;
    }
  }

  /** Calling a pending handler moves it from the map to the calls. */
  lemma AccountedCall(pending: map<nat, Challenge>, calls: seq<Call>, received: set<Handler>, id: nat,
                      disposition: Disposition, credential: Credential)
    requires Accounted(pending, calls, received) && id in pending
    ensures Accounted(pending - {id}, calls + [Call(pending[id].handler, disposition, credential)], received)
  {
    hide Handlers;
    var call := Call(pending[id].handler, disposition, credential);
    CalledOnceMore(calls, call);
    HandlersOfOneMore(calls, call);
    var rest := pending - {id};
    forall handler | handler in received
      ensures handler in Handlers(calls + [call]) || exists a :: a in rest && rest[a].handler == handler
    {
      if handler !in Handlers(calls) {
        var a :| a in pending && pending[a].handler == handler;
        assert a != id ==> a in rest && rest[a].handler == handler;
      }
    }
  }

  lemma AccountedNew(pending: map<nat, Challenge>, calls: seq<Call>, received: set<Handler>, id: nat,
                     challenge: Challenge)
    requires Accounted(pending, calls, received) && id !in pending && challenge.handler !in received
    ensures Accounted(pending[id := challenge], calls, received + {challenge.handler})
  {
    hide Handlers;
    var more := pending[id := challenge];
    forall handler | handler in received + {challenge.handler}
      ensures handler in Handlers(calls) || exists a :: a in more && more[a].handler == handler
    {
      if handler == challenge.handler {
        assert id in more && more[id].handler == handler;
      } else if handler !in Handlers(calls) {
        var a :| a in pending && pending[a].handler == handler;
        assert a in more && more[a].handler == handler;
      }
    }
  }

  class AuthenticationManager {
    var challenges: map<nat, Challenge>
    var lastId: nat
    /** The handlers called so far, in order. */
    var calls: seq<Call>
    /** The pending challenges whose message was sent. */
    ghost var sent: set<nat>
    ghost var received: set<Handler>

    ghost predicate Valid()
      reads this
    {
      && (forall id :: id in challenges ==> id <= lastId)
      && OneSentPerClass(challenges, sent)
      && Accounted(challenges, calls, received)
    }

    constructor ()
      ensures Valid() && challenges == map[] && lastId == 0 && calls == [] && received == {}
    {
      challenges, lastId, calls, sent, received := map[], 0, [], {}, {};
    }

    method AddChallengeToChallengeMap(challenge: Challenge) returns (id: nat)
      requires forall a :: a in challenges ==> a <= lastId
      modifies this`challenges, this`lastId
      ensures id !in old(challenges) && challenges == old(challenges)[id := challenge]
      ensures lastId == id == old(lastId) + 1 && forall a :: a in challenges ==> a <= lastId
    {
      lastId := lastId + 1;
      id := lastId;
      challenges := challenges[id := challenge];
    }

    /** Whether another pending challenge will be answered together with this one. */
    method ShouldCoalesceChallenge(page: nat, id: nat, challenge: Challenge) returns (coalesce: bool)
      requires challenge.page == page
      ensures coalesce <==> exists other :: other in challenges && other != id && Coalesce(challenge, challenges[other])
    {
      if !CanCoalesce(challenge) {
        return false;
      }
      var rest := challenges.Keys;
      while rest != {}
        invariant rest <= challenges.Keys
        invariant forall other :: other in challenges && other !in rest && other != id ==>
          !Coalesce(challenge, challenges[other])
        decreases rest
      {
        var other :| other in rest;
        if other != id && challenges[other].page == page && Compare(challenge.space, challenges[other].space) {
          assert Coalesce(challenge, challenges[other]);
          return true;
        }
        rest := rest - {other};
      }
      return false;
    }

    /** The challenges that an answer serves, each once, the answered one first. */
    method CoalesceChallengesMatching(id: nat) returns (ids: seq<nat>)
      requires id in challenges
      ensures ids != [] && ids[0] == id
      ensures forall i, j :: 0 <= i < j < |ids| ==> ids[i] != ids[j]
      ensures (set other | other in ids) == Class(challenges, id)
    {
      var challenge := challenges[id];
      ids := [id];
      if !CanCoalesce(challenge) {
        return;
      }
      var rest := challenges.Keys;
      while rest != {}
        invariant rest <= challenges.Keys && ids != [] && ids[0] == id
        invariant forall i, j :: 0 <= i < j < |ids| ==> ids[i] != ids[j]
        invariant forall other :: other in ids ==> other == id || (other in challenges && other !in rest)
        invariant forall other :: other in challenges && (other == id || other !in rest) ==>
          (other in ids <==> Together(challenges, id, other))
        decreases rest
      {
        var other :| other in rest;
        if other != id && challenges[other].page == challenge.page &&
          Compare(challenge.space, challenges[other].space) {
          ids := ids + [other];
        }
        rest := rest - {other};
      }
    }

    /** A challenge for a page. Without a page it is answered at once. */
    method DidReceiveAuthenticationChallenge(page: nat, space: ProtectionSpace, handler: Handler)
      returns (message: set<nat>)
      requires Valid() && handler !in received
      modifies this
      ensures Valid() && received == old(received) + {handler}
      ensures page == 0 ==>
        && message == {} && challenges == old(challenges) && sent == old(sent) && lastId == old(lastId)
        && calls == old(calls) + [Call(handler, PerformDefaultHandling, "")]
      ensures page != 0 ==>
        && calls == old(calls) && lastId !in old(challenges) && sent == old(sent) + message
        && challenges == old(challenges)[lastId := Challenge(page, space, handler)]
        && message == if Class(challenges, lastId) == {lastId} then {lastId} else {}
    {
      hide Accounted, OneSentPerClass, Compare, CalledOnce;
      if page == 0 {
        CalledAtOnce(handler);
        calls := calls + [Call(handler, PerformDefaultHandling, "")];
        received := received + {handler};
        return {};
      }
      message := Receive(page, space, handler);
    }

    /** A download's challenge belongs to no page, and waits like the others. */
    method DidReceiveDownloadChallenge(space: ProtectionSpace, handler: Handler) returns (message: set<nat>)
      requires Valid() && handler !in received
      modifies this
      ensures Valid() && received == old(received) + {handler}
      ensures calls == old(calls) && lastId !in old(challenges) && sent == old(sent) + message
      ensures challenges == old(challenges)[lastId := Challenge(0, space, handler)]
      ensures message == if Class(challenges, lastId) == {lastId} then {lastId} else {}
    {
      message := Receive(0, space, handler);
    }

    lemma CalledAtOnce(handler: Handler)
      requires Valid() && handler !in received
      ensures Accounted(challenges, calls + [Call(handler, PerformDefaultHandling, "")], received + {handler})
    {
      hide Accounted, OneSentPerClass, Handlers;
      var id := lastId + 1;
      AccountedNew(challenges, calls, received, id, Challenge(0, ProtectionSpace("", 0, HTTP, "", Default), handler));
      var more := challenges[id := Challenge(0, ProtectionSpace("", 0, HTTP, "", Default), handler)];
      AccountedCall(more, calls, received + {handler}, id, PerformDefaultHandling, "");
      assert more - {id} == challenges;
    }

    /** Keeps a challenge, and sends its message unless one that it can be answered with is pending. */
    method Receive(page: nat, space: ProtectionSpace, handler: Handler) returns (message: set<nat>)
      requires Valid() && handler !in received
      modifies this`challenges, this`lastId, this`sent, this`received
      ensures Valid() && received == old(received) + {handler}
      ensures lastId !in old(challenges) && sent == old(sent) + message
      ensures challenges == old(challenges)[lastId := Challenge(page, space, handler)]
      ensures message == if Class(challenges, lastId) == {lastId} then {lastId} else {}
    {
      hide Accounted, OneSentPerClass, Compare;
      var challenge := Challenge(page, space, handler);
      ghost var pending := challenges;
      var id := AddChallengeToChallengeMap(challenge);
      AccountedNew(pending, calls, received, id, challenge);
      received := received + {handler};
      var coalesce := ShouldCoalesceChallenge(page, id, challenge);
      if coalesce {
        ghost var other :| other in pending && Coalesce(challenge, pending[other]);
        JoinedWithoutSending(pending, sent, id, challenge, other);
        assert other in Class(challenges, id);
        return {};
      }
      assert forall other :: other in pending ==>
        other in challenges && other != id && challenges[other] == pending[other];
      JoinedAndSent(pending, sent, id, challenge);
      sent := sent + {id};
      return {id};
    }

    /** An answer: the handlers of the whole class are called with it, each once, and the class is pending no more. */
    method CompleteAuthenticationChallenge(id: nat, disposition: Disposition, credential: Credential)
      requires Valid() && id in sent
      modifies this
      ensures Valid() && received == old(received) && sent == old(sent) - {id}
      ensures challenges == old(challenges) - Class(old(challenges), id) && lastId == old(lastId)
      ensures forall other :: other in old(challenges) && other != id ==>
        var c, d := old(challenges)[id], old(challenges)[other];
        (other !in challenges <==>
          && c.page == d.page && c.space.host == d.space.host && c.space.port == d.space.port
          && c.space.serverType == d.space.serverType
          && c.space.scheme == d.space.scheme && c.space.scheme != ServerTrustEvaluationRequested
          && (c.space.realm == d.space.realm || c.space.serverType == ProxyHTTP || c.space.serverType == ProxyHTTPS
              || c.space.serverType == ProxyFTP || c.space.serverType == ProxySOCKS))
      ensures old(calls) < calls && calls[|old(calls)|].handler == old(challenges)[id].handler
      ensures Handlers(calls[|old(calls)|..]) == set a | a in Class(old(challenges), id) :: old(challenges)[a].handler
      ensures forall call :: call in calls[|old(calls)|..] ==>
        call.disposition == disposition && call.credential == credential
    {
      hide Accounted, OneSentPerClass, Compare, Handlers;
      SentArePending(id);
      ghost var pending: map<nat, Challenge>, before := challenges, calls;
      var ids := CoalesceChallengesMatching(id);
      AnsweredAway(challenges, sent, id);
      HandlersOfClass(pending, ids, id);
      HandlersOfNone();
      assert calls[|before|..] == [];
      var i := 0;
      while i < |ids|
        invariant i <= |ids| && received == old(received) && sent == old(sent) && lastId == old(lastId)
        invariant challenges == pending - (set k | 0 <= k < i :: ids[k])
        invariant Accounted(challenges, calls, received) && before <= calls && |calls| == |before| + i
        invariant i > 0 ==> calls[|before|].handler == pending[id].handler
        invariant Handlers(calls[|before|..]) == set k | 0 <= k < i :: pending[ids[k]].handler
        invariant forall call :: call in calls[|before|..] ==>
          call.disposition == disposition && call.credential == credential
      {
        Distinct(ids, i, pending.Keys);
        var challenge := challenges[ids[i]];
        AccountedCall(challenges, calls, received, ids[i], disposition, credential);
        challenges := challenges - {ids[i]};
        var call := Call(challenge.handler, disposition, credential);
        HandlersOfOneMore(calls[|before|..], call);
        assert (calls + [call])[|before|..] == calls[|before|..] + [call];
        calls := calls + [call];
        i := i + 1;
      }
      assert (set k | 0 <= k < i :: ids[k]) == set other | other in ids;
      sent := sent - {id};
      forall other | other in pending && other != id {
        TogetherInFields(pending, id, other);
      }
    }

    lemma SentArePending(id: nat)
      requires Valid() && id in sent
      ensures id in challenges
    {
    }

    /** In every run each pending challenge waits for exactly one answer that was asked for. */
    lemma OneMessagePerClass(id: nat)
      requires Valid() && id in challenges
      ensures |Class(challenges, id) * sent| == 1
    {
      var s :| s in sent && Together(challenges, id, s);
      forall t | t in Class(challenges, id) * sent
        ensures t == s
      {
        TogetherIsEquivalence(challenges, id, t, s);
        TogetherIsEquivalence(challenges, t, id, s);
      }
      assert Class(challenges, id) * sent == {s};
    }

    /** In every run each handler received so far was called just once, or not yet and then it is pending. */
    lemma NoHandlerLostOrCalledTwice(handler: Handler)
      requires Valid() && handler in received
      ensures (exists id :: id in challenges && challenges[id].handler == handler) <==> handler !in Handlers(calls)
      ensures forall i, j ::
        0 <= i < |calls| && 0 <= j < |calls| && calls[i].handler == handler == calls[j].handler ==> i == j
    {
    }
  }

  lemma HandlersOfNone()
    ensures Handlers([]) == {}
  {
  }

  lemma Distinct(ids: seq<nat>, i: nat, keys: set<nat>)
    requires i < |ids| && forall k, l :: 0 <= k < l < |ids| ==> ids[k] != ids[l]
    ensures ids[i] !in (set k | 0 <= k < i :: ids[k])
    ensures (set k | 0 <= k < i + 1 :: ids[k]) == (set k | 0 <= k < i :: ids[k]) + {ids[i]}
  {
  }

  lemma HandlersOfClass(pending: map<nat, Challenge>, ids: seq<nat>, id: nat)
    requires id in pending && (set other | other in ids) == Class(pending, id)
    ensures forall k :: 0 <= k < |ids| ==> ids[k] in pending
    ensures (set k | 0 <= k < |ids| :: pending[ids[k]].handler) == set a | a in Class(pending, id) :: pending[a].handler
  {
    forall k | 0 <= k < |ids|
      ensures ids[k] in Class(pending, id)
    {
      assert ids[k] in (set other | other in ids);
    }
    forall a | a in Class(pending, id)
      ensures exists k :: 0 <= k < |ids| && ids[k] == a
    {
      assert a in (set other | other in ids);
    }
  }
}
