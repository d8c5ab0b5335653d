/**
  `ZincMessengerBridge`: per receiver and sender, a queue of messages. Each operation is one atomic step,
  as the lock of the bridge makes it.
 */
module Messenger {
  import opened Bytes

  type Id = bytes

  type Targets = map<Id, map<Id, seq<bytes>>>

  datatype Op =
    | Register(id: Id)
    | Unregister(id: Id)
    | Send(recvId: Id, senderId: Id, data: bytes)
    | Read(recvId: Id, senderId: Id)

  // ----- steps

  function SendTo(t: Targets, recvId: Id, senderId: Id, data: bytes): Targets {
    if recvId !in t then t
    else t[recvId := t[recvId][senderId := (if senderId in t[recvId] then t[recvId][senderId] else []) + [data]]]
  }

  predicate CanReadFrom(t: Targets, recvId: Id, senderId: Id) {
    recvId in t && |t[recvId]| != 0 && senderId in t[recvId]
  }

  /** A read returns all messages that wait, and leaves an empty queue behind. */
  function ReadFrom(t: Targets, recvId: Id, senderId: Id): (r: (Targets, seq<bytes>)) {
    if CanReadFrom(t, recvId, senderId) then (t[recvId := t[recvId][senderId := []]], t[recvId][senderId])
    else (t, [])
  }

  function Step(t: Targets, op: Op): Targets {
    match op
    case Register(id) => if id in t then t else t[id := map[]]
    case Unregister(id) => t - {id}
    case Send(r, s, data) => SendTo(t, r, s, data)
    case Read(r, s) => ReadFrom(t, r, s).0
  }

  function Output(t: Targets, op: Op): seq<bytes> {
    if op.Read? then ReadFrom(t, op.recvId, op.senderId).1 else []
  }

  function After(ops: seq<Op>, n: nat): Targets
    requires n <= |ops|
  {
    if n == 0 then map[] else Step(After(ops, n - 1), ops[n - 1])
  }

  // ----- what the history of operations says

  /** Whether the last of the registrations and unregistrations of `r` is a registration. */
  predicate Registered(ops: seq<Op>, n: nat, r: Id)
    requires n <= |ops|
  {
    n > 0 && (ops[n - 1] == Register(r) || (ops[n - 1] != Unregister(r) && Registered(ops, n - 1, r)))
  }

  /** What one operation puts into the queue from `s` to a registered `r`. */
  function Added(op: Op, r: Id, s: Id): seq<bytes> {
    if op.Send? && op.recvId == r && op.senderId == s then [op.data] else []
  }

  /** What one operation takes out of that queue and returns. */
  function Taken(t: Targets, op: Op, r: Id, s: Id): seq<bytes> {
    if op == Read(r, s) then Output(t, op) else []
  }

  /** The messages sent from `s` to `r` since the current registration of `r`. */
  function Sent(ops: seq<Op>, n: nat, r: Id, s: Id): seq<bytes>
    requires n <= |ops|
  {
    if n == 0 || !Registered(ops, n - 1, r) || ops[n - 1] == Unregister(r) then []
    else Sent(ops, n - 1, r, s) + Added(ops[n - 1], r, s)
  }

  /** The messages that reads of `r` from `s` returned since the current registration of `r`. */
  function Received(ops: seq<Op>, n: nat, r: Id, s: Id): seq<bytes>
    requires n <= |ops|
  {
    if n == 0 || !Registered(ops, n - 1, r) || ops[n - 1] == Unregister(r) then []
    else Received(ops, n - 1, r, s) + Taken(After(ops, n - 1), ops[n - 1], r, s)
  }

  /** The messages that wait. */
  function Pending(t: Targets, r: Id, s: Id): seq<bytes> {
    if r in t && s in t[r] then t[r][s] else []
  }

  lemma {:induction false} RegisteredIsTarget(ops: seq<Op>, n: nat, r: Id)
    requires n <= |ops|
    ensures r in After(ops, n) <==> Registered(ops, n, r)
  {
    if n == 0 {
    } else {
      RegisteredIsTarget(ops, n - 1, r);
    }
  }

  /** One operation on a registered target: what waited, and what came in, is what went out and what waits. */
  lemma StepConserves(t: Targets, op: Op, r: Id, s: Id)
    requires r in t && op != Unregister(r)
    ensures Pending(t, r, s) + Added(op, r, s) == Taken(t, op, r, s) + Pending(Step(t, op), r, s)
  {
    var before, now := Pending(t, r, s), Pending(Step(t, op), r, s);
    match op {
      case Register(id) =>
      case Unregister(id) =>
      case Send(r', s', data) =>
        if r' == r && s' == s {
          assert now == before + [data];
        } else {
          assert now == before;
        }
      case Read(r', s') =>
        if r' == r && s' == s {
          assert Output(t, op) == before && now == [];
        } else {
          assert now == before;
        }
    }
  }

  /** No queue waits for a target that is not registered. */
  lemma NothingWaitsUnregistered(t: Targets, op: Op, r: Id, s: Id)
    requires r !in t || op == Unregister(r)
    ensures Pending(Step(t, op), r, s) == []
  {
    assert op.Read? && r !in t ==> r !in Step(t, op);
    assert op.Send? && r !in t ==> r !in Step(t, op);
  }

  lemma SplitSame<T>(received: seq<T>, pending: seq<T>, added: seq<T>, taken: seq<T>, pending': seq<T>)
    requires pending + added == taken + pending'
    ensures received + pending + added == received + taken + pending'
  {
    assert received + pending + added == received + (pending + added);
    assert received + taken + pending' == received + (taken + pending');
  }

  /** Nothing is lost, repeated, reordered or delivered to someone else: what was sent is what was
      received, followed by what waits. */
  lemma {:induction false} QueuesAreExact(ops: seq<Op>, n: nat, r: Id, s: Id)
    requires n <= |ops|
    ensures Sent(ops, n, r, s) == Received(ops, n, r, s) + Pending(After(ops, n), r, s)
  {
    hide Registered, Added, Taken, Step;
    if n == 0 {
    } else {
      hide Pending;
      var t, op := After(ops, n - 1), ops[n - 1];
      RegisteredIsTarget(ops, n - 1, r);
      if !Registered(ops, n - 1, r) || op == Unregister(r) {
        NothingWaitsUnregistered(t, op, r, s);
      } else {
        QueuesAreExact(ops, n - 1, r, s);
        StepConserves(t, op, r, s);
        SplitSame(Received(ops, n - 1, r, s), Pending(t, r, s), Added(op, r, s),
                  Taken(t, op, r, s), Pending(Step(t, op), r, s));
      }
    }
  }

  lemma CanReadStep(t: Targets, op: Op, r: Id, s: Id)
    requires r in t && op != Unregister(r)
    ensures CanReadFrom(Step(t, op), r, s) <==> CanReadFrom(t, r, s) || Added(op, r, s) != []
  {
  }

  lemma CannotReadUnregistered(t: Targets, op: Op, r: Id, s: Id)
    requires r !in t || op == Unregister(r)
    ensures !CanReadFrom(Step(t, op), r, s)
  {
  }

  /** `canRead` says whether the sender has sent anything in the current registration: it stays true after
      a read has emptied the queue. */
  lemma {:induction false} CanReadMeansHasSent(ops: seq<Op>, n: nat, r: Id, s: Id)
    requires n <= |ops|
    ensures CanReadFrom(After(ops, n), r, s) <==> Sent(ops, n, r, s) != []
  {
    hide Registered, Added, Step;
    if n == 0 {
      assert !CanReadFrom(map[], r, s);
    } else {
      hide CanReadFrom;
      var t, op := After(ops, n - 1), ops[n - 1];
      RegisteredIsTarget(ops, n - 1, r);
      if !Registered(ops, n - 1, r) || op == Unregister(r) {
        CannotReadUnregistered(t, op, r, s);
      } else {
        CanReadMeansHasSent(ops, n - 1, r, s);
        CanReadStep(t, op, r, s);
        var sent, added := Sent(ops, n - 1, r, s), Added(op, r, s);
        assert |sent + added| == |sent| + |added|;
      }
    }
  }

  /** A send to a receiver that is not registered changes nothing. */
  lemma UnregisteredSendIgnored(ops: seq<Op>, n: nat)
    requires n < |ops| && ops[n].Send? && !Registered(ops, n, ops[n].recvId)
    ensures After(ops, n + 1) == After(ops, n)
  {
    RegisteredIsTarget(ops, n, ops[n].recvId);
  }

  /** A read leaves nothing behind: after it, all that was sent has been received. */
  lemma ReadTakesEverything(ops: seq<Op>, n: nat, r: Id, s: Id)
    requires n < |ops| && ops[n] == Read(r, s)
    ensures Output(After(ops, n), ops[n]) == Pending(After(ops, n), r, s)
    ensures Pending(After(ops, n + 1), r, s) == []
    ensures Received(ops, n + 1, r, s) == Sent(ops, n + 1, r, s)
  {
    QueuesAreExact(ops, n + 1, r, s);
    hide Sent, Received;
    assert After(ops, n + 1) == Step(After(ops, n), ops[n]);
    assert Pending(After(ops, n + 1), r, s) == [];
  }

  // ----- the bridge

  class ZincMessengerBridge {
    var targets: Targets

    constructor ()
      ensures targets == map[]
    {
      targets := map[];
    }

    predicate IsRegistered(id: Id)
      reads this
    {
      id in targets
    }

    method SenderAmount(recvId: Id) returns (n: nat)
      ensures n == if recvId in targets then |targets[recvId]| else 0
    {
      n := if IsRegistered(recvId) then |targets[recvId]| else 0;
    }

    method CanRead(recvId: Id, senderId: Id) returns (can: bool)
      ensures can == CanReadFrom(targets, recvId, senderId)
    {
      var n := SenderAmount(recvId);
      can := n != 0 && senderId in targets[recvId];
    }

    method Send(recvId: Id, senderId: Id, data: bytes)
      modifies this
      ensures targets == Step(old(targets), Op.Send(recvId, senderId, data))
    {
      if IsRegistered(recvId) {
        var queues := targets[recvId];
        if senderId in queues {
          queues := queues[senderId := queues[senderId] + [data]];
        } else {
          assert [] + [data] == [data];
          queues := queues[senderId := [data]];
        }
        targets := targets[recvId := queues];
      }
    }

    method Read(recvId: Id, senderId: Id) returns (messages: seq<bytes>)
      modifies this
      ensures targets == Step(old(targets), Op.Read(recvId, senderId))
      ensures messages == Output(old(targets), Op.Read(recvId, senderId))
    {
      var can := CanRead(recvId, senderId);
      if can {
        messages := targets[recvId][senderId];
        targets := targets[recvId := targets[recvId][senderId := []]];
      } else {
        messages := [];
      }
    }

    method RegisterTarget(id: Id)
      modifies this
      ensures targets == Step(old(targets), Register(id))
    {
      if !IsRegistered(id) {
        targets := targets[id := map[]];
      }
    }

    method UnregisterTarget(id: Id)
      modifies this
      ensures targets == Step(old(targets), Unregister(id))
    {
      if IsRegistered(id) {
        targets := targets - {id};
      } else {
        assert targets - {id} == targets;
      }
    }
  }
}
