/** The master's exchange engine: dispatch, session waiters, lazy timers, settlement of callbacks. */
module MasterExchange {
  import opened Bytes
  import opened MasterQueue
  import opened MasterLedger

  class ModbusMaster {
    const queue: RequestQueue
    const strategy: Strategy
    const tcp: bool
    /** What the transport does with the bytes of an exchange before `write` returns. */
    const io: nat -> WriteBehaviour
    var exchanges: map<nat, Exchange>
    var waiters: map<Key, nat>
    var timers: set<nat>
    var nextExchangeId: nat
    var transactionId: nat
    var draining: bool
    var destroyed: bool
    var log: seq<Settlement>
    /** What was handed to the transport, in that order. */
    var wire: seq<Sending>
    ghost var notes: Notes

    ghost predicate Core()
      reads this`notes, this`exchanges, this`waiters, this`log
      reads this`transactionId, this`timers, this`nextExchangeId, this`wire, this`notes, queue
    {
      queue.Holds(notes.contents) && Books(TheLedger())
    }

    ghost function TheLedger(): Ledger
      reads this`notes, this`exchanges, this`waiters, this`log
      reads this`transactionId, this`timers, this`nextExchangeId, this`wire, this`notes
    {
      Ledger(tcp, transactionId, nextExchangeId, timers, notes.places, notes.requests, notes.contents, exchanges, waiters, log, wire, notes.written)
    }

    /** The order of requests, with `pending` on their way from the queue to the wire. */
    ghost predicate InOrder(pending: seq<nat>)
      reads this
    {
      Ordered(strategy.DropStale?, destroyed, notes.accepted, notes.written, pending + Callbacks(notes.contents), notes.discarded, notes.places.Keys, log)
    }

    ghost predicate Armed()
      reads this`exchanges, this`timers
    {
      forall x :: x in exchanges ==> x in timers
    }

    ghost predicate AtMostOne()
      reads this
    {
      forall x, y :: x in exchanges && y in exchanges ==> x == y
    }

    /** Serial strategies: one exchange at a time, and never idle while something waits. */
    ghost predicate Serial()
      reads this
    {
      AtMostOne() && (draining <==> exchanges != map[]) && (notes.contents != [] ==> draining)
    }

    ghost predicate Valid()
      reads this, queue
    {
      && Core() && Armed() && InOrder([])
      && !strategy.Deduplicate?
      && (if strategy.Concurrent? then tcp && notes.contents == [] else Serial())
      && (destroyed ==> notes.contents == [] && exchanges == map[] && waiters == map[])
    }

    constructor (strategy: Strategy, tcp: bool, transactionId: nat, io: nat -> WriteBehaviour)
      requires IsTid(transactionId) && !strategy.Deduplicate? && (strategy.Concurrent? ==> tcp)
      ensures Valid() && fresh(queue) && notes.places == map[] && log == [] && !destroyed && notes.accepted == [] && notes.requests == map[]
      ensures this.strategy == strategy && this.tcp == tcp && this.io == io
    {
      this.strategy, this.tcp, this.transactionId, this.io := strategy, tcp, transactionId, io;
      queue := new RequestQueue();
      exchanges, waiters, timers, nextExchangeId := map[], map[], {}, 1;
      draining, destroyed, log, wire := false, false, [], [];
      notes := Notes([], map[], map[], [], [], {});
    }

    /** Next identifier no live waiter uses. */
    method AllocateTid() returns (tid: nat)
      requires IsTid(transactionId)
      requires exists t :: FreeTid(waiters, t)
      modifies this`transactionId
      ensures FreeTid(waiters, tid) && IsTid(transactionId)
    {
      ghost var goal :| FreeTid(waiters, goal);
      NextTidComesCloser(transactionId, goal);
      tid := transactionId;
      transactionId := NextTid(transactionId);
      while Tid(tid) in waiters
        invariant IsTid(tid) && IsTid(transactionId) && transactionId == NextTid(tid)
        decreases Distance(tid, goal)
      {
        NextTidComesCloser(tid, goal);
        NextTidComesCloser(transactionId, goal);
        tid := transactionId;
        transactionId := NextTid(transactionId);
      }
    }

    /** Close exchange `x`: its waiter goes with it and its callback is settled. */
    method Settle(x: nat, outcome: Outcome)
      requires Core() && x in exchanges && FitsKey(exchanges[x].key, outcome)
      modifies this`exchanges, this`waiters, this`log, this`notes
      ensures Core()
      ensures exchanges == old(exchanges) - {x}
      ensures log == old(log) + [Settlement(old(exchanges)[x].callback, outcome)]
      ensures notes == old(notes).(places := old(notes.places)[old(exchanges)[x].callback := Done])
      ensures notes.places.Keys == old(notes.places).Keys
      ensures waiters == Unkeyed(old(waiters), old(exchanges)[x].key)
    {
      hide Books, RequestQueue.Holds;
      BooksSettled(TheLedger(), x, outcome);
      var e := exchanges[x];
      exchanges := exchanges - {x};
      if e.key.Some? {
        waiters := waiters - {e.key.value};
      }
      log := log + [Settlement(e.callback, outcome)];
      notes := notes.(places := notes.places[e.callback := Done]);
    }

    /** Some key is free for the next exchange. */
    ghost predicate Room()
      reads this`waiters
    {
      if tcp then exists t :: FreeTid(waiters, t) else FifoKey !in waiters
    }

    /** One exchange: open it, and see what the transport does with the bytes before `write` returns. */
    method RunExchange(r: Request) returns (x: nat)
      requires Core() && Armed() && r.callback !in notes.places && Room()
      requires r.callback in notes.requests && notes.requests[r.callback] == r
      modifies this`exchanges, this`waiters, this`timers, this`nextExchangeId, this`transactionId, this`log, this`notes, this`wire
      ensures Core() && Armed()
      ensures x == old(nextExchangeId) && x !in old(exchanges) && nextExchangeId == x + 1
      ensures notes.places.Keys == old(notes.places).Keys + {r.callback}
      ensures notes == old(notes).(places := notes.places, written := old(notes.written) + [r.callback])
      ensures io(x) == Later ==> log == old(log) && Opened(old(exchanges), exchanges, x, r)
      ensures forall o :: SettlesNow(io(x), r.broadcast, o) ==>
                log == old(log) + [Settlement(r.callback, o)] && exchanges == old(exchanges)
      ensures match AtOnce(io(x), r.broadcast)
              case None => log == old(log) && Opened(old(exchanges), exchanges, x, r)
              case Some(o) => log == old(log) + [Settlement(r.callback, o)] && exchanges == old(exchanges)
    {
      hide Books, RequestQueue.Holds;
      ghost var before := exchanges;
      x := Open(r);
      if r.broadcast {
        match io(x) {
          case Later =>
          case FailsNow => Settle(x, WriteFailed);
          case SentNow => Settle(x, Sent);
          case AnsweredNow =>
        }
      } else {
        match io(x) {
          case Later =>
          case FailsNow => Settle(x, WriteFailed);
          case SentNow =>
          case AnsweredNow => Settle(x, Answered);
        }
      }
      OpenedAndShut(before, x, r);
    }

    ghost function PickFree(): (t: nat)
      requires tcp && Room()
      reads this
      ensures FreeTid(waiters, t)
    {
      var t :| FreeTid(waiters, t);
      t
    }

    /** Register exchange, timer and waiter, and only then encode and write the bytes. */
    method Open(r: Request) returns (x: nat)
      requires Core() && Armed() && r.callback !in notes.places && Room()
      requires r.callback in notes.requests && notes.requests[r.callback] == r
      modifies this`exchanges, this`waiters, this`timers, this`nextExchangeId, this`transactionId, this`notes, this`wire
      ensures Core() && Armed()
      ensures x == old(nextExchangeId) && x !in old(exchanges) && nextExchangeId == x + 1
      ensures notes == old(notes).(places := old(notes.places)[r.callback := Pending(x)], written := old(notes.written) + [r.callback])
      ensures Opened(old(exchanges), exchanges, x, r)
    {
      hide Books, RequestQueue.Holds, Opened;
      var key := PickKey();
      BooksOpened(TheLedger(), r, key);
      x := nextExchangeId;
      var k := if r.broadcast then None else Some(key);
      OpensAs(exchanges, x, r, k);
      nextExchangeId, timers, exchanges := x + 1, timers + {x}, exchanges[x := Exchange(r.callback, k)];
      if !r.broadcast {
        waiters := waiters[key := x];
      }
      wire := wire + [Sending(r.callback, key)];
      notes := notes.(places := notes.places[r.callback := Pending(x)], written := notes.written + [r.callback]);
    }

    /** The key of the next exchange; a transaction identifier is used up on TCP. */
    method PickKey() returns (key: Key)
      requires Books(TheLedger()) && Room()
      modifies this`transactionId
      ensures Books(TheLedger()) && key !in waiters && KeyFits(tcp, key)
    {
      key := FifoKey;
      if tcp {
        ghost var free := PickFree();
        ghost var before := TheLedger();
        assert FreeTid(waiters, free);
        var tid := AllocateTid();
        key := Tid(tid);
        hide Books;
        BooksRenumbered(before, transactionId, timers);
      }
    }

    /** With no exchange open there is no waiter either, so the next one has room. */
    lemma IdleHasRoom()
      requires Core() && exchanges == map[]
      ensures waiters == map[] && Room()
    {
      assert waiters == map[];
      assert FreeTid(waiters, transactionId);
    }

    /** Every open exchange is one of `kept` or was numbered from `first` on. */
    ghost predicate OnlyNewSince(first: nat, kept: set<nat>)
      reads this
    {
      first <= nextExchangeId && forall y :: y in exchanges ==> y in kept || first <= y
    }

    /** Drain the queue: dispatch until an exchange stays open or nothing waits. */
    method Next()
      requires Core() && Armed() && InOrder([]) && exchanges == map[]
      modifies this, queue
      ensures Core() && Armed() && InOrder([]) && Serial()
      ensures notes.places.Keys == old(notes.places).Keys && notes.accepted == old(notes.accepted) && notes.requests == old(notes.requests)
      ensures var d := Drain(io, old(nextExchangeId), old(notes.contents));
              log == old(log) + d.log && notes.contents == d.left
      ensures destroyed == old(destroyed)
      ensures OnlyNewSince(old(nextExchangeId), {})
      ensures old(notes.contents) != [] && io(old(nextExchangeId)) == Later ==>
                old(nextExchangeId) in exchanges && exchanges[old(nextExchangeId)].callback == old(notes.contents)[0].callback
    {
      hide Core, Ordered, Callbacks, Drain, Underway, AtOnce;
      ghost var d, log0 := Drain(io, nextExchangeId, notes.contents), log;
      StartDraining();
      QueueLength();
      while queue.queueLen > 0
        invariant Core() && Armed() && InOrder([]) && exchanges == map[] && queue.queueLen == |notes.contents|
        invariant notes.places.Keys == old(notes.places).Keys
        invariant notes.accepted == old(notes.accepted) && notes.requests == old(notes.requests)
        invariant Underway(io, log0 + d.log, d.left, log, nextExchangeId, notes.contents)
        invariant destroyed == old(destroyed) && old(nextExchangeId) <= nextExchangeId
        invariant (notes.contents == old(notes.contents) && nextExchangeId == old(nextExchangeId)) || io(old(nextExchangeId)) != Later
        decreases queue.queueLen
      {
        ghost var waiting, before := notes.contents, log;
        var x := DispatchHead();
        LaterIsNone(io(x), waiting[0].broadcast);
        QueueLength();
        if x in exchanges {
          UnderwayStops(io, log0 + d.log, d.left, before, x, waiting);
          draining := true;
          return;
        }
        UnderwaySettles(io, log0 + d.log, d.left, before, x, waiting, AtOnce(io(x), waiting[0].broadcast).value);
      }
      UnderwayStops(io, log0 + d.log, d.left, log, nextExchangeId, notes.contents);
      draining := false;
    }

    lemma StartDraining()
      ensures var d := Drain(io, nextExchangeId, notes.contents);
              Underway(io, log + d.log, d.left, log, nextExchangeId, notes.contents)
    {
    }

    lemma LaterIsNone(b: WriteBehaviour, broadcast: bool)
      ensures b == Later ==> AtOnce(b, broadcast).None?
    {
    }

    /** Dispatch the request at the head of the queue. */
    method DispatchHead() returns (x: nat)
      requires Core() && Armed() && InOrder([]) && exchanges == map[] && queue.queueLen > 0
      modifies this, queue
      ensures Core() && Armed() && InOrder([])
      ensures |old(notes.contents)| > 0 && notes.contents == old(notes.contents)[1..]
      ensures x == old(nextExchangeId) && nextExchangeId == x + 1
      ensures notes.places.Keys == old(notes.places).Keys && notes.accepted == old(notes.accepted) && notes.requests == old(notes.requests) && destroyed == old(destroyed)
      ensures match AtOnce(io(x), old(notes.contents)[0].broadcast)
              case None => log == old(log) && exchanges.Keys == {x} && exchanges[x].callback == old(notes.contents)[0].callback
              case Some(o) => log == old(log) + [Settlement(old(notes.contents)[0].callback, o)] && exchanges == map[]
    {
      hide Core, Armed, Ordered, Callbacks;
      var r := TakeHead();
      IdleHasRoom();
      ghost var before, queued := log, Callbacks(notes.contents);
      x := RunExchange(r);
      OrderedLater(strategy.DropStale?, destroyed, notes.accepted, notes.written[..|notes.written| - 1], [r.callback] + queued, notes.discarded,
                   notes.places.Keys, before, notes.places.Keys, log);
      WrittenNow(strategy.DropStale?, destroyed, notes.accepted, notes.written[..|notes.written| - 1], r.callback, queued, notes.discarded,
                 notes.places.Keys, log);
      assert notes.written[..|notes.written| - 1] + [r.callback] == notes.written && [] + queued == queued;
    }

    lemma QueueLength()
      requires Core()
      ensures queue.queueLen == |notes.contents|
    {
    }

    method TakeHead() returns (r: Request)
      requires Core() && Armed() && InOrder([]) && queue.queueLen > 0
      modifies this`notes, queue
      ensures Core() && Armed() && |old(notes.contents)| > 0 && r == old(notes.contents)[0] && notes.contents == old(notes.contents)[1..]
      ensures Ordered(strategy.DropStale?, destroyed, notes.accepted, notes.written, [r.callback] + Callbacks(notes.contents), notes.discarded,
                      notes.places.Keys + {r.callback}, log)
      ensures r.callback !in notes.places && notes.places.Keys + {r.callback} == old(notes.places).Keys
      ensures r.callback in notes.requests && notes.requests[r.callback] == r
      ensures notes == old(notes).(places := notes.places, contents := notes.contents)
    {
      hide Books, Layout, Callbacks, Ordered;
      BooksTaken(TheLedger());
      r := queue.Dequeue(notes.contents);
      CallbacksTail(notes.contents);
      assert [] + Callbacks(notes.contents) == [r.callback] + Callbacks(notes.contents[1..]);
      notes := notes.(places := notes.places - {r.callback}, contents := notes.contents[1..]);
    }

    /** What follows from a settlement: a serial master dispatches what waits. */
    ghost function Aftermath(): Drainage
      reads this
    {
      if strategy.Concurrent? then Drainage([], notes.contents) else Drain(io, nextExchangeId, notes.contents)
    }

    lemma AftermathComesFromWrites()
      ensures forall e :: e in Aftermath().log ==> SomeWrite(io, e.outcome)
    {
      hide Drain;
      DrainComesFromWrites(io, nextExchangeId, notes.contents);
    }

    /** After a settlement a serial master moves on to the next waiting request. */
    method AfterSettlement()
      requires Core() && Armed() && InOrder([]) && !strategy.Deduplicate? && !destroyed
      requires if strategy.Concurrent? then tcp && notes.contents == [] else exchanges == map[]
      modifies this, queue
      ensures Valid() && notes.places.Keys == old(notes.places).Keys && notes.accepted == old(notes.accepted) && notes.requests == old(notes.requests) && !destroyed
      ensures log == old(log) + old(Aftermath()).log && notes.contents == old(Aftermath()).left
      ensures strategy.Concurrent? ==> notes.places == old(notes.places) && exchanges == old(exchanges) && waiters == old(waiters)
      ensures OnlyNewSince(old(nextExchangeId), old(exchanges.Keys))
    {
      hide Core, Ordered, Drain;
      if !strategy.Concurrent? {
        Next();
      } else {
        assert log + [] == log;
      }
    }

    /** Settle exchange `x` and go on. */
    method SettleAndGoOn(x: nat, outcome: Outcome)
      requires Valid() && !destroyed && x in exchanges && FitsKey(exchanges[x].key, outcome)
      modifies this, queue
      ensures Valid() && notes.places.Keys == old(notes.places).Keys && notes.accepted == old(notes.accepted) && notes.requests == old(notes.requests) && !destroyed
      ensures log == old(log) + [Settlement(old(exchanges)[x].callback, outcome)] + old(Aftermath()).log
      ensures notes.contents == old(Aftermath()).left
      ensures x !in exchanges && OnlyNewSince(old(nextExchangeId), old(exchanges.Keys))
      ensures forall y :: y in old(exchanges) && y != x ==> y in exchanges && exchanges[y] == old(exchanges)[y]
      ensures strategy.Concurrent? ==>
                exchanges == old(exchanges) - {x} && waiters == Unkeyed(old(waiters), old(exchanges)[x].key)
    {
      hide Books, RequestQueue.Holds, Ordered, Drain;
      WaitersAreOpen();
      ghost var before := log;
      Settle(x, outcome);
      OrderedLater(strategy.DropStale?, destroyed, notes.accepted, notes.written, [] + Callbacks(notes.contents), notes.discarded,
                   notes.places.Keys, before, notes.places.Keys, log);
      AfterSettlement();
    }

    /** A request enters the master. */
    method Send(r: Request)
      requires Valid() && r.callback !in notes.places
      requires strategy.Concurrent? ==> Room()
      modifies this, queue
      ensures Valid() && notes.places.Keys == old(notes.places).Keys + {r.callback}
      ensures old(log) <= log && destroyed == old(destroyed)
      ensures notes.accepted == if destroyed then old(notes.accepted) else old(notes.accepted) + [r.callback]
      ensures notes.requests == old(notes.requests)[r.callback := r]
      ensures !destroyed && io(old(nextExchangeId)) == Later ==>
                log == old(log) + if strategy.Concurrent? then [] else
                         Settlements(Callbacks(Dropped(strategy, old(notes.contents), r.fingerprint)), Rejected)
      ensures !destroyed && io(old(nextExchangeId)) == Later && (strategy.Concurrent? || !old(draining)) ==>
                old(nextExchangeId) in exchanges && exchanges[old(nextExchangeId)].callback == r.callback
      ensures destroyed ==> log == old(log) + [Settlement(r.callback, Destroyed)]
      ensures !destroyed && strategy.Concurrent? ==>
                match AtOnce(io(old(nextExchangeId)), r.broadcast)
                case None => log == old(log)
                case Some(o) => log == old(log) + [Settlement(r.callback, o)]
      ensures !destroyed && !strategy.Concurrent? ==>
                var turned := Settlements(Callbacks(Dropped(strategy, old(notes.contents), r.fingerprint)), Rejected);
                var waiting := Survivors(strategy, old(notes.contents), r.fingerprint) + [r];
                var d := if old(draining) then Drainage([], waiting) else Drain(io, old(nextExchangeId), waiting);
                log == old(log) + turned + d.log && notes.contents == d.left
    {
      hide Core, Ordered, Drain, Callbacks;
      if destroyed {
        TurnAway(r);
        return;
      }
      if strategy.Concurrent? {
        RunAtOnce(r);
        return;
      }
      Enqueue(r);
      if !draining {
        if io(nextExchangeId) == Later {
          LaterStaysOpen(io, nextExchangeId, notes.contents);
        }
        draining := true;
        Next();
      }
    }

    /** A destroyed master rejects what it is given. */
    method TurnAway(r: Request)
      requires Valid() && destroyed && r.callback !in notes.places
      modifies this`log, this`notes
      ensures Valid() && notes.places.Keys == old(notes.places).Keys + {r.callback}
      ensures log == old(log) + [Settlement(r.callback, Destroyed)] && notes.requests == old(notes.requests)[r.callback := r]
      ensures notes == old(notes).(places := notes.places, requests := notes.requests)
    {
      hide Books, RequestQueue.Holds, Ordered;
      BooksTurnedBack(TheLedger(), r);
      ghost var before, known := log, notes.places.Keys;
      log := log + [Settlement(r.callback, Destroyed)];
      notes := notes.(requests := notes.requests[r.callback := r], places := notes.places[r.callback := Done]);
      OrderedLater(strategy.DropStale?, destroyed, notes.accepted, notes.written, [] + Callbacks(notes.contents), notes.discarded,
                   known, before, notes.places.Keys, log);
    }

    /** Concurrent requests skip the queue. */
    method RunAtOnce(r: Request)
      requires Valid() && !destroyed && strategy.Concurrent? && Room() && r.callback !in notes.places
      modifies this
      ensures Valid() && !destroyed && notes.places.Keys == old(notes.places).Keys + {r.callback}
      ensures notes.accepted == old(notes.accepted) + [r.callback] && notes.requests == old(notes.requests)[r.callback := r]
      ensures io(old(nextExchangeId)) == Later ==>
                old(nextExchangeId) in exchanges && exchanges[old(nextExchangeId)].callback == r.callback
      ensures match AtOnce(io(old(nextExchangeId)), r.broadcast)
              case None => log == old(log)
              case Some(o) => log == old(log) + [Settlement(r.callback, o)]
    {
      hide Books, RequestQueue.Holds, Ordered;
      ghost var before, known := log, notes.places.Keys;
      assert Callbacks(notes.contents) == [] && [] + Callbacks(notes.contents) == [];
      OrderedAccepts(false, notes.accepted, notes.written, [], notes.discarded, known, log, r.callback);
      BooksTurnedBack(TheLedger(), r);
      notes := notes.(accepted := notes.accepted + [r.callback], requests := notes.requests[r.callback := r]);
      ghost var w := notes.written;
      var x := RunExchange(r);
      OrderedLater(false, false, notes.accepted, w, [r.callback], notes.discarded, known + {r.callback}, before, notes.places.Keys, log);
      assert [] + [r.callback] == [r.callback] == [r.callback] + [] && [] + Callbacks(notes.contents) == [];
      WrittenNow(false, false, notes.accepted, w, r.callback, [], notes.discarded, notes.places.Keys, log);
    }

    /** Admit a request to the queue, settling what the strategy drops. */
    method Enqueue(r: Request)
      requires Core() && Armed() && InOrder([]) && !destroyed && r.callback !in notes.places
      requires strategy.Fifo? || strategy.DropStale?
      modifies this`log, this`notes, queue
      ensures Core() && Armed() && InOrder([])
      ensures notes.contents == Survivors(strategy, old(notes.contents), r.fingerprint) + [r]
      ensures log == old(log) + Settlements(Callbacks(Dropped(strategy, old(notes.contents), r.fingerprint)), Rejected)
      ensures notes.places.Keys == old(notes.places).Keys + {r.callback} && notes.accepted == old(notes.accepted) + [r.callback]
      ensures notes.requests == old(notes.requests)[r.callback := r]
    {
      hide Books, RequestQueue.Holds, Ordered, AllDone, Callbacks, Settlements, Elements, Survivors, Dropped;
      BooksAdmitted(TheLedger(), strategy, r);
      ghost var before, known := notes.contents, notes.places.Keys;
      var dropped := Queue(r);
      ghost var left := Survivors(strategy, before, r.fingerprint);
      WaitingSplits(strategy, before, r.fingerprint);
      CallbacksSnoc(left, r);
      assert [] + Callbacks(before) == Callbacks(left) + dropped;
      assert [] + Callbacks(left + [r]) == Callbacks(left) + [r.callback];
      AdmittedOrder(strategy.DropStale?, notes.accepted, notes.written, Callbacks(left), dropped, notes.discarded, known, log, r.callback);
      log := log + Settlements(dropped, Rejected);
      notes := Notes(left + [r], AllDone(notes.places, dropped)[r.callback := Queued], notes.requests[r.callback := r],
                     notes.accepted + [r.callback], notes.written, notes.discarded + Elements(dropped));
    }

    /** Put `r` into the arrays; `dropped` are the callbacks the strategy rejects for it. */
    method Queue(r: Request) returns (dropped: seq<nat>)
      requires queue.Holds(notes.contents) && (strategy.Fifo? || strategy.DropStale?)
      modifies queue
      ensures queue.Holds(Survivors(strategy, notes.contents, r.fingerprint) + [r])
      ensures dropped == Callbacks(Dropped(strategy, notes.contents, r.fingerprint))
    {
      hide RequestQueue.Holds;
      var rejectedBefore := |queue.rejected|;
      queue.Admit(strategy, r, notes.contents);
      dropped := queue.rejected[rejectedBefore..];
    }

    /** A decoded frame arrives; it settles the exchange that waits for its key and nothing else. */
    method OnFrame(key: Key)
      requires Valid() && !destroyed
      modifies this, queue
      ensures Valid() && notes.places.Keys == old(notes.places).Keys && notes.accepted == old(notes.accepted) && notes.requests == old(notes.requests) && !destroyed
      ensures key !in old(waiters) ==> log == old(log) && exchanges == old(exchanges)
      ensures key in old(waiters) ==> old(waiters)[key] in old(exchanges)
      ensures key in old(waiters) ==>
                log == old(log) + [Settlement(old(exchanges)[old(waiters)[key]].callback, Answered)] + old(Aftermath()).log
      ensures key in old(waiters) ==> LastSent(old(wire), key) == Some(old(exchanges)[old(waiters)[key]].callback)
      ensures key in old(waiters) && strategy.Concurrent? ==> exchanges == old(exchanges) - {old(waiters)[key]}
      ensures strategy.Concurrent? ==> waiters == old(waiters) - {key}
    {
      hide Books, RequestQueue.Holds, Ordered, Drain;
      if key in waiters {
        var x := waiters[key];
        WaiterWasSentLast(key);
        SettleAndGoOn(x, Answered);
      }
    }

    /** Who waits under a key is whose request went out last under it. */
    lemma WaiterWasSentLast(key: Key)
      requires Core() && key in waiters
      ensures waiters[key] in exchanges && exchanges[waiters[key]].key == Some(key) && waiters[key] < nextExchangeId
      ensures LastSent(wire, key) == Some(exchanges[waiters[key]].callback)
    {
    }

    /** The transport reports on an earlier write; a success settles broadcasts only. */
    method OnWriteDone(x: nat, failed: bool)
      requires Valid() && !destroyed
      modifies this, queue
      ensures Valid() && notes.places.Keys == old(notes.places).Keys && notes.accepted == old(notes.accepted) && notes.requests == old(notes.requests) && !destroyed
      ensures if x in old(exchanges) && (failed || old(exchanges)[x].key.None?) then
                log == old(log) + [Settlement(old(exchanges)[x].callback, if failed then WriteFailed else Sent)]
                       + old(Aftermath()).log
              else log == old(log) && exchanges == old(exchanges)
      ensures failed ==> x !in exchanges
    {
      hide Core, Ordered, Drain;
      if x in exchanges && (failed || exchanges[x].key.None?) {
        SettleAndGoOn(x, if failed then WriteFailed else Sent);
      }
    }

    /** Timer `x` expires; a timer whose exchange is already settled touches nothing. */
    method OnTimer(x: nat)
      requires Valid() && !destroyed && x in timers
      modifies this, queue
      ensures Valid() && notes.places.Keys == old(notes.places).Keys && notes.accepted == old(notes.accepted) && notes.requests == old(notes.requests) && !destroyed
      ensures x !in old(exchanges) ==> log == old(log) && exchanges == old(exchanges) && waiters == old(waiters)
      ensures x in old(exchanges) ==>
                log == old(log) + [Settlement(old(exchanges)[x].callback, TimedOut)] + old(Aftermath()).log
      ensures x in old(exchanges) && strategy.Concurrent? ==> exchanges == old(exchanges) - {x}
      ensures x !in timers && x !in exchanges
    {
      hide Books, RequestQueue.Holds, Ordered, Drain;
      if x in exchanges {
        SettleAndGoOn(x, TimedOut);
      }
      ForgetTimers(timers - {x});
    }

    /** Timers that are spent or cancelled leave the books as they are. */
    method ForgetTimers(left: set<nat>)
      requires Core() && left <= timers
      modifies this`timers
      ensures Core() && timers == left
    {
      hide RequestQueue.Holds;
      IdsInRange();
      BooksRenumbered(TheLedger(), transactionId, left);
      hide Books;
      timers := left;
    }

    lemma IdsInRange()
      requires Core()
      ensures IsTid(transactionId)
    {
    }

    /** Waiters are matched with open exchanges, one to one. */
    lemma WaitersAreOpen()
      requires Core()
      ensures forall k :: k in waiters ==>
                waiters[k] in exchanges && exchanges[waiters[k]].key == Some(k) && waiters[k] < nextExchangeId
      ensures forall x :: x in exchanges ==> x < nextExchangeId
    {
    }

    /** A framing error rejects every exchange that waits for an answer. */
    method OnFramingError()
      requires Valid() && !destroyed
      modifies this, queue
      ensures Valid() && notes.places.Keys == old(notes.places).Keys && notes.accepted == old(notes.accepted) && notes.requests == old(notes.requests) && !destroyed && old(log) <= log
      ensures forall k :: k in old(waiters) ==> old(waiters)[k] in old(exchanges) && old(waiters)[k] !in exchanges
      ensures forall k :: k in old(waiters) ==> Settlement(old(exchanges)[old(waiters)[k]].callback, FramingFailed) in log
      ensures forall x :: x in old(exchanges) && x !in old(waiters).Values ==>
                x in exchanges && exchanges[x] == old(exchanges)[x]
      ensures strategy.Concurrent? ==> waiters == map[]
      ensures forall i :: |old(log)| <= i < |log| ==> log[i].outcome == FramingFailed || SomeWrite(io, log[i].outcome)
    {
      hide Books, RequestQueue.Holds, Ordered, Drain, Rejecting, SomeWrite;
      WaitersAreOpen();
      ghost var first := Rejection(exchanges, waiters, log);
      var left := waiters.Values;
      StartRejecting(first, io);
      while left != {}
        invariant Valid() && notes.places.Keys == old(notes.places).Keys && !destroyed
        invariant notes.accepted == old(notes.accepted) && notes.requests == old(notes.requests)
        invariant Rejecting(first, left, Rejection(exchanges, waiters, log), io, strategy.Concurrent?)
        invariant forall x :: x in first.waiters.Values ==> x < nextExchangeId
        decreases left
      {
        var x :| x in left;
        ghost var now := Rejection(exchanges, waiters, log);
        RejectingNext(first, left, now, io, strategy.Concurrent?, x);
        AftermathComesFromWrites();
        ghost var later := Aftermath().log;
        WaitersAreOpen();
        SettleAndGoOn(x, FramingFailed);
        RejectingStep(first, left, now, io, strategy.Concurrent?, x, Rejection(exchanges, waiters, log), later);
        left := left - {x};
      }
      WaitersAreOpen();
      RejectingDone(first, Rejection(exchanges, waiters, log), io, strategy.Concurrent?);
    }

    /** Reject everything that is queued or in flight and shut down. */
    method Destroy()
      requires Valid()
      modifies this, queue
      ensures Valid() && destroyed && notes.accepted == old(notes.accepted) && notes.requests == old(notes.requests)
      ensures notes.places.Keys == old(notes.places).Keys && AllNew(old(log), log, Destroyed)
      ensures old(destroyed) ==> log == old(log)
      ensures forall c :: c in notes.places ==> notes.places[c] == Done && c in SettledBy(log)
      ensures forall c :: c in notes.places && c !in SettledBy(old(log)) ==> Settlement(c, Destroyed) in log
    {
      hide Books, RequestQueue.Holds, Ordered, AllNew, SettledBy, Settlements, Callbacks;
      ghost var before := log;
      if destroyed {
        EverythingSettled();
        NothingNew(log, Destroyed);
        NewOnes(before, log, Destroyed);
        return;
      }
      ghost var queued := Callbacks(notes.contents);
      RejectQueue();
      CloseAll();
      ForgetTimers({});
      draining := false;
      AllNewJoins(before, queued, log, Destroyed);
      EverythingSettled();
      NewOnes(before, log, Destroyed);
    }

    /** Settle whatever is still open. */
    method CloseAll()
      requires Core() && InOrder([])
      modifies this`exchanges, this`waiters, this`log, this`notes
      ensures Core() && InOrder([]) && exchanges == map[] && waiters == map[]
      ensures notes.places.Keys == old(notes.places).Keys && AllNew(old(log), log, Destroyed)
      ensures notes == old(notes).(places := notes.places)
    {
      hide Books, RequestQueue.Holds, Ordered, AllNew;
      ghost var logged := log;
      NothingNew(log, Destroyed);
      while exchanges != map[]
        invariant Core() && notes.places.Keys == old(notes.places).Keys && AllNew(old(log), log, Destroyed)
        invariant notes == old(notes).(places := notes.places)
        decreases |exchanges|
      {
        var x :| x in exchanges;
        ghost var before := exchanges;
        OneMoreNew(logged, log, exchanges[x].callback, Destroyed);
        Settle(x, Destroyed);
        assert exchanges.Keys == before.Keys - {x};
      }
      OneMoreNew(logged, log, 0, Destroyed);
      OrderedLater(strategy.DropStale?, destroyed, notes.accepted, notes.written, [] + Callbacks(notes.contents), notes.discarded,
                   notes.places.Keys, logged, notes.places.Keys, log);
      IdleHasRoom();
    }

    /** Turn away everything that waits, for good. */
    method RejectQueue()
      requires Core() && InOrder([])
      modifies this`log, this`notes, this`destroyed, queue
      ensures Core() && InOrder([]) && notes.contents == [] && destroyed
      ensures notes.places.Keys == old(notes.places).Keys
      ensures log == old(log) + Settlements(Callbacks(old(notes.contents)), Destroyed)
      ensures notes == old(notes).(places := notes.places, contents := [], discarded := notes.discarded)
    {
      hide Books, RequestQueue.Holds, Ordered, AllDone, Settlements, Elements, Callbacks;
      BooksEmptied(TheLedger());
      var dropped := EmptyQueue();
      TurnedAway(log, dropped, Destroyed);
      assert [] + dropped == dropped;
      OrderedForGood(strategy.DropStale?, destroyed, notes.accepted, notes.written, dropped, notes.discarded, notes.places.Keys, log,
                     log + Settlements(dropped, Destroyed));
      log, destroyed := log + Settlements(dropped, Destroyed), true;
      notes := notes.(contents := [], places := AllDone(notes.places, dropped), discarded := notes.discarded + Elements(dropped));
      NoCallbacks();
      assert notes.contents == [] ==> [] + Callbacks(notes.contents) == [];
    }

    /** Empty the arrays; `dropped` are the callbacks that have to be rejected. */
    method EmptyQueue() returns (dropped: seq<nat>)
      requires queue.Holds(notes.contents)
      modifies queue
      ensures queue.Holds([]) && dropped == Callbacks(notes.contents)
    {
      hide RequestQueue.Holds;
      var rejectedBefore := |queue.rejected|;
      queue.DropAll(notes.contents);
      dropped := queue.rejected[rejectedBefore..];
    }

    lemma EverythingSettled()
      requires Core() && notes.contents == [] && exchanges == map[]
      ensures forall c :: c in notes.places ==> notes.places[c] == Done && c in SettledBy(log)
    {
      assert forall c :: c !in Callbacks(notes.contents);
      assert forall c :: c in notes.places ==> !notes.places[c].Queued?;
      assert forall c, x :: c in notes.places ==> notes.places[c] != Pending(x);
    }

    /** No callback is ever settled twice. */
    lemma NoCallbackTwice()
      requires Core()
      ensures NoRepeats(SettledBy(log))
    {
    }
  }
}
