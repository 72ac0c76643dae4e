/** Whole runs of the master: any interleaving of sends, frames, timers, write results, framing errors and destroy. */
module MasterRuns {
  import opened Bytes
  import opened MasterQueue
  import opened MasterLedger
  import opened MasterExchange

  /** What can happen to a master, in any order. */
  datatype Input =
    | SendInput(r: Request)
    | FrameInput(key: Key)
    | WriteDoneInput(x: nat, failed: bool)
    | TimerInput(x: nat)
    | FramingErrorInput
    | DestroyInput

  /** A session with every identifier taken is left alone: the search for a free one would not end. */
  predicate Accepts(strategy: Strategy, waiters: map<Key, nat>) {
    strategy.Concurrent? ==> |waiters| < LAST_TID
  }

  method Take(m: ModbusMaster, input: Input)
    requires m.Valid()
    requires input.SendInput? ==> input.r.callback !in m.notes.places
    modifies m, m.queue
    ensures m.Valid() && old(m.log) <= m.log
    ensures m.destroyed == (old(m.destroyed) || input.DestroyInput?)
    ensures m.notes.places.Keys == old(m.notes.places).Keys + (if Handed(m.strategy, old(m.waiters), input) then {input.r.callback} else {})
    ensures m.notes.accepted == old(m.notes.accepted) + (if Handed(m.strategy, old(m.waiters), input) && !old(m.destroyed)
                                             then [input.r.callback] else [])
    ensures input.DestroyInput? ==>
              forall c :: c in m.notes.places ==> c in SettledBy(old(m.log)) || Settlement(c, Destroyed) in m.log
    ensures input.FrameInput? ==>
              if input.key in old(m.waiters) then
                && old(m.waiters)[input.key] in old(m.exchanges)
                && SettledFirst(m, old(m.log), old(m.exchanges)[old(m.waiters)[input.key]].callback, Answered, old(m.Aftermath()))
              else m.log == old(m.log) && m.exchanges == old(m.exchanges)
    ensures input.TimerInput? ==>
              if input.x in old(m.exchanges) then
                SettledFirst(m, old(m.log), old(m.exchanges)[input.x].callback, TimedOut, old(m.Aftermath()))
              else m.log == old(m.log) && m.exchanges == old(m.exchanges)
    ensures input.WriteDoneInput? ==>
              if input.x in old(m.exchanges) && (input.failed || old(m.exchanges)[input.x].key.None?) then
                SettledFirst(m, old(m.log), old(m.exchanges)[input.x].callback,
                             if input.failed then WriteFailed else Outcome.Sent, old(m.Aftermath()))
              else m.log == old(m.log) && m.exchanges == old(m.exchanges)
    ensures input.FramingErrorInput? ==>
              forall k :: k in old(m.waiters) ==>
                && old(m.waiters)[k] in old(m.exchanges)
                && Settlement(old(m.exchanges)[old(m.waiters)[k]].callback, FramingFailed) in m.log
    ensures TookEffect(m, input)
    ensures forall i :: |old(m.log)| <= i < |m.log| ==> Explains(input, old(m.destroyed), m.io, m.log[i].outcome)
    ensures m.notes.requests == old(m.notes.requests) || (input.SendInput? && m.notes.requests == old(m.notes.requests)[input.r.callback := input.r])
    ensures m.notes.requests == if Handed(m.strategy, old(m.waiters), input) then old(m.notes.requests)[input.r.callback := input.r]
                          else old(m.notes.requests)
  {
    hide Books, RequestQueue.Holds, Ordered, Drain, Explains, SomeWrite;
    TimersAreComplete(m);
    m.AftermathComesFromWrites();
    ghost var before, later := m.log, m.Aftermath().log;
    OutcomesExplained(input, m.destroyed, m.io);
    match input {
      case SendInput(r) =>
        TakeSend(m, r);
      case DestroyInput => m.Destroy();
      case FrameInput(key) =>
        if !m.destroyed {
          m.OnFrame(key);
        }
      case WriteDoneInput(x, failed) =>
        if !m.destroyed {
          m.OnWriteDone(x, failed);
        }
      case TimerInput(x) =>
        if !m.destroyed && x in m.timers {
          m.OnTimer(x);
        }
      case FramingErrorInput =>
        if !m.destroyed {
          m.OnFramingError();
        }
    }
  }

  method TakeSend(m: ModbusMaster, r: Request)
    requires m.Valid() && r.callback !in m.notes.places
    modifies m, m.queue
    ensures m.Valid() && old(m.log) <= m.log && m.destroyed == old(m.destroyed)
    ensures !Accepts(m.strategy, old(m.waiters)) ==>
              m.notes.places.Keys == old(m.notes.places).Keys && m.notes.requests == old(m.notes.requests)
              && m.notes.accepted == old(m.notes.accepted)
    ensures Accepts(m.strategy, old(m.waiters)) ==>
              && m.notes.places.Keys == old(m.notes.places).Keys + {r.callback}
              && m.notes.requests == old(m.notes.requests)[r.callback := r]
              && m.notes.accepted == old(m.notes.accepted) + (if old(m.destroyed) then [] else [r.callback])
    ensures forall i :: |old(m.log)| <= i < |m.log| ==> Explains(SendInput(r), old(m.destroyed), m.io, m.log[i].outcome)
  {
    hide Books, RequestQueue.Holds, Ordered, Drain, Explains, SomeWrite, AtOnce;
    OutcomesExplained(SendInput(r), m.destroyed, m.io);
    if m.strategy.Concurrent? {
      if |m.waiters| >= LAST_TID {
        return;
      }
      SomeTidIsFree(m.waiters);
    }
    SendComesFromWrites(m, r);
    m.Send(r);
  }

  /** How an outcome can come about on this input: by what the input reports, or by a write that settles at once. */
  ghost predicate Explains(input: Input, destroyed: bool, io: nat -> WriteBehaviour, o: Outcome) {
    || SomeWrite(io, o)
    || match o
       case Answered => input.FrameInput?
       case Sent => input.WriteDoneInput? && !input.failed
       case WriteFailed => input.WriteDoneInput? && input.failed
       case TimedOut => input.TimerInput?
       case FramingFailed => input.FramingErrorInput?
       case Rejected => input.SendInput?
       case Destroyed => input.DestroyInput? || (input.SendInput? && destroyed)
  }

  lemma OutcomesExplained(input: Input, destroyed: bool, io: nat -> WriteBehaviour)
    ensures forall o :: SomeWrite(io, o) ==> Explains(input, destroyed, io, o)
    ensures input.FrameInput? ==> Explains(input, destroyed, io, Answered)
    ensures input.WriteDoneInput? ==> Explains(input, destroyed, io, if input.failed then WriteFailed else Outcome.Sent)
    ensures input.TimerInput? ==> Explains(input, destroyed, io, TimedOut)
    ensures input.FramingErrorInput? ==> Explains(input, destroyed, io, FramingFailed)
    ensures input.SendInput? ==> Explains(input, destroyed, io, Rejected)
    ensures input.DestroyInput? || (input.SendInput? && destroyed) ==> Explains(input, destroyed, io, Destroyed)
  {
    hide SomeWrite;
  }

  lemma SendComesFromWrites(m: ModbusMaster, r: Request)
    ensures forall e :: e in Drain(m.io, m.nextExchangeId, Survivors(m.strategy, m.notes.contents, r.fingerprint) + [r]).log ==>
              SomeWrite(m.io, e.outcome)
    ensures forall o :: AtOnce(m.io(m.nextExchangeId), r.broadcast) == Some(o) ==> SomeWrite(m.io, o)
    ensures forall callbacks, e :: e in Settlements(callbacks, Rejected) ==> e.outcome == Rejected
  {
    hide Drain, AtOnce, SomeWrite, SettlesNow;
    DrainComesFromWrites(m.io, m.nextExchangeId, Survivors(m.strategy, m.notes.contents, r.fingerprint) + [r]);
    AtOnceMeans(m.io(m.nextExchangeId), r.broadcast);
    forall o | AtOnce(m.io(m.nextExchangeId), r.broadcast) == Some(o) ensures SomeWrite(m.io, o) {
      WriteIsSome(m.io, m.nextExchangeId, r.broadcast, o);
    }
  }

  lemma WriteIsSome(io: nat -> WriteBehaviour, x: nat, broadcast: bool, o: Outcome)
    requires SettlesNow(io(x), broadcast, o)
    ensures SomeWrite(io, o)
  {
  }

  /** The master's log is what it was, one settlement, and what follows from that. */
  ghost predicate SettledFirst(m: ModbusMaster, before: seq<Settlement>, callback: nat, outcome: Outcome, later: Drainage)
    reads m
  {
    m.log == before + [Settlement(callback, outcome)] + later.log
  }

  /** What an input leaves behind, whatever happened before it. */
  ghost predicate TookEffect(m: ModbusMaster, input: Input)
    reads m
  {
    match input
    case SendInput(r) => true
    case FrameInput(key) => m.strategy.Concurrent? ==> key !in m.waiters
    case WriteDoneInput(x, failed) => failed ==> x !in m.exchanges
    case TimerInput(x) => x !in m.exchanges
    case FramingErrorInput => m.strategy.Concurrent? ==> m.waiters == map[]
    case DestroyInput => m.destroyed && m.exchanges == map[] && m.waiters == map[]
  }

  lemma TimersAreComplete(m: ModbusMaster)
    requires m.Valid()
    ensures forall x :: x in m.exchanges ==> x in m.timers
    ensures m.destroyed ==> m.exchanges == map[] && m.waiters == map[]
  {
  }

  /** The input is a request and reaches the master. */
  predicate Handed(strategy: Strategy, waiters: map<Key, nat>, input: Input) {
    input.SendInput? && Accepts(strategy, waiters)
  }

  /** Every send hands in a callback of its own. */
  predicate FreshCallbacks(inputs: seq<Input>) {
    forall i, j :: 0 <= i < j < |inputs| && inputs[i].SendInput? && inputs[j].SendInput? ==>
      inputs[i].r.callback != inputs[j].r.callback
  }

  /** Callbacks of all requests sent, in order. */
  function AllSent(inputs: seq<Input>): seq<nat> {
    if inputs == [] then []
    else
      var n := |inputs| - 1;
      AllSent(inputs[..n]) + if inputs[n].SendInput? then [inputs[n].r.callback] else []
  }

  predicate Ended(inputs: seq<Input>) {
    DestroyInput in inputs
  }

  /** Callbacks of the requests sent before the master was destroyed, in order. */
  function SentInTime(inputs: seq<Input>): seq<nat> {
    if inputs == [] then []
    else
      var n := |inputs| - 1;
      SentInTime(inputs[..n]) + if inputs[n].SendInput? && !Ended(inputs[..n]) then [inputs[n].r.callback] else []
  }

  lemma SentSnoc(inputs: seq<Input>, input: Input)
    ensures AllSent(inputs + [input]) == AllSent(inputs) + if input.SendInput? then [input.r.callback] else []
    ensures SentInTime(inputs + [input])
         == SentInTime(inputs) + if input.SendInput? && !Ended(inputs) then [input.r.callback] else []
    ensures Ended(inputs + [input]) <==> Ended(inputs) || input.DestroyInput?
  {
    assert (inputs + [input])[..|inputs|] == inputs;
  }

  lemma {:induction false} SentIsFresh(inputs: seq<Input>, n: nat)
    requires FreshCallbacks(inputs) && n < |inputs| && inputs[n].SendInput?
    ensures inputs[n].r.callback !in AllSent(inputs[..n])
  {
    SentAreSends(inputs[..n]);
  }

  lemma {:induction false} SentAreSends(inputs: seq<Input>)
    ensures forall c :: c in AllSent(inputs) ==> exists i :: 0 <= i < |inputs| && inputs[i].SendInput? && inputs[i].r.callback == c
  {
    if inputs != [] {
      var n := |inputs| - 1;
      SentAreSends(inputs[..n]);
      forall c | c in AllSent(inputs)
        ensures exists i :: 0 <= i < |inputs| && inputs[i].SendInput? && inputs[i].r.callback == c
      {
        if c in AllSent(inputs[..n]) {
          var i :| 0 <= i < n && inputs[..n][i].SendInput? && inputs[..n][i].r.callback == c;
          assert inputs[i].SendInput? && inputs[i].r.callback == c;
        } else {
          assert inputs[n].SendInput? && inputs[n].r.callback == c;
        }
      }
    }
  }

  lemma {:induction false} SentSize(inputs: seq<Input>, n: nat)
    requires n < |inputs| && inputs[n].SendInput?
    ensures |AllSent(inputs[..n])| < |AllSent(inputs)|
    decreases |inputs|
  {
    var last := |inputs| - 1;
    if n < last {
      SentSize(inputs[..last], n);
      assert inputs[..last][..n] == inputs[..n];
    }
  }

  // Live waiters are never more than the requests sent.

  lemma {:induction false} InjectiveSize(f: map<Key, nat>, b: set<nat>)
    requires forall k :: k in f ==> f[k] in b
    requires forall k, l :: k in f && l in f && f[k] == f[l] ==> k == l
    ensures |f| <= |b|
    decreases |f|
  {
    if f != map[] {
      var k :| k in f;
      InjectiveSize(f - {k}, b - {f[k]});
      assert |f - {k}| == |f| - 1;
    }
  }

  lemma {:induction false} ElementsSize(s: seq<nat>)
    ensures |Elements(s)| <= |s|
  {
    if s != [] {
      var n := |s| - 1;
      ElementsSize(s[..n]);
      assert Elements(s) == Elements(s[..n]) + {s[n]};
    }
  }

  lemma WaitersFewer(places: map<nat, Place>, queued: seq<nat>, exchanges: map<nat, Exchange>, settled: seq<nat>,
                     waiters: map<Key, nat>, sent: seq<nat>)
    requires Placed(places, queued, exchanges, settled) && Matched(exchanges, waiters)
    requires forall c :: c in places ==> c in sent
    ensures |waiters| <= |sent|
  {
    var f := map k | k in waiters :: exchanges[waiters[k]].callback;
    forall k | k in f ensures f[k] in places && places[f[k]] == Pending(waiters[k]) {
      assert waiters[k] in exchanges;
    }
    InjectiveSize(f, Elements(sent));
    ElementsSize(sent);
    assert f.Keys == waiters.Keys;
  }

  lemma FewerWaiters(m: ModbusMaster, sent: seq<nat>)
    requires m.Valid() && forall c :: c in m.notes.places ==> c in sent
    ensures |m.waiters| <= |sent|
  {
    hide Placed, Matched, Recorded, Ordered;
    WaitersFewer(m.notes.places, Callbacks(m.notes.contents), m.exchanges, SettledBy(m.log), m.waiters, sent);
  }

  /** No request can be refused for want of an identifier. */
  predicate Roomy(strategy: Strategy, inputs: seq<Input>) {
    strategy.Concurrent? ==> |AllSent(inputs)| <= LAST_TID
  }

  /**
   * Every interleaving. No callback is settled twice; one exchange at a time unless the strategy is
   * concurrent. The requests sent in time are taken in in that order and written in that order, except
   * those turned away; unless the strategy drops requests, what is written is a prefix of them. Every
   * outcome is explained by an input or by a write that settles at once; only broadcasts are settled by
   * being sent and only others by an answer. The last input has taken effect. Once `destroy` has been called every request sent has been settled.
   */
  method RunAll(m: ModbusMaster, inputs: seq<Input>)
    requires m.Valid() && m.notes.places == map[] && m.notes.accepted == [] && m.log == [] && m.notes.requests == map[]
    requires !m.destroyed && FreshCallbacks(inputs)
    modifies m, m.queue
    ensures m.Valid() && old(m.log) <= m.log && NoRepeats(SettledBy(m.log))
    ensures !m.strategy.Concurrent? ==> m.AtMostOne()
    ensures Roomy(m.strategy, inputs) ==> m.notes.accepted == SentInTime(inputs)
    ensures Remaining(m.notes.accepted, m.notes.discarded) == m.notes.written + Callbacks(m.notes.contents)
    ensures forall c :: c in m.notes.discarded ==> Dismissed(m.log, c)
    ensures !m.strategy.DropStale? ==> m.notes.written <= m.notes.accepted
    ensures !m.strategy.DropStale? && !Ended(inputs) ==> m.notes.accepted == m.notes.written + Callbacks(m.notes.contents)
    ensures m.notes.written == Senders(m.wire)
    ensures forall e :: e in m.log ==> Explained(inputs, m.io, e.outcome)
    ensures forall e :: e in m.log && e.outcome == Outcome.Sent ==> SentAs(inputs, e.callback, true)
    ensures forall e :: e in m.log && e.outcome == Answered ==> SentAs(inputs, e.callback, false)
    ensures inputs != [] ==> TookEffect(m, inputs[|inputs| - 1])
    ensures Roomy(m.strategy, inputs) && Ended(inputs) ==>
              forall i :: 0 <= i < |inputs| && inputs[i].SendInput? ==> inputs[i].r.callback in SettledBy(m.log)
  {
    hide Books, RequestQueue.Holds, Ordered, AllSent, SentInTime, Ended, FreshCallbacks, Account, TookEffect, Explains, SomeWrite, Handed, Explained, FromInputs, SentAs;
    NothingToExplain(inputs);
    NothingSent(m.strategy, inputs);
    assert m.notes.places.Keys == {};
    for i := 0 to |inputs|
      invariant m.Valid() && old(m.log) <= m.log && m.destroyed == Ended(inputs[..i])
      invariant Account(m.strategy, inputs, i, m.notes.places.Keys, m.notes.accepted)
      invariant 0 < i ==> TookEffect(m, inputs[i - 1])
      invariant forall e :: e in m.log ==> Explained(inputs[..i], m.io, e.outcome)
      invariant FromInputs(m.notes.requests, inputs[..i])
    {
      ghost var before, known := m.log, m.notes.requests;
      AccountIsFresh(m.strategy, inputs, i, m.notes.places.Keys, m.notes.accepted);
      FewerWaiters(m, AllSent(inputs[..i]));
      AccountStep(m.strategy, inputs, i, m.notes.places.Keys, m.notes.accepted, m.waiters);
      Take(m, inputs[i]);
      ExplainedGrows(inputs, i, m.io, before, m.log, Ended(inputs[..i]));
      FromInputsGrows(inputs, i, known, m.notes.requests);
    }
    assert inputs[..|inputs|] == inputs;
    AccountAtEnd(m.strategy, inputs, m.notes.places.Keys, m.notes.accepted);
    m.NoCallbackTwice();
    OrderedMeans(m);
    WhenDestroyed(m);
    RememberedMeans(m, inputs);
  }

  /** Some input explains the outcome. */
  ghost predicate Explained(inputs: seq<Input>, io: nat -> WriteBehaviour, o: Outcome) {
    exists i :: 0 <= i < |inputs| && Explains(inputs[i], Ended(inputs[..i]), io, o)
  }

  lemma ExplainedGrows(inputs: seq<Input>, n: nat, io: nat -> WriteBehaviour, before: seq<Settlement>, after: seq<Settlement>,
                       destroyed: bool)
    requires n < |inputs| && before <= after && destroyed == Ended(inputs[..n])
    requires forall e :: e in before ==> Explained(inputs[..n], io, e.outcome)
    requires forall i :: |before| <= i < |after| ==> Explains(inputs[n], destroyed, io, after[i].outcome)
    ensures forall e :: e in after ==> Explained(inputs[..n + 1], io, e.outcome)
  {
    hide Explains, Ended;
    var now := inputs[..n + 1];
    forall e | e in after ensures Explained(now, io, e.outcome) {
      var i :| 0 <= i < |after| && after[i] == e;
      if i < |before| {
        assert before[i] == e;
        var k :| 0 <= k < n && Explains(inputs[..n][k], Ended(inputs[..n][..k]), io, e.outcome);
        assert inputs[..n][..k] == now[..k] && inputs[..n][k] == now[k];
      } else {
        assert now[..n] == inputs[..n] && now[n] == inputs[n];
      }
    }
  }

  /** Every remembered request was sent. */
  ghost predicate FromInputs(requests: map<nat, Request>, inputs: seq<Input>) {
    forall c :: c in requests ==> requests[c].callback == c && SendInput(requests[c]) in inputs
  }

  lemma NothingToExplain(inputs: seq<Input>)
    ensures FromInputs(map[], inputs[..0])
  {
  }

  lemma FromInputsGrows(inputs: seq<Input>, n: nat, before: map<nat, Request>, after: map<nat, Request>)
    requires n < |inputs| && FromInputs(before, inputs[..n])
    requires after == before || (inputs[n].SendInput? && after == before[inputs[n].r.callback := inputs[n].r])
    ensures FromInputs(after, inputs[..n + 1])
  {
    assert inputs[..n + 1] == inputs[..n] + [inputs[n]];
    if inputs[n].SendInput? {
      assert inputs[n] == SendInput(inputs[n].r) && inputs[n] in inputs[..n + 1];
    }
  }

  /** The callback came with a request that was, or was not, a broadcast. */
  ghost predicate SentAs(inputs: seq<Input>, callback: nat, broadcast: bool) {
    exists r: Request :: SendInput(r) in inputs && r.callback == callback && r.broadcast == broadcast
  }

  lemma RememberedMeans(m: ModbusMaster, inputs: seq<Input>)
    requires m.Valid() && FromInputs(m.notes.requests, inputs)
    ensures forall e :: e in m.log && e.outcome == Outcome.Sent ==> SentAs(inputs, e.callback, true)
    ensures forall e :: e in m.log && e.outcome == Answered ==> SentAs(inputs, e.callback, false)
  {
    hide Placed, Matched, Wired, RequestQueue.Holds, Ordered;
  }

  lemma WhenDestroyed(m: ModbusMaster)
    requires m.Valid()
    ensures m.destroyed ==> forall c :: c in m.notes.places ==> c in SettledBy(m.log)
    ensures m.notes.written == Senders(m.wire)
  {
    hide Placed, Matched, RequestQueue.Holds, Ordered;
    if m.destroyed {
      m.EverythingSettled();
    }
  }

  /** After the first `n` inputs: which callbacks the master knows, and which it has taken in. */
  predicate Account(strategy: Strategy, inputs: seq<Input>, n: nat, known: set<nat>, accepted: seq<nat>) {
    && n <= |inputs|
    && (forall c :: c in known ==> c in AllSent(inputs[..n]))
    && (Roomy(strategy, inputs) ==> accepted == SentInTime(inputs[..n]))
    && (Roomy(strategy, inputs) ==> forall k :: 0 <= k < n && inputs[k].SendInput? ==> inputs[k].r.callback in known)
  }

  lemma AccountIsFresh(strategy: Strategy, inputs: seq<Input>, n: nat, known: set<nat>, accepted: seq<nat>)
    requires Account(strategy, inputs, n, known, accepted) && FreshCallbacks(inputs) && n < |inputs|
    ensures inputs[n].SendInput? ==> inputs[n].r.callback !in known
    ensures forall c :: c in known ==> c in AllSent(inputs[..n])
  {
    hide AllSent, SentInTime, FreshCallbacks;
    if inputs[n].SendInput? {
      SentIsFresh(inputs, n);
    }
  }

  lemma AccountStep(strategy: Strategy, inputs: seq<Input>, n: nat, known: set<nat>, accepted: seq<nat>, waiters: map<Key, nat>)
    requires Account(strategy, inputs, n, known, accepted) && n < |inputs|
    requires |waiters| <= |AllSent(inputs[..n])|
    ensures var taken := Handed(strategy, waiters, inputs[n]);
            Account(strategy, inputs, n + 1, known + (if taken then {inputs[n].r.callback} else {}),
                    accepted + (if taken && !Ended(inputs[..n]) then [inputs[n].r.callback] else []))
    ensures Ended(inputs[..n + 1]) <==> Ended(inputs[..n]) || inputs[n].DestroyInput?
  {
    hide AllSent, SentInTime, Ended, Roomy, Handed;
    SentSnoc(inputs[..n], inputs[n]);
    assert inputs[..n + 1] == inputs[..n] + [inputs[n]];
    RoomyTakesAll(strategy, inputs, n, waiters);
  }

  lemma RoomyTakesAll(strategy: Strategy, inputs: seq<Input>, n: nat, waiters: map<Key, nat>)
    requires n < |inputs| && |waiters| <= |AllSent(inputs[..n])|
    ensures Handed(strategy, waiters, inputs[n]) ==> inputs[n].SendInput?
    ensures Roomy(strategy, inputs) && inputs[n].SendInput? ==> Handed(strategy, waiters, inputs[n])
  {
    hide AllSent;
    if inputs[n].SendInput? {
      SentSize(inputs, n);
    }
  }

  lemma AccountAtEnd(strategy: Strategy, inputs: seq<Input>, known: set<nat>, accepted: seq<nat>)
    requires Account(strategy, inputs, |inputs|, known, accepted)
    ensures Roomy(strategy, inputs) ==> accepted == SentInTime(inputs)
    ensures Roomy(strategy, inputs) ==>
              forall k :: 0 <= k < |inputs| && inputs[k].SendInput? ==> inputs[k].r.callback in known
  {
    hide AllSent, SentInTime;
    assert inputs[..|inputs|] == inputs;
  }

  lemma NothingSent(strategy: Strategy, inputs: seq<Input>)
    ensures Account(strategy, inputs, 0, {}, []) && !Ended(inputs[..0])
  {
    assert inputs[..0] == [];
  }

  lemma OrderedMeans(m: ModbusMaster)
    requires m.Valid()
    ensures Remaining(m.notes.accepted, m.notes.discarded) == m.notes.written + Callbacks(m.notes.contents)
    ensures forall c :: c in m.notes.discarded ==> Dismissed(m.log, c)
    ensures !m.strategy.DropStale? ==> m.notes.written <= m.notes.accepted
    ensures !m.strategy.DropStale? && !m.destroyed ==> m.notes.accepted == m.notes.written + Callbacks(m.notes.contents)
  {
    hide Books, RequestQueue.Holds;
    var queued := Callbacks(m.notes.contents);
    assert [] + queued == queued;
    if !m.strategy.DropStale? {
      assert m.notes.written <= m.notes.written + queued;
    }
    if m.notes.discarded == {} {
      RemainingAll(m.notes.accepted, m.notes.discarded);
    }
  }
}
