/** The master's books: transaction identifiers, waiters, places of callbacks, the wire, and the order of requests. */
module MasterLedger {
  import opened Bytes
  import opened MasterQueue

  // ---------- Transaction identifiers ----------

  const LAST_TID := 65535

  predicate IsTid(t: nat) {
    1 <= t <= LAST_TID
  }

  /** `(t + 1) & 0xffff || 1` */
  function NextTid(t: nat): nat {
    if (t + 1) % 0x1_0000 == 0 then 1 else (t + 1) % 0x1_0000
  }

  /** How many steps of `NextTid` lead from `t` to `goal`. */
  function Distance(t: nat, goal: nat): nat
    requires IsTid(t) && IsTid(goal)
  {
    if t <= goal then goal - t else LAST_TID - t + goal
  }

  lemma NextTidComesCloser(t: nat, goal: nat)
    requires IsTid(t) && IsTid(goal)
    ensures IsTid(NextTid(t))
    ensures t != goal ==> Distance(NextTid(t), goal) == Distance(t, goal) - 1
  {
  }

  /** Session key: a transaction id on TCP, one fixed key elsewhere. */
  datatype Key = Tid(id: nat) | FifoKey

  predicate FreeTid(waiters: map<Key, nat>, t: nat) {
    IsTid(t) && Tid(t) !in waiters
  }

  /** With fewer than 65535 live waiters some identifier is free. */
  lemma SomeTidIsFree(waiters: map<Key, nat>)
    requires |waiters| < LAST_TID
    ensures exists t :: FreeTid(waiters, t)
  {
    if forall t :: !FreeTid(waiters, t) {
      var all := set t | 1 <= t <= LAST_TID :: Tid(t);
      TidCount(LAST_TID);
      assert all == Tids(LAST_TID);
      forall k | k in all ensures k in waiters.Keys {
        assert !FreeTid(waiters, k.id);
      }
      SubsetSize(all, waiters.Keys);
    }
  }

  function Tids(n: nat): set<Key> {
    set t | 1 <= t <= n :: Tid(t)
  }

  lemma {:induction false} TidCount(n: nat)
    ensures |Tids(n)| == n
  {
    if n > 0 {
      TidCount(n - 1);
      assert Tids(n) == Tids(n - 1) + {Tid(n)};
    }
  }

  lemma {:induction false} SubsetSize(a: set<Key>, b: set<Key>)
    requires a <= b
    ensures |a| <= |b|
  {
    if a != {} {
      var x :| x in a;
      SubsetSize(a - {x}, b - {x});
    }
  }

  // ---------- Settlement ----------

  datatype Outcome = Answered | Sent | WriteFailed | TimedOut | FramingFailed | Rejected | Destroyed

  datatype Settlement = Settlement(callback: nat, outcome: Outcome)

  datatype Exchange = Exchange(callback: nat, key: Option<Key>)

  /** How a transport's `write` behaves before it returns. */
  datatype WriteBehaviour = Later | FailsNow | SentNow | AnsweredNow

  /** What `write` settles before it returns; a response that arrives inside it finds its waiter registered. */
  function AtOnce(b: WriteBehaviour, broadcast: bool): Option<Outcome> {
    match b
    case Later => None
    case FailsNow => Some(WriteFailed)
    case SentNow => if broadcast then Some(Sent) else None
    case AnsweredNow => if broadcast then None else Some(Answered)
  }

  /** A transport that settles a request before `write` returns, and how; one that reports later settles nothing. */
  predicate SettlesNow(b: WriteBehaviour, broadcast: bool, o: Outcome) {
    || (b == FailsNow && o == WriteFailed)
    || (b == SentNow && broadcast && o == Sent)
    || (b == AnsweredNow && !broadcast && o == Answered)
  }

  lemma AtOnceMeans(b: WriteBehaviour, broadcast: bool)
    ensures forall o :: AtOnce(b, broadcast) == Some(o) <==> SettlesNow(b, broadcast, o)
    ensures AtOnce(b, broadcast).None? <==> StaysOpen(b, broadcast)
  {
  }

  datatype Drainage = Drainage(log: seq<Settlement>, left: seq<Request>)

  /** Dispatching `rs` one after the other, numbered from `x`, until one stays open. */
  function Drain(io: nat -> WriteBehaviour, x: nat, rs: seq<Request>): Drainage
    decreases |rs|
  {
    if rs == [] then Drainage([], [])
    else
      match AtOnce(io(x), rs[0].broadcast)
      case None => Drainage([], rs[1..])
      case Some(o) =>
        var later := Drain(io, x + 1, rs[1..]);
        Drainage([Settlement(rs[0].callback, o)] + later.log, later.left)
  }

  /** The first requests are settled, each as its own write says, up to the first one that stays open. */
  predicate DrainsTo(io: nat -> WriteBehaviour, x: nat, rs: seq<Request>, log: seq<Settlement>, left: seq<Request>) {
    var n := |log|;
    && n <= |rs|
    && (forall i :: 0 <= i < n ==> log[i].callback == rs[i].callback && SettlesNow(io(x + i), rs[i].broadcast, log[i].outcome))
    && (n < |rs| ==> StaysOpen(io(x + n), rs[n].broadcast))
    && left == if n < |rs| then rs[n + 1..] else []
  }

  /** A write that settles nothing before it returns. */
  predicate StaysOpen(b: WriteBehaviour, broadcast: bool) {
    b == Later || (b == SentNow && !broadcast) || (b == AnsweredNow && broadcast)
  }

  lemma DrainsOneMore(io: nat -> WriteBehaviour, x: nat, rs: seq<Request>, o: Outcome, log: seq<Settlement>, left: seq<Request>)
    requires rs != [] && SettlesNow(io(x), rs[0].broadcast, o) && DrainsTo(io, x + 1, rs[1..], log, left)
    ensures DrainsTo(io, x, rs, [Settlement(rs[0].callback, o)] + log, left)
  {
    hide SettlesNow, StaysOpen;
    var all := [Settlement(rs[0].callback, o)] + log;
    forall i | 0 <= i < |all|
      ensures all[i].callback == rs[i].callback && SettlesNow(io(x + i), rs[i].broadcast, all[i].outcome)
    {
      if i > 0 {
        assert all[i] == log[i - 1] && rs[i] == rs[1..][i - 1] && x + i == x + 1 + (i - 1);
      }
    }
    var n := |log|;
    if n < |rs| - 1 {
      assert rs[n + 1] == rs[1..][n] && x + (n + 1) == x + 1 + n && rs[1..][n + 1..] == rs[n + 2..];
    }
  }

  lemma {:induction false} DrainMeans(io: nat -> WriteBehaviour, x: nat, rs: seq<Request>)
    ensures DrainsTo(io, x, rs, Drain(io, x, rs).log, Drain(io, x, rs).left)
    decreases |rs|
  {
    if rs != [] {
      hide DrainsTo, AtOnce, SettlesNow;
      AtOnceMeans(io(x), rs[0].broadcast);
      match AtOnce(io(x), rs[0].broadcast) {
        case None => NothingDrained(io, x, rs);
        case Some(o) =>
          DrainMeans(io, x + 1, rs[1..]);
          DrainsOneMore(io, x, rs, o, Drain(io, x + 1, rs[1..]).log, Drain(io, x + 1, rs[1..]).left);
      }
    }
  }

  lemma NothingDrained(io: nat -> WriteBehaviour, x: nat, rs: seq<Request>)
    requires rs != [] && StaysOpen(io(x), rs[0].broadcast)
    ensures DrainsTo(io, x, rs, [], rs[1..])
  {
  }

  lemma LaterStaysOpen(io: nat -> WriteBehaviour, x: nat, rs: seq<Request>)
    requires rs != [] && io(x) == Later
    ensures Drain(io, x, rs) == Drainage([], rs[1..])
  {
  }

  /** In the middle of draining: what is logged and what draining the rest adds make the whole. */
  ghost predicate Underway(io: nat -> WriteBehaviour, whole: seq<Settlement>, left: seq<Request>, log: seq<Settlement>, x: nat,
                           rs: seq<Request>) {
    log + Drain(io, x, rs).log == whole && Drain(io, x, rs).left == left
  }

  lemma UnderwaySettles(io: nat -> WriteBehaviour, whole: seq<Settlement>, left: seq<Request>, log: seq<Settlement>, x: nat,
                        rs: seq<Request>, o: Outcome)
    requires Underway(io, whole, left, log, x, rs) && rs != [] && AtOnce(io(x), rs[0].broadcast) == Some(o)
    ensures Underway(io, whole, left, log + [Settlement(rs[0].callback, o)], x + 1, rs[1..])
  {
    hide AtOnce;
    assert log + ([Settlement(rs[0].callback, o)] + Drain(io, x + 1, rs[1..]).log)
        == log + [Settlement(rs[0].callback, o)] + Drain(io, x + 1, rs[1..]).log;
  }

  lemma UnderwayStops(io: nat -> WriteBehaviour, whole: seq<Settlement>, left: seq<Request>, log: seq<Settlement>, x: nat,
                      rs: seq<Request>)
    requires Underway(io, whole, left, log, x, rs) && (rs == [] || AtOnce(io(x), rs[0].broadcast).None?)
    ensures log == whole && left == if rs == [] then [] else rs[1..]
  {
    hide AtOnce;
  }

  /** Some write of the transport settles a request this way before it returns. */
  ghost predicate SomeWrite(io: nat -> WriteBehaviour, o: Outcome) {
    exists x: nat, broadcast: bool :: SettlesNow(io(x), broadcast, o)
  }

  lemma DrainComesFromWrites(io: nat -> WriteBehaviour, x: nat, rs: seq<Request>)
    ensures forall e :: e in Drain(io, x, rs).log ==> SomeWrite(io, e.outcome)
  {
    hide Drain;
    DrainMeans(io, x, rs);
    var d := Drain(io, x, rs);
    forall e | e in d.log ensures SomeWrite(io, e.outcome) {
      var i :| 0 <= i < |d.log| && d.log[i] == e;
      assert SettlesNow(io(x + i), rs[i].broadcast, e.outcome);
    }
  }

  // ---------- Which request a callback belongs to ----------

  /** What waits, what is open and what is settled belongs to a request handed in; only broadcasts go without an answer. */
  ghost predicate Remembered(requests: map<nat, Request>, contents: seq<Request>, exchanges: map<nat, Exchange>, log: seq<Settlement>) {
    && (forall r :: r in contents ==> r.callback in requests && requests[r.callback] == r)
    && (forall x :: x in exchanges ==>
          && exchanges[x].callback in requests
          && (exchanges[x].key.None? <==> requests[exchanges[x].callback].broadcast))
    && (forall e :: e in log ==>
          && e.callback in requests
          && (e.outcome == Sent ==> requests[e.callback].broadcast)
          && (e.outcome == Answered ==> !requests[e.callback].broadcast))
  }

  /** What the wire and the requests say about what is open and settled. */
  ghost predicate Recorded(wire: seq<Sending>, written: seq<nat>, requests: map<nat, Request>, contents: seq<Request>,
                           exchanges: map<nat, Exchange>, log: seq<Settlement>) {
    Wired(wire, written, exchanges) && Remembered(requests, contents, exchanges, log)
  }

  lemma RecordSettled(wire: seq<Sending>, written: seq<nat>, requests: map<nat, Request>, contents: seq<Request>,
                      exchanges: map<nat, Exchange>, log: seq<Settlement>, x: nat, outcome: Outcome)
    requires Recorded(wire, written, requests, contents, exchanges, log)
    requires x in exchanges && FitsKey(exchanges[x].key, outcome)
    ensures Recorded(wire, written, requests, contents, exchanges - {x}, log + [Settlement(exchanges[x].callback, outcome)])
  {
    SettleWired(wire, written, exchanges, x);
  }

  /** Only an exchange with a session key can be answered, only one without can be done once sent. */
  predicate FitsKey(key: Option<Key>, outcome: Outcome) {
    (outcome == Sent ==> key.None?) && (outcome == Answered ==> key.Some?)
  }

  lemma RecordOpened(wire: seq<Sending>, written: seq<nat>, requests: map<nat, Request>, contents: seq<Request>,
                     exchanges: map<nat, Exchange>, log: seq<Settlement>, waiters: map<Key, nat>, x: nat, r: Request, key: Key)
    requires Recorded(wire, written, requests, contents, exchanges, log) && Matched(exchanges, waiters)
    requires key !in waiters && x !in exchanges && r.callback in requests && requests[r.callback] == r
    ensures Recorded(wire + [Sending(r.callback, key)], written + [r.callback], requests, contents,
                     exchanges[x := Exchange(r.callback, if r.broadcast then None else Some(key))], log)
  {
    hide Wired, Matched;
    DispatchWired(wire, written, exchanges, waiters, x, r.callback, key);
  }

  lemma RecordHead(wire: seq<Sending>, written: seq<nat>, requests: map<nat, Request>, contents: seq<Request>,
                   exchanges: map<nat, Exchange>, log: seq<Settlement>)
    requires Recorded(wire, written, requests, contents, exchanges, log) && contents != []
    ensures contents[0].callback in requests && requests[contents[0].callback] == contents[0]
    ensures Recorded(wire, written, requests, contents[1..], exchanges, log)
  {
    hide Wired;
  }

  lemma RememberTurned(requests: map<nat, Request>, contents: seq<Request>, left: seq<Request>, exchanges: map<nat, Exchange>,
                       log: seq<Settlement>, dropped: seq<nat>, outcome: Outcome)
    requires Remembered(requests, contents, exchanges, log)
    requires forall r :: r in left ==> r in contents
    requires forall c :: c in dropped ==> c in Callbacks(contents)
    requires outcome == Rejected || outcome == Destroyed
    ensures Remembered(requests, left, exchanges, log + Settlements(dropped, outcome))
  {
    forall e | e in Settlements(dropped, outcome) ensures e.callback in requests && e.outcome == outcome {
      var i :| 0 <= i < |dropped| && Settlements(dropped, outcome)[i] == e;
      assert dropped[i] in dropped;
      var j :| 0 <= j < |contents| && Callbacks(contents)[j] == dropped[i];
      assert contents[j] in contents;
    }
  }

  /** A request under a fresh callback is remembered beside the others. */
  lemma RememberNew(places: map<nat, Place>, requests: map<nat, Request>, contents: seq<Request>, exchanges: map<nat, Exchange>,
                    log: seq<Settlement>, r: Request)
    requires Placed(places, Callbacks(contents), exchanges, SettledBy(log)) && r.callback !in places
    requires Remembered(requests, contents, exchanges, log)
    ensures Remembered(requests[r.callback := r], contents, exchanges, log)
  {
    forall q | q in contents ensures q.callback != r.callback {
      var i :| 0 <= i < |contents| && contents[i] == q;
      assert Callbacks(contents)[i] == q.callback;
    }
    forall e | e in log ensures e.callback != r.callback {
      var i :| 0 <= i < |log| && log[i] == e;
      assert SettledBy(log)[i] == e.callback;
    }
    forall x | x in exchanges ensures exchanges[x].callback != r.callback {
      assert places[exchanges[x].callback] == Pending(x);
    }
  }

  /** A request is admitted: it joins what is left, and what was dropped for it is rejected. */
  lemma RecordAdmitted(places: map<nat, Place>, wire: seq<Sending>, written: seq<nat>, requests: map<nat, Request>,
                       contents: seq<Request>, left: seq<Request>, dropped: seq<nat>, exchanges: map<nat, Exchange>,
                       log: seq<Settlement>, r: Request)
    requires Placed(places, Callbacks(contents), exchanges, SettledBy(log)) && r.callback !in places
    requires Recorded(wire, written, requests, contents, exchanges, log)
    requires forall q :: q in left ==> q in contents
    requires forall c :: c in dropped ==> c in Callbacks(contents)
    ensures Recorded(wire, written, requests[r.callback := r], left + [r], exchanges, log + Settlements(dropped, Rejected))
  {
    hide Wired, Placed, Settlements, Callbacks, SettledBy;
    RememberNew(places, requests, contents, exchanges, log, r);
    RememberTurned(requests[r.callback := r], contents, left, exchanges, log, dropped, Rejected);
  }

  lemma RecordDirect(places: map<nat, Place>, wire: seq<Sending>, written: seq<nat>, requests: map<nat, Request>,
                     contents: seq<Request>, exchanges: map<nat, Exchange>, log: seq<Settlement>, r: Request)
    requires Placed(places, Callbacks(contents), exchanges, SettledBy(log)) && r.callback !in places
    requires Recorded(wire, written, requests, contents, exchanges, log)
    ensures Recorded(wire, written, requests[r.callback := r], contents, exchanges, log)
    ensures Recorded(wire, written, requests[r.callback := r], contents, exchanges, log + [Settlement(r.callback, Destroyed)])
  {
    hide Wired, Placed, Callbacks, SettledBy;
    RememberNew(places, requests, contents, exchanges, log, r);
  }

  lemma RecordTurned(wire: seq<Sending>, written: seq<nat>, requests: map<nat, Request>, contents: seq<Request>,
                     exchanges: map<nat, Exchange>, log: seq<Settlement>)
    requires Recorded(wire, written, requests, contents, exchanges, log)
    ensures Recorded(wire, written, requests, [], exchanges, log + Settlements(Callbacks(contents), Destroyed))
  {
    hide Wired, Settlements, Callbacks;
    RememberTurned(requests, contents, [], exchanges, log, Callbacks(contents), Destroyed);
  }

  /** Where a callback handed to the master currently is. */
  datatype Place = Queued | Pending(exchange: nat) | Done

  /** Callbacks settled, in order. */
  function SettledBy(log: seq<Settlement>): seq<nat> {
    seq(|log|, i requires 0 <= i < |log| => log[i].callback)
  }

  predicate NoRepeats(s: seq<nat>) {
    forall i, j :: 0 <= i < j < |s| ==> s[i] != s[j]
  }

  /** Every callback is exactly where `places` says: in the queue, in one exchange, or settled once. */
  ghost predicate Placed(places: map<nat, Place>, queued: seq<nat>, exchanges: map<nat, Exchange>, settled: seq<nat>) {
    && NoRepeats(queued) && NoRepeats(settled)
    && (forall c :: c in places && places[c] == Queued <==> c in queued)
    && (forall c :: c in places && places[c] == Done <==> c in settled)
    && (forall c, x :: c in places && places[c] == Pending(x) <==> x in exchanges && exchanges[x].callback == c)
  }

  /** Waiters and unsettled exchanges that expect an answer are matched one to one by session key. */
  ghost predicate Matched(exchanges: map<nat, Exchange>, waiters: map<Key, nat>) {
    && (forall k :: k in waiters ==> waiters[k] in exchanges && exchanges[waiters[k]].key == Some(k))
    && (forall x :: x in exchanges && exchanges[x].key.Some? ==>
          exchanges[x].key.value in waiters && waiters[exchanges[x].key.value] == x)
  }

  lemma DispatchPlaces(places: map<nat, Place>, queued: seq<nat>, exchanges: map<nat, Exchange>, settled: seq<nat>,
                       c: nat, x: nat, key: Option<Key>)
    requires Placed(places, queued, exchanges, settled)
    requires c !in places && x !in exchanges
    ensures Placed(places[c := Pending(x)], queued, exchanges[x := Exchange(c, key)], settled)
  {
  }

  lemma SettlePlaces(places: map<nat, Place>, queued: seq<nat>, exchanges: map<nat, Exchange>, settled: seq<nat>, x: nat)
    requires Placed(places, queued, exchanges, settled) && x in exchanges
    ensures var c := exchanges[x].callback;
            && c !in settled
            && Placed(places[c := Done], queued, exchanges - {x}, settled + [c])
  {
    var c := exchanges[x].callback;
    assert places[c] == Pending(x);
    assert forall d :: d in settled + [c] <==> d in settled || d == c;
  }

  lemma SettleMatched(exchanges: map<nat, Exchange>, waiters: map<Key, nat>, x: nat)
    requires Matched(exchanges, waiters) && x in exchanges
    ensures exchanges[x].key.Some? ==> Matched(exchanges - {x}, waiters - {exchanges[x].key.value})
    ensures exchanges[x].key.None? ==> Matched(exchanges - {x}, waiters)
  {
  }

  lemma DispatchMatched(exchanges: map<nat, Exchange>, waiters: map<Key, nat>, x: nat, c: nat, key: Key)
    requires Matched(exchanges, waiters) && x !in exchanges && key !in waiters
    ensures Matched(exchanges[x := Exchange(c, Some(key))], waiters[key := x])
    ensures Matched(exchanges[x := Exchange(c, None)], waiters)
  {
  }

  lemma EnqueuePlaces(places: map<nat, Place>, queued: seq<nat>, exchanges: map<nat, Exchange>, settled: seq<nat>, c: nat)
    requires Placed(places, queued, exchanges, settled) && c !in places
    ensures Placed(places[c := Queued], queued + [c], exchanges, settled)
  {
    assert forall d :: d in queued + [c] <==> d in queued || d == c;
  }

  lemma DequeuePlaces(places: map<nat, Place>, queued: seq<nat>, exchanges: map<nat, Exchange>, settled: seq<nat>)
    requires Placed(places, queued, exchanges, settled) && queued != []
    ensures Placed(places - {queued[0]}, queued[1..], exchanges, settled)
    ensures places.Keys == (places - {queued[0]}).Keys + {queued[0]}
  {
    assert queued[0] in queued;
    assert forall d :: d in queued[1..] ==> d in queued;
    forall d | d in queued && d != queued[0] ensures d in queued[1..] {
      var i :| 0 <= i < |queued| && queued[i] == d;
      assert queued[1..][i - 1] == d;
    }
  }

  /** Everything that waited is settled at once. */
  function AllDone(places: map<nat, Place>, queued: seq<nat>): map<nat, Place> {
    map c | c in places :: if c in queued then Done else places[c]
  }

  lemma RejectPlaces(places: map<nat, Place>, queued: seq<nat>, exchanges: map<nat, Exchange>, settled: seq<nat>)
    requires Placed(places, queued, exchanges, settled)
    ensures Placed(AllDone(places, queued), [], exchanges, settled + queued)
    ensures AllDone(places, queued).Keys == places.Keys
  {
    var all := settled + queued;
    assert forall d :: d in all <==> d in settled || d in queued;
    forall i, j | 0 <= i < j < |all| ensures all[i] != all[j] {
      if i < |settled| <= j {
        assert all[i] in settled && all[j] in queued;
      }
    }
  }

  lemma SettleNewPlaces(places: map<nat, Place>, queued: seq<nat>, exchanges: map<nat, Exchange>, settled: seq<nat>, c: nat)
    requires Placed(places, queued, exchanges, settled) && c !in places
    ensures Placed(places[c := Done], queued, exchanges, settled + [c])
  {
    assert forall d :: d in settled + [c] <==> d in settled || d == c;
  }

  function Settlements(callbacks: seq<nat>, outcome: Outcome): seq<Settlement> {
    seq(|callbacks|, i requires 0 <= i < |callbacks| => Settlement(callbacks[i], outcome))
  }

  lemma SettledByAppend(log: seq<Settlement>, callbacks: seq<nat>, outcome: Outcome)
    ensures SettledBy(log + Settlements(callbacks, outcome)) == SettledBy(log) + callbacks
    ensures forall c :: SettledBy(log + [Settlement(c, outcome)]) == SettledBy(log) + [c]
  {
  }

  // ---------- On the wire ----------

  /** A request handed to the transport: whose it is, and the transaction id its bytes carry, if any. */
  datatype Sending = Sending(callback: nat, key: Key)

  function Senders(wire: seq<Sending>): seq<nat> {
    seq(|wire|, i requires 0 <= i < |wire| => wire[i].callback)
  }

  /** Whose request went out last under `key`. */
  function LastSent(wire: seq<Sending>, key: Key): Option<nat> {
    if wire == [] then None
    else
      var n := |wire| - 1;
      if wire[n].key == key then Some(wire[n].callback) else LastSent(wire[..n], key)
  }

  /** Every exchange that waits for an answer is the last one sent under its key. */
  predicate Wired(wire: seq<Sending>, written: seq<nat>, exchanges: map<nat, Exchange>) {
    && written == Senders(wire)
    && forall x :: x in exchanges && exchanges[x].key.Some? ==>
         LastSent(wire, exchanges[x].key.value) == Some(exchanges[x].callback)
  }

  lemma SettleWired(wire: seq<Sending>, written: seq<nat>, exchanges: map<nat, Exchange>, x: nat)
    requires Wired(wire, written, exchanges)
    ensures Wired(wire, written, exchanges - {x})
  {
  }

  /** A new sending under a free key is the last one there and hides no earlier one that still waits. */
  lemma DispatchWired(wire: seq<Sending>, written: seq<nat>, exchanges: map<nat, Exchange>, waiters: map<Key, nat>,
                      x: nat, c: nat, key: Key)
    requires Wired(wire, written, exchanges) && Matched(exchanges, waiters)
    requires key !in waiters && x !in exchanges
    ensures Wired(wire + [Sending(c, key)], written + [c], exchanges[x := Exchange(c, Some(key))])
    ensures Wired(wire + [Sending(c, key)], written + [c], exchanges[x := Exchange(c, None)])
  {
    var now := wire + [Sending(c, key)];
    assert now[..|wire|] == wire;
    forall k | k != key ensures LastSent(now, k) == LastSent(wire, k) {
    }
    assert Senders(now) == Senders(wire) + [c];
  }

  // ---------- Order ----------

  /** What is left of `s` without `out`; order kept. */
  function Remaining(s: seq<nat>, out: set<nat>): seq<nat> {
    if s == [] then []
    else
      var n := |s| - 1;
      Remaining(s[..n], out) + if s[n] in out then [] else [s[n]]
  }

  lemma {:induction false} RemainingIsPart(s: seq<nat>, out: set<nat>)
    ensures forall c :: c in Remaining(s, out) <==> c in s && c !in out
    ensures NoRepeats(s) ==> NoRepeats(Remaining(s, out))
  {
    if s != [] {
      var n := |s| - 1;
      RemainingIsPart(s[..n], out);
      assert s == s[..n] + [s[n]];
    }
  }

  lemma {:induction false} RemainingOfRest(s: seq<nat>, out: set<nat>, more: set<nat>)
    ensures Remaining(s, out + more) == Remaining(Remaining(s, out), more)
  {
    if s != [] {
      var n := |s| - 1;
      RemainingOfRest(s[..n], out, more);
      if s[n] in out {
        assert Remaining(s, out) == Remaining(s[..n], out);
      } else {
        RemainingSnoc(Remaining(s[..n], out), more, s[n]);
      }
    }
  }

  lemma RemainingSnoc(s: seq<nat>, out: set<nat>, c: nat)
    ensures Remaining(s + [c], out) == Remaining(s, out) + if c in out then [] else [c]
  {
    assert (s + [c])[..|s|] == s;
  }

  lemma {:induction false} RemainingAll(s: seq<nat>, out: set<nat>)
    requires forall c :: c in s ==> c !in out
    ensures Remaining(s, out) == s
  {
    if s != [] {
      var n := |s| - 1;
      RemainingAll(s[..n], out);
      assert s == s[..n] + [s[n]];
    }
  }

  lemma {:induction false} RemainingWithoutTail(kept: seq<nat>, tail: seq<nat>, out: set<nat>)
    requires forall c :: c in kept ==> c !in out
    requires forall c :: c in tail ==> c in out
    ensures Remaining(kept + tail, out) == kept
    decreases |tail|
  {
    if tail == [] {
      assert kept + tail == kept;
      RemainingAll(kept, out);
    } else {
      var n := |tail| - 1;
      RemainingWithoutTail(kept, tail[..n], out);
      RemainingSnoc(kept + tail[..n], out, tail[n]);
      assert kept + tail == kept + tail[..n] + [tail[n]];
    }
  }

  function Elements(s: seq<nat>): set<nat> {
    set c | c in s
  }

  /** `c` was turned away before it reached the wire. */
  predicate Dismissed(log: seq<Settlement>, c: nat) {
    Settlement(c, Rejected) in log || Settlement(c, Destroyed) in log
  }

  /**
   * Requests reach the wire in the order they were accepted, except those discarded, which are rejected;
   * unless the strategy drops requests, what has been written is a prefix of what was accepted.
   */
  predicate Ordered(drops: bool, destroyed: bool, accepted: seq<nat>, written: seq<nat>, queued: seq<nat>,
                    discarded: set<nat>, known: set<nat>, log: seq<Settlement>) {
    && NoRepeats(accepted)
    && (forall c :: c in accepted ==> c in known)
    && Remaining(accepted, discarded) == written + queued
    && (forall c :: c in discarded ==> c in accepted && Dismissed(log, c))
    && (!drops ==> written + queued <= accepted)
    && (!drops && !destroyed ==> discarded == {})
  }

  lemma OrderedLater(drops: bool, destroyed: bool, accepted: seq<nat>, written: seq<nat>, queued: seq<nat>,
                     discarded: set<nat>, known: set<nat>, log: seq<Settlement>, known': set<nat>, log': seq<Settlement>)
    requires Ordered(drops, destroyed, accepted, written, queued, discarded, known, log)
    requires known <= known' && log <= log'
    ensures Ordered(drops, destroyed, accepted, written, queued, discarded, known', log')
  {
  }

  /** A new request goes to the end. */
  lemma OrderedAccepts(drops: bool, accepted: seq<nat>, written: seq<nat>, queued: seq<nat>,
                       discarded: set<nat>, known: set<nat>, log: seq<Settlement>, c: nat)
    requires Ordered(drops, false, accepted, written, queued, discarded, known, log) && c !in known
    ensures Ordered(drops, false, accepted + [c], written, queued + [c], discarded, known + {c}, log)
  {
    RemainingSnoc(accepted, discarded, c);
    assert written + queued + [c] == written + (queued + [c]);
    if !drops {
      RemainingAll(accepted, discarded);
    }
  }

  /** Everything that waits is turned away. */
  lemma OrderedDiscards(drops: bool, destroyed: bool, accepted: seq<nat>, written: seq<nat>, queued: seq<nat>,
                        discarded: set<nat>, known: set<nat>, log: seq<Settlement>)
    requires Ordered(drops, destroyed, accepted, written, queued, discarded, known, log)
    requires forall c :: c in queued ==> Dismissed(log, c)
    requires drops || destroyed
    ensures Ordered(drops, destroyed, accepted, written, [], discarded + Elements(queued), known, log)
  {
    RemainingIsPart(accepted, discarded);
    RemainingOfRest(accepted, discarded, Elements(queued));
    forall c | c in written ensures c !in Elements(queued) {
      var i :| 0 <= i < |written| && written[i] == c;
      assert (written + queued)[i] == c;
      forall j | 0 <= j < |queued| ensures queued[j] != c {
        assert (written + queued)[|written| + j] == queued[j];
      }
    }
    RemainingWithoutTail(written, queued, Elements(queued));
    forall c | c in queued ensures c in accepted {
      assert c in written + queued;
    }
    assert written + [] == written;
    if !drops {
      assert written <= written + queued;
    }
  }

  // ---------- Small steps ----------

  /** The waiters without the one registered under `key`, if any. */
  function Unkeyed(waiters: map<Key, nat>, key: Option<Key>): map<Key, nat> {
    if key.None? then waiters else waiters - {key.value}
  }

  /** Exchange `x` is open for `r`, with a session key unless it is a broadcast. */
  predicate Opened(before: map<nat, Exchange>, after: map<nat, Exchange>, x: nat, r: Request) {
    x in after && after == before[x := after[x]] && after[x].callback == r.callback && (after[x].key.None? <==> r.broadcast)
  }

  lemma OpensAs(before: map<nat, Exchange>, x: nat, r: Request, k: Option<Key>)
    requires k.None? <==> r.broadcast
    ensures Opened(before, before[x := Exchange(r.callback, k)], x, r)
  {
  }

  lemma OpenedAndShut(before: map<nat, Exchange>, x: nat, r: Request)
    requires x !in before
    ensures forall after :: Opened(before, after, x, r) ==> after - {x} == before
  {
  }

  lemma DispatchNumbered(tcp: bool, transactionId: nat, waiters: map<Key, nat>, exchanges: map<nat, Exchange>,
                         timers: set<nat>, x: nat, c: nat, key: Key)
    requires NumberedOf(tcp, transactionId, waiters, exchanges, timers, x)
    requires if tcp then key.Tid? && IsTid(key.id) else key.FifoKey?
    ensures NumberedOf(tcp, transactionId, waiters[key := x], exchanges[x := Exchange(c, Some(key))], timers + {x}, x + 1)
    ensures NumberedOf(tcp, transactionId, waiters, exchanges[x := Exchange(c, None)], timers + {x}, x + 1)
    ensures x !in exchanges
  {
  }

  ghost predicate NumberedOf(tcp: bool, transactionId: nat, waiters: map<Key, nat>, exchanges: map<nat, Exchange>,
                             timers: set<nat>, next: nat) {
    && IsTid(transactionId)
    && (forall k :: k in waiters ==> if tcp then k.Tid? && IsTid(k.id) else k.FifoKey?)
    && (forall x :: x in exchanges ==> x < next)
    && (forall x :: x in timers ==> x < next)
  }

  lemma SettledHasPlace(places: map<nat, Place>, queued: seq<nat>, exchanges: map<nat, Exchange>,
                        settled: seq<nat>, x: nat)
    requires Placed(places, queued, exchanges, settled) && x in exchanges
    ensures exchanges[x].callback in places
  {
    assert places[exchanges[x].callback] == Pending(x);
  }

  lemma WrittenNow(drops: bool, destroyed: bool, accepted: seq<nat>, written: seq<nat>, c: nat, queued: seq<nat>,
                   discarded: set<nat>, known: set<nat>, log: seq<Settlement>)
    requires Ordered(drops, destroyed, accepted, written, [c] + queued, discarded, known, log)
    ensures Ordered(drops, destroyed, accepted, written + [c], queued, discarded, known, log)
  {
    assert written + ([c] + queued) == written + [c] + queued;
  }

  lemma CallbacksTail(rs: seq<Request>)
    requires rs != []
    ensures Callbacks(rs) == [rs[0].callback] + Callbacks(rs[1..])
  {
  }

  lemma TurnedAway(before: seq<Settlement>, callbacks: seq<nat>, outcome: Outcome)
    requires outcome == Rejected || outcome == Destroyed
    ensures forall c :: c in callbacks ==> Dismissed(before + Settlements(callbacks, outcome), c)
  {
    forall c | c in callbacks ensures Settlement(c, outcome) in before + Settlements(callbacks, outcome) {
      var i :| 0 <= i < |callbacks| && callbacks[i] == c;
      assert Settlements(callbacks, outcome)[i] == Settlement(c, outcome);
    }
  }

  lemma WaitingSplits(strategy: Strategy, rs: seq<Request>, key: Option<nat>)
    requires strategy.Fifo? || strategy.DropStale?
    ensures var left, dropped := Callbacks(Survivors(strategy, rs, key)), Callbacks(Dropped(strategy, rs, key));
            Callbacks(rs) == left + dropped && if strategy.DropStale? then left == [] else dropped == []
    ensures forall r :: r in Survivors(strategy, rs, key) ==> r in rs
  {
  }

  lemma AdmittedPlaces(places: map<nat, Place>, left: seq<nat>, dropped: seq<nat>, exchanges: map<nat, Exchange>,
                       settled: seq<nat>, c: nat)
    requires Placed(places, left + dropped, exchanges, settled) && c !in places
    requires left == [] || dropped == []
    ensures Placed(AllDone(places, dropped)[c := Queued], left + [c], exchanges, settled + dropped)
    ensures AllDone(places, dropped)[c := Queued].Keys == places.Keys + {c}
  {
    hide Placed;
    if left == [] {
      assert left + dropped == dropped;
      RejectPlaces(places, dropped, exchanges, settled);
    } else {
      assert left + dropped == left && settled + dropped == settled && AllDone(places, dropped) == places;
    }
    EnqueuePlaces(AllDone(places, dropped), left, exchanges, settled + dropped, c);
  }

  lemma AdmittedOrder(drops: bool, accepted: seq<nat>, written: seq<nat>, left: seq<nat>, dropped: seq<nat>,
                      discarded: set<nat>, known: set<nat>, log: seq<Settlement>, c: nat)
    requires Ordered(drops, false, accepted, written, left + dropped, discarded, known, log) && c !in known
    requires if drops then left == [] else dropped == []
    ensures Ordered(drops, false, accepted + [c], written, left + [c], discarded + Elements(dropped), known + {c},
                    log + Settlements(dropped, Rejected))
  {
    hide Ordered;
    var later := log + Settlements(dropped, Rejected);
    OrderedLater(drops, false, accepted, written, left + dropped, discarded, known, log, known, later);
    if drops {
      assert left + dropped == dropped;
      TurnedAway(log, dropped, Rejected);
      OrderedDiscards(drops, false, accepted, written, dropped, discarded, known, later);
    } else {
      assert left + dropped == left && discarded + Elements(dropped) == discarded;
    }
    OrderedAccepts(drops, accepted, written, left, discarded + Elements(dropped), known, later, c);
  }

  lemma OrderedForGood(drops: bool, destroyed: bool, accepted: seq<nat>, written: seq<nat>, queued: seq<nat>,
                       discarded: set<nat>, known: set<nat>, log: seq<Settlement>, log': seq<Settlement>)
    requires Ordered(drops, destroyed, accepted, written, queued, discarded, known, log) && log <= log'
    requires forall c :: c in queued ==> Dismissed(log', c)
    ensures Ordered(drops, true, accepted, written, [], discarded + Elements(queued), known, log')
  {
    OrderedLater(drops, destroyed, accepted, written, queued, discarded, known, log, known, log');
    OrderedDiscards(drops, true, accepted, written, queued, discarded, known, log');
  }

  /** Whatever `after` adds to `before` has this outcome. */
  predicate AllNew(before: seq<Settlement>, after: seq<Settlement>, outcome: Outcome) {
    before <= after && forall i :: |before| <= i < |after| ==> after[i].outcome == outcome
  }

  lemma AllNewJoins(before: seq<Settlement>, callbacks: seq<nat>, after: seq<Settlement>, outcome: Outcome)
    requires AllNew(before + Settlements(callbacks, outcome), after, outcome)
    ensures AllNew(before, after, outcome)
  {
  }

  lemma NothingNew(log: seq<Settlement>, outcome: Outcome)
    ensures AllNew(log, log, outcome)
  {
  }

  lemma OneMoreNew(before: seq<Settlement>, now: seq<Settlement>, callback: nat, outcome: Outcome)
    requires AllNew(before, now, outcome)
    ensures AllNew(before, now + [Settlement(callback, outcome)], outcome) && before <= now
  {
  }

  lemma NewOnes(before: seq<Settlement>, after: seq<Settlement>, outcome: Outcome)
    requires AllNew(before, after, outcome)
    ensures forall c :: c in SettledBy(after) && c !in SettledBy(before) ==> Settlement(c, outcome) in after
  {
    assert SettledBy(after)[..|before|] == SettledBy(before);
    forall c | c in SettledBy(after) && c !in SettledBy(before) ensures Settlement(c, outcome) in after {
      var i :| 0 <= i < |after| && SettledBy(after)[i] == c;
      assert after[i] == Settlement(c, outcome);
    }
  }

  // ---------- Concurrent dispatch needs identifiers ----------

  /** Registering a waiter keeps waiters and exchanges matched exactly when its key is free. */
  lemma RegisterMatchesIffFree(exchanges: map<nat, Exchange>, waiters: map<Key, nat>, x: nat, c: nat, key: Key)
    requires Matched(exchanges, waiters) && x !in exchanges
    ensures Matched(exchanges[x := Exchange(c, Some(key))], waiters[key := x]) <==> key !in waiters
  {
    if key in waiters {
      var w := waiters[key];
      assert exchanges[x := Exchange(c, Some(key))][w].key == Some(key);
    } else {
      DispatchMatched(exchanges, waiters, x, c, key);
    }
  }

  /**
   * Two requests in flight on a protocol without transaction identifiers share the one fixed key. The
   * second takes the first one's place: no frame reaches the first any more, and a response to it would
   * settle the second.
   */
  lemma SharedKeyLosesAWaiter(x: nat, c: nat, x': nat, c': nat)
    requires x != x'
    ensures var first := map[x := Exchange(c, Some(FifoKey))];
            var both := first[x' := Exchange(c', Some(FifoKey))];
            var waiters := map[FifoKey := x][FifoKey := x'];
            && Matched(first, map[FifoKey := x]) && !Matched(both, waiters)
            && waiters[FifoKey] == x' && x in both && x !in waiters.Values
  {
    RegisterMatchesIffFree(map[x := Exchange(c, Some(FifoKey))], map[FifoKey := x], x', c', FifoKey);
  }

  // ---------- A framing error ----------

  /** What the rejection of all waiters looks at. */
  datatype Rejection = Rejection(exchanges: map<nat, Exchange>, waiters: map<Key, nat>, log: seq<Settlement>)

  /** Of the waiters at `first`, all but `left` have been told. */
  ghost predicate Rejecting(first: Rejection, left: set<nat>, now: Rejection, io: nat -> WriteBehaviour, concurrent: bool) {
    && first.log <= now.log && left <= first.waiters.Values && first.waiters.Values <= first.exchanges.Keys
    && (forall x :: x in left ==> x in now.exchanges && now.exchanges[x] == first.exchanges[x])
    && (forall x :: x in first.exchanges && x !in first.waiters.Values ==>
          x in now.exchanges && now.exchanges[x] == first.exchanges[x])
    && (forall x :: x in first.waiters.Values - left ==>
          x !in now.exchanges && Settlement(first.exchanges[x].callback, FramingFailed) in now.log)
    && (concurrent ==> forall k :: k in now.waiters ==> k in first.waiters && now.waiters[k] == first.waiters[k])
    && (forall i :: |first.log| <= i < |now.log| ==> now.log[i].outcome == FramingFailed || SomeWrite(io, now.log[i].outcome))
  }

  lemma StartRejecting(first: Rejection, io: nat -> WriteBehaviour)
    requires first.waiters.Values <= first.exchanges.Keys
    ensures forall concurrent :: Rejecting(first, first.waiters.Values, first, io, concurrent)
  {
  }

  lemma RejectingNext(first: Rejection, left: set<nat>, now: Rejection, io: nat -> WriteBehaviour, concurrent: bool, x: nat)
    requires Rejecting(first, left, now, io, concurrent) && x in left
    ensures x in first.exchanges && x in now.exchanges && now.exchanges[x] == first.exchanges[x]
    ensures forall y :: y in first.waiters.Values - left ==> y !in now.exchanges
    ensures exists k :: k in first.waiters && first.waiters[k] == x
  {
  }

  lemma RejectingStep(first: Rejection, left: set<nat>, now: Rejection, io: nat -> WriteBehaviour, concurrent: bool, x: nat,
                      then': Rejection, later: seq<Settlement>)
    requires Rejecting(first, left, now, io, concurrent) && x in left && x in now.exchanges
    requires x !in then'.exchanges
    requires forall y :: y in now.exchanges && y != x ==> y in then'.exchanges && then'.exchanges[y] == now.exchanges[y]
    requires forall y :: y in first.waiters.Values - left ==> y !in then'.exchanges
    requires then'.log == now.log + [Settlement(now.exchanges[x].callback, FramingFailed)] + later
    requires forall e :: e in later ==> SomeWrite(io, e.outcome)
    requires concurrent ==> forall k :: k in then'.waiters ==> k in now.waiters && then'.waiters[k] == now.waiters[k]
    ensures Rejecting(first, left - {x}, then', io, concurrent)
  {
    hide SomeWrite;
    assert then'.log[|now.log|] == Settlement(now.exchanges[x].callback, FramingFailed);
    forall i | |first.log| <= i < |then'.log|
      ensures then'.log[i].outcome == FramingFailed || SomeWrite(io, then'.log[i].outcome)
    {
      if i < |now.log| {
        assert then'.log[i] == now.log[i];
      } else if i > |now.log| {
        assert then'.log[i] in later;
      }
    }
  }

  lemma RejectingDone(first: Rejection, now: Rejection, io: nat -> WriteBehaviour, concurrent: bool)
    requires Rejecting(first, {}, now, io, concurrent)
    requires forall k :: k in now.waiters ==> now.waiters[k] in now.exchanges
    ensures first.log <= now.log
    ensures forall k :: k in first.waiters ==>
              && first.waiters[k] in first.exchanges && first.waiters[k] !in now.exchanges
              && Settlement(first.exchanges[first.waiters[k]].callback, FramingFailed) in now.log
    ensures forall x :: x in first.exchanges && x !in first.waiters.Values ==>
              x in now.exchanges && now.exchanges[x] == first.exchanges[x]
    ensures concurrent ==> now.waiters == map[]
    ensures forall i :: |first.log| <= i < |now.log| ==> now.log[i].outcome == FramingFailed || SomeWrite(io, now.log[i].outcome)
  {
    forall k ensures concurrent ==> k !in now.waiters {
    }
    assert concurrent ==> now.waiters.Keys == {};
  }

  // ---------- The ledger ----------

  /** What is said about a master beside its fields: the queue its arrays represent, and the history of its requests. */
  datatype Notes = Notes(
    contents: seq<Request>,
    // Every callback ever handed in, where it is now, and the request behind it.
    places: map<nat, Place>, requests: map<nat, Request>,
    // Callbacks of the requests taken in, of those written, and of those turned away before they were written.
    accepted: seq<nat>, written: seq<nat>, discarded: set<nat>)

  /** What the master keeps about its requests, in one value. */
  datatype Ledger = Ledger(
    tcp: bool, transactionId: nat, next: nat, timers: set<nat>, places: map<nat, Place>, requests: map<nat, Request>,
    contents: seq<Request>, exchanges: map<nat, Exchange>, waiters: map<Key, nat>, log: seq<Settlement>,
    wire: seq<Sending>, written: seq<nat>)

  /** The books balance: places, waiters, wire, requests and numbers all tell the same story. */
  ghost predicate Books(l: Ledger) {
    && Placed(l.places, Callbacks(l.contents), l.exchanges, SettledBy(l.log))
    && Matched(l.exchanges, l.waiters)
    && Recorded(l.wire, l.written, l.requests, l.contents, l.exchanges, l.log)
    && NumberedOf(l.tcp, l.transactionId, l.waiters, l.exchanges, l.timers, l.next)
  }

  /** Exchange `x` is closed with an outcome. */
  function Settled(l: Ledger, x: nat, outcome: Outcome): Ledger
    requires x in l.exchanges
  {
    var e := l.exchanges[x];
    l.(exchanges := l.exchanges - {x}, waiters := Unkeyed(l.waiters, e.key), log := l.log + [Settlement(e.callback, outcome)],
       places := l.places[e.callback := Done])
  }

  lemma BooksSettled(l: Ledger, x: nat, outcome: Outcome)
    requires Books(l) && x in l.exchanges && FitsKey(l.exchanges[x].key, outcome)
    ensures Books(Settled(l, x, outcome)) && l.exchanges[x].callback in l.places
  {
    hide Placed, Matched, Recorded, SettledBy;
    SettlePlaces(l.places, Callbacks(l.contents), l.exchanges, SettledBy(l.log), x);
    SettleMatched(l.exchanges, l.waiters, x);
    RecordSettled(l.wire, l.written, l.requests, l.contents, l.exchanges, l.log, x, outcome);
    SettledByAppend(l.log, [], outcome);
    SettledHasPlace(l.places, Callbacks(l.contents), l.exchanges, SettledBy(l.log), x);
  }

  /** An exchange is opened for `r` under `key`. */
  function OpenedFor(l: Ledger, r: Request, key: Key): Ledger {
    var k := if r.broadcast then None else Some(key);
    l.(next := l.next + 1, timers := l.timers + {l.next}, exchanges := l.exchanges[l.next := Exchange(r.callback, k)],
       waiters := if r.broadcast then l.waiters else l.waiters[key := l.next], places := l.places[r.callback := Pending(l.next)],
       wire := l.wire + [Sending(r.callback, key)], written := l.written + [r.callback])
  }

  predicate KeyFits(tcp: bool, key: Key) {
    if tcp then key.Tid? && IsTid(key.id) else key.FifoKey?
  }

  lemma BooksOpened(l: Ledger, r: Request, key: Key)
    requires Books(l) && key !in l.waiters && KeyFits(l.tcp, key)
    requires r.callback !in l.places && r.callback in l.requests && l.requests[r.callback] == r
    ensures Books(OpenedFor(l, r, key)) && l.next !in l.exchanges
  {
    hide Placed, Matched, Recorded, NumberedOf, SettledBy, Callbacks;
    DispatchNumbered(l.tcp, l.transactionId, l.waiters, l.exchanges, l.timers, l.next, r.callback, key);
    DispatchPlaces(l.places, Callbacks(l.contents), l.exchanges, SettledBy(l.log), r.callback, l.next,
                   if r.broadcast then None else Some(key));
    DispatchMatched(l.exchanges, l.waiters, l.next, r.callback, key);
    RecordOpened(l.wire, l.written, l.requests, l.contents, l.exchanges, l.log, l.waiters, l.next, r, key);
  }

  /** The head of the queue is taken out. */
  function Taken(l: Ledger): Ledger
    requires l.contents != []
  {
    l.(contents := l.contents[1..], places := l.places - {l.contents[0].callback})
  }

  lemma BooksTaken(l: Ledger)
    requires Books(l) && l.contents != []
    ensures var c := l.contents[0].callback;
            && Books(Taken(l)) && c in l.places && c in l.requests && l.requests[c] == l.contents[0]
            && (l.places - {c}).Keys + {c} == l.places.Keys
  {
    hide Placed, Matched, Recorded, SettledBy;
    DequeuePlaces(l.places, Callbacks(l.contents), l.exchanges, SettledBy(l.log));
    CallbacksTail(l.contents);
    assert Callbacks(l.contents)[1..] == Callbacks(l.contents[1..]);
    RecordHead(l.wire, l.written, l.requests, l.contents, l.exchanges, l.log);
  }

  /** `r` enters the queue; what the strategy drops for it is rejected. */
  function Admitted(l: Ledger, strategy: Strategy, r: Request): Ledger {
    var dropped := Callbacks(Dropped(strategy, l.contents, r.fingerprint));
    l.(contents := Survivors(strategy, l.contents, r.fingerprint) + [r], log := l.log + Settlements(dropped, Rejected),
       places := AllDone(l.places, dropped)[r.callback := Queued], requests := l.requests[r.callback := r])
  }

  lemma BooksAdmitted(l: Ledger, strategy: Strategy, r: Request)
    requires Books(l) && r.callback !in l.places && (strategy.Fifo? || strategy.DropStale?)
    ensures Books(Admitted(l, strategy, r))
    ensures Admitted(l, strategy, r).places.Keys == l.places.Keys + {r.callback}
  {
    hide Placed, Matched, Recorded, SettledBy, Callbacks, Survivors, Dropped, Settlements, AllDone;
    var left := Survivors(strategy, l.contents, r.fingerprint);
    var dropped := Callbacks(Dropped(strategy, l.contents, r.fingerprint));
    WaitingSplits(strategy, l.contents, r.fingerprint);
    AdmittedPlaces(l.places, Callbacks(left), dropped, l.exchanges, SettledBy(l.log), r.callback);
    SettledByAppend(l.log, dropped, Rejected);
    CallbacksSnoc(left, r);
    RecordAdmitted(l.places, l.wire, l.written, l.requests, l.contents, left, dropped, l.exchanges, l.log, r);
  }

  /** `r` is turned away at once. */
  function TurnedBack(l: Ledger, r: Request): Ledger {
    l.(log := l.log + [Settlement(r.callback, Destroyed)], places := l.places[r.callback := Done],
       requests := l.requests[r.callback := r])
  }

  lemma BooksTurnedBack(l: Ledger, r: Request)
    requires Books(l) && r.callback !in l.places
    ensures Books(TurnedBack(l, r)) && Books(l.(requests := l.requests[r.callback := r]))
  {
    hide Placed, Matched, Recorded, SettledBy, Callbacks;
    SettleNewPlaces(l.places, Callbacks(l.contents), l.exchanges, SettledBy(l.log), r.callback);
    SettledByAppend(l.log, [], Destroyed);
    RecordDirect(l.places, l.wire, l.written, l.requests, l.contents, l.exchanges, l.log, r);
  }

  /** Everything that waits is turned away. */
  function Emptied(l: Ledger): Ledger {
    var dropped := Callbacks(l.contents);
    l.(contents := [], log := l.log + Settlements(dropped, Destroyed), places := AllDone(l.places, dropped))
  }

  lemma BooksEmptied(l: Ledger)
    requires Books(l)
    ensures Books(Emptied(l)) && Emptied(l).places.Keys == l.places.Keys
  {
    hide Placed, Matched, Recorded, SettledBy, Callbacks, Settlements, AllDone;
    NoCallbacks();
    RejectPlaces(l.places, Callbacks(l.contents), l.exchanges, SettledBy(l.log));
    SettledByAppend(l.log, Callbacks(l.contents), Destroyed);
    RecordTurned(l.wire, l.written, l.requests, l.contents, l.exchanges, l.log);
  }

  lemma BooksRenumbered(l: Ledger, t: nat, timers: set<nat>)
    requires Books(l) && IsTid(t) && timers <= l.timers
    ensures Books(l.(transactionId := t)) && Books(l.(timers := timers))
  {
    hide Placed, Matched, Recorded;
  }
}
