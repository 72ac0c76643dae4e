/** The master's request queue: seven parallel arrays with a head index. */
module MasterQueue {
  import opened Bytes

  datatype Request = Request(
    unit: byte, fc: byte, data: seq<byte>, timeout: nat, broadcast: bool, callback: nat, fingerprint: Option<nat>)

  datatype Strategy = Fifo | DropStale | Deduplicate | Concurrent

  function Callbacks(rs: seq<Request>): seq<nat> {
    seq(|rs|, i requires 0 <= i < |rs| => rs[i].callback)
  }

  /** Requests without a fingerprint are duplicates of none. */
  predicate Same(a: Option<nat>, b: Option<nat>) {
    a.Some? && a == b
  }

  /** The requests whose fingerprint is, or is not, `key`; order kept. */
  function Select(rs: seq<Request>, key: Option<nat>, same: bool): seq<Request> {
    if rs == [] then []
    else
      var n := |rs| - 1;
      Select(rs[..n], key, same) + if Same(rs[n].fingerprint, key) == same then [rs[n]] else []
  }

  /** `a` and `b` together are `rs`. */
  predicate Parts(a: seq<Request>, b: seq<Request>, rs: seq<Request>) {
    multiset(a) + multiset(b) == multiset(rs)
  }

  lemma PartsGrow(a: seq<Request>, b: seq<Request>, rs: seq<Request>, r: Request)
    requires Parts(a, b, rs)
    ensures Parts(a + [r], b, rs + [r]) && Parts(a, b + [r], rs + [r])
  {
  }

  /** Every waiting request is either kept or rejected, once. */
  lemma {:induction false} SelectPartitions(rs: seq<Request>, key: Option<nat>)
    ensures Parts(Select(rs, key, true), Select(rs, key, false), rs)
  {
    hide Same, Select, Parts;
    if rs == [] {
      PartsOfNothing(key);
    } else {
      var n := |rs| - 1;
      SelectPartitions(rs[..n], key);
      SelectLast(rs, key, true);
      SelectLast(rs, key, false);
      PartsGrow(Select(rs[..n], key, true), Select(rs[..n], key, false), rs[..n], rs[n]);
      assert rs == rs[..n] + [rs[n]];
    }
  }

  lemma PartsOfNothing(key: Option<nat>)
    ensures Parts(Select([], key, true), Select([], key, false), [])
  {
    hide Same;
  }

  lemma SelectLast(rs: seq<Request>, key: Option<nat>, same: bool)
    requires rs != []
    ensures var n := |rs| - 1;
            Select(rs, key, same) == if Same(rs[n].fingerprint, key) == same then Select(rs[..n], key, same) + [rs[n]]
                                     else Select(rs[..n], key, same)
  {
    hide Same;
  }

  /** Which of the two it is depends on its fingerprint alone. */
  lemma {:induction false} SelectSorts(rs: seq<Request>, key: Option<nat>, same: bool)
    ensures forall r :: r in Select(rs, key, same) <==> r in rs && Same(r.fingerprint, key) == same
  {
    hide Same;
    if rs != [] {
      var n := |rs| - 1;
      SelectSorts(rs[..n], key, same);
      assert rs == rs[..n] + [rs[n]];
    }
  }

  /** What an arrival leaves of the waiting requests. */
  function Survivors(strategy: Strategy, rs: seq<Request>, key: Option<nat>): seq<Request> {
    match strategy
    case DropStale => []
    case Deduplicate => Select(rs, key, false)
    case _ => rs
  }

  /** What an arrival throws out of the queue. */
  function Dropped(strategy: Strategy, rs: seq<Request>, key: Option<nat>): seq<Request> {
    match strategy
    case DropStale => rs
    case Deduplicate => Select(rs, key, true)
    case _ => []
  }

  /**
   * Who goes and who stays: first come first served and concurrent masters turn nothing away, a stale-dropping
   * one turns everything away, a deduplicating one exactly the requests under the very key of the new one.
   */
  lemma StrategyDecides(strategy: Strategy, rs: seq<Request>, key: Option<nat>)
    ensures strategy.Fifo? || strategy.Concurrent? || (strategy.Deduplicate? && key.None?) ==>
              Survivors(strategy, rs, key) == rs && Dropped(strategy, rs, key) == []
    ensures strategy.DropStale? ==> Survivors(strategy, rs, key) == [] && Dropped(strategy, rs, key) == rs
    ensures strategy.Deduplicate? && key.Some? ==>
              && (forall r :: r in Survivors(strategy, rs, key) <==> r in rs && r.fingerprint != key)
              && (forall r :: r in Dropped(strategy, rs, key) <==> r in rs && r.fingerprint == key)
  {
    if key.None? {
      NothingUnderNoKey(rs);
    }
    SelectSorts(rs, key, true);
    SelectSorts(rs, key, false);
  }

  lemma {:induction false} NothingUnderNoKey(rs: seq<Request>)
    ensures Select(rs, None, false) == rs && Select(rs, None, true) == []
  {
    if rs != [] {
      NothingUnderNoKey(rs[..|rs| - 1]);
      assert rs == rs[..|rs| - 1] + [rs[|rs| - 1]];
    }
  }

  /** Both come out in the order in which they waited: whatever waits behind comes out behind. */
  lemma {:induction false} SelectKeepsOrder(a: seq<Request>, b: seq<Request>, key: Option<nat>, same: bool)
    ensures Select(a + b, key, same) == Select(a, key, same) + Select(b, key, same)
  {
    hide Same;
    if b == [] {
      assert a + b == a;
    } else {
      var n := |b| - 1;
      SelectKeepsOrder(a, b[..n], key, same);
      assert (a + b)[..|a + b| - 1] == a + b[..n];
    }
  }

  /** The seven columns of one slot; data, callback and fingerprint are cleared once it is dequeued. */
  datatype Slot = Slot(
    unit: byte, fc: byte, data: Option<seq<byte>>, timeout: nat, broadcast: bool,
    callback: Option<nat>, fingerprint: Option<nat>)

  function Filled(r: Request): Slot {
    Slot(r.unit, r.fc, Some(r.data), r.timeout, r.broadcast, Some(r.callback), r.fingerprint)
  }

  predicate Cleared(s: Slot) {
    s.data.None? && s.callback.None? && s.fingerprint.None?
  }

  /** `slots` is `head` cleared slots followed by `contents`. */
  predicate Layout(slots: seq<Slot>, head: nat, contents: seq<Request>) {
    && |slots| == head + |contents|
    && (forall k :: 0 <= k < head ==> Cleared(slots[k]))
    && (forall k :: 0 <= k < |contents| ==> slots[head + k] == Filled(contents[k]))
  }

  class RequestQueue {
    var units: seq<byte>
    var fcs: seq<byte>
    var datas: seq<Option<seq<byte>>>
    var timeouts: seq<nat>
    var broadcasts: seq<bool>
    var callbacks: seq<Option<nat>>
    var fingerprints: seq<Option<nat>>
    var queueHead: nat
    var queueLen: nat
    /** Callbacks rejected by the strategy, in order. */
    var rejected: seq<nat>

    ghost predicate Aligned()
      reads this`units, this`fcs, this`datas, this`timeouts, this`broadcasts, this`callbacks, this`fingerprints
    {
      |units| == |fcs| == |datas| == |timeouts| == |broadcasts| == |callbacks| == |fingerprints|
    }

    ghost function Slots(): (s: seq<Slot>)
      requires Aligned()
      reads this`units, this`fcs, this`datas, this`timeouts, this`broadcasts, this`callbacks, this`fingerprints
      ensures |s| == |units|
      ensures forall k :: 0 <= k < |s| ==>
                s[k] == Slot(units[k], fcs[k], datas[k], timeouts[k], broadcasts[k], callbacks[k], fingerprints[k])
    {
      var u, f, d, t, b, c, p := units, fcs, datas, timeouts, broadcasts, callbacks, fingerprints;
      seq(|u|, k requires 0 <= k < |u| => Slot(u[k], f[k], d[k], t[k], b[k], c[k], p[k]))
    }

    /** The arrays represent the queue `contents`. */
    ghost predicate Holds(contents: seq<Request>)
      reads this
    {
      Aligned() && queueLen == |contents| && Layout(Slots(), queueHead, contents)
    }

    constructor ()
      ensures Holds([]) && queueHead == 0 && rejected == []
    {
      units, fcs, datas, timeouts := [], [], [], [];
      broadcasts, callbacks, fingerprints := [], [], [];
      queueHead, queueLen, rejected := 0, 0, [];
    }

    method Truncate(n: nat)
      requires Aligned() && n <= |units|
      modifies this`units, this`fcs, this`datas, this`timeouts, this`broadcasts, this`callbacks, this`fingerprints
      ensures Aligned() && Slots() == old(Slots())[..n]
    {
      units, fcs, datas, timeouts := units[..n], fcs[..n], datas[..n], timeouts[..n];
      broadcasts, callbacks, fingerprints := broadcasts[..n], callbacks[..n], fingerprints[..n];
    }

    method Push(r: Request)
      requires Aligned()
      modifies this`units, this`fcs, this`datas, this`timeouts, this`broadcasts, this`callbacks, this`fingerprints, this`queueLen
      ensures Aligned() && Slots() == old(Slots()) + [Filled(r)] && queueLen == old(queueLen) + 1
    {
      units, fcs, datas, timeouts := units + [r.unit], fcs + [r.fc], datas + [Some(r.data)], timeouts + [r.timeout];
      broadcasts, callbacks := broadcasts + [r.broadcast], callbacks + [Some(r.callback)];
      fingerprints := fingerprints + [r.fingerprint];
      queueLen := queueLen + 1;
    }

    /** Copy slot `i` over slot `at`. */
    method Move(at: nat, i: nat)
      requires Aligned() && at <= i < |units|
      modifies this`units, this`fcs, this`datas, this`timeouts, this`broadcasts, this`callbacks, this`fingerprints
      ensures Aligned() && Slots() == old(Slots())[at := old(Slots())[i]]
    {
      units, fcs, datas := units[at := units[i]], fcs[at := fcs[i]], datas[at := datas[i]];
      timeouts, broadcasts := timeouts[at := timeouts[i]], broadcasts[at := broadcasts[i]];
      callbacks, fingerprints := callbacks[at := callbacks[i]], fingerprints[at := fingerprints[i]];
    }

    method Clear(at: nat)
      requires Aligned() && at < |units|
      modifies this`datas, this`callbacks, this`fingerprints
      ensures Aligned() && Slots() == old(Slots())[at := ClearedSlot(old(Slots())[at])]
    {
      datas, callbacks, fingerprints := datas[at := None], callbacks[at := None], fingerprints[at := None];
    }

    /** Take the request at the head; the arrays shrink once the queue is empty. */
    method Dequeue(ghost contents: seq<Request>) returns (r: Request)
      requires Holds(contents) && queueLen > 0
      modifies this
      ensures Holds(contents[1..]) && r == contents[0] && rejected == old(rejected)
      ensures queueHead == if |contents| == 1 then 0 else old(queueHead) + 1
    {
      hide Layout;
      var h := queueHead;
      ghost var slots := Slots();
      HeadAdvances(slots, h, contents);
      assert slots[h] == Filled(contents[0]);
      r := Request(units[h], fcs[h], datas[h].value, timeouts[h], broadcasts[h], callbacks[h].value, fingerprints[h]);
      Clear(h);
      queueHead := h + 1;
      queueLen := queueLen - 1;
      if queueLen == 0 {
        Truncate(0);
        queueHead := 0;
        NothingHeld(Slots());
      }
    }

    /** Reject `r` to its caller. */
    method Reject(callback: nat)
      modifies this`rejected
      ensures rejected == old(rejected) + [callback]
    {
      rejected := rejected + [callback];
    }

    /** `drop-stale`: reject everything that waits and start from empty arrays. */
    method DropAll(ghost contents: seq<Request>)
      requires Holds(contents)
      modifies this
      ensures Holds([]) && queueHead == 0 && rejected == old(rejected) + Callbacks(contents)
    {
      hide Layout, Callbacks;
      var end := queueHead + queueLen;
      NoCallbacks();
      ghost var head := queueHead;
      for i := queueHead to end
        invariant Aligned() && head == queueHead && queueLen == |contents| && Layout(Slots(), head, contents)
        invariant rejected == old(rejected) + Callbacks(contents[..i - head])
      {
        LiveSlot(Slots(), head, contents, i - head);
        Reject(callbacks[i].value);
        CallbacksSnoc(contents[..i - head], contents[i - head]);
        assert contents[..i + 1 - head] == contents[..i - head] + [contents[i - head]];
      }
      assert contents[..queueLen] == contents;
      Truncate(0);
      queueHead, queueLen := 0, 0;
      NothingHeld(Slots());
    }

    /** `deduplicate`: reject every waiting request with the same fingerprint and close the gaps. */
    method DropMatching(key: Option<nat>, ghost contents: seq<Request>)
      requires Holds(contents) && queueLen > 0
      modifies this
      ensures rejected == old(rejected) + Callbacks(Select(contents, key, true))
      ensures Aligned() && queueLen == |Select(contents, key, false)|
      ensures Layout(Slots(), old(queueHead), Select(contents, key, false))
      ensures queueHead == if queueLen == 0 then 0 else old(queueHead)
    {
      hide Layout, Select, Compacting, Callbacks;
      var end := queueHead + queueLen;
      var writeIdx := queueHead;
      StartCompacting(Slots(), queueHead, contents, key);
      for i := queueHead to end
        invariant Aligned() && queueHead == old(queueHead) && queueHead <= writeIdx <= i && |units| == end
        invariant Compacting(Slots(), queueHead, writeIdx, i, contents, key)
        invariant rejected == old(rejected) + Callbacks(Select(contents[..i - queueHead], key, true))
      {
        CompactStep(Slots(), queueHead, writeIdx, i, contents, key);
        assert Slots()[i].fingerprint == fingerprints[i];
        if fingerprints[i].Some? && fingerprints[i] == key {
          Reject(callbacks[i].value);
        } else {
          if writeIdx != i {
            Move(writeIdx, i);
          } else {
            assert Slots()[writeIdx := Slots()[i]] == Slots();
          }
          writeIdx := writeIdx + 1;
        }
      }
      DoneCompacting(Slots(), queueHead, writeIdx, contents, key);
      Truncate(writeIdx);
      queueLen := writeIdx - queueHead;
      if queueLen == 0 {
        queueHead := 0;
      }
    }

    /** A request enters the queue under the given strategy. */
    method Admit(strategy: Strategy, r: Request, ghost contents: seq<Request>)
      requires Holds(contents)
      modifies this
      ensures rejected == old(rejected) + Callbacks(Dropped(strategy, contents, r.fingerprint))
      ensures var left := Survivors(strategy, contents, r.fingerprint);
              if strategy.Deduplicate? && contents != [] && left == [] && old(queueHead) > 0
              then !exists any :: Holds(any)
              else Holds(left + [r])
      ensures queueHead == 0 || queueHead == old(queueHead)
      ensures contents != [] && Survivors(strategy, contents, r.fingerprint) != [] ==> queueHead == old(queueHead)
    {
      hide Layout, Select, Callbacks;
      NoCallbacks();
      if queueLen > 0 {
        if strategy.DropStale? {
          DropAll(contents);
        } else if strategy.Deduplicate? {
          DropMatching(r.fingerprint, contents);
        }
      }
      ghost var left := Survivors(strategy, contents, r.fingerprint);
      NothingSelected(r.fingerprint);
      ghost var slots := Slots();
      ghost var head := if strategy.Deduplicate? && contents != [] then old(queueHead) else queueHead;
      PushedLayout(slots, head, left, r);
      Push(r);
    }
  }

  function ClearedSlot(s: Slot): Slot {
    s.(data := None, callback := None, fingerprint := None)
  }

  lemma HeadAdvances(slots: seq<Slot>, head: nat, contents: seq<Request>)
    requires Layout(slots, head, contents) && contents != []
    ensures head < |slots|
    ensures slots[head] == Filled(contents[0])
    ensures Layout(slots[head := ClearedSlot(slots[head])], head + 1, contents[1..])
  {
    assert slots[head + 0] == Filled(contents[0]);
    var next := slots[head := ClearedSlot(slots[head])];
    forall k | 0 <= k < |contents| - 1 ensures next[head + 1 + k] == Filled(contents[1..][k]) {
      assert slots[head + (k + 1)] == Filled(contents[k + 1]);
    }
  }

  lemma LiveSlot(slots: seq<Slot>, head: nat, contents: seq<Request>, k: nat)
    requires Layout(slots, head, contents) && k < |contents|
    ensures head + k < |slots| && slots[head + k] == Filled(contents[k])
  {
  }

  lemma NothingHeld(slots: seq<Slot>)
    ensures slots == [] ==> Layout(slots, 0, [])
  {
  }

  lemma NoCallbacks()
    ensures Callbacks([]) == []
  {
  }

  lemma NothingSelected(key: Option<nat>)
    ensures Select([], key, true) == [] && Select([], key, false) == []
  {
  }

  /** Slots `head .. writeIdx` hold what is kept of the first requests; slots from `i` on are untouched. */
  predicate Compacting(slots: seq<Slot>, head: nat, writeIdx: nat, i: nat, contents: seq<Request>, key: Option<nat>) {
    && |slots| == head + |contents| && head <= writeIdx <= i <= |slots|
    && (forall k :: 0 <= k < head ==> Cleared(slots[k]))
    && (var kept := Select(contents[..i - head], key, false);
        && writeIdx == head + |kept|
        && (forall k :: 0 <= k < |kept| ==> slots[head + k] == Filled(kept[k])))
    && (forall k :: i - head <= k < |contents| ==> slots[head + k] == Filled(contents[k]))
  }

  lemma StartCompacting(slots: seq<Slot>, head: nat, contents: seq<Request>, key: Option<nat>)
    requires Layout(slots, head, contents)
    ensures Compacting(slots, head, head, head, contents, key)
    ensures |slots| == head + |contents|
    ensures Callbacks(Select(contents[..0], key, true)) == []
  {
    assert contents[..0] == [];
  }

  lemma CompactStep(slots: seq<Slot>, head: nat, writeIdx: nat, i: nat, contents: seq<Request>, key: Option<nat>)
    requires Compacting(slots, head, writeIdx, i, contents, key) && i < |slots|
    ensures var r := contents[i - head];
            && slots[i] == Filled(r)
            && (if Same(r.fingerprint, key)
                then && Compacting(slots, head, writeIdx, i + 1, contents, key)
                     && Callbacks(Select(contents[..i + 1 - head], key, true))
                        == Callbacks(Select(contents[..i - head], key, true)) + [r.callback]
                else && Compacting(slots[writeIdx := slots[i]], head, writeIdx + 1, i + 1, contents, key)
                     && Select(contents[..i + 1 - head], key, true) == Select(contents[..i - head], key, true))
  {
    hide Callbacks;
    var n := i - head;
    assert slots[head + n] == Filled(contents[n]);
    assert contents[..n + 1][..n] == contents[..n];
    CallbacksSnoc(Select(contents[..n], key, true), contents[n]);
  }

  lemma CallbacksSnoc(rs: seq<Request>, r: Request)
    ensures Callbacks(rs + [r]) == Callbacks(rs) + [r.callback]
  {
  }

  lemma DoneCompacting(slots: seq<Slot>, head: nat, writeIdx: nat, contents: seq<Request>, key: Option<nat>)
    requires Compacting(slots, head, writeIdx, |slots|, contents, key)
    ensures contents[..|slots| - head] == contents
    ensures writeIdx == head + |Select(contents, key, false)| <= |slots|
    ensures Layout(slots[..writeIdx], head, Select(contents, key, false))
  {
    assert contents[..|slots| - head] == contents;
  }

  /** After a push at the true head the layout holds; a head reset to 0 over cleared slots represents nothing. */
  lemma PushedLayout(slots: seq<Slot>, head: nat, left: seq<Request>, r: Request)
    requires Layout(slots, head, left)
    ensures Layout(slots + [Filled(r)], head, left + [r])
    ensures left == [] && head > 0 ==> forall any :: |any| == 1 ==> !Layout(slots + [Filled(r)], 0, any)
  {
    var all := slots + [Filled(r)];
    forall k | 0 <= k < |left| + 1 ensures all[head + k] == Filled((left + [r])[k]) {
      if k < |left| {
        assert slots[head + k] == Filled(left[k]);
      }
    }
  }

  /**
   * From an idle master, four requests and one completion are enough. `z` goes out at once; `a` and `b`
   * wait behind it; `z` completes and `a` goes out; `c` repeats `b`. The queue then represents no queue at
   * all, so `c` is lost.
   */
  method DeduplicateLosesTheQueue(z: Request, a: Request, b: Request, c: Request) returns (q: RequestQueue)
    requires !Same(a.fingerprint, b.fingerprint) && Same(b.fingerprint, c.fingerprint)
    ensures fresh(q) && !exists any :: q.Holds(any)
  {
    hide Layout, Callbacks, Select;
    OthersSurvive(a, b, c);
    NothingSelected(z.fingerprint);
    q := new RequestQueue();
    q.Admit(Deduplicate, z, []);
    assert [] + [z] == [z];
    var inFlight := q.Dequeue([z]);
    assert [z][1..] == [];
    q.Admit(Deduplicate, a, []);
    q.Admit(Deduplicate, b, [a]);
    var next := q.Dequeue([a, b]);
    assert [a, b][1..] == [b];
    q.Admit(Deduplicate, c, [b]);
  }

  lemma SelectOne(r: Request, key: Option<nat>, same: bool)
    ensures Select([r], key, same) == if Same(r.fingerprint, key) == same then [r] else []
  {
    assert [r][..0] == [];
    assert Select([], key, same) == [];
  }

  lemma OthersSurvive(a: Request, b: Request, c: Request)
    requires !Same(a.fingerprint, b.fingerprint) && Same(b.fingerprint, c.fingerprint)
    ensures Select([], a.fingerprint, false) + [a] == [a]
    ensures Select([a], b.fingerprint, false) == [a] && [a] + [b] == [a, b]
    ensures Select([b], c.fingerprint, false) == []
  {
    NothingSelected(a.fingerprint);
    hide Select;
    SelectOne(a, b.fingerprint, false);
    SelectOne(b, c.fingerprint, false);
  }
}
