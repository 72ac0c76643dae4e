/** The slave's per-unit write-range lock: in-flight and pending writes, swap-removal, re-entrant flush. */
module WriteLock {
  // ---------- Address ranges ----------

  /** Half-open address range. */
  datatype Range = Range(start: int, end: int)

  predicate Overlap(a: Range, b: Range) {
    a.start < b.end && b.start < a.end
  }

  predicate Covers(r: Range, x: int) {
    r.start <= x < r.end
  }

  predicate AnyOverlap(a: seq<Range>, b: seq<Range>) {
    exists i, j :: 0 <= i < |a| && 0 <= j < |b| && Overlap(a[i], b[j])
  }

  /** Two non-empty ranges overlap exactly when they share an address. */
  lemma OverlapIsSharedAddress(a: Range, b: Range)
    requires a.start < a.end && b.start < b.end
    ensures Overlap(a, b) <==> exists x :: Covers(a, x) && Covers(b, x)
  {
    if Overlap(a, b) {
      var x := if a.start < b.start then b.start else a.start;
      assert Covers(a, x) && Covers(b, x);
    }
  }

  lemma OverlapSymmetric(a: seq<Range>, b: seq<Range>)
    ensures AnyOverlap(a, b) <==> AnyOverlap(b, a)
  {
    if AnyOverlap(a, b) {
      var i, j :| 0 <= i < |a| && 0 <= j < |b| && Overlap(a[i], b[j]);
      assert Overlap(b[j], a[i]);
    }
    if AnyOverlap(b, a) {
      var i, j :| 0 <= i < |b| && 0 <= j < |a| && Overlap(b[i], a[j]);
      assert Overlap(a[j], b[i]);
    }
  }

  method RangesOverlap(a: seq<Range>, b: seq<Range>) returns (r: bool)
    ensures r == AnyOverlap(a, b)
  {
    for i := 0 to |a|
      invariant forall k, j :: 0 <= k < i && 0 <= j < |b| ==> !Overlap(a[k], b[j])
    {
      for j := 0 to |b|
        invariant forall k :: 0 <= k < j ==> !Overlap(a[i], b[k])
      {
        if a[i].start < b[j].end && b[j].start < a[i].end {
          assert Overlap(a[i], b[j]);
          return true;
        }
      }
    }
    return false;
  }

  // ---------- Requests ----------

  class WriteRequest {
    const ranges: seq<Range>
    /** The unit's handler calls back before it returns (or there is no handler to call). */
    const immediate: bool
    var inFlightIndex: int

    constructor (ranges: seq<Range>, immediate: bool)
      ensures this.ranges == ranges && this.immediate == immediate && inFlightIndex == -1
    {
      this.ranges, this.immediate, inFlightIndex := ranges, immediate, -1;
    }
  }

  predicate Clash(a: WriteRequest, b: WriteRequest) {
    AnyOverlap(a.ranges, b.ranges)
  }

  predicate Conflicts(r: WriteRequest, q: seq<WriteRequest>) {
    exists k :: 0 <= k < |q| && Clash(r, q[k])
  }

  predicate AllConflict(rs: seq<WriteRequest>, q: seq<WriteRequest>) {
    forall i :: 0 <= i < |rs| ==> Conflicts(rs[i], q)
  }

  predicate Distinct(q: seq<WriteRequest>) {
    forall i, j :: 0 <= i < j < |q| ==> q[i] != q[j]
  }

  /** Distinct requests, no two of which touch a common range. */
  predicate Exclusive(q: seq<WriteRequest>) {
    forall i, j :: 0 <= i < j < |q| ==> q[i] != q[j] && !Clash(q[i], q[j])
  }

  function Members(q: seq<WriteRequest>): set<WriteRequest> {
    set r | r in q
  }

  // ---------- What the handlers get to see ----------

  datatype Event = Started(request: WriteRequest) | Ended(request: WriteRequest)

  /** Writes started and not yet ended. */
  function Running(log: seq<Event>): set<WriteRequest> {
    if log == [] then {}
    else
      var before := Running(log[..|log| - 1]);
      match log[|log| - 1]
      case Started(r) => before + {r}
      case Ended(r) => before - {r}
  }

  ghost predicate NoClash(s: set<WriteRequest>) {
    forall a, b :: a in s && b in s && a != b ==> !Clash(a, b)
  }

  /** At no moment of the history do two running writes clash, and no write starts twice. */
  ghost predicate History(log: seq<Event>) {
    && (forall k :: 0 <= k <= |log| ==> NoClash(Running(log[..k])))
    && (forall i, j :: 0 <= i < j < |log| && log[i].Started? && log[j].Started? ==> log[i] != log[j])
  }

  function StartedIn(log: seq<Event>): set<WriteRequest> {
    set e | e in log && e.Started? :: e.request
  }

  lemma HistoryStarts(log: seq<Event>, q: seq<WriteRequest>, r: WriteRequest)
    requires History(log) && Running(log) == Members(q) && Exclusive(q)
    requires r !in StartedIn(log) && !Conflicts(r, q)
    ensures History(log + [Started(r)])
    ensures Running(log + [Started(r)]) == Members(q + [r])
    ensures StartedIn(log + [Started(r)]) == StartedIn(log) + {r}
    ensures r !in q && Exclusive(q + [r])
  {
    hide Clash;
    var now := log + [Started(r)];
    RunningHaveStarted(log);
    assert now[..|log|] == log;
    forall k | 0 <= k <= |now| ensures NoClash(Running(now[..k])) {
      if k <= |log| {
        assert now[..k] == log[..k];
      } else {
        assert now[..k] == now;
        ExclusiveGrows(q, r);
        ExclusiveIsNoClash(q + [r]);
      }
    }
    ExclusiveGrows(q, r);
    assert forall i :: 0 <= i < |log| && log[i].Started? ==> log[i] in log && log[i].request in StartedIn(log);
    assert forall e :: e in now <==> e in log || e == Started(r);
  }

  lemma {:induction false} RunningHaveStarted(log: seq<Event>)
    ensures Running(log) <= StartedIn(log)
  {
    if log != [] {
      var n := |log| - 1;
      RunningHaveStarted(log[..n]);
      assert forall e :: e in log[..n] ==> e in log;
      assert log[n] in log;
    }
  }

  lemma ClashSymmetric(a: WriteRequest, b: WriteRequest)
    ensures Clash(a, b) <==> Clash(b, a)
  {
    OverlapSymmetric(a.ranges, b.ranges);
  }

  lemma ExclusiveGrows(q: seq<WriteRequest>, r: WriteRequest)
    requires Exclusive(q) && r !in q && !Conflicts(r, q)
    ensures Exclusive(q + [r])
    ensures Members(q + [r]) == Members(q) + {r}
  {
    hide Clash;
    forall i | 0 <= i < |q| ensures !Clash(q[i], r) {
      ClashSymmetric(q[i], r);
    }
  }

  lemma ExclusiveIsNoClash(q: seq<WriteRequest>)
    requires Exclusive(q)
    ensures NoClash(Members(q))
  {
    hide Clash;
    forall a, b | a in Members(q) && b in Members(q) && a != b ensures !Clash(a, b) {
      var i :| 0 <= i < |q| && q[i] == a;
      var j :| 0 <= j < |q| && q[j] == b;
      ClashSymmetric(a, b);
    }
  }

  /** Fill the gap at `i` with the last element, then drop the last. */
  function SwapRemoved(q: seq<WriteRequest>, i: nat): seq<WriteRequest>
    requires i < |q|
  {
    q[i := q[|q| - 1]][..|q| - 1]
  }

  lemma SwapRemovedKeepsOthers(q: seq<WriteRequest>, i: nat)
    requires i < |q| && Exclusive(q)
    ensures Exclusive(SwapRemoved(q, i))
    ensures Members(SwapRemoved(q, i)) == Members(q) - {q[i]}
  {
    hide Clash;
    var n := |q| - 1;
    var left := SwapRemoved(q, i);
    forall a, b | 0 <= a < b < |left| ensures left[a] != left[b] && !Clash(left[a], left[b]) {
      ClashSymmetric(q[b], q[n]);
      ClashSymmetric(q[a], q[n]);
    }
    forall r | r in Members(q) - {q[i]} ensures r in Members(left) {
      var k :| 0 <= k < |q| && q[k] == r;
      assert left[if k == n then i else k] == r;
    }
    forall r | r in Members(left) ensures r in q && r != q[i] {
      var k :| 0 <= k < |left| && left[k] == r;
      assert r == q[if k == i then n else k];
    }
  }

  lemma HistoryEnds(log: seq<Event>, q: seq<WriteRequest>, i: nat)
    requires History(log) && Running(log) == Members(q) && Exclusive(q) && i < |q|
    ensures var now := log + [Ended(q[i])];
            History(now) && Running(now) == Members(SwapRemoved(q, i)) && StartedIn(now) == StartedIn(log)
  {
    hide Clash;
    var now := log + [Ended(q[i])];
    SwapRemovedKeepsOthers(q, i);
    assert now[..|log|] == log;
    forall k | 0 <= k <= |now| ensures NoClash(Running(now[..k])) {
      if k <= |log| {
        assert now[..k] == log[..k];
      } else {
        assert now[..k] == now;
        ExclusiveIsNoClash(SwapRemoved(q, i));
      }
    }
    assert forall e :: e in now <==> e in log || e == Ended(q[i]);
  }

  lemma ConflictsPersist(rs: seq<WriteRequest>, q: seq<WriteRequest>, r: WriteRequest)
    ensures AllConflict(rs, q) ==> AllConflict(rs, q + [r])
  {
    hide Clash;
    if AllConflict(rs, q) {
      forall i | 0 <= i < |rs| ensures Conflicts(rs[i], q + [r]) {
        var k :| 0 <= k < |q| && Clash(rs[i], q[k]);
        assert (q + [r])[k] == q[k];
      }
    }
  }

  /** None of these writes has called back already; `but`, if it is one of them, is just calling back. */
  predicate DeferredBut(q: seq<WriteRequest>, but: set<WriteRequest>) {
    forall r :: r in q && r !in but ==> !r.immediate
  }

  predicate Deferred(q: seq<WriteRequest>) {
    DeferredBut(q, {})
  }

  lemma OthersAreDeferred(q: seq<WriteRequest>, i: nat)
    requires i < |q| && DeferredBut(q, {q[i]}) && Exclusive(q)
    ensures Deferred(SwapRemoved(q, i))
  {
    hide Clash;
    SwapRemovedKeepsOthers(q, i);
    forall r | r in SwapRemoved(q, i) ensures !r.immediate {
      assert r in Members(SwapRemoved(q, i));
    }
  }

  // ---------- Order of waiting ----------

  /** Those of `q` that are in `s`, in their order. */
  function Still(q: seq<WriteRequest>, s: set<WriteRequest>): seq<WriteRequest> {
    if q == [] then []
    else Still(q[..|q| - 1], s) + if q[|q| - 1] in s then [q[|q| - 1]] else []
  }

  /** `left` is what is left of `q`, none overtaken by another. */
  predicate InOrder(left: seq<WriteRequest>, q: seq<WriteRequest>) {
    left == Still(q, Members(left))
  }

  lemma {:induction false} StillAll(q: seq<WriteRequest>, s: set<WriteRequest>)
    requires Members(q) <= s
    ensures Still(q, s) == q
  {
    if q != [] {
      var n := |q| - 1;
      assert forall r :: r in q[..n] ==> r in q;
      StillAll(q[..n], s);
      assert q[n] in Members(q) && q == q[..n] + [q[n]];
    }
  }

  lemma {:induction false} StillTwice(q: seq<WriteRequest>, s: set<WriteRequest>, t: set<WriteRequest>)
    requires t <= s
    ensures Still(Still(q, s), t) == Still(q, t)
  {
    if q != [] {
      var n := |q| - 1;
      StillTwice(q[..n], s, t);
      var before := Still(q[..n], s);
      assert (before + [q[n]])[..|before|] == before && before + [] == before;
      assert Still(q[..n], t) + [] == Still(q[..n], t);
    }
  }

  lemma MembersOfTwo(a: seq<WriteRequest>, b: seq<WriteRequest>)
    ensures Members(a + b) == Members(a) + Members(b)
  {
    assert forall r :: r in a + b <==> r in a || r in b;
  }

  lemma {:induction false} StillAreMembers(q: seq<WriteRequest>, s: set<WriteRequest>)
    ensures Members(Still(q, s)) == Members(q) * s
  {
    if q != [] {
      var n := |q| - 1;
      StillAreMembers(q[..n], s);
      MembersOfTwo(q[..n], [q[n]]);
      MembersOfTwo(Still(q[..n], s), if q[n] in s then [q[n]] else []);
      assert q == q[..n] + [q[n]];
    }
  }

  lemma {:induction false} StillSplits(a: seq<WriteRequest>, b: seq<WriteRequest>, s: set<WriteRequest>)
    ensures Still(a + b, s) == Still(a, s) + Still(b, s)
  {
    if b == [] {
      assert a + b == a;
    } else {
      var n := |b| - 1;
      StillSplits(a, b[..n], s);
      assert (a + b)[..|a + b| - 1] == a + b[..n];
    }
  }

  lemma InOrderSelf(q: seq<WriteRequest>)
    ensures InOrder(q, q)
  {
    StillAll(q, Members(q));
  }

  lemma InOrderTransitive(c: seq<WriteRequest>, b: seq<WriteRequest>, a: seq<WriteRequest>)
    requires InOrder(c, b) && InOrder(b, a)
    ensures InOrder(c, a)
  {
    StillAreMembers(b, Members(c));
    StillTwice(a, Members(b), Members(c));
  }

  lemma InOrderWithNew(left: seq<WriteRequest>, q: seq<WriteRequest>, r: WriteRequest)
    requires InOrder(left, q)
    ensures r !in left ==> InOrder(left, q + [r])
    ensures InOrder(left + [r], q + [r]) || r in q
  {
    assert (q + [r])[..|q|] == q;
    if r !in q {
      StillAreMembers(q, Members(left));
      Unaffected(q, Members(left), r);
      assert Members(left + [r]) == Members(left) + {r};
    }
  }

  lemma {:induction false} Unaffected(q: seq<WriteRequest>, s: set<WriteRequest>, r: WriteRequest)
    requires r !in q
    ensures Still(q, s + {r}) == Still(q, s)
  {
    if q != [] {
      assert q[|q| - 1] in q && forall x :: x in q[..|q| - 1] ==> x in q;
      Unaffected(q[..|q| - 1], s, r);
    }
  }

  lemma StillWithout(a: seq<WriteRequest>, r: WriteRequest, b: seq<WriteRequest>)
    requires r !in a && r !in b
    ensures Still(a + ([r] + b), Members(a + b)) == a + b
  {
    hide Still;
    var s := Members(a + b);
    MembersOfTwo(a, b);
    StillSplits(a, [r] + b, s);
    StillSplits([r], b, s);
    StillAll(a, s);
    StillAll(b, s);
    StillNot(r, s);
    assert [] + b == b;
  }

  lemma StillNot(r: WriteRequest, s: set<WriteRequest>)
    requires r !in s
    ensures Still([r], s) == []
  {
    assert [r][..0] == [];
  }

  /** Taking one out leaves the others in order. */
  lemma OneLess(q: seq<WriteRequest>, k: nat, start: seq<WriteRequest>)
    requires k < |q| && Distinct(q) && InOrder(q, start)
    ensures InOrder(q[..k] + q[k + 1..], start)
  {
    hide Still;
    var a, b := q[..k], q[k + 1..];
    assert q == a + ([q[k]] + b);
    assert q[k] !in a && q[k] !in b;
    StillWithout(a, q[k], b);
    InOrderTransitive(a + b, q, start);
  }

  // ---------- The lock of one unit ----------

  class UnitWriteLock {
    var inFlight: seq<WriteRequest>
    var pending: seq<WriteRequest>
    var flushing: bool
    var flushPending: bool
    var log: seq<Event>
    /** Requests that have arrived, those whose handler has called back later, and those taken as done. */
    ghost var arrived: set<WriteRequest>
    ghost var completed: set<WriteRequest>
    ghost var done: set<WriteRequest>

    /** Every in-flight request knows its place. */
    ghost predicate Indexed()
      reads this, inFlight
    {
      forall k :: 0 <= k < |inFlight| ==> inFlight[k].inFlightIndex == k
    }

    /** What holds at every moment, in the middle of a flush too. */
    ghost predicate Locked()
      reads this, inFlight
    {
      && Exclusive(inFlight) && Indexed()
      && History(log) && Running(log) == Members(inFlight)
      && StartedIn(log) == Members(inFlight) + done
      && Members(inFlight) !! done
      && (forall r :: r in done ==> r.immediate || r in completed)
    }

    /** `waiting` are arrived requests, each waiting once, none started yet. */
    ghost predicate Waiting(waiting: seq<WriteRequest>)
      reads this`arrived, this`log
    {
      && Distinct(waiting) && Members(waiting) <= arrived
      && Members(waiting) !! StartedIn(log)
    }

    /**
     * Between calls: besides all that, every waiting request waits for something in flight, and what is
     * in flight has a handler that has not called back.
     */
    ghost predicate Valid()
      reads this, inFlight
    {
      && Locked() && Waiting(pending) && !flushing
      && arrived == Members(inFlight) + Members(pending) + done
      && AllConflict(pending, inFlight)
      && Deferred(inFlight)
      && completed <= done
    }

    constructor ()
      ensures Valid() && arrived == {} && completed == {} && log == []
    {
      inFlight, pending, log := [], [], [];
      flushing, flushPending := false, false;
      arrived, completed, done := {}, {}, {};
    }

    method ConflictsWithInFlight(req: WriteRequest) returns (conflicts: bool)
      ensures conflicts == Conflicts(req, inFlight)
    {
      hide AnyOverlap;
      for k := 0 to |inFlight|
        invariant forall m :: 0 <= m < k ==> !Clash(req, inFlight[m])
      {
        conflicts := RangesOverlap(req.ranges, inFlight[k].ranges);
        if conflicts {
          return;
        }
      }
      return false;
    }

    /** Put a request in flight and call its handler. */
    method Start(req: WriteRequest)
      requires Locked() && req !in StartedIn(log) && !Conflicts(req, inFlight)
      modifies this`inFlight, this`log, req`inFlightIndex
      ensures Locked()
      ensures inFlight == old(inFlight) + [req] && log == old(log) + [Started(req)]
      ensures StartedIn(log) == old(StartedIn(log)) + {req}
    {
      hide Clash, History, Exclusive;
      HistoryStarts(log, inFlight, req);
      ghost var before := inFlight;
      inFlight := inFlight + [req];
      req.inFlightIndex := |inFlight| - 1;
      log := log + [Started(req)];
      assert forall k :: 0 <= k < |before| ==> before[k] != req;
    }

    /** Take a completed request out: the last one moves into its place. */
    method SwapRemove(req: WriteRequest)
      requires Locked() && req in inFlight && (req.immediate || req in completed)
      modifies this`inFlight, this`log, this`done, inFlight
      ensures Locked()
      ensures exists i :: 0 <= i < |old(inFlight)| && old(inFlight)[i] == req && inFlight == SwapRemoved(old(inFlight), i)
      ensures log == old(log) + [Ended(req)] && done == old(done) + {req}
      ensures old(DeferredBut(inFlight, {req})) ==> Deferred(inFlight)
    {
      hide Clash, History;
      var i := req.inFlightIndex;
      ghost var before := inFlight;
      assert before[i] == req by {
        var k :| 0 <= k < |inFlight| && inFlight[k] == req;
      }
      HistoryEnds(log, inFlight, i);
      SwapRemovedKeepsOthers(inFlight, i);
      if DeferredBut(inFlight, {req}) {
        OthersAreDeferred(inFlight, i);
      }
      var lastIdx := |inFlight| - 1;
      var last := inFlight[lastIdx];
      inFlight := inFlight[i := last];
      if last != req {
        last.inFlightIndex := i;
      }
      inFlight := inFlight[..lastIdx];
      log := log + [Ended(req)];
      done := done + {req};
      assert inFlight == SwapRemoved(before, i);
    }

    /** Run a write that conflicts with nothing in flight. */
    method Execute(req: WriteRequest)
      requires Locked() && req !in StartedIn(log) && !Conflicts(req, inFlight)
      requires req in arrived && StartedIn(log) <= arrived
      requires !flushing ==> Waiting(pending) && req !in pending && AllConflict(pending, inFlight)
      requires Deferred(inFlight)
      modifies this, arrived
      ensures Deferred(inFlight) && old(done) <= done
      ensures Locked() && arrived == old(arrived) && completed == old(completed) && flushing == old(flushing)
      ensures flushing ==> && pending == old(pending)
                           && StartedIn(log) == old(StartedIn(log)) + {req}
                           && (if req.immediate then flushPending
                               else inFlight == old(inFlight) + [req] && flushPending == old(flushPending))
      ensures !flushing ==> Waiting(pending) && AllConflict(pending, inFlight) && InOrder(pending, old(pending))
      ensures !flushing ==> Members(pending) + StartedIn(log) == old(Members(pending) + StartedIn(log)) + {req}
      ensures old(log) < log && log[|old(log)|] == Started(req)
      decreases if flushing then 0 else 1, 3
    {
      hide Clash, History, Exclusive, InOrder, StartedIn, Running, Distinct, AllConflict, Conflicts;
      ghost var before := inFlight;
      Start(req);
      if req.immediate {
        OnLockedUnitWriteDone(req);
      } else {
        ConflictsPersist(pending, before, req);
        InOrderSelf(pending);
      }
    }

    /** A write has completed: take it out of flight and look for pending writes it was blocking. */
    method OnLockedUnitWriteDone(req: WriteRequest)
      requires Locked() && req in inFlight && (req.immediate || req in completed)
      requires StartedIn(log) <= arrived
      requires !flushing ==> Waiting(pending)
      requires DeferredBut(inFlight, {req})
      modifies this, arrived
      ensures Deferred(inFlight) && old(done) + {req} <= done
      ensures Locked() && arrived == old(arrived) && completed == old(completed) && flushing == old(flushing)
      ensures flushing ==> pending == old(pending) && StartedIn(log) == old(StartedIn(log)) && flushPending
      ensures !flushing ==> Waiting(pending) && AllConflict(pending, inFlight) && InOrder(pending, old(pending))
      ensures !flushing ==> Members(pending) + StartedIn(log) == old(Members(pending) + StartedIn(log))
      ensures old(log) < log && log[|old(log)|] == Ended(req)
      decreases if flushing then 0 else 1, 2
    {
      hide Clash, History, Exclusive, AllConflict, InOrder;
      SwapRemove(req);
      EndedStartsNothing(old(log), req);
      FlushPendingWrites();
    }

    lemma EndedStartsNothing(log: seq<Event>, r: WriteRequest)
      ensures StartedIn(log + [Ended(r)]) == StartedIn(log)
    {
      assert forall e :: e in log + [Ended(r)] <==> e in log || e == Ended(r);
    }

    /** Start every pending write that no longer conflicts, until a pass completes nothing. */
    method FlushPendingWrites()
      requires Locked() && StartedIn(log) <= arrived
      requires !flushing ==> Waiting(pending)
      requires Deferred(inFlight)
      modifies this, arrived
      ensures Deferred(inFlight) && old(done) <= done
      ensures Locked() && arrived == old(arrived) && completed == old(completed) && flushing == old(flushing)
      ensures flushing ==> pending == old(pending) && log == old(log) && flushPending && inFlight == old(inFlight)
      ensures !flushing ==> Waiting(pending) && AllConflict(pending, inFlight) && InOrder(pending, old(pending))
      ensures !flushing ==> Members(pending) + StartedIn(log) == old(Members(pending) + StartedIn(log))
      ensures old(log) <= log
      decreases if flushing then 0 else 1, 1
    {
      hide Clash, History, Exclusive, AllConflict, InOrder;
      if flushing {
        flushPending := true;
        return;
      }
      flushing := true;
      ghost var before := pending;
      FlushPass();
      while flushPending
        invariant Locked() && flushing && arrived == old(arrived) && completed == old(completed) && StartedIn(log) <= arrived
        invariant Deferred(inFlight) && old(done) <= done
        invariant Waiting(pending) && (!flushPending ==> AllConflict(pending, inFlight)) && InOrder(pending, before)
        invariant Members(pending) + StartedIn(log) == old(Members(pending) + StartedIn(log))
        invariant old(log) <= log
        decreases |pending|, flushPending
      {
        ghost var left := pending;
        FlushPass();
        InOrderTransitive(pending, left, before);
      }
      flushing := false;
    }

    /** Halfway through a pass: the requests kept so far and those not looked at yet. */
    ghost predicate InPass(i: nat, writeIdx: nat, all: set<WriteRequest>, start: seq<WriteRequest>)
      requires writeIdx <= i <= |pending|
      reads this, inFlight
    {
      && Locked() && flushing && StartedIn(log) <= arrived && Deferred(inFlight)
      && Waiting(pending[..writeIdx] + pending[i..]) && InOrder(pending[..writeIdx] + pending[i..], start)
      && Members(pending[..writeIdx] + pending[i..]) + StartedIn(log) == all
      && (if flushPending then writeIdx < i else AllConflict(pending[..writeIdx], inFlight))
    }

    /** Keep or start the `i`-th pending write. */
    method FlushStep(i: nat, writeIdx: nat, ghost all: set<WriteRequest>, ghost start: seq<WriteRequest>) returns (newIdx: nat)
      requires writeIdx <= i < |pending| && InPass(i, writeIdx, all, start)
      modifies this, arrived
      ensures arrived == old(arrived) && completed == old(completed) && |pending| == old(|pending|) && newIdx <= i + 1
      ensures InPass(i + 1, newIdx, all, start)
      ensures old(log) <= log && old(done) <= done
      decreases 0, 5
    {
      hide Clash, History, Exclusive, InOrder;
      var req := pending[i];
      ghost var waiting, kept := pending[..writeIdx] + pending[i..], pending[..writeIdx];
      assert waiting[writeIdx] == req;
      var conflicts := ConflictsWithInFlight(req);
      if conflicts {
        pending := pending[writeIdx := req];
        newIdx := writeIdx + 1;
        assert pending[..newIdx] == kept + [req];
        assert pending[..newIdx] + pending[i + 1..] == waiting;
      } else {
        OneLessWaiting(waiting, writeIdx);
        OneLess(waiting, writeIdx, start);
        newIdx := writeIdx;
        assert kept + pending[i + 1..] == waiting[..writeIdx] + waiting[writeIdx + 1..];
        ghost var before := inFlight;
        StartWaiting(req);
        ConflictsPersist(kept, before, req);
      }
    }

    /** Start one of the waiting writes in the middle of a pass. */
    method StartWaiting(req: WriteRequest)
      requires Locked() && flushing && StartedIn(log) <= arrived
      requires req in arrived && req !in StartedIn(log) && !Conflicts(req, inFlight)
      requires Deferred(inFlight)
      modifies this, arrived
      ensures Deferred(inFlight) && old(done) <= done
      ensures Locked() && flushing && arrived == old(arrived) && completed == old(completed) && pending == old(pending)
      ensures StartedIn(log) <= arrived
      ensures StartedIn(log) == old(StartedIn(log)) + {req}
      ensures flushPending || (inFlight == old(inFlight) + [req] && !old(flushPending))
      ensures old(log) <= log
      decreases 0, 4
    {
      Execute(req);
    }

    /** One pass over the pending writes; those that still conflict are kept, in order. */
    method FlushPass()
      requires Locked() && flushing && Waiting(pending) && StartedIn(log) <= arrived
      requires Deferred(inFlight)
      modifies this, arrived
      ensures Deferred(inFlight) && old(done) <= done
      ensures Locked() && flushing && Waiting(pending) && arrived == old(arrived) && completed == old(completed) && StartedIn(log) <= arrived
      ensures Members(pending) + StartedIn(log) == old(Members(pending) + StartedIn(log))
      ensures |pending| <= |old(pending)| && InOrder(pending, old(pending))
      ensures if flushPending then |pending| < |old(pending)| else AllConflict(pending, inFlight)
      ensures old(log) <= log
      decreases 0, 6
    {
      hide Clash, History, Exclusive, Distinct, Conflicts, InOrder;
      flushPending := false;
      var writeIdx: nat := 0;
      ghost var all, start := Members(pending) + StartedIn(log), pending;
      InOrderSelf(pending);
      assert pending[..0] + pending[0..] == pending;
      assert InPass(0, 0, all, start);
      hide InPass;
      for i := 0 to |pending|
        invariant |pending| == |old(pending)| && writeIdx <= i && arrived == old(arrived) && completed == old(completed)
        invariant InPass(i, writeIdx, all, start)
        invariant old(log) <= log && old(done) <= done
      {
        writeIdx := FlushStep(i, writeIdx, all, start);
      }
      PassOver(writeIdx, all, start);
      pending := pending[..writeIdx];
    }

    lemma PassOver(writeIdx: nat, all: set<WriteRequest>, start: seq<WriteRequest>)
      requires writeIdx <= |pending| && InPass(|pending|, writeIdx, all, start)
      ensures Locked() && flushing && StartedIn(log) <= arrived && Deferred(inFlight)
      ensures Waiting(pending[..writeIdx]) && Members(pending[..writeIdx]) + StartedIn(log) == all
      ensures InOrder(pending[..writeIdx], start)
      ensures if flushPending then writeIdx < |pending| else AllConflict(pending[..writeIdx], inFlight)
    {
      assert pending[..writeIdx] + pending[|pending|..] == pending[..writeIdx];
    }

    lemma OneLessWaiting(q: seq<WriteRequest>, k: nat)
      requires k < |q| && Distinct(q)
      ensures Distinct(q[..k] + q[k + 1..])
      ensures Members(q[..k] + q[k + 1..]) == Members(q) - {q[k]}
    {
      var left := q[..k] + q[k + 1..];
      forall r | r in Members(q) - {q[k]} ensures r in Members(left) {
        var j :| 0 <= j < |q| && q[j] == r;
        assert left[if j < k then j else j - 1] == r;
      }
      forall r | r in Members(left) ensures r in q && r != q[k] {
        var j :| 0 <= j < |left| && left[j] == r;
        assert r == q[if j < k then j else j + 1];
      }
    }

    /** A write request arrives. */
    method Arrive(req: WriteRequest)
      requires Valid() && req !in arrived
      modifies this, arrived, req
      ensures Valid() && arrived == old(arrived) + {req} && completed == old(completed)
      ensures old(log) <= log && old(done) <= done
      ensures old(Conflicts(req, inFlight)) ==> log == old(log) && inFlight == old(inFlight) && pending == old(pending) + [req]
      ensures !old(Conflicts(req, inFlight)) ==> |old(log)| < |log| && log[|old(log)|] == Started(req)
      ensures InOrder(pending, old(pending) + [req])
    {
      hide Clash, History, Exclusive, InOrder;
      arrived := arrived + {req};
      var conflicts := ConflictsWithInFlight(req);
      if conflicts {
        pending := pending + [req];
        InOrderSelf(pending);
      } else {
        Execute(req);
        InOrderWithNew(pending, old(pending), req);
      }
    }

    /** The handler of a write in flight calls back later. */
    method Complete(req: WriteRequest)
      requires Valid() && req in inFlight
      modifies this, arrived
      ensures Valid() && arrived == old(arrived) && completed == old(completed) + {req}
      ensures old(done) + {req} <= done
      ensures old(log) < log && log[|old(log)|] == Ended(req)
      ensures InOrder(pending, old(pending))
    {
      hide Clash, History, Exclusive, InOrder;
      completed := completed + {req};
      OnLockedUnitWriteDone(req);
    }

    /** No lost wake-up: with nothing in flight nothing is pending, and every arrival has completed. */
    lemma IdleMeansDone()
      requires Valid() && inFlight == []
      ensures pending == [] && arrived == done
    {
      assert pending == [] || Conflicts(pending[0], inFlight);
    }
  }

  // ---------- Whole runs ----------

  datatype Input = Arrival(req: WriteRequest) | Completion(req: WriteRequest)

  function Completions(inputs: seq<Input>): set<WriteRequest> {
    set i | 0 <= i < |inputs| && inputs[i].Completion? :: inputs[i].req
  }

  function Arrivals(inputs: seq<Input>): set<WriteRequest> {
    set i | 0 <= i < |inputs| && inputs[i].Arrival? :: inputs[i].req
  }

  /** The writes in the order in which they arrived. */
  function ArrivalOrder(inputs: seq<Input>): seq<WriteRequest> {
    if inputs == [] then []
    else
      var n := |inputs| - 1;
      ArrivalOrder(inputs[..n]) + if inputs[n].Arrival? then [inputs[n].req] else []
  }

  lemma {:induction false} ArrivalOrderIsArrivals(inputs: seq<Input>)
    ensures Members(ArrivalOrder(inputs)) == Arrivals(inputs)
    ensures forall r :: r in ArrivalOrder(inputs) <==> r in Arrivals(inputs)
  {
    if inputs != [] {
      var n := |inputs| - 1;
      ArrivalOrderIsArrivals(inputs[..n]);
      InputsSnoc(inputs[..n], inputs[n]);
      assert inputs == inputs[..n] + [inputs[n]];
      var before := ArrivalOrder(inputs[..n]);
      assert Members(before + [inputs[n].req]) == Members(before) + {inputs[n].req};
    }
  }

  lemma FirstIsMember(q: seq<WriteRequest>)
    ensures q == [] || q[0] in Members(q)
  {
  }

  lemma NoneWaits(q: seq<WriteRequest>)
    requires Members(q) == {}
    ensures InOrder(q, ArrivalOrder([]))
  {
    FirstIsMember(q);
  }

  lemma InputsSnoc(inputs: seq<Input>, input: Input)
    ensures Arrivals(inputs + [input])
         == Arrivals(inputs) + if input.Arrival? then {input.req} else {}
    ensures Completions(inputs + [input])
         == Completions(inputs) + if input.Completion? then {input.req} else {}
    ensures ArrivalOrder(inputs + [input])
         == ArrivalOrder(inputs) + if input.Arrival? then [input.req] else []
  {
    var all := inputs + [input];
    assert all[..|inputs|] == inputs;
    assert all[|inputs|] == input;
    assert forall i :: 0 <= i < |inputs| ==> all[i] == inputs[i];
  }

  predicate ArriveOnce(inputs: seq<Input>) {
    forall i, j :: 0 <= i < j < |inputs| && inputs[i].Arrival? && inputs[j].Arrival? ==> inputs[i].req != inputs[j].req
  }

  /**
   * Every interleaving of arrivals and completions: at no moment did two running writes touch a common
   * address, every arrived write is running, done, or waiting for a running one, those that wait do so in
   * order of arrival, no running write's handler has called back, no write is taken as done before its handler called back, and once nothing
   * runs everything has been done.
   */
  method RunAll(lock: UnitWriteLock, inputs: seq<Input>)
    requires lock.Valid() && lock.arrived == {} && lock.completed == {} && ArriveOnce(inputs)
    modifies lock, Arrivals(inputs)
    ensures lock.Valid() && History(lock.log) && lock.arrived == Arrivals(inputs)
    ensures lock.arrived == Members(lock.inFlight) + Members(lock.pending) + lock.done
    ensures InOrder(lock.pending, ArrivalOrder(inputs))
    ensures forall r :: r in lock.inFlight ==> !r.immediate
    ensures forall r :: r in lock.inFlight ==> r !in lock.completed
    ensures forall r :: r in lock.done ==> r.immediate || r in Completions(inputs)
    ensures inputs != [] && inputs[|inputs| - 1].Completion? ==> inputs[|inputs| - 1].req !in lock.inFlight
    ensures lock.inFlight == [] ==> lock.pending == [] && lock.done == Arrivals(inputs)
  {
    hide Clash, History, Exclusive, Running, StartedIn, InOrder, ArrivalOrder;
    assert inputs[..0] == [];
    NoneWaits(lock.pending);
    for i := 0 to |inputs|
      invariant lock.Valid() && lock.arrived == Arrivals(inputs[..i]) && lock.completed <= Completions(inputs[..i])
      invariant 0 < i && inputs[i - 1].Completion? ==> inputs[i - 1].req !in lock.inFlight
      invariant InOrder(lock.pending, ArrivalOrder(inputs[..i]))
    {
      ghost var waited := lock.pending;
      InputsSnoc(inputs[..i], inputs[i]);
      assert inputs[..i + 1] == inputs[..i] + [inputs[i]];
      assert ArrivalOrder(inputs[..i]) + [] == ArrivalOrder(inputs[..i]);
      match inputs[i] {
        case Arrival(req) =>
          lock.Arrive(req);
          ArrivalOrderIsArrivals(inputs[..i]);
          InOrderWithNew(waited, ArrivalOrder(inputs[..i]), req);
          InOrderTransitive(lock.pending, waited + [req], ArrivalOrder(inputs[..i + 1]));
        case Completion(req) =>
          if req in lock.inFlight {
            lock.Complete(req);
            InOrderTransitive(lock.pending, waited, ArrivalOrder(inputs[..i]));
          }
      }
    }
    assert inputs[..|inputs|] == inputs;
    if lock.inFlight == [] {
      lock.IdleMeansDone();
    }
  }
}
