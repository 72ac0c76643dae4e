/** The master's timer manager: native timers while few, one native timer over a binary heap when many. */
module TimerHeap {
  import opened Bytes

  // ---------- Entries and their order ----------

  datatype Entry = Entry(deadline: real, id: int, seqNo: nat)

  /** Earlier deadline first; equal deadlines in order of registration. */
  predicate Leq(a: Entry, b: Entry) {
    a.deadline < b.deadline || (a.deadline == b.deadline && a.seqNo <= b.seqNo)
  }

  function Parent(k: nat): nat
    requires 0 < k
  {
    (k - 1) / 2
  }

  predicate HeapOrdered(h: seq<Entry>) {
    forall k :: 0 < k < |h| ==> Leq(h[Parent(k)], h[k])
  }

  /** Ordered everywhere except possibly between `hole` and its neighbours. */
  predicate OrderedAround(h: seq<Entry>, hole: nat)
    requires hole < |h|
  {
    && (forall k :: 0 < k < |h| && k != hole && Parent(k) != hole ==> Leq(h[Parent(k)], h[k]))
    && (forall k :: 0 < k < |h| && Parent(k) == hole && 0 < hole ==> Leq(h[Parent(hole)], h[k]))
  }

  predicate LeqParent(h: seq<Entry>, hole: nat)
    requires hole < |h|
  {
    0 < hole ==> Leq(h[Parent(hole)], h[hole])
  }

  predicate LeqChildren(h: seq<Entry>, hole: nat)
    requires hole < |h|
  {
    forall k :: 0 < k < |h| && Parent(k) == hole ==> Leq(h[hole], h[k])
  }

  lemma OrderedEverywhere(h: seq<Entry>, hole: nat)
    requires hole < |h| && OrderedAround(h, hole) && LeqParent(h, hole) && LeqChildren(h, hole)
    ensures HeapOrdered(h)
  {
  }

  /** Replacing one entry of a heap leaves it ordered around that place. */
  lemma ReplaceKeepsOrderAround(h: seq<Entry>, i: nat, e: Entry)
    requires i < |h| && HeapOrdered(h)
    ensures OrderedAround(h[i := e], i)
  {
    forall k | 0 < k < |h| && Parent(k) == i && 0 < i ensures Leq(h[Parent(i)], h[k]) {
      assert Leq(h[Parent(i)], h[i]) && Leq(h[i], h[k]);
    }
  }

  lemma {:induction false} RootIsLeast(h: seq<Entry>, k: nat)
    requires HeapOrdered(h) && k < |h|
    ensures Leq(h[0], h[k])
  {
    if 0 < k {
      RootIsLeast(h, Parent(k));
    }
  }

  /** Swapping a hole with its parent moves the disorder up. */
  lemma HoleMovesUp(h: seq<Entry>, hole: nat)
    requires 0 < hole < |h| && OrderedAround(h, hole) && Leq(h[hole], h[Parent(hole)])
    ensures var p := Parent(hole);
            var up := h[hole := h[p]][p := h[hole]];
            && OrderedAround(up, p) && LeqChildren(up, p)
            && multiset(up) == multiset(h)
  {
    var p := Parent(hole);
    var up := h[hole := h[p]][p := h[hole]];
    forall k | 0 < k < |up| && k != p && Parent(k) != p ensures Leq(up[Parent(k)], up[k]) {
      assert k != hole;
      assert h[k] == up[k];
    }
    forall k | 0 < k < |up| && Parent(k) == p ensures Leq(up[p], up[k]) {
      assert k != p;
      if k != hole {
        assert Leq(h[p], h[k]);
      }
    }
    forall k | 0 < k < |up| && Parent(k) == p && 0 < p ensures Leq(up[Parent(p)], up[k]) {
      assert Leq(h[Parent(p)], h[p]);
      if k != hole {
        assert Leq(h[p], h[k]);
      }
    }
  }

  /** Swapping a hole with its least child moves the disorder down. */
  lemma HoleMovesDown(h: seq<Entry>, hole: nat, child: nat)
    requires hole < child < |h| && Parent(child) == hole
    requires OrderedAround(h, hole) && LeqParent(h, hole)
    requires Leq(h[child], h[hole])
    requires forall k :: 0 < k < |h| && Parent(k) == hole ==> Leq(h[child], h[k])
    ensures var down := h[hole := h[child]][child := h[hole]];
            && OrderedAround(down, child) && LeqParent(down, child)
            && multiset(down) == multiset(h)
  {
    var down := h[hole := h[child]][child := h[hole]];
    forall k | 0 < k < |down| && k != child && Parent(k) != child ensures Leq(down[Parent(k)], down[k]) {
      if k == hole {
        assert Leq(h[Parent(hole)], h[child]);
      } else if Parent(k) == hole {
        assert Leq(h[child], h[k]);
      }
    }
    forall k | 0 < k < |down| && Parent(k) == child ensures Leq(down[Parent(child)], down[k]) {
      assert k != hole && k != child;
      assert Leq(h[child], h[k]);
    }
  }

  // ---------- The two sifts ----------
  // `cells` is the array during a sift: the entry `e` being placed is not yet written, and the cell
  // `hole` holds a stale copy of a neighbour.

  predicate Rising(cells: seq<Entry>, hole: nat, e: Entry, start: nat, before: seq<Entry>) {
    && hole <= start < |cells| == |before|
    && OrderedAround(cells[hole := e], hole)
    && (hole != start ==> LeqChildren(cells[hole := e], hole))
    && multiset(cells[hole := e]) == multiset(before[start := e])
    && (hole == start ==> cells == before)
  }

  lemma RisingStep(cells: seq<Entry>, hole: nat, e: Entry, start: nat, before: seq<Entry>)
    requires Rising(cells, hole, e, start, before) && 0 < hole
    requires Leq(e, cells[Parent(hole)])
    ensures Rising(cells[hole := cells[Parent(hole)]], Parent(hole), e, start, before)
  {
    hide Leq, OrderedAround, LeqChildren;
    var p, h := Parent(hole), cells[hole := e];
    HoleMovesUp(h, hole);
    assert cells[hole := cells[p]][p := e] == h[hole := h[p]][p := h[hole]];
  }

  predicate Sinking(cells: seq<Entry>, hole: nat, e: Entry, start: nat, before: seq<Entry>) {
    && start <= hole < |cells| == |before|
    && OrderedAround(cells[hole := e], hole)
    && LeqParent(cells[hole := e], hole)
    && multiset(cells[hole := e]) == multiset(before[start := e])
  }

  predicate IsLeastChild(cells: seq<Entry>, hole: nat, child: nat) {
    && hole < child < |cells|
    && (child == 2 * hole + 1 || child == 2 * hole + 2)
    && Leq(cells[child], cells[2 * hole + 1])
    && (2 * hole + 2 < |cells| ==> Leq(cells[child], cells[2 * hole + 2]))
  }

  lemma LeastChildIsLeast(cells: seq<Entry>, hole: nat, child: nat, e: Entry)
    requires IsLeastChild(cells, hole, child)
    ensures Parent(child) == hole
    ensures forall k :: 0 < k < |cells| && Parent(k) == hole ==> Leq(cells[child], cells[hole := e][k])
  {
    forall k | 0 < k < |cells| && Parent(k) == hole ensures Leq(cells[child], cells[hole := e][k]) {
      assert k == 2 * hole + 1 || k == 2 * hole + 2;
    }
  }

  lemma SinkingStep(cells: seq<Entry>, hole: nat, child: nat, e: Entry, start: nat, before: seq<Entry>)
    requires Sinking(cells, hole, e, start, before) && IsLeastChild(cells, hole, child)
    requires Leq(cells[child], e)
    ensures Sinking(cells[hole := cells[child]], child, e, start, before)
  {
    LeastChildIsLeast(cells, hole, child, e);
    hide Leq, OrderedAround, LeqParent, IsLeastChild;
    var h := cells[hole := e];
    HoleMovesDown(h, hole, child);
    assert cells[hole := cells[child]][child := e] == h[hole := h[child]][child := h[hole]];
  }

  lemma SinkingStops(cells: seq<Entry>, hole: nat, child: nat, e: Entry, start: nat, before: seq<Entry>)
    requires Sinking(cells, hole, e, start, before) && IsLeastChild(cells, hole, child)
    requires Leq(e, cells[child])
    ensures HeapOrdered(cells[hole := e])
  {
    LeastChildIsLeast(cells, hole, child, e);
    OrderedEverywhere(cells[hole := e], hole);
  }

  lemma SinkingEnds(cells: seq<Entry>, hole: nat, e: Entry, start: nat, before: seq<Entry>)
    requires Sinking(cells, hole, e, start, before) && |cells| / 2 <= hole
    ensures HeapOrdered(cells[hole := e])
  {
    OrderedEverywhere(cells[hole := e], hole);
  }

  /** Registration numbers stay below the counter, so a new entry comes last among equal deadlines. */
  predicate AllBelow(h: seq<Entry>, n: nat) {
    forall e :: e in multiset(h) ==> e.seqNo < n
  }

  /** `after` holds what `before` holds, less one occurrence of `e`. */
  predicate TookOut(before: seq<Entry>, after: seq<Entry>, e: Entry) {
    e in before && multiset(after) == multiset(before) - multiset{e}
  }

  /** `after` holds what `before` holds, and one more `e`. */
  predicate PutIn(before: seq<Entry>, after: seq<Entry>, e: Entry) {
    multiset(after) == multiset(before) + multiset{e}
  }

  lemma PuttingIn(before: seq<Entry>, after: seq<Entry>, e: Entry, n: nat)
    requires PutIn(before, after, e)
    ensures AllBelow(before, n) && e.seqNo == n ==> AllBelow(after, n + 1)
  {
  }

  lemma TakingOut(before: seq<Entry>, after: seq<Entry>, e: Entry, n: nat)
    requires TookOut(before, after, e)
    ensures |after| == |before| - 1
    ensures AllBelow(before, n) ==> AllBelow(after, n)
  {
    assert |multiset(after)| == |after| && |multiset(before)| == |before|;
    assert e in multiset(before);
    assert forall x :: x in multiset(after) ==> x in multiset(before);
  }

  lemma PrefixTookOutLast(before: seq<Entry>, last: Entry, after: seq<Entry>)
    requires before == after + [last]
    ensures TookOut(before, after, last)
  {
  }

  /** Take out entry `i` and let the last entry move into the gap. */
  lemma GapFilled(before: seq<Entry>, last: Entry, rest: seq<Entry>, i: nat, after: seq<Entry>)
    requires before == rest + [last] && i < |rest|
    requires multiset(after) == multiset(rest[i := last])
    ensures TookOut(before, after, before[i])
  {
    assert before[i] in before;
  }

  // ---------- Draining what is due ----------

  /**
   * `due` was taken out of `before` in order, `left` remains together with what was `added` meanwhile, and
   * nothing left precedes anything taken.
   */
  predicate Draining(due: seq<Entry>, left: seq<Entry>, before: seq<Entry>, added: seq<Entry>, now: real) {
    && multiset(due) + multiset(left) == multiset(before) + multiset(added)
    && multiset(due) <= multiset(before)
    && (forall i, j :: 0 <= i < j < |due| ==> Leq(due[i], due[j]))
    && (forall i :: 0 <= i < |due| ==> due[i].deadline <= now)
    && (forall i, e :: 0 <= i < |due| && e in multiset(left) ==> Leq(due[i], e))
    && Later(added, now)
  }

  predicate Later(h: seq<Entry>, now: real) {
    forall e :: e in multiset(h) ==> e.deadline > now
  }

  lemma StartDraining(h: seq<Entry>, now: real)
    ensures Draining([], h, h, [], now)
  {
  }

  lemma DrainStep(due: seq<Entry>, left: seq<Entry>, after: seq<Entry>, before: seq<Entry>, added: seq<Entry>,
                  now: real, top: Entry)
    requires Draining(due, left, before, added, now)
    requires TookOut(left, after, top) && top.deadline <= now
    requires IsLeast(top, left)
    ensures Draining(due + [top], after, before, added, now) && |due| < |before|
  {
    hide Leq;
    assert top in multiset(left) && top !in multiset(added);
    assert forall e :: e in multiset(after) ==> e in multiset(left);
    forall e | e in multiset(due) ensures e !in multiset(added) {
      var i :| 0 <= i < |due| && due[i] == e;
    }
    OneMoreFits(multiset(due), multiset(left), multiset(before), multiset(added), top);
    assert multiset(due + [top]) == multiset(due) + multiset{top};
    SmallerBag(due + [top], before);
  }

  lemma OneMoreFits(due: multiset<Entry>, left: multiset<Entry>, before: multiset<Entry>, added: multiset<Entry>, top: Entry)
    requires due + left == before + added && top in left && top !in added
    requires forall e :: e in due ==> e !in added
    ensures due + multiset{top} <= before
  {
    forall e | e in due + multiset{top} ensures (due + multiset{top})[e] <= before[e] {
      assert (due + left)[e] == (before + added)[e];
    }
  }

  lemma SmallerBag(a: seq<Entry>, b: seq<Entry>)
    ensures multiset(a) <= multiset(b) ==> |a| <= |b|
  {
    if multiset(a) <= multiset(b) {
      assert multiset(b) == multiset(a) + (multiset(b) - multiset(a));
      assert |multiset(a)| == |a| && |multiset(b)| == |b|;
    }
  }

  /** Entries that are not due yet may join at any time. */
  lemma DrainJoins(due: seq<Entry>, left: seq<Entry>, after: seq<Entry>, before: seq<Entry>, added: seq<Entry>,
                   more: seq<Entry>, now: real)
    requires Draining(due, left, before, added, now) && Later(more, now)
    requires Joined(left, after, more)
    ensures Draining(due, after, before, added + more, now)
  {
    assert forall e :: e in multiset(after) ==> e in multiset(left) || e in multiset(more);
    assert multiset(added + more) == multiset(added) + multiset(more);
    assert multiset(due) + multiset(after) == multiset(before) + multiset(added) + multiset(more);
    assert forall i, e :: 0 <= i < |due| && e in multiset(more) ==> due[i].deadline < e.deadline;
  }

  /** `after` holds what `before` holds and what `more` holds. */
  predicate Joined(before: seq<Entry>, after: seq<Entry>, more: seq<Entry>) {
    multiset(after) == multiset(before) + multiset(more)
  }

  lemma JoinsOne(before: seq<Entry>, middle: seq<Entry>, after: seq<Entry>, more: seq<Entry>, e: Entry)
    requires Joined(before, middle, more) && PutIn(middle, after, e)
    ensures Joined(before, after, more + [e])
  {
  }

  // ---------- What callbacks add ----------

  /** A call of `add(id, ms)` at clock reading `at`. */
  datatype Addition = Addition(id: int, ms: real, at: real)

  /** The entries of successive additions, registered from `counter` on. */
  function EntriesOf(extra: seq<Addition>, counter: nat): (r: seq<Entry>)
    ensures |r| == |extra|
    ensures forall i :: 0 <= i < |r| ==>
              r[i].deadline == extra[i].at + extra[i].ms && r[i].id == extra[i].id && r[i].seqNo == counter + i
  {
    seq(|extra|, i requires 0 <= i < |extra| => Entry(extra[i].at + extra[i].ms, extra[i].id, counter + i))
  }

  /** What the callbacks of `due` add, one after the other. */
  function AddedBy(due: seq<Entry>, adds: int -> seq<Addition>, counter: nat): seq<Entry> {
    if due == [] then []
    else
      var n := |due| - 1;
      var earlier := AddedBy(due[..n], adds, counter);
      earlier + EntriesOf(adds(due[n].id), counter + |earlier|)
  }

  lemma AddedBySnoc(due: seq<Entry>, e: Entry, adds: int -> seq<Addition>, counter: nat)
    ensures AddedBy(due + [e], adds, counter)
         == AddedBy(due, adds, counter) + EntriesOf(adds(e.id), counter + |AddedBy(due, adds, counter)|)
  {
    hide EntriesOf;
    assert (due + [e])[..|due|] == due;
  }

  /** Callbacks add with positive delays, at clock readings not before that of the tick. */
  ghost predicate AddsLater(adds: int -> seq<Addition>, now: real) {
    forall id: int, a: Addition :: a in adds(id) ==> a.ms > 0.0 && now <= a.at
  }

  lemma AddsAreLater(adds: int -> seq<Addition>, id: int, now: real, counter: nat)
    requires AddsLater(adds, now)
    ensures Later(EntriesOf(adds(id), counter), now)
  {
    var more := EntriesOf(adds(id), counter);
    forall e: Entry | e in multiset(more) ensures e.deadline > now {
      var k :| 0 <= k < |more| && more[k] == e;
      assert adds(id)[k] in adds(id);
    }
  }

  predicate IsLeast(top: Entry, h: seq<Entry>) {
    forall e :: e in multiset(h) ==> Leq(top, e)
  }

  /** Of `before`, exactly the entries due at `now` ran, in order; what was `added` is still to come. */
  predicate RanDue(due: seq<Entry>, left: seq<Entry>, before: seq<Entry>, added: seq<Entry>, now: real) {
    && multiset(due) + multiset(left) == multiset(before) + multiset(added)
    && (forall i, j :: 0 <= i < j < |due| ==> Leq(due[i], due[j]))
    && (forall i :: 0 <= i < |due| ==> due[i].deadline <= now)
    && (forall e :: e in multiset(left) ==> e.deadline > now)
    && (forall e :: e in multiset(added) ==> e.deadline > now)
  }

  lemma Drained(due: seq<Entry>, left: seq<Entry>, before: seq<Entry>, added: seq<Entry>, now: real)
    requires Draining(due, left, before, added, now)
    requires HeapOrdered(left) && (left != [] ==> left[0].deadline > now)
    ensures RanDue(due, left, before, added, now)
  {
    if left != [] {
      RootIsLeastOfAll(left);
    }
  }

  lemma RootIsLeastOfAll(h: seq<Entry>)
    requires HeapOrdered(h) && h != []
    ensures IsLeast(h[0], h)
  {
    forall e | e in multiset(h) ensures Leq(h[0], e) {
      var k :| 0 <= k < |h| && h[k] == e;
      RootIsLeast(h, k);
    }
  }

  // ---------- Delays as JavaScript computes them ----------

  /** `x | 0` for an integer value: wrap to 32 bits, two's complement. */
  function ToInt32(x: int): int {
    var w := x % 0x1_0000_0000;
    if w < 0x8000_0000 then w else w - 0x1_0000_0000
  }

  /** `diff > 0 ? trunc + (diff > trunc ? 1 : 0) : 0` with `trunc = diff | 0` */
  function DelayFor(diff: real): int {
    if diff > 0.0 then
      var trunc := ToInt32(diff.Floor);
      trunc + if diff > trunc as real then 1 else 0
    else 0
  }

  const MAX_DELAY := 2147483647

  function SafeDelay(diff: real): int {
    var delay := DelayFor(diff);
    if delay < MAX_DELAY then delay else MAX_DELAY
  }

  /** Below 2^31 ms the delay is the difference rounded up. */
  lemma DelayRoundsUp(diff: real)
    requires 0.0 < diff < 2147483648.0
    ensures diff <= DelayFor(diff) as real < diff + 1.0
  {
    assert 0 <= diff.Floor < 0x8000_0000;
  }

  /** The native timer is never set later than a millisecond past the deadline, however far away that is. */
  lemma DelayIsNeverLate(diff: real)
    ensures SafeDelay(diff) as real < (if diff > 0.0 then diff else 0.0) + 1.0
  {
    if diff > 0.0 {
      WrapNeverGrows(diff.Floor);
    }
  }

  lemma WrapNeverGrows(x: int)
    requires 0 <= x
    ensures ToInt32(x) <= x
  {
    var q := x / 0x1_0000_0000;
    assert x == q * 0x1_0000_0000 + x % 0x1_0000_0000;
  }

  /** The ceiling of 2^31 - 1 ms is applied as intended exactly below 2^31 ms, or by accident of wrapping. */
  lemma CeilingIffSmall(diff: real)
    requires 0.0 < diff
    ensures SafeDelay(diff) == (if diff <= MAX_DELAY as real then DelayFor(diff) else MAX_DELAY)
            <==> diff < 2147483648.0 || ToInt32(diff.Floor) >= MAX_DELAY - 1
  {
    if diff < 2147483648.0 {
      DelayRoundsUp(diff);
    } else {
      WrapStaysBelow(diff.Floor);
    }
  }

  lemma WrapStaysBelow(x: int)
    ensures ToInt32(x) <= MAX_DELAY
  {
  }

  /** A deadline 2^31 ms away asks for a negative delay. */
  lemma FarDeadlineWraps()
    ensures SafeDelay(2147483648.0) == -2147483647
  {
    assert (2147483648.0).Floor == 2147483648;
  }

  /** What the native timer is set to when it is armed at `now`. */
  function TimerFor(deadlines: seq<real>, now: real): Option<real> {
    if deadlines == [] then None else Some(now + SafeDelay(deadlines[0] - now) as real)
  }

  lemma SameRootSameTimer(a: seq<real>, b: seq<real>, now: real)
    requires a != [] && b != [] && a[0] == b[0]
    ensures TimerFor(a, now) == TimerFor(b, now)
  {
  }

  /** Taking out an entry other than the root leaves the earliest deadline as it is. */
  lemma RootStays(before: seq<Entry>, after: seq<Entry>, i: nat)
    requires HeapOrdered(before) && HeapOrdered(after)
    requires 0 < i < |before| && TookOut(before, after, before[i])
    ensures after != [] && after[0].deadline == before[0].deadline
  {
    hide HeapOrdered;
    var others := before[..i] + before[i + 1..];
    assert before == before[..i] + [before[i]] + before[i + 1..];
    assert multiset(after) == multiset(others);
    assert others[0] == before[0];
    assert before[0] in multiset(after) && after[0] in multiset(others);
    RootIsLeastOfAll(before);
    RootIsLeastOfAll(after);
    assert after[0] in multiset(before);
  }

  // ---------- The timer manager ----------

  datatype DirectTimer = DirectTimer(id: int, deadline: real)

  function Without(timers: seq<DirectTimer>, id: int): seq<DirectTimer> {
    if timers == [] then []
    else
      var n := |timers| - 1;
      Without(timers[..n], id) + if timers[n].id == id then [] else [timers[n]]
  }

  lemma {:induction false} WithoutChanges(timers: seq<DirectTimer>, id: int)
    ensures |Without(timers, id)| <= |timers|
    ensures Without(timers, id) == timers <==> forall t :: t in timers ==> t.id != id
  {
    if timers != [] {
      var n := |timers| - 1;
      WithoutChanges(timers[..n], id);
      assert timers == timers[..n] + [timers[n]];
    }
  }

  /** Every timer but those of `id` is still there, as often and in the same order, and nothing else is. */
  ghost predicate OthersStay(before: seq<DirectTimer>, after: seq<DirectTimer>, id: int) {
    && (forall t :: t in after <==> t in before && t.id != id)
    && (forall t: DirectTimer :: t.id != id ==> multiset(after)[t] == multiset(before)[t])
    && (forall i, j :: 0 <= i < j < |after| ==> InThisOrder(before, after[i], after[j]))
  }

  predicate InThisOrder(timers: seq<DirectTimer>, first: DirectTimer, second: DirectTimer) {
    exists i, j :: 0 <= i < j < |timers| && timers[i] == first && timers[j] == second
  }

  lemma OrderStays(timers: seq<DirectTimer>, last: DirectTimer, first: DirectTimer, second: DirectTimer)
    requires InThisOrder(timers, first, second)
    ensures InThisOrder(timers + [last], first, second)
  {
    var i, j :| 0 <= i < j < |timers| && timers[i] == first && timers[j] == second;
    assert (timers + [last])[i] == first && (timers + [last])[j] == second;
  }

  lemma LastIsLast(timers: seq<DirectTimer>, last: DirectTimer, first: DirectTimer)
    requires first in timers
    ensures InThisOrder(timers + [last], first, last)
  {
    var i :| 0 <= i < |timers| && timers[i] == first;
    assert (timers + [last])[i] == first && (timers + [last])[|timers|] == last;
  }

  lemma {:induction false} WithoutKeepsOthers(timers: seq<DirectTimer>, id: int)
    ensures OthersStay(timers, Without(timers, id), id)
  {
    hide OthersStay, Without;
    if timers == [] {
      NothingStays(id);
    } else {
      var n := |timers| - 1;
      WithoutKeepsOthers(timers[..n], id);
      WithoutLast(timers, id);
      OneMoreTimer(timers[..n], Without(timers[..n], id), id, timers[n]);
      assert timers == timers[..n] + [timers[n]];
    }
  }

  lemma NothingStays(id: int)
    ensures Without([], id) == [] && OthersStay([], [], id)
  {
  }

  lemma WithoutLast(timers: seq<DirectTimer>, id: int)
    requires timers != []
    ensures var n := |timers| - 1;
            Without(timers, id) == if timers[n].id == id then Without(timers[..n], id) else Without(timers[..n], id) + [timers[n]]
  {
  }

  lemma OneMoreTimer(before: seq<DirectTimer>, after: seq<DirectTimer>, id: int, t: DirectTimer)
    requires OthersStay(before, after, id)
    ensures OthersStay(before + [t], if t.id == id then after else after + [t], id)
  {
    hide InThisOrder;
    var now := if t.id == id then after else after + [t];
    forall i, j | 0 <= i < j < |now| ensures InThisOrder(before + [t], now[i], now[j]) {
      assert now[i] in after;
      if j < |after| {
        OrderStays(before, t, now[i], now[j]);
      } else {
        LastIsLast(before, t, now[i]);
      }
    }
  }

  function Ids(entries: seq<Entry>): seq<int> {
    seq(|entries|, i requires 0 <= i < |entries| => entries[i].id)
  }

  function Zip(deadlines: seq<real>, ids: seq<int>, seqs: seq<nat>): (h: seq<Entry>)
    requires |deadlines| == |ids| == |seqs|
    ensures |h| == |deadlines|
    ensures forall i :: 0 <= i < |h| ==> h[i] == Entry(deadlines[i], ids[i], seqs[i])
  {
    seq(|deadlines|, i requires 0 <= i < |deadlines| => Entry(deadlines[i], ids[i], seqs[i]))
  }

  /** In the middle of a tick that began with the entries `before` and the counter at `first`. */
  predicate Ticking(due: seq<Entry>, left: seq<Entry>, before: seq<Entry>, adds: int -> seq<Addition>, now: real,
                    first: nat, counter: nat) {
    var added := AddedBy(due, adds, first);
    Draining(due, left, before, added, now) && counter == first + |added|
  }

  class TimerManager {
    var deadlines: seq<real>
    var ids: seq<int>
    var seqs: seq<nat>
    var counter: nat
    /** Absolute time the shared native timer is set for. */
    var timer: Option<real>
    /** When it was last set. */
    ghost var armedAt: real
    var heapMode: bool
    var directTimers: seq<DirectTimer>
    var fired: seq<int>
    const threshold: nat

    ghost predicate Aligned()
      reads this`deadlines, this`ids, this`seqs
    {
      |deadlines| == |ids| == |seqs|
    }

    /** The three parallel arrays read as one. */
    ghost function Entries(): seq<Entry>
      requires Aligned()
      reads this`deadlines, this`ids, this`seqs
    {
      Zip(deadlines, ids, seqs)
    }

    /** The native timer is set for the earliest deadline, and only while there is one. */
    ghost predicate Armed()
      reads this`deadlines, this`timer, this`armedAt
    {
      timer == TimerFor(deadlines, armedAt)
    }

    /** The native timer is as it was or has been set anew at `now`. */
    ghost predicate ArmedSince(before: real, now: real)
      reads this`armedAt
    {
      armedAt == before || armedAt == now
    }

    ghost predicate Valid()
      reads this
    {
      && Aligned()
      && HeapOrdered(Entries())
      && AllBelow(Entries(), counter)
      && Armed()
      && (if heapMode then directTimers == [] else deadlines == [])
    }

    constructor (threshold: nat)
      ensures Valid() && !heapMode && directTimers == [] && fired == []
    {
      this.threshold := threshold;
      deadlines, ids, seqs, counter := [], [], [], 0;
      timer, heapMode, directTimers, fired := None, false, [], [];
      armedAt := 0.0;
    }

    /**
     * On time: the native timer goes off less than a millisecond past the deadline of every pending
     * entry, or past the moment of arming for one already due then. So until it goes off nothing is
     * overdue by a millisecond, except at the very moment of arming.
     */
    lemma NothingIsOverdue(k: nat, now: real)
      requires Valid() && k < |deadlines|
      ensures timer.Some? && timer.value < (if deadlines[k] < armedAt then armedAt else deadlines[k]) + 1.0
      ensures armedAt <= now <= timer.value ==> now < deadlines[k] + 1.0 || now == armedAt
    {
      DelayIsNeverLate(deadlines[0] - armedAt);
      RootIsLeast(Entries(), k);
    }

    /** Write one entry into the three arrays. */
    method Put(i: nat, e: Entry)
      requires Aligned() && i < |deadlines|
      modifies this`deadlines, this`ids, this`seqs
      ensures Aligned() && |deadlines| == old(|deadlines|)
      ensures Entries() == old(Entries())[i := e]
    {
      deadlines, ids, seqs := deadlines[i := e.deadline], ids[i := e.id], seqs[i := e.seqNo];
    }

    method Push(e: Entry)
      requires Aligned()
      modifies this`deadlines, this`ids, this`seqs
      ensures Aligned() && Entries() == old(Entries()) + [e]
    {
      deadlines, ids, seqs := deadlines + [e.deadline], ids + [e.id], seqs + [e.seqNo];
    }

    method PopLast() returns (e: Entry)
      requires Aligned() && deadlines != []
      modifies this`deadlines, this`ids, this`seqs
      ensures Aligned() && old(Entries()) == Entries() + [e]
    {
      var n := |deadlines| - 1;
      e := Entry(deadlines[n], ids[n], seqs[n]);
      deadlines, ids, seqs := deadlines[..n], ids[..n], seqs[..n];
    }

    /** Entry `i` precedes `e`, strictly. */
    method ComesFirst(i: nat, e: Entry) returns (first: bool)
      requires Aligned() && i < |deadlines|
      ensures first == !Leq(e, Entries()[i])
      ensures first ==> Leq(Entries()[i], e)
    {
      first := deadlines[i] < e.deadline || (deadlines[i] == e.deadline && seqs[i] < e.seqNo);
    }

    /** `e` precedes entry `i`, strictly. */
    method Precedes(e: Entry, i: nat) returns (first: bool)
      requires Aligned() && i < |deadlines|
      ensures first == !Leq(Entries()[i], e)
      ensures first ==> Leq(e, Entries()[i])
    {
      first := e.deadline < deadlines[i] || (e.deadline == deadlines[i] && e.seqNo < seqs[i]);
    }

    /** Move the hole at `start` up until `e` fits above it; the other entries slide down. */
    method SiftUp(start: nat, e: Entry) returns (i: nat)
      requires Aligned() && start < |deadlines|
      requires OrderedAround(Entries()[start := e], start)
      modifies this`deadlines, this`ids, this`seqs
      ensures Aligned() && Rising(Entries(), i, e, start, old(Entries()))
      ensures 0 < i ==> Leq(Entries()[Parent(i)], e)
      ensures i <= start && |deadlines| == old(|deadlines|)
      ensures 0 < i ==> Entries()[0] == old(Entries())[0]
    {
      assert Rising(Entries(), start, e, start, Entries());
      hide SafeDelay, Zip, Rising, Leq;
      ghost var before := Entries();
      i := start;
      while i > 0
        invariant Aligned() && i < |deadlines|
        invariant Rising(Entries(), i, e, start, before)
        invariant i <= start && |deadlines| == old(|deadlines|)
        invariant 0 < i ==> Entries()[0] == before[0]
      {
        var p := (i - 1) / 2;
        var parentComesFirst := ComesFirst(p, e);
        if parentComesFirst {
          break;
        }
        RisingStep(Entries(), i, e, start, before);
        Put(i, Entry(deadlines[p], ids[p], seqs[p]));
        i := p;
      }
    }

    /** Move the hole at `start` down until `e` fits below it; the other entries slide up. */
    method SiftDown(start: nat, e: Entry) returns (i: nat)
      requires Aligned() && start < |deadlines|
      requires OrderedAround(Entries()[start := e], start) && LeqParent(Entries()[start := e], start)
      modifies this`deadlines, this`ids, this`seqs
      ensures Aligned() && Sinking(Entries(), i, e, start, old(Entries()))
      ensures HeapOrdered(Entries()[i := e])
    {
      assert Sinking(Entries(), start, e, start, Entries());
      hide SafeDelay, Zip, Sinking, Leq, IsLeastChild, HeapOrdered;
      ghost var before := Entries();
      i := start;
      var n := |deadlines|;
      while i < n / 2
        invariant Aligned() && |deadlines| == n && i < n
        invariant Sinking(Entries(), i, e, start, before)
        decreases n - i
      {
        var minChild := LeastChild(i);
        var staysHere := Precedes(e, minChild);
        if staysHere {
          SinkingStops(Entries(), i, minChild, e, start, before);
          return;
        }
        SinkingStep(Entries(), i, minChild, e, start, before);
        Put(i, Entry(deadlines[minChild], ids[minChild], seqs[minChild]));
        i := minChild;
      }
      SinkingEnds(Entries(), i, e, start, before);
    }

    /** The left or right child, whichever comes first. */
    method LeastChild(i: nat) returns (minChild: nat)
      requires Aligned() && 2 * i + 1 < |deadlines|
      ensures i < minChild < |deadlines| && IsLeastChild(Entries(), i, minChild)
    {
      minChild := 2 * i + 1;
      var rightChild := minChild + 1;
      if rightChild < |deadlines| {
        if deadlines[rightChild] < deadlines[minChild]
           || (deadlines[rightChild] == deadlines[minChild] && seqs[rightChild] < seqs[minChild]) {
          minChild := rightChild;
        }
      }
    }

    /** Insert an entry and re-arm the native timer if it is now the earliest. */
    method HeapAdd(id: int, ms: real, now: real)
      requires Aligned() && HeapOrdered(Entries())
      modifies this`deadlines, this`ids, this`seqs, this`counter, this`timer, this`armedAt
      ensures Aligned() && HeapOrdered(Entries()) && |deadlines| > 0
      ensures old(Armed()) ==> Armed()
      ensures ArmedSince(old(armedAt), now)
      ensures counter == old(counter) + 1
      ensures PutIn(old(Entries()), Entries(), Entry(now + ms, id, old(counter)))
    {
      hide TimerFor, Zip, HeapOrdered, OrderedAround, Rising, Leq;
      var e := Entry(now + ms, id, counter);
      counter := counter + 1;
      ghost var before, earlier := Entries(), deadlines;
      var last := |deadlines|;
      Push(e);
      assert Entries()[last := e] == before + [e];
      LastIsOrderedAround(before, e);
      var i := SiftUp(last, e);
      RisenIsOrdered(Entries(), i, e, last, before + [e]);
      Put(i, e);
      if i == 0 {
        Refresh(now);
      } else {
        assert Entries()[0] == before[0];
        SameRootSameTimer(earlier, deadlines, armedAt);
      }
    }

    lemma RisenIsOrdered(cells: seq<Entry>, i: nat, e: Entry, start: nat, before: seq<Entry>)
      requires Rising(cells, i, e, start, before)
      requires 0 < i ==> Leq(cells[Parent(i)], e)
      requires i != start || start + 1 == |cells|
      ensures HeapOrdered(cells[i := e])
      ensures multiset(cells[i := e]) == multiset(before[start := e])
    {
      OrderedEverywhere(cells[i := e], i);
    }

    lemma LastIsOrderedAround(h: seq<Entry>, e: Entry)
      requires HeapOrdered(h)
      ensures OrderedAround(h + [e], |h|)
    {
      var g := h + [e];
      forall k | 0 < k < |g| && k != |h| && Parent(k) != |h| ensures Leq(g[Parent(k)], g[k]) {
        assert g[k] == h[k] && g[Parent(k)] == h[Parent(k)];
      }
    }

    /** Set the native timer for the earliest deadline. */
    method Refresh(now: real)
      requires Aligned()
      modifies this`timer, this`armedAt
      ensures Armed() && armedAt == now
    {
      hide SafeDelay;
      armedAt := now;
      if deadlines == [] {
        timer := None;
      } else {
        timer := Some(now + SafeDelay(deadlines[0] - now) as real);
      }
    }

    /** Remove the earliest entry. */
    method Pop() returns (top: Entry)
      requires Aligned() && HeapOrdered(Entries()) && deadlines != []
      modifies this`deadlines, this`ids, this`seqs
      ensures Aligned() && HeapOrdered(Entries()) && |deadlines| == old(|deadlines|) - 1
      ensures top == old(Entries())[0] && IsLeast(top, old(Entries()))
      ensures TookOut(old(Entries()), Entries(), top)
    {
      hide Zip, HeapOrdered, OrderedAround, Leq, IsLeast, TookOut;
      ghost var before := Entries();
      top := Entry(deadlines[0], ids[0], seqs[0]);
      RootIsLeastOfAll(before);
      var last := PopLast();
      PrefixIsHeap(before, |before| - 1);
      ghost var rest := Entries();
      assert before == rest + [last] && before[..|before| - 1] == rest;
      if deadlines != [] {
        ReplaceKeepsOrderAround(rest, 0, last);
        FitsAtRoot(rest[0 := last]);
        var i := SiftDown(0, last);
        SunkKeepsAll(Entries(), i, last, 0, rest);
        Put(i, last);
        GapFilled(before, last, rest, 0, Entries());
      } else {
        PrefixTookOutLast(before, last, rest);
      }
    }

    lemma SunkKeepsAll(cells: seq<Entry>, i: nat, e: Entry, start: nat, before: seq<Entry>)
      requires Sinking(cells, i, e, start, before)
      ensures multiset(cells[i := e]) == multiset(before[start := e])
    {
    }

    lemma FitsAtRoot(h: seq<Entry>)
      requires h != []
      ensures LeqParent(h, 0)
    {
    }

    lemma PrefixIsHeap(h: seq<Entry>, n: nat)
      requires HeapOrdered(h) && n <= |h|
      ensures HeapOrdered(h[..n])
    {
    }

    /** Restore the order around `index` after its entry was replaced by `e`. */
    method Sift(index: nat, e: Entry)
      requires Aligned() && index < |deadlines| && Entries()[index] == e
      requires OrderedAround(Entries(), index)
      modifies this`deadlines, this`ids, this`seqs
      ensures Aligned() && |deadlines| == old(|deadlines|)
      ensures HeapOrdered(Entries()) && multiset(Entries()) == multiset(old(Entries()))
    {
      hide SafeDelay, Zip, HeapOrdered, OrderedAround, Leq;
      ghost var before := Entries();
      assert before[index := e] == before;
      var i := SiftUp(index, e);
      if i != index {
        RisenIsOrdered(Entries(), i, e, index, before);
        Put(i, e);
        return;
      }
      FitsBelowParent(before, index);
      i := SiftDown(index, e);
      Put(i, e);
    }

    lemma FitsBelowParent(h: seq<Entry>, i: nat)
      requires i < |h| && (0 < i ==> Leq(h[Parent(i)], h[i]))
      ensures LeqParent(h, i)
    {
    }

    /** `ids.indexOf(id)` */
    method IndexOf(id: int) returns (index: int)
      ensures -1 <= index < |ids|
      ensures index == -1 <==> id !in ids
      ensures 0 <= index ==> ids[index] == id && id !in ids[..index]
    {
      for i := 0 to |ids|
        invariant id !in ids[..i]
      {
        if ids[i] == id {
          return i;
        }
      }
      return -1;
    }

    /** Take out the entry at `index` by moving the last one into its place. */
    method RemoveAt(index: nat)
      requires Aligned() && HeapOrdered(Entries()) && index < |deadlines|
      modifies this`deadlines, this`ids, this`seqs
      ensures Aligned() && HeapOrdered(Entries())
      ensures TookOut(old(Entries()), Entries(), old(Entries())[index])
    {
      hide Zip, HeapOrdered, OrderedAround, TookOut;
      ghost var before := Entries();
      var lastIndex := |deadlines| - 1;
      PrefixIsHeap(before, lastIndex);
      var last := PopLast();
      ghost var rest := Entries();
      assert before == rest + [last] && before[..lastIndex] == rest;
      if index < lastIndex {
        ReplaceKeepsOrderAround(rest, index, last);
        Put(index, last);
        Sift(index, last);
        GapFilled(before, last, rest, index, Entries());
      } else {
        PrefixTookOutLast(before, last, rest);
      }
    }

    /** The entry that went is the first one in array order that is named `id`. */
    ghost predicate RemovedFirst(before: seq<Entry>, after: seq<Entry>, names: seq<int>, id: int)
      requires |names| == |before|
    {
      exists i :: && 0 <= i < |names| && names[i] == id && id !in names[..i]
                  && TookOut(before, after, before[i])
    }

    /** Cancel the timer `id` on the heap; the native timer is re-armed if it was the earliest. */
    method RemoveFromHeap(id: int, now: real) returns (found: bool)
      requires Valid() && heapMode
      modifies this`deadlines, this`ids, this`seqs, this`timer, this`armedAt
      ensures Valid()
      ensures ArmedSince(old(armedAt), now)
      ensures found == (id in old(ids))
      ensures if found then RemovedFirst(old(Entries()), Entries(), old(ids), id) else Entries() == old(Entries())
    {
      hide SafeDelay, Zip, HeapOrdered, AllBelow, TookOut;
      var index := IndexOf(id);
      if index == -1 {
        return false;
      }
      ghost var before := Entries();
      RemoveAt(index);
      TakingOut(before, Entries(), before[index], counter);
      if index == 0 {
        Refresh(now);
      } else {
        RootStays(before, Entries(), index);
      }
      found := true;
    }

    /** Cancel the timer `id`. */
    method Remove(id: int, now: real) returns (found: bool)
      requires Valid()
      modifies this`deadlines, this`ids, this`seqs, this`timer, this`armedAt, this`directTimers
      ensures Valid() && ArmedSince(old(armedAt), now)
      ensures heapMode ==> found == (id in old(ids))
      ensures heapMode ==> if found then RemovedFirst(old(Entries()), Entries(), old(ids), id) else Entries() == old(Entries())
      ensures !heapMode ==> found == (exists t :: t in old(directTimers) && t.id == id)
      ensures !heapMode ==> directTimers == Without(old(directTimers), id)
      ensures !heapMode ==> OthersStay(old(directTimers), directTimers, id)
    {
      hide SafeDelay, Zip, HeapOrdered, AllBelow, TookOut, Without, OthersStay;
      if heapMode {
        found := RemoveFromHeap(id, now);
      } else {
        WithoutChanges(directTimers, id);
        WithoutKeepsOthers(directTimers, id);
        found := Without(directTimers, id) != directTimers;
        directTimers := Without(directTimers, id);
      }
    }

    /**
     * The native timer fires at `now`: run everything that is due, then re-arm at `later`. The callback of
     * timer `id` adds the timers `adds(id)`.
     */
    method OnTick(now: real, later: real, adds: int -> seq<Addition>) returns (ghost due: seq<Entry>)
      requires Valid() && heapMode && AddsLater(adds, now)
      modifies this
      ensures Valid() && heapMode && armedAt == later
      ensures fired == old(fired) + Ids(due)
      ensures var added := AddedBy(due, adds, old(counter));
              RanDue(due, Entries(), old(Entries()), added, now) && counter == old(counter) + |added|
      ensures forall i, j :: 0 <= i < j < |due| ==>
                due[i].deadline < due[j].deadline || (due[i].deadline == due[j].deadline && due[i].seqNo <= due[j].seqNo)
    {
      hide SafeDelay, Zip, HeapOrdered, AllBelow, Ids, InTick, RanDue, AddedBy, AddsLater;
      due := [];
      ghost var before, first, ran := Entries(), counter, fired;
      StartTick(now, adds);
      while |deadlines| > 0 && deadlines[0] <= now
        invariant InTick(due, before, adds, now, first, ran) && heapMode && directTimers == []
        decreases |before| - |due|
      {
        due := RunTop(now, adds, due, before, first, ran);
      }
      TickDone(due, before, adds, now, first, ran);
      Refresh(later);
    }

    /** In the middle of a tick: `due` has run since the entries were `before`, the counter `first` and the runs `ran`. */
    ghost predicate InTick(due: seq<Entry>, before: seq<Entry>, adds: int -> seq<Addition>, now: real, first: nat, ran: seq<int>)
      reads this`deadlines, this`ids, this`seqs, this`counter, this`fired
    {
      && Aligned() && HeapOrdered(Entries()) && AllBelow(Entries(), counter)
      && fired == ran + Ids(due)
      && Ticking(due, Entries(), before, adds, now, first, counter)
    }

    lemma StartTick(now: real, adds: int -> seq<Addition>)
      requires Aligned() && HeapOrdered(Entries()) && AllBelow(Entries(), counter)
      ensures InTick([], Entries(), adds, now, counter, fired)
    {
      hide Draining, HeapOrdered, AllBelow;
      StartDraining(Entries(), now);
      assert fired + Ids([]) == fired;
    }

    lemma TickDone(due: seq<Entry>, before: seq<Entry>, adds: int -> seq<Addition>, now: real, first: nat, ran: seq<int>)
      requires InTick(due, before, adds, now, first, ran)
      requires |deadlines| > 0 ==> deadlines[0] > now
      ensures Aligned() && HeapOrdered(Entries()) && AllBelow(Entries(), counter) && fired == ran + Ids(due)
      ensures var added := AddedBy(due, adds, first);
              RanDue(due, Entries(), before, added, now) && counter == first + |added|
      ensures forall i, j :: 0 <= i < j < |due| ==>
                due[i].deadline < due[j].deadline || (due[i].deadline == due[j].deadline && due[i].seqNo <= due[j].seqNo)
    {
      hide Draining, HeapOrdered, AllBelow;
      Drained(due, Entries(), before, AddedBy(due, adds, first), now);
    }

    /** Take the earliest entry, which is due, and run its callback. */
    method RunTop(now: real, adds: int -> seq<Addition>, ghost due: seq<Entry>, ghost before: seq<Entry>, ghost first: nat,
                  ghost ran: seq<int>)
        returns (ghost more: seq<Entry>)
      requires InTick(due, before, adds, now, first, ran) && AddsLater(adds, now)
      requires |deadlines| > 0 && deadlines[0] <= now
      modifies this`deadlines, this`ids, this`seqs, this`counter, this`timer, this`armedAt, this`fired
      ensures InTick(more, before, adds, now, first, ran)
      ensures |due| < |before| && |more| == |due| + 1
    {
      hide SafeDelay, Zip, HeapOrdered, Ids, Draining, AllBelow, TookOut, IsLeast, AddedBy, EntriesOf, AddsLater, Later, Joined;
      ghost var cells, added := Entries(), AddedBy(due, adds, first);
      var top := Pop();
      DrainStep(due, cells, Entries(), before, added, now, top);
      TakingOut(cells, Entries(), top, counter);
      AddedBySnoc(due, top, adds, first);
      IdsSnoc(due, top);
      more := due + [top];
      ghost var extra := EntriesOf(adds(top.id), counter);
      AddsAreLater(adds, top.id, now, counter);
      cells := Entries();
      Fire(top.id, adds(top.id));
      DrainJoins(more, cells, Entries(), before, added, extra, now);
    }

    /** Run the callback of timer `id`, which adds `extra`. */
    method Fire(id: int, extra: seq<Addition>)
      requires Aligned() && HeapOrdered(Entries()) && AllBelow(Entries(), counter)
      modifies this`deadlines, this`ids, this`seqs, this`counter, this`timer, this`armedAt, this`fired
      ensures Aligned() && HeapOrdered(Entries()) && AllBelow(Entries(), counter)
      ensures fired == old(fired) + [id] && counter == old(counter) + |extra|
      ensures Joined(old(Entries()), Entries(), EntriesOf(extra, old(counter)))
    {
      hide SafeDelay, Zip, HeapOrdered, AllBelow, PutIn, Joined, Armed, EntriesOf;
      fired := fired + [id];
      ghost var first, before := counter, Entries();
      NothingJoins(before, first);
      assert extra[..0] == [];
      for k := 0 to |extra|
        invariant Aligned() && HeapOrdered(Entries()) && AllBelow(Entries(), counter)
        invariant fired == old(fired) + [id] && counter == first + k
        invariant Joined(before, Entries(), EntriesOf(extra[..k], first))
      {
        EntriesSnoc(extra, k, first);
        AddOne(extra[k], before, EntriesOf(extra[..k], first));
      }
      assert extra[..|extra|] == extra;
    }

    method AddOne(a: Addition, ghost before: seq<Entry>, ghost more: seq<Entry>)
      requires Aligned() && HeapOrdered(Entries()) && AllBelow(Entries(), counter) && Joined(before, Entries(), more)
      modifies this`deadlines, this`ids, this`seqs, this`counter, this`timer, this`armedAt
      ensures Aligned() && HeapOrdered(Entries()) && AllBelow(Entries(), counter) && counter == old(counter) + 1
      ensures Joined(before, Entries(), more + [Entry(a.at + a.ms, a.id, old(counter))])
    {
      hide SafeDelay, Zip, HeapOrdered, AllBelow, PutIn, Joined, Armed;
      ghost var cells := Entries();
      ghost var e := Entry(a.at + a.ms, a.id, counter);
      HeapAdd(a.id, a.ms, a.at);
      PuttingIn(cells, Entries(), e, counter - 1);
      JoinsOne(before, cells, Entries(), more, e);
    }

    lemma EntriesSnoc(extra: seq<Addition>, k: nat, first: nat)
      requires k < |extra|
      ensures EntriesOf(extra[..k + 1], first)
           == EntriesOf(extra[..k], first) + [Entry(extra[k].at + extra[k].ms, extra[k].id, first + k)]
    {
    }

    lemma NothingJoins(h: seq<Entry>, counter: nat)
      ensures Joined(h, h, EntriesOf([], counter))
    {
      assert EntriesOf([], counter) == [];
    }

    lemma IdsSnoc(entries: seq<Entry>, e: Entry)
      ensures Ids(entries + [e]) == Ids(entries) + [e.id]
    {
    }

    /** A direct-mode native timer fires. */
    method OnDirectTimer(id: int)
      requires Valid() && !heapMode
      requires exists t :: t in directTimers && t.id == id
      modifies this`directTimers, this`fired
      ensures Valid() && directTimers == Without(old(directTimers), id) && OthersStay(old(directTimers), directTimers, id)
      ensures fired == old(fired) + [id]
    {
      hide OthersStay;
      WithoutKeepsOthers(directTimers, id);
      directTimers := Without(directTimers, id);
      fired := fired + [id];
    }

    /** Cancel everything and return to direct mode. */
    method Clear()
      requires Valid()
      modifies this`deadlines, this`ids, this`seqs, this`counter, this`timer, this`armedAt, this`heapMode, this`directTimers
      ensures Valid() && !heapMode && directTimers == [] && Entries() == []
    {
      directTimers, heapMode, timer := [], false, None;
      deadlines, ids, seqs, counter := [], [], [], 0;
    }

    /** Register a timer; past the threshold every direct timer migrates to the heap first. */
    method Add(id: int, ms: real, now: real)
      requires Valid()
      requires !heapMode ==> forall t :: t in directTimers ==> t.id != id
      modifies this`deadlines, this`ids, this`seqs, this`counter, this`timer, this`armedAt, this`heapMode, this`directTimers, this`fired
      ensures Valid() && ArmedSince(old(armedAt), now)
      ensures heapMode == (old(heapMode) || old(|directTimers|) + 1 > threshold)
      ensures !heapMode ==> directTimers == old(directTimers) + [DirectTimer(id, now + ms)] && fired == old(fired)
      ensures old(heapMode) ==> PutIn(old(Entries()), Entries(), Entry(now + ms, id, old(counter))) && fired == old(fired)
      ensures heapMode && !old(heapMode) ==>
                var m := Migrate(old(directTimers), now, old(counter));
                && fired == old(fired) + m.fired
                && Grown(m.entries, Entries(), Entry(now + ms, id, old(counter) + |m.entries|))
    {
      hide SafeDelay, Zip, HeapOrdered, AllBelow, PutIn, Migrate, SameEntries, Grown;
      if !heapMode && |directTimers| + 1 <= threshold {
        directTimers := directTimers + [DirectTimer(id, now + ms)];
        return;
      }
      if !heapMode {
        ghost var m := Migrate(directTimers, now, counter);
        MigrateAll(now);
        ghost var before := Entries();
        AddToHeap(id, ms, now);
        GrownByOne(m.entries, before, Entries(), Entry(now + ms, id, counter - 1));
      } else {
        AddToHeap(id, ms, now);
      }
    }

    method AddToHeap(id: int, ms: real, now: real)
      requires Valid() && heapMode
      modifies this`deadlines, this`ids, this`seqs, this`counter, this`timer, this`armedAt
      ensures Valid() && counter == old(counter) + 1 && ArmedSince(old(armedAt), now)
      ensures PutIn(old(Entries()), Entries(), Entry(now + ms, id, old(counter)))
    {
      hide SafeDelay, Zip, HeapOrdered, AllBelow, PutIn;
      ghost var before := Entries();
      HeapAdd(id, ms, now);
      PuttingIn(before, Entries(), Entry(now + ms, id, counter - 1), counter - 1);
    }

    /** The heap holds exactly what the migration so far put there. */
    ghost predicate Holds(m: Migration, firedBefore: seq<int>, first: nat)
      reads this`deadlines, this`ids, this`seqs, this`counter, this`timer, this`armedAt, this`fired
    {
      && Aligned() && HeapOrdered(Entries()) && AllBelow(Entries(), counter)
      && Armed()
      && fired == firedBefore + m.fired
      && SameEntries(m.entries, Entries())
      && counter == first + |m.entries|
    }

    method MigrateTimer(t: DirectTimer, now: real, ghost m: Migration, ghost firedBefore: seq<int>, ghost first: nat)
      requires Holds(m, firedBefore, first)
      modifies this`deadlines, this`ids, this`seqs, this`counter, this`timer, this`armedAt, this`fired
      ensures Holds(MigrateOne(m, t, now, first), firedBefore, first)
      ensures ArmedSince(old(armedAt), now)
    {
      hide SafeDelay, Zip, HeapOrdered, AllBelow, PutIn, SameEntries, DelayFor;
      var remaining := DelayFor(t.deadline - now);
      if remaining == 0 {
        fired := fired + [t.id];
      } else {
        ghost var before := Entries();
        ghost var e := Entry(now + remaining as real, t.id, counter);
        HeapAdd(t.id, remaining as real, now);
        PuttingIn(before, Entries(), e, counter - 1);
        SameGrows(m.entries, before, Entries(), e);
      }
    }

    /** Move the direct timers to the heap in registration order, running those already due. */
    method MigrateAll(now: real)
      requires Valid() && !heapMode
      modifies this`deadlines, this`ids, this`seqs, this`counter, this`timer, this`armedAt, this`heapMode, this`directTimers, this`fired
      ensures Valid() && heapMode && ArmedSince(old(armedAt), now)
      ensures var m := Migrate(old(directTimers), now, old(counter));
              && fired == old(fired) + m.fired
              && SameEntries(m.entries, Entries())
              && counter == old(counter) + |m.entries|
    {
      hide MigrateOne, SafeDelay, TimerFor, HeapOrdered, AllBelow;
      heapMode := true;
      for k := 0 to |directTimers|
        invariant heapMode && directTimers == old(directTimers)
        invariant ArmedSince(old(armedAt), now)
        invariant Holds(Migrate(directTimers[..k], now, old(counter)), old(fired), old(counter))
      {
        assert directTimers[..k + 1][..k] == directTimers[..k];
        MigrateTimer(directTimers[k], now, Migrate(directTimers[..k], now, old(counter)), old(fired), old(counter));
      }
      assert directTimers[..|directTimers|] == directTimers;
      directTimers := [];
    }
  }

  /** Some arrangement of the same entries. */
  predicate SameEntries(a: seq<Entry>, b: seq<Entry>) {
    multiset(a) == multiset(b)
  }

  predicate Grown(a: seq<Entry>, b: seq<Entry>, e: Entry) {
    multiset(b) == multiset(a + [e])
  }

  lemma SameGrows(a: seq<Entry>, before: seq<Entry>, after: seq<Entry>, e: Entry)
    requires SameEntries(a, before) && PutIn(before, after, e)
    ensures SameEntries(a + [e], after)
  {
  }

  lemma GrownByOne(a: seq<Entry>, before: seq<Entry>, after: seq<Entry>, e: Entry)
    requires SameEntries(a, before) && PutIn(before, after, e)
    ensures Grown(a, after, e)
  {
  }

  // ---------- Migration ----------

  datatype Migration = Migration(entries: seq<Entry>, fired: seq<int>)

  function MigrateOne(m: Migration, t: DirectTimer, now: real, first: nat): Migration {
    var remaining := DelayFor(t.deadline - now);
    if remaining == 0 then m.(fired := m.fired + [t.id])
    else m.(entries := m.entries + [Entry(now + remaining as real, t.id, first + |m.entries|)])
  }

  /** What becomes of the direct timers when the heap takes over. */
  function Migrate(timers: seq<DirectTimer>, now: real, first: nat): Migration {
    if timers == [] then Migration([], [])
    else MigrateOne(Migrate(timers[..|timers| - 1], now, first), timers[|timers| - 1], now, first)
  }

  predicate Due(t: DirectTimer, now: real) {
    t.deadline <= now
  }

  function IdsOf(timers: seq<DirectTimer>, now: real, due: bool): seq<int> {
    if timers == [] then []
    else
      var n := |timers| - 1;
      IdsOf(timers[..n], now, due) + if Due(timers[n], now) == due then [timers[n].id] else []
  }

  /**
   * Timers less than 2^31 ms away: none is lost, those due run in order of registration, the others keep
   * that order and are never early.
   */
  lemma {:induction false} MigrationKeepsDeadlines(timers: seq<DirectTimer>, now: real, counter: nat)
    requires forall t :: t in timers ==> t.deadline - now < 2147483648.0
    ensures var m := Migrate(timers, now, counter);
            && m.fired == IdsOf(timers, now, true)
            && Ids(m.entries) == IdsOf(timers, now, false)
            && (forall i :: 0 <= i < |m.entries| ==>
                  && m.entries[i].seqNo == counter + i
                  && exists t :: t in timers && t.id == m.entries[i].id
                                 && t.deadline <= m.entries[i].deadline < t.deadline + 1.0)
    decreases |timers|
  {
    if timers != [] {
      var n := |timers| - 1;
      var t := timers[n];
      MigrationKeepsDeadlines(timers[..n], now, counter);
      var m, before := Migrate(timers, now, counter), Migrate(timers[..n], now, counter);
      if t.deadline > now {
        DelayRoundsUp(t.deadline - now);
        assert m.entries[|before.entries|].id == t.id && t in timers;
      }
      forall i | 0 <= i < |m.entries|
        ensures exists t :: t in timers && t.id == m.entries[i].id
                            && t.deadline <= m.entries[i].deadline < t.deadline + 1.0
      {
        if i < |before.entries| {
          var u :| u in timers[..n] && u.id == before.entries[i].id
                   && u.deadline <= before.entries[i].deadline < u.deadline + 1.0;
          assert u in timers && m.entries[i] == before.entries[i];
        }
      }
    }
  }

  /** A timer that migrates keeps its deadline or moves later exactly when it is less than 2^31 ms away. */
  lemma MigrationIsNeverEarlyIffNear(t: DirectTimer, now: real)
    requires t.deadline > now
    ensures now + DelayFor(t.deadline - now) as real >= t.deadline <==> t.deadline - now < 2147483648.0
  {
    var diff := t.deadline - now;
    if diff < 2147483648.0 {
      DelayRoundsUp(diff);
    } else {
      WrapStaysBelow(diff.Floor);
      assert DelayFor(diff) <= MAX_DELAY + 1;
      if diff == 2147483648.0 {
        assert diff.Floor == 2147483648;
      }
    }
  }
}
