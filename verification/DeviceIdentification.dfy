/** FC 43 / MEI 14: the slave's fragmenting encoder, the master's TLV parser, and the walk between them. */
module DeviceIdentification {
  import opened Bytes

  const MEI_READ_DEVICE_ID: byte := 0x0E
  const BASIC_STREAM: byte := 1
  const REGULAR_STREAM: byte := 2
  const EXTENDED_STREAM: byte := 3
  const MAX_VALUE := 244
  /** Payload bytes left for objects in a 253-byte PDU: function code and six header bytes taken off. */
  const ROOM := 246

  type Table = map<byte, seq<byte>>

  datatype Object = Object(id: byte, value: seq<byte>)

  predicate IsStream(code: byte) {
    code == BASIC_STREAM || code == REGULAR_STREAM || code == EXTENDED_STREAM
  }

  /** Object identifiers a table may use; 0x07..0x7F are reserved. */
  predicate ValidKeys(given: Table) {
    forall id :: id in given ==> !(0x07 <= id <= 0x7F)
  }

  /** The three mandatory objects read "null" when the unit does not supply them. */
  function Completed(given: Table): Table {
    map[0 := NULL_TEXT, 1 := NULL_TEXT, 2 := NULL_TEXT] + given
  }

  const NULL_TEXT: seq<byte> := [110, 117, 108, 108]

  predicate InCategory(code: byte, id: byte) {
    (code == BASIC_STREAM ==> id <= 0x02) && (code == REGULAR_STREAM ==> id <= 0x06)
  }

  /** Object a stream request starts from: out-of-category and missing identifiers restart at 0. */
  function StartId(objects: Table, code: byte, id: byte): byte {
    var inRange :=
      if code == BASIC_STREAM then id <= 0x02
      else if code == REGULAR_STREAM then id <= 0x06
      else !(0x06 < id < 0x80);
    if inRange && id in objects then id else 0
  }

  // ---------- The objects of a stream ----------

  /** Identifiers of the category from `start` up to but not including `n`, ascending. */
  function Upto(objects: Table, code: byte, start: nat, n: nat): (r: seq<byte>)
    requires n <= 256
    ensures forall i :: 0 <= i < |r| ==> start <= r[i] < n && r[i] in objects && InCategory(code, r[i])
    ensures forall i, j :: 0 <= i < j < |r| ==> r[i] < r[j]
  {
    if n == 0 then []
    else
      var id: byte := n - 1;
      Upto(objects, code, start, n - 1) + if start <= id && id in objects && InCategory(code, id) then [id] else []
  }

  function Stream(objects: Table, code: byte, start: nat): (r: seq<byte>)
    ensures forall id :: id in r ==> start <= id && id in objects && InCategory(code, id)
    ensures forall i, j :: 0 <= i < j < |r| ==> r[i] < r[j]
  {
    Upto(objects, code, start, 256)
  }

  /** Nothing of the category is left out of a stream. */
  lemma {:induction false} StreamIsComplete(objects: Table, code: byte, start: nat, n: nat, id: byte)
    requires n <= 256 && start <= id < n && id in objects && InCategory(code, id)
    ensures id in Upto(objects, code, start, n)
  {
    if id < n - 1 {
      StreamIsComplete(objects, code, start, n - 1, id);
    }
  }

  lemma {:induction false} UptoSplits(objects: Table, code: byte, start: nat, mid: nat, n: nat)
    requires start <= mid <= n <= 256
    ensures Upto(objects, code, start, n) == Upto(objects, code, start, mid) + Upto(objects, code, mid, n)
    decreases n
  {
    if mid < n {
      UptoSplits(objects, code, start, mid, n - 1);
    } else {
      UptoEmpty(objects, code, mid, n);
    }
  }

  lemma {:induction false} UptoEmpty(objects: Table, code: byte, start: nat, n: nat)
    requires n <= start && n <= 256
    ensures Upto(objects, code, start, n) == []
  {
    if n > 0 {
      UptoEmpty(objects, code, start, n - 1);
    }
  }

  lemma IncreasingIndex(s: seq<byte>, i: nat, j: nat)
    requires i < |s| && j < |s| && s[i] == s[j]
    requires forall a, b :: 0 <= a < b < |s| ==> s[a] < s[b]
    ensures i == j
  {
  }

  lemma LeastIsFirst(s: seq<byte>, x: byte)
    requires x in s && forall i :: 0 <= i < |s| ==> x <= s[i]
    requires forall a, b :: 0 <= a < b < |s| ==> s[a] < s[b]
    ensures s[0] == x
  {
    var i :| 0 <= i < |s| && s[i] == x;
  }

  /** The part of a stream from one of its objects on is the stream that starts there. */
  lemma StreamFrom(objects: Table, code: byte, start: nat, k: nat)
    requires k < |Stream(objects, code, start)|
    ensures Stream(objects, code, Stream(objects, code, start)[k]) == Stream(objects, code, start)[k..]
  {
    var s := Stream(objects, code, start);
    var mid := s[k];
    UptoSplits(objects, code, start, mid, 256);
    var before, after := Upto(objects, code, start, mid), Upto(objects, code, mid, 256);
    StreamIsComplete(objects, code, mid, 256, mid);
    LeastIsFirst(after, mid);
    assert s[|before|] == mid;
    IncreasingIndex(s, |before|, k);
  }

  // ---------- One fragment ----------

  /** TLV bytes taken by the objects `ids`. */
  function Size(objects: Table, ids: seq<byte>): nat
    requires forall id :: id in ids ==> id in objects
  {
    if ids == [] then 0
    else
      var n := |ids| - 1;
      Size(objects, ids[..n]) + 2 + |objects[ids[n]]|
  }

  datatype Fragment = Fragment(ids: seq<byte>, next: Option<byte>)

  /** Objects taken in order until one does not fit; that one is where the next fragment starts. */
  function Fit(objects: Table, s: seq<byte>): (f: Fragment)
    requires forall id :: id in s ==> id in objects
    ensures f.ids <= s
    ensures f.next.None? ==> f.ids == s
    ensures f.next.Some? ==> |f.ids| < |s| && f.next.value == s[|f.ids|]
    ensures Size(objects, f.ids) <= ROOM
  {
    if s == [] then Fragment([], None)
    else
      var n := |s| - 1;
      var f := Fit(objects, s[..n]);
      if f.next.Some? then f
      else if Size(objects, f.ids) + 2 + |objects[s[n]]| > ROOM then Fragment(f.ids, Some(s[n]))
      else
        assert (f.ids + [s[n]])[..n] == f.ids && s == f.ids + [s[n]];
        Fragment(f.ids + [s[n]], None)
  }

  predicate AllSmall(objects: Table, s: seq<byte>) {
    forall id :: id in s && id in objects ==> |objects[id]| <= MAX_VALUE
  }

  /** Every fragment takes at least its first object. */
  lemma {:induction false} FitTakesOne(objects: Table, s: seq<byte>)
    requires s != [] && AllSmall(objects, s)
    requires forall id :: id in s ==> id in objects
    ensures Fit(objects, s).ids != []
  {
    var n := |s| - 1;
    if n == 0 {
      assert s[..0] == [];
      assert s[0] in s;
    } else {
      FitTakesOne(objects, s[..n]);
    }
  }

  /** State of the pass after the objects `seen`: taken so far, bytes used, and the first that did not fit. */
  predicate Filling(objects: Table, seen: seq<byte>, ids: seq<byte>, lastID: byte, totalLength: nat) {
    && (forall id :: id in seen ==> id in objects)
    && AllSmall(objects, seen)
    && Fit(objects, seen) == Fragment(ids, if lastID == 0 then None else Some(lastID))
    && totalLength == 7 + Size(objects, ids)
  }

  lemma FillStart(objects: Table)
    ensures Filling(objects, [], [], 0, 7)
  {
  }

  lemma FillStep(objects: Table, seen: seq<byte>, ids: seq<byte>, lastID: byte, totalLength: nat, here: byte)
    requires Filling(objects, seen, ids, lastID, totalLength)
    requires here in objects && |objects[here]| <= MAX_VALUE
    requires forall i, j :: 0 <= i < j < |seen + [here]| ==> (seen + [here])[i] < (seen + [here])[j]
    ensures var now := seen + [here];
            if lastID != 0 then Filling(objects, now, ids, lastID, totalLength)
            else if |objects[here]| + 2 > 253 - totalLength then
              here != 0 && Filling(objects, now, ids, here, totalLength)
            else Filling(objects, now, ids + [here], 0, totalLength + |objects[here]| + 2)
  {
    var now := seen + [here];
    assert now[..|seen|] == seen && (ids + [here])[..|ids|] == ids;
    if lastID == 0 && |objects[here]| + 2 > 253 - totalLength {
      NotTheFirst(objects, now);
    }
  }

  /** One pass over all identifiers, as the handler makes it; `None` when a value is too long. */
  method FillFragment(objects: Table, code: byte, objectID: byte) returns (r: Option<Fragment>)
    ensures r.None? <==> !AllSmall(objects, Stream(objects, code, objectID))
    ensures r.Some? ==> r.value == Fit(objects, Stream(objects, code, objectID))
  {
    hide Fit, Size, Filling, AllSmall;
    var ids: seq<byte> := [];
    var totalLength: nat := 7;
    var lastID: byte := 0;
    ghost var seen: seq<byte> := [];
    FillStart(objects);
    for id := 0 to 256
      invariant seen == Upto(objects, code, objectID, id)
      invariant Filling(objects, seen, ids, lastID, totalLength)
    {
      var here: byte := id;
      if here < objectID || !InCategory(code, here) || here !in objects {
        continue;
      }
      assert Upto(objects, code, objectID, id + 1) == seen + [here];
      if |objects[here]| > MAX_VALUE {
        TooLong(objects, code, objectID, here);
        return None;
      }
      FillStep(objects, seen, ids, lastID, totalLength, here);
      seen := seen + [here];
      if lastID != 0 {
        continue;
      }
      if |objects[here]| + 2 > 253 - totalLength {
        lastID := here;
      } else {
        totalLength := totalLength + |objects[here]| + 2;
        ids := ids + [here];
      }
    }
    FillDone(objects, seen, ids, lastID, totalLength);
    r := Some(Fragment(ids, if lastID == 0 then None else Some(lastID)));
  }

  lemma FillDone(objects: Table, seen: seq<byte>, ids: seq<byte>, lastID: byte, totalLength: nat)
    requires Filling(objects, seen, ids, lastID, totalLength)
    ensures AllSmall(objects, seen) && forall id :: id in seen ==> id in objects
    ensures Fit(objects, seen) == Fragment(ids, if lastID == 0 then None else Some(lastID))
  {
  }

  lemma TooLong(objects: Table, code: byte, start: nat, id: byte)
    requires start <= id && InCategory(code, id) && id in objects && |objects[id]| > MAX_VALUE
    ensures !AllSmall(objects, Stream(objects, code, start))
  {
    StreamIsComplete(objects, code, start, 256, id);
  }

  /** The object that does not fit is never object 0, which the response uses for "no more". */
  lemma NotTheFirst(objects: Table, s: seq<byte>)
    requires forall id :: id in s ==> id in objects
    requires forall i, j :: 0 <= i < j < |s| ==> s[i] < s[j]
    requires AllSmall(objects, s) && Fit(objects, s).next.Some?
    ensures Fit(objects, s).next.value != 0
  {
    FitTakesOne(objects, s);
    assert s[0] < s[|Fit(objects, s).ids|];
  }

  // ---------- The response ----------

  function Tlv(o: Object): seq<byte>
    requires |o.value| < 256
  {
    [o.id, |o.value|] + o.value
  }

  predicate Encodable(os: seq<Object>) {
    |os| < 256 && forall i :: 0 <= i < |os| ==> |os[i].value| < 256
  }

  function Tlvs(os: seq<Object>): seq<byte>
    requires forall i :: 0 <= i < |os| ==> |os[i].value| < 256
  {
    if os == [] then [] else Tlvs(os[..|os| - 1]) + Tlv(os[|os| - 1])
  }

  datatype Header = Header(code: byte, conformity: byte, next: Option<byte>)

  /** Payload after the function code: six header bytes and the objects. */
  function Payload(h: Header, os: seq<Object>): seq<byte>
    requires Encodable(os)
  {
    [MEI_READ_DEVICE_ID, h.code, h.conformity, if h.next.Some? then 0xFF else 0x00,
     if h.next.Some? then h.next.value else 0, |os|] + Tlvs(os)
  }

  /** 0x81, 0x82 or 0x83 by the highest object present. */
  function Conformity(objects: Table): byte {
    if exists id :: id in objects && id >= 0x80 then 0x83
    else if exists id :: id in objects && id > 0x02 then 0x82
    else 0x81
  }

  function Objects(objects: Table, ids: seq<byte>): seq<Object>
    requires forall id :: id in ids ==> id in objects
  {
    seq(|ids|, i requires 0 <= i < |ids| => Object(ids[i], objects[ids[i]]))
  }

  datatype Reply = Data(payload: seq<byte>) | ServerDeviceFailure | IllegalDataAddress | IllegalDataValue | IllegalFunction

  /** The fragment of a stream that starts at `start`. */
  function FragmentReply(objects: Table, code: byte, start: byte): Reply {
    var s := Stream(objects, code, start);
    if !AllSmall(objects, s) then ServerDeviceFailure
    else
      var f := Fit(objects, s);
      FragmentIsEncodable(objects, f.ids);
      Data(Payload(Header(code, Conformity(objects), f.next), Objects(objects, f.ids)))
  }

  /** The slave's answer to a request whose payload is [MEI, code, objectID]. */
  function Answer(given: Table, code: byte, objectID: byte): Reply {
    if !IsStream(code) && code != 4 then IllegalDataValue
    else if code == 4 && 0x06 < objectID < 0x80 then IllegalDataAddress
    else if !ValidKeys(given) then ServerDeviceFailure
    else
      var objects := Completed(given);
      if IsStream(code) then FragmentReply(objects, code, StartId(objects, code, objectID))
      else if objectID !in objects then IllegalDataAddress
      else if |objects[objectID]| > MAX_VALUE then ServerDeviceFailure
      else Data(Payload(Header(code, Conformity(objects), None), [Object(objectID, objects[objectID])]))
  }

  lemma {:induction false} SizeCountsBytes(objects: Table, ids: seq<byte>)
    requires forall id :: id in ids ==> id in objects
    ensures 2 * |ids| <= Size(objects, ids)
    ensures forall id :: id in ids ==> |objects[id]| + 2 <= Size(objects, ids)
  {
    if ids != [] {
      var n := |ids| - 1;
      SizeCountsBytes(objects, ids[..n]);
      assert ids == ids[..n] + [ids[n]];
    }
  }

  lemma {:induction false} SizeIsLength(objects: Table, ids: seq<byte>)
    requires forall id :: id in ids ==> id in objects && |objects[id]| < 256
    ensures |Tlvs(Objects(objects, ids))| == Size(objects, ids)
  {
    if ids != [] {
      var n := |ids| - 1;
      SizeIsLength(objects, ids[..n]);
      assert Objects(objects, ids)[..n] == Objects(objects, ids[..n]);
    }
  }

  lemma FragmentIsEncodable(objects: Table, ids: seq<byte>)
    requires forall id :: id in ids ==> id in objects
    requires Size(objects, ids) <= ROOM
    ensures Encodable(Objects(objects, ids))
    ensures |Tlvs(Objects(objects, ids))| == Size(objects, ids)
  {
    SizeCountsBytes(objects, ids);
    assert forall i :: 0 <= i < |ids| ==> ids[i] in ids;
    SizeIsLength(objects, ids);
  }

  lemma OneTlv(o: Object)
    requires |o.value| < 256
    ensures Tlvs([o]) == Tlv(o)
  {
    assert [o][..0] == [];
  }

  lemma FragmentFits(objects: Table, code: byte, start: byte)
    requires FragmentReply(objects, code, start).Data?
    ensures |FragmentReply(objects, code, start).payload| <= 6 + ROOM
  {
    hide Fit, Stream, AllSmall;
    FragmentIsEncodable(objects, Fit(objects, Stream(objects, code, start)).ids);
  }

  /** Every reply fits the 253-byte PDU, function code included. */
  lemma ReplyFits(given: Table, code: byte, objectID: byte)
    requires Answer(given, code, objectID).Data?
    ensures 1 + |Answer(given, code, objectID).payload| <= 253
  {
    hide FragmentReply, Completed;
    var objects := Completed(given);
    if IsStream(code) {
      FragmentFits(objects, code, StartId(objects, code, objectID));
    } else {
      OneTlv(Object(objectID, objects[objectID]));
    }
  }

  // ---------- The walk ----------

  /** The identifiers a client sees when it follows `nextObjectId` while `moreFollows`. */
  function Walk(objects: Table, code: byte, start: nat): seq<byte>
    requires start <= 256
    decreases 256 - start
  {
    var s := Stream(objects, code, start);
    if s == [] || !AllSmall(objects, s) then []
    else
      var f := Fit(objects, s);
      FitTakesOne(objects, s);
      f.ids + if f.next.Some? then Walk(objects, code, f.next.value) else []
  }

  /** What follows the first fragment is the stream from the object that did not fit. */
  lemma RestOfStream(objects: Table, code: byte, start: nat)
    requires AllSmall(objects, Stream(objects, code, start))
    requires Fit(objects, Stream(objects, code, start)).next.Some?
    ensures var s := Stream(objects, code, start);
            var f := Fit(objects, s);
            && start <= s[0] < f.next.value
            && s == f.ids + Stream(objects, code, f.next.value)
            && AllSmall(objects, Stream(objects, code, f.next.value))
  {
    hide Fit, Upto;
    var s := Stream(objects, code, start);
    FitTakesOne(objects, s);
    var k := |Fit(objects, s).ids|;
    StreamFrom(objects, code, start, k);
    assert forall id :: id in s[k..] ==> id in s;
  }

  /** Every object of the category, exactly once, in ascending order. */
  lemma {:induction false} WalkIsStream(objects: Table, code: byte, start: nat)
    requires start <= 256 && AllSmall(objects, Stream(objects, code, start))
    ensures Walk(objects, code, start) == Stream(objects, code, start)
    decreases 256 - start
  {
    hide Fit, Stream, AllSmall;
    var s := Stream(objects, code, start);
    if s != [] {
      FitTakesOne(objects, s);
      var f := Fit(objects, s);
      if f.next.Some? {
        RestOfStream(objects, code, start);
        WalkIsStream(objects, code, f.next.value);
      }
    }
  }
}
