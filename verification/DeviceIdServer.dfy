/** The slave's FC 43 / MEI 14 handler, and its responses on an RTU line. */
module DeviceIdServer {
  import opened Bytes
  import opened DeviceIdentification
  import RtuFraming
  import RtuRuns

  // ---------- The handler ----------

  /** The handler's answer to a request payload; `None` stands for a unit without an identification table. */
  function ReplyTo(given: Option<Table>, data: seq<byte>): Reply {
    if |data| != 3 || data[0] != MEI_READ_DEVICE_ID then IllegalDataValue
    else if !IsStream(data[1]) && data[1] != 4 then IllegalDataValue
    else if data[1] == 4 && 0x06 < data[2] < 0x80 then IllegalDataAddress
    else if given.None? then IllegalFunction
    else Answer(given.value, data[1], data[2])
  }

  /** `maxId` over the table, and the level it stands for. */
  method ConformityLevel(objects: Table) returns (level: byte)
    ensures level == Conformity(objects)
  {
    var maxId: byte := 0;
    for id := 0 to 256
      invariant maxId == 0 || maxId in objects
      invariant forall k :: k in objects && k < id ==> k <= maxId
    {
      var here: byte := id;
      if here in objects && here > maxId {
        maxId := here;
      }
    }
    assert maxId > 0 ==> maxId in objects;
    level := if maxId >= 0x80 then 0x83 else if maxId > 0x02 then 0x82 else 0x81;
  }

  /** Encodings of the first `i` objects. */
  function Printed(objects: Table, ids: seq<byte>, i: nat): seq<byte>
    requires i <= |ids|
    requires forall id :: id in ids ==> id in objects && |objects[id]| < 256
  {
    assert forall id :: id in ids[..i] ==> id in ids;
    Tlvs(Objects(objects, ids[..i]))
  }

  lemma PrintedGrows(objects: Table, ids: seq<byte>, i: nat)
    requires i < |ids|
    requires forall id :: id in ids ==> id in objects && |objects[id]| < 256
    ensures ids[i] in ids
    ensures Printed(objects, ids, i + 1) == Printed(objects, ids, i) + [ids[i], |objects[ids[i]]|] + objects[ids[i]]
  {
    var os := Objects(objects, ids[..i + 1]);
    assert os[..i] == Objects(objects, ids[..i]);
  }

  lemma {:induction false} PrintedFits(objects: Table, ids: seq<byte>, i: nat)
    requires i <= |ids|
    requires forall id :: id in ids ==> id in objects && |objects[id]| < 256
    ensures |Printed(objects, ids, i)| <= |Printed(objects, ids, |ids|)|
    decreases |ids| - i
  {
    hide Printed;
    if i < |ids| {
      PrintedGrows(objects, ids, i);
      PrintedFits(objects, ids, i + 1);
    }
  }

  lemma PrintedEnds(objects: Table, ids: seq<byte>)
    requires forall id :: id in ids ==> id in objects && |objects[id]| < 256
    ensures Printed(objects, ids, 0) == []
    ensures Printed(objects, ids, |ids|) == Tlvs(Objects(objects, ids))
  {
    assert ids[..0] == [] && Objects(objects, []) == [];
    assert ids[..|ids|] == ids;
  }

  /** Write `value` at `offset`. */
  method Write(data: array<byte>, value: seq<byte>, offset: nat)
    requires offset + |value| <= data.Length
    modifies data
    ensures data[..offset + |value|] == old(data[..offset]) + value
  {
    for k := 0 to |value|
      invariant data[..offset + k] == old(data[..offset]) + value[..k]
    {
      data[offset + k] := value[k];
    }
  }

  /** The response payload, filled in place field by field. */
  method Encode(objects: Table, code: byte, conformity: byte, ids: seq<byte>, lastID: byte) returns (data: array<byte>)
    requires forall id :: id in ids ==> id in objects
    requires Size(objects, ids) <= ROOM
    ensures Encodable(Objects(objects, ids))
    ensures data[..] == Payload(Header(code, conformity, if lastID == 0 then None else Some(lastID)), Objects(objects, ids))
  {
    hide Printed, Objects, Size, Tlvs;
    SizeCountsBytes(objects, ids);
    FragmentIsEncodable(objects, ids);
    PrintedEnds(objects, ids);
    var dataLength: nat := 6;
    for i := 0 to |ids|
      invariant dataLength == 6 + |Printed(objects, ids, i)|
    {
      PrintedGrows(objects, ids, i);
      dataLength := dataLength + 2 + |objects[ids[i]]|;
    }
    data := new byte[dataLength];
    var head: seq<byte> := [MEI_READ_DEVICE_ID, code, conformity, if lastID == 0 then 0x00 else 0xFF, lastID, |ids|];
    FillHeader(data, head);
    var offset: nat := 6;
    for i := 0 to |ids|
      invariant offset == 6 + |Printed(objects, ids, i)| <= data.Length
      invariant data[..offset] == head + Printed(objects, ids, i)
    {
      PrintedGrows(objects, ids, i);
      PrintedFits(objects, ids, i + 1);
      WriteObject(data, offset, ids[i], objects[ids[i]]);
      offset := offset + 2 + |objects[ids[i]]|;
    }
    PayloadFrom(head, objects, code, conformity, ids, lastID);
    assert data[..] == data[..offset];
  }

  lemma PayloadFrom(head: seq<byte>, objects: Table, code: byte, conformity: byte, ids: seq<byte>, lastID: byte)
    requires forall id :: id in ids ==> id in objects
    requires Encodable(Objects(objects, ids)) && |ids| < 256
    requires head == [MEI_READ_DEVICE_ID, code, conformity, if lastID == 0 then 0x00 else 0xFF, lastID, |ids|]
    ensures Payload(Header(code, conformity, if lastID == 0 then None else Some(lastID)), Objects(objects, ids))
         == head + Tlvs(Objects(objects, ids))
  {
    assert |Objects(objects, ids)| == |ids|;
  }

  method FillHeader(data: array<byte>, head: seq<byte>)
    requires 6 <= data.Length && |head| == 6
    modifies data
    ensures data[..6] == head
  {
    data[0], data[1], data[2], data[3], data[4], data[5] := head[0], head[1], head[2], head[3], head[4], head[5];
  }

  method WriteObject(data: array<byte>, offset: nat, id: byte, value: seq<byte>)
    requires |value| < 256 && offset + 2 + |value| <= data.Length
    modifies data
    ensures data[..offset + 2 + |value|] == old(data[..offset]) + [id, |value|] + value
  {
    Write(data, [id, |value|], offset);
    Write(data, value, offset + 2);
  }

  /** The whole handler. */
  method HandleFC43_14(given: Option<Table>, data: seq<byte>) returns (reply: Reply)
    ensures reply == ReplyTo(given, data)
  {
    hide Fit, Stream, Completed, Conformity, Payload, Size;
    if |data| != 3 || data[0] != MEI_READ_DEVICE_ID {
      return IllegalDataValue;
    }
    var code, objectID := data[1], data[2];
    if code == BASIC_STREAM {
      if objectID > 0x02 {
        objectID := 0;
      }
    } else if code == REGULAR_STREAM {
      if objectID > 0x06 {
        objectID := 0;
      }
    } else if code == EXTENDED_STREAM {
      if 0x06 < objectID < 0x80 {
        objectID := 0;
      }
    } else if code == 4 {
      if 0x06 < objectID < 0x80 {
        return IllegalDataAddress;
      }
    } else {
      return IllegalDataValue;
    }
    if given.None? {
      return IllegalFunction;
    }
    var ok := CheckKeys(given.value);
    if !ok {
      return ServerDeviceFailure;
    }
    var objects := WithDefaults(given.value);
    if objectID !in objects {
      if code == 4 {
        return IllegalDataAddress;
      }
      objectID := 0;
    }
    var level := ConformityLevel(objects);
    var fragment: Fragment;
    if code == 4 {
      if |objects[objectID]| > MAX_VALUE {
        return ServerDeviceFailure;
      }
      fragment := Fragment([objectID], None);
      OneObject(objects, objectID);
    } else {
      var filled := FillFragment(objects, code, objectID);
      if filled.None? {
        return ServerDeviceFailure;
      }
      fragment := filled.value;
      FragmentIsEncodable(objects, fragment.ids);
      BoundaryIsNotZero(objects, code, objectID);
    }
    var lastID: byte := if fragment.next.None? then 0 else fragment.next.value;
    var payload := Encode(objects, code, level, fragment.ids, lastID);
    reply := Data(payload[..]);
  }

  lemma BoundaryIsNotZero(objects: Table, code: byte, start: byte)
    requires AllSmall(objects, Stream(objects, code, start))
    ensures Fit(objects, Stream(objects, code, start)).next != Some(0)
  {
    hide Fit, Stream, AllSmall;
    var s := Stream(objects, code, start);
    if Fit(objects, s).next.Some? {
      NotTheFirst(objects, s);
    }
  }

  method CheckKeys(given: Table) returns (ok: bool)
    ensures ok == ValidKeys(given)
  {
    for id := 0x07 to 0x80
      invariant forall k :: k in given && 0x07 <= k < id ==> false
    {
      var key: byte := id;
      if key in given {
        return false;
      }
    }
    ok := true;
  }

  method WithDefaults(given: Table) returns (objects: Table)
    ensures objects == Completed(given)
  {
    objects := given;
    for id := 0 to 3
      invariant objects == map k: byte | k in given || k < id :: if k in given then given[k] else NULL_TEXT
    {
      var key: byte := id;
      if key !in objects {
        objects := objects[key := NULL_TEXT];
      }
    }
  }

  lemma OneObject(objects: Table, id: byte)
    requires id in objects && |objects[id]| <= MAX_VALUE
    ensures Size(objects, [id]) <= ROOM
    ensures Objects(objects, [id]) == [Object(id, objects[id])]
  {
    assert [id][..0] == [];
  }

  // ---------- On an RTU line ----------

  /** The encodings of the first objects are where the payload starts. */
  lemma {:induction false} TlvsPrefix(os: seq<Object>, k: nat)
    requires k <= |os| && forall i :: 0 <= i < |os| ==> |os[i].value| < 256
    ensures Tlvs(os[..k]) <= Tlvs(os)
    decreases |os|
  {
    if k < |os| {
      TlvsPrefix(os[..|os| - 1], k);
      assert os[..|os| - 1][..k] == os[..k];
    } else {
      assert os[..k] == os;
    }
  }

  lemma {:induction false} ObjectsFillPayload(os: seq<Object>, data: seq<byte>, k: nat)
    requires Encodable(os) && k <= |os|
    requires 6 <= |data| && data[6..] == Tlvs(os)
    ensures RtuRuns.ObjectsFill(data, 6 + |Tlvs(os[..k])|, |os| - k)
    decreases |os| - k
  {
    if k < |os| {
      TlvsPrefix(os, k + 1);
      assert os[..k + 1][..k] == os[..k];
      var here := Tlvs(os[..k]);
      assert Tlvs(os[..k + 1]) == here + Tlv(os[k]);
      assert data[6 + |here| + 1] == data[6..][|here| + 1] == Tlvs(os[..k + 1])[|here| + 1] == |os[k].value|;
      ObjectsFillPayload(os, data, k + 1);
    } else {
      assert os[..k] == os;
    }
  }

  /** Every response payload walks to exactly its end: the object walk of an RTU receiver frames it. */
  lemma PayloadIsLegal(h: Header, os: seq<Object>, unit: byte)
    requires Encodable(os) && |Payload(h, os)| <= 252
    ensures RtuRuns.Legal(RtuFraming.Master, RtuFraming.Frame(unit, 43, Payload(h, os)))
  {
    var data := Payload(h, os);
    assert data[6..] == Tlvs(os);
    assert os[..0] == [];
    ObjectsFillPayload(os, data, 0);
  }

  lemma ReplyIsPayload(given: Table, code: byte, objectID: byte) returns (h: Header, os: seq<Object>)
    requires Answer(given, code, objectID).Data?
    ensures Encodable(os) && Answer(given, code, objectID) == Data(Payload(h, os))
  {
    hide Fit, Stream, Size, Completed, Payload;
    var objects := Completed(given);
    if IsStream(code) {
      var f := Fit(objects, Stream(objects, code, StartId(objects, code, objectID)));
      FragmentIsEncodable(objects, f.ids);
      h, os := Header(code, Conformity(objects), f.next), Objects(objects, f.ids);
    } else {
      h, os := Header(code, Conformity(objects), None), [Object(objectID, objects[objectID])];
    }
  }

  /** Any identification response, cut into any chunks, reaches an RTU master whole. */
  lemma ReplyCrossesRtu(given: Table, code: byte, objectID: byte, unit: byte, chunks: seq<seq<byte>>)
    requires Answer(given, code, objectID).Data?
    requires Flatten(chunks) == RtuRuns.Encode(RtuFraming.Frame(unit, 43, Answer(given, code, objectID).payload))
    ensures RtuRuns.Run(RtuFraming.Master, [], chunks)
         == RtuFraming.Scanned([RtuFraming.Frame(unit, 43, Answer(given, code, objectID).payload)], [])
  {
    hide Answer, Payload, RtuRuns.Legal, RtuRuns.Encode;
    var f := RtuFraming.Frame(unit, 43, Answer(given, code, objectID).payload);
    ReplyFits(given, code, objectID);
    var h, os := ReplyIsPayload(given, code, objectID);
    PayloadIsLegal(h, os, unit);
    assert [f][1..] == [];
    assert RtuRuns.EncodeAll([]) == [];
    assert RtuRuns.EncodeAll([f]) == RtuRuns.Encode(f) + [];
    RtuRuns.LegalTrafficIsLossless(RtuFraming.Master, [f], chunks);
  }
}
