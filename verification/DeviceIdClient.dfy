/** The client side of FC 43 / MEI 14: the TLV parser and the walk over fragments. */
module DeviceIdClient {
  import opened Bytes
  import opened DeviceIdentification

  // ---------- The parser's state ----------

  /** The object under construction, as far as its bytes have arrived. */
  datatype Partial =
    | Empty
    | HasId(id: byte)
    | HasLength(id: byte, n: byte)
    | Collecting(id: byte, n: byte, value: seq<byte>)

  datatype State = State(objects: seq<Object>, current: Partial)

  /**
   * One byte. The first value byte is stored without asking whether the value is complete, so a
   * value of no bytes or of one is never closed.
   */
  function Take(s: State, v: byte): State {
    match s.current
    case Empty => State(s.objects, HasId(v))
    case HasId(id) => State(s.objects, HasLength(id, v))
    case HasLength(id, n) => State(s.objects, Collecting(id, n, [v]))
    case Collecting(id, n, value) =>
      if n == |value| + 1 then State(s.objects + [Object(id, value + [v])], Empty)
      else State(s.objects, Collecting(id, n, value + [v]))
  }

  function TakeAll(s: State, bytes: seq<byte>): State {
    if bytes == [] then s else Take(TakeAll(s, bytes[..|bytes| - 1]), bytes[|bytes| - 1])
  }

  lemma {:induction false} TakeAllSplits(s: State, a: seq<byte>, b: seq<byte>)
    ensures TakeAll(s, a + b) == TakeAll(TakeAll(s, a), b)
  {
    if b == [] {
      assert a + b == a;
    } else {
      var n := |b| - 1;
      assert (a + b)[..|a + b| - 1] == a + b[..n];
      TakeAllSplits(s, a, b[..n]);
    }
  }

  // ---------- What the state has read ----------

  function PartialBytes(p: Partial): seq<byte> {
    match p
    case Empty => []
    case HasId(id) => [id]
    case HasLength(id, n) => [id, n]
    case Collecting(id, n, value) => [id, n] + value
  }

  /** Values the parser can close. */
  predicate Closable(os: seq<Object>) {
    forall i :: 0 <= i < |os| ==> 2 <= |os[i].value| < 256
  }

  predicate HasRead(s: State, bytes: seq<byte>) {
    && Closable(s.objects)
    && bytes == Tlvs(s.objects) + PartialBytes(s.current)
    && (s.current.Collecting? ==> |s.current.value| >= 1)
  }

  lemma TakeReads(s: State, bytes: seq<byte>, v: byte)
    requires HasRead(s, bytes)
    ensures HasRead(Take(s, v), bytes + [v])
  {
    hide Tlvs, PartialBytes;
    var t := Take(s, v);
    if s.current.Collecting? && t.current.Empty? {
      var o := Object(s.current.id, s.current.value + [v]);
      TakeCloses(s.objects, s.current, v);
      assert bytes + [v] == Tlvs(s.objects) + (PartialBytes(s.current) + [v]);
    } else {
      TakeStays(s, v);
      assert bytes + [v] == Tlvs(s.objects) + (PartialBytes(s.current) + [v]);
    }
  }

  lemma TakeStays(s: State, v: byte)
    requires !(s.current.Collecting? && Take(s, v).current.Empty?)
    ensures Take(s, v).objects == s.objects && PartialBytes(Take(s, v).current) == PartialBytes(s.current) + [v]
    ensures Take(s, v).current.Collecting? ==> |Take(s, v).current.value| >= 1
  {
  }

  lemma TakeCloses(os: seq<Object>, p: Partial, v: byte)
    requires Closable(os) && p.Collecting? && 1 <= |p.value| && p.n == |p.value| + 1
    ensures var o := Object(p.id, p.value + [v]);
            && Closable(os + [o])
            && Tlvs(os + [o]) + PartialBytes(Empty) == Tlvs(os) + (PartialBytes(p) + [v])
  {
    var o := Object(p.id, p.value + [v]);
    assert (os + [o])[..|os|] == os;
    assert PartialBytes(p) + [v] == Tlv(o);
    assert Tlvs(os + [o]) == Tlvs(os) + Tlv(o);
  }

  /** The objects closed so far and the open one account for every byte read. */
  lemma {:induction false} ReadsEverything(bytes: seq<byte>)
    ensures HasRead(TakeAll(State([], Empty), bytes), bytes)
  {
    if bytes != [] {
      var n := |bytes| - 1;
      ReadsEverything(bytes[..n]);
      TakeReads(TakeAll(State([], Empty), bytes[..n]), bytes[..n], bytes[n]);
      assert bytes == bytes[..n] + [bytes[n]];
    }
  }

  // ---------- Reading back what was printed ----------

  /** A value of at least two bytes is closed by its last byte. */
  lemma {:induction false} ValueCloses(objects: seq<Object>, id: byte, n: byte, value: seq<byte>)
    requires 1 <= |value| <= n && n >= 2
    ensures TakeAll(State(objects, HasLength(id, n)), value)
         == if |value| == n then State(objects + [Object(id, value)], Empty) else State(objects, Collecting(id, n, value))
  {
    var k := |value| - 1;
    if k == 0 {
      assert value[..0] == [] && value == [value[0]];
    } else {
      ValueCloses(objects, id, n, value[..k]);
      assert value == value[..k] + [value[k]];
    }
  }

  lemma HeadBytes(objects: seq<Object>, id: byte, n: byte)
    ensures TakeAll(State(objects, Empty), [id, n]) == State(objects, HasLength(id, n))
  {
    assert [id, n][..1] == [id] && [id][..0] == [];
    assert TakeAll(State(objects, Empty), [id]) == State(objects, HasId(id));
  }

  lemma TlvCloses(objects: seq<Object>, o: Object)
    requires 2 <= |o.value| < 256
    ensures TakeAll(State(objects, Empty), Tlv(o)) == State(objects + [o], Empty)
  {
    TakeAllSplits(State(objects, Empty), [o.id, |o.value|], o.value);
    HeadBytes(objects, o.id, |o.value|);
    ValueCloses(objects, o.id, |o.value|, o.value);
  }

  lemma {:induction false} TlvsReadBack(os: seq<Object>)
    requires Closable(os)
    ensures TakeAll(State([], Empty), Tlvs(os)) == State(os, Empty)
  {
    if os != [] {
      var n := |os| - 1;
      TlvsReadBack(os[..n]);
      TakeAllSplits(State([], Empty), Tlvs(os[..n]), Tlv(os[n]));
      TlvCloses(os[..n], os[n]);
      assert os == os[..n] + [os[n]];
    }
  }

  /** The open object has passed its announced length and swallows every further byte. */
  predicate Stuck(p: Partial) {
    || (p.HasLength? && p.n == 0)
    || (p.Collecting? && |p.value| >= p.n && |p.value| >= 1)
  }

  lemma {:induction false} StuckForGood(s: State, bytes: seq<byte>)
    requires Stuck(s.current)
    ensures Stuck(TakeAll(s, bytes).current) && TakeAll(s, bytes).objects == s.objects
  {
    if bytes != [] {
      StuckForGood(s, bytes[..|bytes| - 1]);
    }
  }

  lemma ShortTlvSticks(objects: seq<Object>, o: Object)
    requires |o.value| < 2
    ensures var t := TakeAll(State(objects, Empty), Tlv(o));
            Stuck(t.current) && t.objects == objects
  {
    TakeAllSplits(State(objects, Empty), [o.id, |o.value|], o.value);
    HeadBytes(objects, o.id, |o.value|);
    if |o.value| == 1 {
      assert o.value[..0] == [];
    }
  }

  /** From the first value of fewer than two bytes on, nothing is closed any more. */
  lemma {:induction false} ShortValueSticks(os: seq<Object>)
    requires forall i :: 0 <= i < |os| ==> |os[i].value| < 256
    requires !Closable(os)
    ensures var t := TakeAll(State([], Empty), Tlvs(os));
            Stuck(t.current) && |t.objects| < |os|
  {
    hide TakeAll, Tlv;
    var n := |os| - 1;
    var s := TakeAll(State([], Empty), Tlvs(os[..n]));
    assert Tlvs(os) == Tlvs(os[..n]) + Tlv(os[n]);
    TakeAllSplits(State([], Empty), Tlvs(os[..n]), Tlv(os[n]));
    if Closable(os[..n]) {
      assert |os[n].value| < 2;
      TlvsReadBack(os[..n]);
      ShortTlvSticks(os[..n], os[n]);
    } else {
      ShortValueSticks(os[..n]);
      StuckForGood(s, Tlv(os[n]));
    }
  }

  // ---------- The parser ----------

  datatype ParseError = TooShort | Invalid | CountMismatch | LengthMismatch

  datatype Parsed =
    | Ok(code: byte, conformity: byte, moreFollows: bool, nextObjectId: byte, objects: seq<Object>)
    | Err(error: ParseError)

  /** Length of the closed objects' encodings, as the parser adds it up. */
  function TotalBytes(os: seq<Object>): nat {
    if os == [] then 0 else TotalBytes(os[..|os| - 1]) + 2 + |os[|os| - 1].value|
  }

  lemma {:induction false} TotalBytesIsLength(os: seq<Object>)
    requires forall i :: 0 <= i < |os| ==> |os[i].value| < 256
    ensures TotalBytes(os) == |Tlvs(os)|
  {
    if os != [] {
      TotalBytesIsLength(os[..|os| - 1]);
    }
  }

  function Parse(code: byte, data: seq<byte>): Parsed {
    if |data| < 6 then Err(TooShort)
    else if data[0] != MEI_READ_DEVICE_ID || data[1] != code then Err(Invalid)
    else
      var s := TakeAll(State([], Empty), data[6..]);
      if |s.objects| != data[5] then Err(CountMismatch)
      else if |data| != 6 + TotalBytes(s.objects) then Err(LengthMismatch)
      else Ok(code, data[2], data[3] == 0xFF, data[4], s.objects)
  }

  /** The loop over the payload, with the object under construction held in three locals. */
  method ParseResponse(code: byte, data: seq<byte>) returns (r: Parsed)
    ensures r == Parse(code, data)
  {
    if |data| < 6 {
      return Err(TooShort);
    }
    if data[0] != MEI_READ_DEVICE_ID || data[1] != code {
      return Err(Invalid);
    }
    var objects: seq<Object> := [];
    var head: seq<byte> := [];
    var value: Option<seq<byte>> := None;
    var totalBytes: nat := 0;
    var body := data[6..];
    hide Reading, TakeAll, TotalBytes;
    NothingRead();
    assert body[..0] == [];
    for i := 0 to |body|
      invariant |head| <= 2 && (value.Some? ==> |head| == 2)
      invariant Reading(body[..i], objects, head, value, totalBytes)
    {
      var v := body[i];
      ReadByte(body[..i], v, objects, head, value, totalBytes);
      assert body[..i + 1] == body[..i] + [v];
      if |head| < 2 {
        head := head + [v];
      } else if value.None? {
        value := Some([v]);
      } else {
        value := Some(value.value + [v]);
        if head[1] == |value.value| {
          objects := objects + [Object(head[0], value.value)];
          totalBytes := totalBytes + 2 + head[1];
          head, value := [], None;
        }
      }
    }
    assert body[..|body|] == body;
    HaveRead(body, objects, head, value, totalBytes);
    if |objects| != data[5] {
      return Err(CountMismatch);
    }
    if |data| != 6 + totalBytes {
      return Err(LengthMismatch);
    }
    r := Ok(code, data[2], data[3] == 0xFF, data[4], objects);
  }

  /** The three locals and the running total after the bytes `seen`. */
  predicate Reading(seen: seq<byte>, objects: seq<Object>, head: seq<byte>, value: Option<seq<byte>>, totalBytes: nat)
    requires |head| <= 2 && (value.Some? ==> |head| == 2)
  {
    && TakeAll(State([], Empty), seen) == State(objects, PartialOf(head, value))
    && totalBytes == TotalBytes(objects)
  }

  lemma NothingRead()
    ensures Reading([], [], [], None, 0)
  {
  }

  lemma HaveRead(seen: seq<byte>, objects: seq<Object>, head: seq<byte>, value: Option<seq<byte>>, totalBytes: nat)
    requires |head| <= 2 && (value.Some? ==> |head| == 2) && Reading(seen, objects, head, value, totalBytes)
    ensures TakeAll(State([], Empty), seen).objects == objects && totalBytes == TotalBytes(objects)
  {
  }

  lemma ReadByte(seen: seq<byte>, v: byte, objects: seq<Object>, head: seq<byte>, value: Option<seq<byte>>, totalBytes: nat)
    requires |head| <= 2 && (value.Some? ==> |head| == 2) && Reading(seen, objects, head, value, totalBytes)
    ensures var now := seen + [v];
            if |head| < 2 then Reading(now, objects, head + [v], None, totalBytes)
            else if value.None? then Reading(now, objects, head, Some([v]), totalBytes)
            else if head[1] != |value.value| + 1 then Reading(now, objects, head, Some(value.value + [v]), totalBytes)
            else Reading(now, objects + [Object(head[0], value.value + [v])], [], None, totalBytes + 2 + head[1])
  {
    hide TotalBytes;
    assert (seen + [v])[..|seen|] == seen;
    if |head| == 2 && value.Some? {
      TotalBytesSnoc(objects, Object(head[0], value.value + [v]));
    }
  }

  lemma TotalBytesSnoc(os: seq<Object>, o: Object)
    ensures TotalBytes(os + [o]) == TotalBytes(os) + 2 + |o.value|
  {
    assert (os + [o])[..|os|] == os;
  }

  function PartialOf(head: seq<byte>, value: Option<seq<byte>>): Partial
    requires |head| <= 2 && (value.Some? ==> |head| == 2)
  {
    if |head| == 0 then Empty
    else if |head| == 1 then HasId(head[0])
    else if value.None? then HasLength(head[0], head[1])
    else Collecting(head[0], head[1], value.value)
  }

  /** The objects printed in a payload: the parser returns `os` exactly when the payload is their encoding. */
  predicate Prints(data: seq<byte>, code: byte, os: seq<Object>) {
    && |data| >= 6
    && data[0] == MEI_READ_DEVICE_ID && data[1] == code
    && Closable(os) && data[5] == |os|
    && data[6..] == Tlvs(os)
  }

  /** On every payload, well formed or not. */
  lemma ParsesIffPrinted(code: byte, data: seq<byte>, os: seq<Object>)
    ensures Parse(code, data).Ok? && Parse(code, data).objects == os <==> Prints(data, code, os)
  {
    if |data| >= 6 && data[0] == MEI_READ_DEVICE_ID && data[1] == code {
      var body := data[6..];
      var s := TakeAll(State([], Empty), body);
      ReadsEverything(body);
      TotalBytesIsLength(s.objects);
      if Parse(code, data).Ok? {
        assert PartialBytes(s.current) == [];
      }
      if Prints(data, code, os) {
        TlvsReadBack(os);
      }
    }
  }

  /** The parser inverts the encoder exactly on values of two bytes and more. */
  lemma RoundTripIffTwoBytes(h: Header, os: seq<Object>)
    requires Encodable(os)
    ensures Closable(os) ==>
              Parse(h.code, Payload(h, os))
              == Ok(h.code, h.conformity, h.next.Some?, if h.next.Some? then h.next.value else 0, os)
    ensures !Closable(os) ==> Parse(h.code, Payload(h, os)) == Err(CountMismatch)
  {
    var data := Payload(h, os);
    assert data[6..] == Tlvs(os);
    if Closable(os) {
      TlvsReadBack(os);
      TotalBytesIsLength(os);
    } else {
      ShortValueSticks(os);
    }
  }

  /** A one-byte object value, which the slave sends and the master rejects. */
  lemma OneByteValueIsRejected(o: Object)
    requires |o.value| == 1
    ensures Parse(1, Payload(Header(1, 0x81, None), [o])) == Err(CountMismatch)
  {
    assert !Closable([o]) by { assert [o][0] == o; }
    RoundTripIffTwoBytes(Header(1, 0x81, None), [o]);
  }

  // ---------- The walk, end to end ----------

  /** Every value a stream holds is one the two ends can exchange. */
  predicate Exchangeable(objects: Table, s: seq<byte>) {
    forall id :: id in s && id in objects ==> 2 <= |objects[id]| <= MAX_VALUE
  }

  lemma NextIsItsOwnStart(objects: Table, code: byte, start: byte)
    requires ValidKeys(objects) && IsStream(code)
    requires FragmentReply(objects, code, start).Data?
    requires Fit(objects, Stream(objects, code, start)).next.Some?
    ensures var next := Fit(objects, Stream(objects, code, start)).next.value;
            StartId(objects, code, next) == next && start < next
  {
    hide Fit, Upto;
    RestOfStream(objects, code, start);
    assert Stream(objects, code, start)[0] in Stream(objects, code, start);
  }

  /** What a client gathers that starts at `objectID` and follows `nextObjectId` while `moreFollows`. */
  function Collected(given: Table, code: byte, objectID: byte): Option<seq<Object>>
    requires IsStream(code)
    decreases 256 - StartId(Completed(given), code, objectID)
  {
    var reply := Answer(given, code, objectID);
    if !reply.Data? then None
    else
      var p := Parse(code, reply.payload);
      if !p.Ok? then None
      else if !p.moreFollows then Some(p.objects)
      else
        FollowAdvances(given, code, objectID);
        var rest := Collected(given, code, p.nextObjectId);
        if rest.None? then None else Some(p.objects + rest.value)
  }

  lemma FragmentParsed(objects: Table, code: byte, start: byte)
    requires FragmentReply(objects, code, start).Data?
    ensures var f := Fit(objects, Stream(objects, code, start));
            var p := Parse(code, FragmentReply(objects, code, start).payload);
            && (p.Ok? <==> Exchangeable(objects, f.ids))
            && (p.Ok? ==>
                && p.objects == Objects(objects, f.ids)
                && p.moreFollows == f.next.Some?
                && (f.next.Some? ==> p.nextObjectId == f.next.value))
  {
    hide Fit, Size, Stream, Parse, Payload, Tlvs;
    var f := Fit(objects, Stream(objects, code, start));
    FragmentIsEncodable(objects, f.ids);
    RoundTripIffTwoBytes(Header(code, Conformity(objects), f.next), Objects(objects, f.ids));
    ClosableIffExchangeable(objects, f.ids);
  }

  lemma ClosableIffExchangeable(objects: Table, ids: seq<byte>)
    requires forall id :: id in ids ==> id in objects && |objects[id]| <= MAX_VALUE
    ensures Closable(Objects(objects, ids)) <==> Exchangeable(objects, ids)
  {
    var os := Objects(objects, ids);
    assert forall i :: 0 <= i < |ids| ==> ids[i] in ids && os[i].value == objects[ids[i]];
  }

  lemma FollowAdvances(given: Table, code: byte, objectID: byte)
    requires IsStream(code)
    requires Answer(given, code, objectID).Data?
    requires var p := Parse(code, Answer(given, code, objectID).payload); p.Ok? && p.moreFollows
    ensures var objects := Completed(given);
            var next := Parse(code, Answer(given, code, objectID).payload).nextObjectId;
            StartId(objects, code, next) == next && StartId(objects, code, objectID) < next
  {
    hide Fit, Stream, Parse, FragmentReply;
    var objects := Completed(given);
    var start := StartId(objects, code, objectID);
    FragmentParsed(objects, code, start);
    NextIsItsOwnStart(objects, code, start);
  }

  /**
   * Following the fragments from any requested object yields every object of the category from the
   * start object on, once each and in ascending order, exactly when all their values are 2 to 244 bytes.
   */
  lemma {:induction false} WalkCollectsStream(given: Table, code: byte, objectID: byte)
    requires IsStream(code) && ValidKeys(given)
    ensures var objects := Completed(given);
            var s := Stream(objects, code, StartId(objects, code, objectID));
            Collected(given, code, objectID)
            == if Exchangeable(objects, s) then Some(Objects(objects, s)) else None
    decreases 256 - StartId(Completed(given), code, objectID)
  {
    hide Fit, Stream, Parse, FragmentReply, Completed, StartId;
    var objects := Completed(given);
    CompletedKeys(given);
    var start := StartId(objects, code, objectID);
    var s := Stream(objects, code, start);
    if !AllSmall(objects, s) {
      TooLongIsRefused(objects, code, start);
    } else {
      FragmentIsSent(objects, code, start);
      var f := Fit(objects, s);
      FragmentParsed(objects, code, start);
      assert f.ids <= s;
      if f.next.None? {
      } else if Exchangeable(objects, f.ids) {
        RestOfStream(objects, code, start);
        NextIsItsOwnStart(objects, code, start);
        WalkCollectsStream(given, code, f.next.value);
        ObjectsJoin(objects, f.ids, Stream(objects, code, f.next.value));
      }
    }
  }

  lemma CompletedKeys(given: Table)
    requires ValidKeys(given)
    ensures ValidKeys(Completed(given))
  {
  }

  lemma TooLongIsRefused(objects: Table, code: byte, start: byte)
    requires !AllSmall(objects, Stream(objects, code, start))
    ensures FragmentReply(objects, code, start) == ServerDeviceFailure
    ensures !Exchangeable(objects, Stream(objects, code, start))
  {
    hide Fit, Stream;
  }

  lemma FragmentIsSent(objects: Table, code: byte, start: byte)
    requires AllSmall(objects, Stream(objects, code, start))
    ensures FragmentReply(objects, code, start).Data?
  {
    hide Fit, Stream;
  }

  lemma ObjectsJoin(objects: Table, a: seq<byte>, b: seq<byte>)
    requires forall id :: id in a || id in b ==> id in objects
    ensures Objects(objects, a + b) == Objects(objects, a) + Objects(objects, b)
    ensures Exchangeable(objects, a + b) <==> Exchangeable(objects, a) && Exchangeable(objects, b)
  {
    if Exchangeable(objects, a + b) {
      assert forall id :: id in a || id in b ==> id in a + b;
    }
  }

  /** Any client that starts at object 0 and any table whose values are 2 to 244 bytes. */
  lemma WalkFromZeroIsComplete(given: Table, code: byte, id: byte)
    requires IsStream(code) && ValidKeys(given)
    requires forall k :: k in given ==> 2 <= |given[k]| <= MAX_VALUE
    requires id in Completed(given) && InCategory(code, id)
    ensures Collected(given, code, 0).Some?
    ensures Object(id, Completed(given)[id]) in Collected(given, code, 0).value
  {
    hide Upto, Stream, Collected, Completed;
    var objects := Completed(given);
    var s := Stream(objects, code, 0);
    ZeroIsItsOwnStart(given, code);
    WalkCollectsStream(given, code, 0);
    InStream(objects, code, id);
    var k :| 0 <= k < |s| && s[k] == id;
    assert Objects(objects, s)[k] == Object(id, objects[id]);
  }

  lemma ZeroIsItsOwnStart(given: Table, code: byte)
    ensures StartId(Completed(given), code, 0) == 0
    ensures (forall k :: k in given ==> 2 <= |given[k]| <= MAX_VALUE) ==>
              forall id :: id in Completed(given) ==> 2 <= |Completed(given)[id]| <= MAX_VALUE
  {
  }

  lemma InStream(objects: Table, code: byte, id: byte)
    requires id in objects && InCategory(code, id)
    ensures id in Stream(objects, code, 0)
  {
    StreamIsComplete(objects, code, 0, 256, id);
  }
}
