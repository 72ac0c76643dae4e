/** FC 43 / MEI 14 replies by number: which object, which category, which level and which exception a request gets. */
module DeviceIdReplies {
  import opened Bytes
  import opened DeviceIdentification
  import opened DeviceIdClient
  import DeviceIdServer

  // ---------- Individual access ----------

  /** The object list of a well-formed reply with nothing to follow. */
  function Single(p: Parsed): Option<Object> {
    if p.Ok? && !p.moreFollows && |p.objects| == 1 then Some(p.objects[0]) else None
  }

  /** An individual access is answered with the object asked for, and read back as that object. */
  lemma IndividualAccess(given: Table, id: byte)
    requires ValidKeys(given) && id in given && 2 <= |given[id]| <= 244
    ensures Answer(given, 4, id).Data?
    ensures Single(Parse(4, Answer(given, 4, id).payload)) == Some(Object(id, given[id]))
  {
    var objects := Completed(given);
    RoundTripIffTwoBytes(Header(4, Conformity(objects), None), [Object(id, objects[id])]);
  }

  /** The three mandatory objects read "null" when the unit does not supply them. */
  lemma MandatoryObjects(given: Table, id: byte)
    requires ValidKeys(given) && id !in given && id <= 2
    ensures Answer(given, 4, id).Data?
    ensures Single(Parse(4, Answer(given, 4, id).payload)) == Some(Object(id, [110, 117, 108, 108]))
  {
    var objects := Completed(given);
    RoundTripIffTwoBytes(Header(4, Conformity(objects), None), [Object(id, objects[id])]);
  }

  /** What cannot be read individually, and why. */
  lemma IndividualAccessFails(given: Table, id: byte)
    ensures 7 <= id <= 127 ==> Answer(given, 4, id) == IllegalDataAddress
    ensures !(7 <= id <= 127) && !ValidKeys(given) ==> Answer(given, 4, id) == ServerDeviceFailure
    ensures !(7 <= id <= 127) && ValidKeys(given) && id !in given && id > 2 ==> Answer(given, 4, id) == IllegalDataAddress
    ensures !(7 <= id <= 127) && ValidKeys(given) && id in given && |given[id]| > 244 ==> Answer(given, 4, id) == ServerDeviceFailure
  {
  }

  lemma UnknownAccessCode(given: Table, code: byte, id: byte)
    requires code == 0 || code > 4
    ensures Answer(given, code, id) == IllegalDataValue
  {
  }

  // ---------- Streams ----------

  /** The identifiers of the basic, regular and extended stream. */
  lemma Categories(objects: Table, id: byte)
    requires id in objects
    ensures id in Stream(objects, 1, 0) <==> id <= 2
    ensures id in Stream(objects, 2, 0) <==> id <= 6
    ensures id in Stream(objects, 3, 0)
  {
    hide Upto;
    if id <= 2 {
      StreamIsComplete(objects, 1, 0, 256, id);
    }
    if id <= 6 {
      StreamIsComplete(objects, 2, 0, 256, id);
    }
    StreamIsComplete(objects, 3, 0, 256, id);
  }

  /** A request for an object outside the category, or for one that is missing, is answered from object 0 on. */
  lemma StreamRestartsAtZero(given: Table, code: byte, id: byte)
    requires ValidKeys(given) && 1 <= code <= 3
    requires id !in Completed(given) || (code == 1 && id > 2) || (code == 2 && id > 6)
    ensures Answer(given, code, id) == Answer(given, code, 0)
  {
    hide FragmentReply;
  }

  /** Any other request is answered from that object on. */
  lemma StreamStartsWhereAsked(given: Table, code: byte, id: byte)
    requires ValidKeys(given) && 1 <= code <= 3 && id in Completed(given)
    requires (code == 1 ==> id <= 2) && (code == 2 ==> id <= 6)
    requires forall k :: k in given ==> 2 <= |given[k]| <= 244
    ensures Answer(given, code, id).Data?
    ensures var p := Parse(code, Answer(given, code, id).payload);
            p.Ok? && |p.objects| > 0 && p.objects[0] == Object(id, Completed(given)[id])
  {
    hide Fit, Stream, Parse, Completed, AllSmall, FragmentReply;
    var objects := Completed(given);
    ShortValues(given);
    StartsAt(given, code, id);
    var s := Stream(objects, code, id);
    StreamHead(objects, code, id);
    SmallStream(objects, code, id);
    FragmentIsSent(objects, code, id);
    FragmentParsed(objects, code, id);
    FitTakesOne(objects, s);
    var f := Fit(objects, s);
    assert f.ids[0] == s[0];
    assert forall k :: k in f.ids ==> k in objects;
  }

  lemma ShortValues(given: Table)
    requires forall k :: k in given ==> 2 <= |given[k]| <= 244
    ensures forall k :: k in Completed(given) ==> 2 <= |Completed(given)[k]| <= 244
  {
  }

  lemma StartsAt(given: Table, code: byte, id: byte)
    requires ValidKeys(given) && 1 <= code <= 3 && id in Completed(given)
    requires (code == 1 ==> id <= 2) && (code == 2 ==> id <= 6)
    ensures Answer(given, code, id) == FragmentReply(Completed(given), code, id)
  {
    hide FragmentReply;
  }

  lemma StreamHead(objects: Table, code: byte, id: byte)
    requires id in objects && (code == 1 ==> id <= 2) && (code == 2 ==> id <= 6)
    ensures Stream(objects, code, id) != [] && Stream(objects, code, id)[0] == id
  {
    hide Upto;
    StreamIsComplete(objects, code, id, 256, id);
    LeastIsFirst(Stream(objects, code, id), id);
  }

  lemma SmallStream(objects: Table, code: byte, id: byte)
    requires forall k :: k in objects ==> 2 <= |objects[k]| <= 244
    ensures AllSmall(objects, Stream(objects, code, id)) && Exchangeable(objects, Stream(objects, code, id))
  {
  }

  /** A fragment stops only where the next object would exceed the 253-byte PDU. */
  lemma {:induction false} FragmentIsLongest(objects: Table, s: seq<byte>)
    requires forall id :: id in s ==> id in objects
    ensures var f := Fit(objects, s);
            f.next.Some? ==> 1 + 6 + Size(objects, f.ids) + 2 + |objects[f.next.value]| > 253
  {
    if s != [] {
      FragmentIsLongest(objects, s[..|s| - 1]);
    }
  }

  // ---------- The header ----------

  /** The conformity level tells the highest category present. */
  lemma Levels(objects: Table)
    ensures Conformity(objects) == 0x83 <==> exists id :: id in objects && id >= 0x80
    ensures Conformity(objects) == 0x82 <==> (exists id :: id in objects && 2 < id) && forall id :: id in objects ==> id < 0x80
    ensures Conformity(objects) == 0x81 <==> forall id :: id in objects ==> id <= 2
  {
  }

  /** Where each field of a response stands. */
  lemma PayloadHeader(h: Header, os: seq<Object>)
    requires Encodable(os)
    ensures var p := Payload(h, os);
            && |p| == 6 + |Tlvs(os)| && p[6..] == Tlvs(os)
            && p[0] == 0x0E && p[1] == h.code && p[2] == h.conformity
            && (if h.next.Some? then p[3] == 0xFF && p[4] == h.next.value else p[3] == 0 && p[4] == 0)
            && p[5] == |os|
  {
    hide Tlvs;
  }

  lemma PayloadFirstObject(h: Header, os: seq<Object>)
    requires Encodable(os) && os != []
    ensures |Payload(h, os)| >= 6 && [os[0].id, |os[0].value|] + os[0].value <= Payload(h, os)[6..]
  {
    FirstTlv(os);
    PayloadHeader(h, os);
    hide Tlvs, Payload;
  }

  lemma {:induction false} FirstTlv(os: seq<Object>)
    requires os != [] && forall i :: 0 <= i < |os| ==> |os[i].value| < 256
    ensures [os[0].id, |os[0].value|] + os[0].value <= Tlvs(os)
  {
    var n := |os| - 1;
    if n == 0 {
      assert os[..0] == [];
    } else {
      FirstTlv(os[..n]);
    }
  }

  // ---------- Requests the handler does not pass on ----------

  lemma MalformedRequests(given: Option<Table>, data: seq<byte>)
    ensures |data| != 3 || data[0] != 0x0E ==> DeviceIdServer.ReplyTo(given, data) == IllegalDataValue
    ensures |data| == 3 && data[0] == 0x0E && given.Some? ==>
              DeviceIdServer.ReplyTo(given, data) == Answer(given.value, data[1], data[2])
    ensures |data| == 3 && data[0] == 0x0E && given.None? && 1 <= data[1] <= 4 && (data[1] == 4 ==> !(7 <= data[2] <= 127)) ==>
              DeviceIdServer.ReplyTo(given, data) == IllegalFunction
  {
  }
}
