/** AsciiProtocolLayer: the in-place frame buffer, the whole-frame fast path and the byte FSM. */
module AsciiDecoder {
  import opened Bytes
  import opened AsciiFraming

  datatype Status = IdleStatus | ReceptionStatus | WaitingEndStatus

  class AsciiProtocolLayer {
    const lenientHex: bool
    const frame: array<byte>
    var status: Status
    var frameLen: nat
    var events: seq<Event>

    ghost predicate Valid()
      reads this, frame
    {
      && frame.Length == MAX_FRAME_LENGTH
      && frameLen <= MAX_FRAME_LENGTH
      && (status != IdleStatus ==> AllHex(lenientHex, frame[..frameLen]))
    }

    /** The machine's state; the buffer means nothing while idle. */
    ghost function State(): State
      requires Valid()
      reads this, frame
    {
      match status
      case IdleStatus => Idle
      case ReceptionStatus => Reception(Nibbles(lenientHex, frame[..frameLen]))
      case WaitingEndStatus => WaitingEnd(Nibbles(lenientHex, frame[..frameLen]))
    }

    constructor (lenientHex: bool)
      ensures Valid() && fresh(frame) && this.lenientHex == lenientHex
      ensures State() == Idle && events == []
    {
      this.lenientHex := lenientHex;
      frame := new byte[MAX_FRAME_LENGTH];
      status, frameLen, events := IdleStatus, 0, [];
    }

    method Flush()
      requires Valid()
      modifies this
      ensures Valid() && State() == Idle && events == old(events)
    {
      status, frameLen := IdleStatus, 0;
    }

    method Decode(data: seq<byte>)
      requires Valid()
      modifies this, frame
      ensures Valid()
      ensures var p := Fold(lenientHex, old(State()), data);
              State() == p.state && events == old(events) + p.events
    {
      hide Fold, Finish;
      if status == IdleStatus {
        var hit := TakeWhole(data);
        if hit {
          return;
        }
      }
      ghost var start := State();
      EmptyFold(lenientHex, start);
      assert data[..0] == [];
      for index := 0 to |data|
        invariant Valid()
        invariant State() == Fold(lenientHex, start, data[..index]).state
        invariant events == old(events) + Fold(lenientHex, start, data[..index]).events
      {
        assert data[..index + 1] == data[..index] + [data[index]];
        FoldSnoc(lenientHex, start, data[..index], data[index]);
        Take(data[index]);
      }
      assert data[..|data|] == data;
    }

    /** One byte through the state machine. */
    method Take(value: byte)
      requires Valid()
      modifies this, frame
      ensures Valid()
      ensures var p := Step(lenientHex, old(State()), value);
              State() == p.state && events == old(events) + p.events
    {
      hide Finish, Hex, IsHex;
      match status {
        case IdleStatus =>
          if value == COLON {
            status, frameLen := ReceptionStatus, 0;
            assert Nibbles(lenientHex, frame[..0]) == [];
          }
        case ReceptionStatus =>
          TakeHex(value);
        case WaitingEndStatus =>
          if value == COLON {
            status, frameLen := ReceptionStatus, 0;
            assert Nibbles(lenientHex, frame[..0]) == [];
          } else {
            status := IdleStatus;
            if value == LF {
              var event := Complete();
              events := events + [event];
            }
          }
      }
    }

    method TakeHex(value: byte)
      requires Valid() && status == ReceptionStatus
      modifies this, frame
      ensures Valid()
      ensures var p := Step(lenientHex, old(State()), value);
              State() == p.state && events == old(events) + p.events
    {
      hide Finish;
      NibblesLength(lenientHex, frame[..frameLen]);
      if value == COLON {
        frameLen := 0;
        assert Nibbles(lenientHex, frame[..0]) == [];
      } else if value == CR {
        status := WaitingEndStatus;
      } else if frameLen >= MAX_FRAME_LENGTH {
        status, frameLen := IdleStatus, 0;
        events := events + [ErrorEvent(FrameTooLong)];
      } else if Hex(lenientHex, value) > 15 {
        status, frameLen := IdleStatus, 0;
        events := events + [ErrorEvent(HexCharacterInvalid)];
      } else {
        NibblesSnoc(lenientHex, frame[..frameLen], value);
        frame[frameLen] := value;
        assert frame[..frameLen + 1] == old(frame[..frameLen]) + [value];
        frameLen := frameLen + 1;
      }
    }

    /** The buffer holds a complete hex body: check and report it. */
    method Complete() returns (event: Event)
      requires frameLen <= frame.Length && AllHex(lenientHex, frame[..frameLen])
      ensures event == Finish(Nibbles(lenientHex, frame[..frameLen]))
    {
      hide Hex, IsHex, AllHex, Pairs, Nibbles, Report, Sum;
      ghost var body := Nibbles(lenientHex, frame[..frameLen]);
      NibblesLength(lenientHex, frame[..frameLen]);
      if frameLen < 6 {
        return ErrorEvent(FrameLengthInsufficient);
      }
      if frameLen % 2 != 0 {
        return ErrorEvent(FrameLengthInvalid);
      }
      var byteLen := frameLen / 2;
      ghost var bytes := Pairs(body);
      PairsLength(body);
      var unit := PairAt(0);
      var fc := PairAt(2);
      var lrcIn := PairAt(frameLen - 2);
      var payload: seq<byte> := [];
      var sum: nat := unit as int + fc;
      SumOfTwo(unit, fc);
      for j := 0 to byteLen - 3
        invariant [unit, fc] + payload == bytes[..2 + j]
        invariant sum == Sum([unit, fc] + payload)
      {
        var b := PairAt(4 + 2 * j);
        SumSnoc([unit, fc] + payload, b);
        assert [unit, fc] + payload + [b] == [unit, fc] + (payload + [b]);
        payload := payload + [b];
        sum := sum + b;
      }
      assert bytes == [unit, fc] + payload + [lrcIn];
      event := Judge(unit, fc, payload, lrcIn, sum);
    }

    lemma PairsLength(body: seq<nibble>)
      ensures |Pairs(body)| == |body| / 2
    {
    }

    lemma SumOfTwo(a: byte, b: byte)
      ensures Sum([a, b] + []) == a + b
    {
      assert [a, b] + [] == [] + [a] + [b];
      SumSnoc([], a);
      SumSnoc([] + [a], b);
    }

    /** `(hexTable[frame[at]] << 4) | hexTable[frame[at + 1]]` */
    method PairAt(at: nat) returns (b: byte)
      requires frameLen <= frame.Length && AllHex(lenientHex, frame[..frameLen])
      requires at % 2 == 0 && at + 1 < frameLen
      ensures b == Pairs(Nibbles(lenientHex, frame[..frameLen]))[at / 2]
    {
      ghost var chars := frame[..frameLen];
      assert IsHex(lenientHex, chars[at]) && IsHex(lenientHex, chars[at + 1]);
      assert at == 2 * (at / 2);
      b := Pair(Hex(lenientHex, frame[at]), Hex(lenientHex, frame[at + 1]));
    }

    /** Fast path: the machine is idle and the chunk is exactly one well-formed line. */
    method TakeWhole(data: seq<byte>) returns (hit: bool)
      requires Valid() && status == IdleStatus
      modifies this`events
      ensures Valid() && status == IdleStatus
      ensures hit ==> Fold(lenientHex, Idle, data).state == Idle
      ensures hit ==> events == old(events) + Fold(lenientHex, Idle, data).events
      ensures !hit ==> events == old(events)
    {
      hide Fold, Finish, Hex;
      var dataLen := |data|;
      if dataLen < 9 || dataLen > MAX_FRAME_LENGTH + 3 || dataLen % 2 == 0 {
        return false;
      }
      if data[0] != COLON || data[dataLen - 2] != CR || data[dataLen - 1] != LF {
        return false;
      }
      var event;
      hit, event := ParseLine(data);
      if hit {
        var chars := data[1..dataLen - 2];
        assert data == [COLON] + chars + [CR, LF];
        WholeFrame(lenientHex, Idle, chars);
        events := events + [event];
      }
    }

    /** Two hex digits of the chunk at `at`, following `seen` on the line. */
    method DigitsAt(data: seq<byte>, at: nat, ghost seen: seq<byte>) returns (valid: bool, b: byte)
      requires at + 1 < |data|
      requires |seen| % 2 == 0 && AllHex(lenientHex, seen)
      ensures valid == AllHex(lenientHex, seen + data[at..at + 2])
      ensures valid ==>
                Pairs(Nibbles(lenientHex, seen + data[at..at + 2])) == Pairs(Nibbles(lenientHex, seen)) + [b]
    {
      var hi, lo := Hex(lenientHex, data[at]), Hex(lenientHex, data[at + 1]);
      PairsGrow(lenientHex, seen, data[at], data[at + 1]);
      assert data[at..at + 2] == [data[at], data[at + 1]];
      valid := hi <= 15 && lo <= 15;
      b := if valid then Pair(hi, lo) else 0;
    }

    /** Decode the characters between the colon and the line end, unless one is no digit. */
    method ParseLine(data: seq<byte>) returns (valid: bool, event: Event)
      requires 9 <= |data| && |data| % 2 == 1
      ensures var chars := data[1..|data| - 2];
              valid ==> AllHex(lenientHex, chars) && event == Finish(Nibbles(lenientHex, chars))
    {
      hide Hex, IsHex, AllHex, Pairs, Nibbles, Report, Sum;
      var n := (|data| - 3) / 2;
      event := ErrorEvent(FrameLengthInvalid);
      var unit: byte, fc: byte, b: byte, lrcIn: byte := 0, 0, 0, 0;
      NothingDecodes(lenientHex);
      assert data[1..1] == [];
      valid, unit := DigitsAt(data, 1, data[1..1]);
      if !valid {
        return;
      }
      Lengthen(data, 1);
      valid, fc := DigitsAt(data, 3, data[1..3]);
      if !valid {
        return;
      }
      Lengthen(data, 3);
      var payload: seq<byte> := [];
      var sum: nat := unit + fc;
      SumOfTwo(unit, fc);
      for i := 0 to n - 3
        invariant AllHex(lenientHex, data[1..5 + 2 * i])
        invariant Pairs(Nibbles(lenientHex, data[1..5 + 2 * i])) == [unit, fc] + payload
        invariant sum == Sum([unit, fc] + payload)
      {
        valid, b := DigitsAt(data, 5 + 2 * i, data[1..5 + 2 * i]);
        if !valid {
          return;
        }
        Lengthen(data, 5 + 2 * i);
        SumSnoc([unit, fc] + payload, b);
        assert [unit, fc] + payload + [b] == [unit, fc] + (payload + [b]);
        payload := payload + [b];
        sum := sum + b;
      }
      valid, lrcIn := DigitsAt(data, 2 * n - 1, data[1..2 * n - 1]);
      if !valid {
        return;
      }
      Lengthen(data, 2 * n - 1);
      event := Judge(unit, fc, payload, lrcIn, sum);
      NibblesLength(lenientHex, data[1..2 * n + 1]);
    }

    lemma Lengthen(data: seq<byte>, at: nat)
      requires 1 <= at && at + 2 <= |data|
      ensures data[1..at] + data[at..at + 2] == data[1..at + 2]
    {
    }

    method Judge(unit: byte, fc: byte, payload: seq<byte>, lrcIn: byte, sum: nat) returns (event: Event)
      requires sum == Sum([unit, fc] + payload)
      ensures event == Report([unit, fc] + payload + [lrcIn])
    {
      ghost var bytes := [unit, fc] + payload + [lrcIn];
      assert bytes[..|bytes| - 1] == [unit, fc] + payload;
      assert bytes[2..|bytes| - 1] == payload;
      event := if Lrc(sum) == lrcIn then FrameEvent(Frame(unit, fc, payload)) else ErrorEvent(LrcCheckFailed(fc));
    }
  }

  // ---------- Whole transmissions ----------

  /** Feeding the decoder chunk by chunk is running the machine over the whole stream. */
  method Receive(layer: AsciiProtocolLayer, chunks: seq<seq<byte>>)
    requires layer.Valid()
    modifies layer, layer.frame
    ensures layer.Valid()
    ensures var p := Fold(layer.lenientHex, old(layer.State()), Flatten(chunks));
            layer.State() == p.state && layer.events == old(layer.events) + p.events
  {
    hide Fold;
    ghost var all := Fold(layer.lenientHex, layer.State(), Flatten(chunks));
    for i := 0 to |chunks|
      invariant layer.Valid()
      invariant var p := Fold(layer.lenientHex, layer.State(), Flatten(chunks[i..]));
                all.state == p.state && old(layer.events) + all.events == layer.events + p.events
    {
      assert chunks[i..][1..] == chunks[i + 1..];
      FoldResumes(layer.lenientHex, layer.State(), chunks[i], Flatten(chunks[i + 1..]));
      layer.Decode(chunks[i]);
    }
    EmptyFold(layer.lenientHex, layer.State());
  }

  function EncodeAll(fs: seq<Frame>): seq<byte> {
    if fs == [] then [] else EncodeAll(fs[..|fs| - 1]) + Encode(fs[|fs| - 1])
  }

  function Expected(fs: seq<Frame>): seq<Event> {
    seq(|fs|, i requires 0 <= i < |fs| =>
        if |fs[i].data| <= 253 then FrameEvent(fs[i]) else ErrorEvent(FrameTooLong))
  }

  /** Encoded traffic yields its frames in order, even when reception starts in the middle of something else. */
  lemma {:induction false} TrafficSynchronises(lenient: bool, state: State, fs: seq<Frame>)
    requires fs != []
    ensures Fold(lenient, state, EncodeAll(fs)) == Progress(Idle, Expected(fs))
    decreases |fs|
  {
    hide Encode, Fold;
    var n := |fs| - 1;
    var before := EncodeAll(fs[..n]);
    FoldResumes(lenient, state, before, Encode(fs[n]));
    EncodedFrameSynchronises(lenient, Fold(lenient, state, before).state, fs[n]);
    if n == 0 {
      EmptyFold(lenient, state);
    } else {
      TrafficSynchronises(lenient, state, fs[..n]);
    }
    assert Expected(fs) == Expected(fs[..n]) + Expected(fs)[n..];
  }
}
