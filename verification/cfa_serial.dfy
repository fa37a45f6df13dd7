/** Writing packets, and stuffing incoming bytes into packets. */
module CfaSerial {
  import opened Wrappers
  import opened CfaPacket

  datatype PktError = UnexpectedEOF | EPacket | EInvalid

  datatype Message = Message(command: Command, data: seq<bv8>)

  /** A message that GetPacket takes, if its checksum is right. */
  predicate Incoming(m: Message) {
    |m.data| <= MAX_DATA_LENGTH && Handled(m.command)
  }

  predicate Handled(cmd: Command) {
    match TypeOf(cmd)
    case CFReport => cmd == REPORT_KEY
    case CFResponse => true
    case CFError => false
    case CFCommand => false
  }

  /** Responses to commands, and the report of a key. */
  lemma HandledIff(cmd: Command)
    ensures Handled(cmd) <==> 0x40 <= cmd <= 0x80
    ensures TypeOf(cmd) == CFCommand <==> cmd < 0x40
  {
  }

  // ---------------------------------------------------------------- wire format

  function Body(m: Message): seq<bv8>
    requires |m.data| <= MAX_DATA_LENGTH
  {
    [m.command, |m.data| as bv8] + m.data
  }

  function Length(b: bv8): nat { b as int }

  function HighByteOf(v: bv16): bv8 { (v >> 8) as bv8 }

  function LowByteOf(v: bv16): bv8 { (v & 0xff) as bv8 }

  function Encode(m: Message): (e: seq<bv8>)
    requires |m.data| <= MAX_DATA_LENGTH
    ensures |e| == |m.data| + 4
  {
    var crc := Crc(Body(m));
    Body(m) + [HighByteOf(crc), LowByteOf(crc)]
  }

  /** What the first bytes of the input amount to. */
  function Parse(s: seq<bv8>): Result<Message, PktError> {
    if |s| < 2 then Err(UnexpectedEOF)
    else if !Handled(s[0]) then Err(EPacket)
    else
      var len := Length(s[1]);
      if len > MAX_DATA_LENGTH then Err(EPacket)
      else if |s| < len + 4 then Err(UnexpectedEOF)
      else if BigEndian16(s[len + 2], s[len + 3]) != Crc(s[..len + 2]) then Err(EInvalid)
      else Ok(Message(s[0], s[2..len + 2]))
  }

  // ---------------------------------------------------------------- packets

  class Packet {
    var command: Command
    var dataLength: bv8
    var data: array<bv8>
    var crc: bv16

    constructor ()
      ensures Valid() && fresh(data) && command == 0 && dataLength == 0 && crc == 0
    {
      command, dataLength, crc := 0, 0, 0;
      data := new bv8[MAX_DATA_LENGTH](_ => 0);
    }

    ghost predicate Valid()
      reads this
    {
      data.Length == MAX_DATA_LENGTH
    }

    ghost predicate InBounds()
      reads this
    {
      Valid() && Length(dataLength) <= MAX_DATA_LENGTH
    }

    ghost function Value(): Message
      requires InBounds()
      reads this, data
    {
      Message(command, data[..Length(dataLength)])
    }

    method SetCommand(cmd: Command) returns (ok: bool)
      modifies this`command
      ensures ok <==> cmd < 0x40
      ensures command == if ok then cmd else old(command)
    {
      ok := cmd & 0xC0 == 0;
      CommandBits(cmd);
      HandledIff(cmd);
      if ok {
        command := cmd;
      }
    }

    method SetData(bytes: seq<bv8>) returns (ok: bool)
      requires Valid()
      modifies this`dataLength, data
      ensures ok <==> |bytes| <= 22
      ensures ok ==> InBounds() && Value() == Message(command, bytes)
      ensures !ok ==> dataLength == old(dataLength) && data[..] == old(data[..])
    {
      if |bytes| > MAX_DATA_LENGTH {
        return false;
      }
      dataLength := |bytes| as bv8;
      LengthByte(|bytes|);
      forall i | 0 <= i < |bytes| {
        data[i] := bytes[i];
      }
      assert data[..|bytes|] == bytes;
      ok := true;
    }

    /** The checksum of the packet and the bytes it covers; a length out of range has none. */
    method CrcBuf() returns (r: Option<(bv16, seq<bv8>)>)
      requires Valid()
      ensures r.Some? <==> InBounds()
      ensures r.Some? ==> r.value.1 == Body(Value()) && r.value.0 == Crc(r.value.1)
    {
      if data.Length < Length(dataLength) {
        return None;
      }
      var buf := [command];
      buf := buf + [dataLength];
      buf := buf + data[..Length(dataLength)];
      LengthValue(dataLength);
      assert buf == Body(Value());
      var crc := CfCrc(buf);
      return Some((crc, buf));
    }

    method Buf() returns (r: Option<seq<bv8>>)
      requires Valid()
      ensures r == if InBounds() then Some(Encode(Value())) else None
    {
      var c := CrcBuf();
      match c
      case None => r := None;
      case Some((sum, buf)) => r := Some(buf + [HighByteOf(sum), LowByteOf(sum)]);
    }

    method Validate() returns (valid: bool)
      requires Valid()
      ensures valid <==> InBounds() && crc == Crc(Body(Value()))
    {
      var c := CrcBuf();
      valid := c.Some? && c.value.0 == crc;
    }
  }

  lemma CommandBits(cmd: Command)
    ensures cmd & 0xC0 == 0 <==> TypeOf(cmd) == CFCommand
  {
    assert cmd & 0xC0 == 0 <==> cmd >> 6 == 0;
  }

  lemma LengthByte(n: nat)
    requires n <= MAX_DATA_LENGTH
    ensures Length(n as bv8) == n
  {
  }

  lemma LengthValue(b: bv8)
    ensures Length(b) < 256 && Length(b) as bv8 == b
  {
  }

  // ---------------------------------------------------------------- reading

  /** The serial line: bytes still to come, then end of file. */
  class Reader {
    var rest: seq<bv8>

    constructor (bytes: seq<bv8>)
      ensures rest == bytes
    {
      rest := bytes;
    }

    /** Reads until `n` bytes are there or the input ends. */
    method ReadUpTo(n: nat) returns (bytes: seq<bv8>)
      modifies this
      ensures var k := if n <= |old(rest)| then n else |old(rest)|;
              bytes == old(rest)[..k] && rest == old(rest)[k..]
    {
      var k := if n <= |rest| then n else |rest|;
      bytes, rest := rest[..k], rest[k..];
    }

    /** Drops what has arrived so far, which may be any part of the input. */
    method Flush()
      modifies this
      ensures |rest| <= |old(rest)| && rest == old(rest)[|old(rest)| - |rest|..]
    {
      var k :| 0 <= k <= |rest|;
      rest := rest[k..];
    }
  }

  method GetPacket(r: Reader) returns (p: Packet?, err: Option<PktError>)
    modifies r
    ensures Outcome(old(r.rest), r.rest, p, err) && (p != null ==> fresh(p))
  {
    hide Handled, Crc, BigEndian16, Parse, Length;
    ParseHead(r.rest);
    var buf := r.ReadUpTo(2);
    if |buf| != 2 {
      return null, Some(UnexpectedEOF);
    }
    var cmd := buf[0];
    if !Handled(cmd) || Length(buf[1]) > MAX_DATA_LENGTH {
      r.Flush();
      return null, Some(EPacket);
    }
    assert old(r.rest) == [cmd, buf[1]] + r.rest;
    ParsePayload(cmd, buf[1], r.rest);
    p, err := ReadPayload(r, cmd, buf[1]);
  }

  /** What GetPacket reports, given the input before and after. */
  ghost predicate Outcome(s: seq<bv8>, rest: seq<bv8>, p: Packet?, err: Option<PktError>)
    reads if p == null then {} else {p, p.data}
  {
    match Parse(s)
    case Ok(m) => err == None && p != null && p.InBounds() && p.Value() == m && rest == s[|m.data| + 4..]
    case Err(e) =>
      && err == Some(e)
      && |rest| <= |s| && rest == s[|s| - |rest|..]
      && (e == UnexpectedEOF ==> rest == [])
      && (e == EInvalid ==> |s| - |rest| == Length(s[1]) + 4)
  }

  /** The part of GetPacket after the command and the length. */
  method ReadPayload(r: Reader, cmd: Command, length: bv8) returns (p: Packet?, err: Option<PktError>)
    requires Handled(cmd) && Length(length) <= MAX_DATA_LENGTH
    modifies r
    ensures p != null ==> fresh(p)
    ensures var rest, len := old(r.rest), Length(length);
            if |rest| < len + 2 then err == Some(UnexpectedEOF) && r.rest == []
            else
              && r.rest == rest[len + 2..]
              && if BigEndian16(rest[len], rest[len + 1]) == Crc([cmd, length] + rest[..len])
                 then err == None && p != null && p.InBounds() && p.Value() == Message(cmd, rest[..len])
                 else err == Some(EInvalid)
  {
    hide Handled, Crc, BigEndian16, Parse, Length;
    var len := Length(length);
    p := new Packet();
    p.command, p.dataLength := cmd, length;
    var data := r.ReadUpTo(len);
    if |data| != len {
      return p, Some(UnexpectedEOF);
    }
    forall i | 0 <= i < len {
      p.data[i] := data[i];
    }
    assert p.data[..len] == data;
    var crcbytes := r.ReadUpTo(2);
    if |crcbytes| != 2 {
      return p, Some(UnexpectedEOF);
    }
    p.crc := BigEndian16(crcbytes[0], crcbytes[1]);
    LengthValue(length);
    var valid := p.Validate();
    if !valid {
      return null, Some(EInvalid);
    }
    return p, None;
  }

  /** Inputs that are turned away before any data is read. */
  lemma ParseHead(s: seq<bv8>)
    ensures |s| < 2 ==> Parse(s) == Err(UnexpectedEOF)
    ensures |s| >= 2 && (!Handled(s[0]) || Length(s[1]) > MAX_DATA_LENGTH) ==> Parse(s) == Err(EPacket)
  {
  }

  /** Parsing in terms of what follows the command and the length. */
  lemma ParsePayload(cmd: Command, length: bv8, rest: seq<bv8>)
    requires Handled(cmd) && Length(length) <= MAX_DATA_LENGTH
    ensures var len := Length(length);
            Parse([cmd, length] + rest) ==
              if |rest| < len + 2 then Err(UnexpectedEOF)
              else if BigEndian16(rest[len], rest[len + 1]) != Crc([cmd, length] + rest[..len]) then Err(EInvalid)
              else Ok(Message(cmd, rest[..len]))
  {
    hide Handled, Crc, BigEndian16, Length;
    var s, len := [cmd, length] + rest, Length(length);
    if |rest| >= len + 2 {
      assert s[..len + 2] == [cmd, length] + rest[..len];
      assert s[2..len + 2] == rest[..len];
    }
  }

  // ---------------------------------------------------------------- round trips

  lemma CrcBytes(v: bv16)
    ensures BigEndian16(HighByteOf(v), LowByteOf(v)) == v
  {
  }

  lemma EncodedSplit(m: Message, tail: seq<bv8>)
    requires |m.data| <= MAX_DATA_LENGTH
    ensures var crc := Crc(Body(m));
            Encode(m) + tail == [m.command, |m.data| as bv8] + (m.data + [HighByteOf(crc), LowByteOf(crc)] + tail)
  {
    hide Crc, HighByteOf, LowByteOf;
  }

  /** An encoded message is parsed back, whatever follows it. */
  lemma ParseEncoded(m: Message, tail: seq<bv8>)
    requires 0x40 <= m.command <= 0x80 && |m.data| <= 22
    ensures Parse(Encode(m) + tail) == Ok(m)
  {
    hide Handled, Crc, BigEndian16, Length, Parse, HighByteOf, LowByteOf;
    HandledIff(m.command);
    var n, crc := |m.data|, Crc(Body(m));
    var rest := m.data + [HighByteOf(crc), LowByteOf(crc)] + tail;
    LengthByte(n);
    CrcBytes(crc);
    assert Body(m) == [m.command, n as bv8] + m.data;
    EncodedSplit(m, tail);
    assert rest[..n] == m.data && rest[n] == HighByteOf(crc) && rest[n + 1] == LowByteOf(crc);
    ParsePayload(m.command, n as bv8, rest);
  }

  lemma CrcSplit(x: bv8, y: bv8, v: bv16)
    requires BigEndian16(x, y) == v
    ensures x == HighByteOf(v) && y == LowByteOf(v)
  {
  }

  /** Nothing but an encoding of an incoming message is parsed. */
  lemma OnlyEncodingsParse(s: seq<bv8>)
    requires Parse(s).Ok?
    ensures var m := Parse(s).value; Incoming(m) && |m.data| + 4 <= |s| && s[..|m.data| + 4] == Encode(m)
    ensures var m := Parse(s).value; m.command == s[0] && 0x40 <= s[0] <= 0x80 && |m.data| == s[1] as int <= 22
  {
    hide Handled, Crc, BigEndian16, HighByteOf, LowByteOf;
    HandledIff(s[0]);
    var m := Parse(s).value;
    var n := |m.data|;
    LengthValue(s[1]);
    assert Body(m) == s[..n + 2];
    CrcSplit(s[n + 2], s[n + 3], Crc(Body(m)));
    assert s[..n + 4] == s[..n + 2] + [s[n + 2], s[n + 3]];
  }

  function EncodeAll(ms: seq<Message>): seq<bv8>
    requires forall k | 0 <= k < |ms| :: Incoming(ms[k])
  {
    if |ms| == 0 then [] else assert Incoming(ms[0]); Encode(ms[0]) + EncodeAll(ms[1..])
  }

  /** The messages that successive calls of GetPacket deliver, up to the first error. */
  function ParseAll(s: seq<bv8>): seq<Message>
    decreases |s|
  {
    match Parse(s)
    case Err(_) => []
    case Ok(m) => if |m.data| + 4 <= |s| then [m] + ParseAll(s[|m.data| + 4..]) else []
  }

  /** A stream of packets comes back as the same messages in order. */
  lemma {:induction false} StreamRoundTrip(ms: seq<Message>, tail: seq<bv8>)
    requires forall k | 0 <= k < |ms| :: Incoming(ms[k])
    requires Parse(tail).Err?
    ensures ParseAll(EncodeAll(ms) + tail) == ms
  {
    hide Parse, Handled, Encode;
    if ms == [] {
      assert EncodeAll(ms) + tail == tail;
    } else {
      var after := EncodeAll(ms[1..]) + tail;
      assert EncodeAll(ms) + tail == Encode(ms[0]) + after;
      HandledIff(ms[0].command);
      ParseEncoded(ms[0], after);
      assert (Encode(ms[0]) + after)[|ms[0].data| + 4..] == after;
      StreamRoundTrip(ms[1..], tail);
    }
  }

  // ---------------------------------------------------------------- damaged packets

  /** A packet is taken exactly when it is incoming and leaves the residue. */
  lemma ParseIffResidue(s: seq<bv8>)
    requires |s| >= 2 && Handled(s[0]) && Length(s[1]) <= MAX_DATA_LENGTH && Length(s[1]) + 4 <= |s|
    ensures Parse(s).Ok? <==> Register(0xffff, s[..Length(s[1]) + 4]) == RESIDUE
  {
    hide Handled, Crc, BigEndian16, Length, Register;
    var n := Length(s[1]);
    assert s[..n + 4] == s[..n + 2] + [s[n + 2], s[n + 3]];
    ValidIffResidue(s[..n + 2], s[n + 2], s[n + 3]);
  }

  /** The input is one packet, and this a damaged form of it that has kept its length byte. */
  ghost predicate IsDamaged(s: seq<bv8>, t: seq<bv8>) {
    Parse(s).Ok? && |s| == |Parse(s).value.data| + 4 && |t| == |s| && t[1] == s[1]
  }

  /** Damage that shows in the register is never taken for a packet, whatever follows it. */
  lemma ShownIsRejected(s: seq<bv8>, t: seq<bv8>, tail: seq<bv8>)
    requires IsDamaged(s, t) && Register(0xffff, s) != Register(0xffff, t)
    ensures Parse(t + tail).Err?
  {
    hide Handled, Crc, BigEndian16, Length, Register;
    var u := t + tail;
    assert u[0] == t[0] && u[1] == t[1];
    assert s[..|s|] == s && u[..|t|] == t;
    ParseIffResidue(s);
    if Parse(u).Ok? {
      ParseIffResidue(u);
    }
  }

  /** Damage to one byte or to two neighbouring bytes. */
  lemma DamageIsRejected(s: seq<bv8>, t: seq<bv8>, i: nat, tail: seq<bv8>)
    requires IsDamaged(s, t) && DifferAt(s, t, i)
    ensures Parse(t + tail).Err?
  {
    hide Parse, Register;
    DamageShows(s, t, i);
    ShownIsRejected(s, t, tail);
  }

  /** A burst of up to sixteen damaged bits, wherever it starts. */
  lemma BurstIsRejected(s: seq<bv8>, t: seq<bv8>, j: nat, tail: seq<bv8>)
    requires IsDamaged(s, t) && BurstAt(s, t, j)
    ensures Parse(t + tail).Err?
  {
    hide Parse, Register, Bits;
    BurstShows(s, t, j);
    ShownIsRejected(s, t, tail);
  }

  /** An odd number of flipped bits, wherever they are. */
  lemma OddFlipsAreRejected(s: seq<bv8>, t: seq<bv8>, tail: seq<bv8>)
    requires IsDamaged(s, t) && Flips(Bits(s), Bits(t)) % 2 == 1
    ensures Parse(t + tail).Err?
  {
    hide Parse, Register, Bits, Flips;
    OddFlipsShow(s, t);
    ShownIsRejected(s, t, tail);
  }

  /** One, two or three flipped bits, wherever they are. */
  lemma FewFlipsAreRejected(s: seq<bv8>, t: seq<bv8>, tail: seq<bv8>)
    requires IsDamaged(s, t) && 0 < Flips(Bits(s), Bits(t)) <= 3
    ensures Parse(t + tail).Err?
  {
    hide Register, Bits, Flips, Crc;
    FewFlipsShow(s, t);
    ShownIsRejected(s, t, tail);
  }

  /** A damaged length byte is taken exactly when it is in range, as many bytes are there, and
      these happen to leave the residue. */
  lemma LengthDamageIff(s: seq<bv8>, b: bv8)
    requires Parse(s).Ok?
    ensures Parse(s[1 := b]).Ok? <==>
              && Length(b) <= MAX_DATA_LENGTH && Length(b) + 4 <= |s|
              && Register(0xffff, s[1 := b][..Length(b) + 4]) == RESIDUE
  {
    hide Handled, Crc, BigEndian16, Length, Register;
    var t := s[1 := b];
    assert t[0] == s[0] && t[1] == b;
    if Length(b) <= MAX_DATA_LENGTH && Length(b) + 4 <= |s| {
      ParseIffResidue(t);
    }
  }

  /** This happens, for every command: the first two data bytes may be the checksum of the
      shorter packet. */
  lemma LengthDamage(cmd: Command)
    requires Handled(cmd)
    ensures var short := Encode(Message(cmd, []));
            var s := Encode(Message(cmd, short[2..]));
            Parse(s).Ok? && s[1] != 0 && Parse(s[1 := 0]) == Ok(Message(cmd, []))
  {
    hide Handled, Crc, BigEndian16, Parse, HighByteOf, LowByteOf;
    var short := Encode(Message(cmd, []));
    var s := Encode(Message(cmd, short[2..]));
    HandledIff(cmd);
    ParseEncoded(Message(cmd, short[2..]), []);
    assert s + [] == s;
    assert s[1 := 0] == short + s[4..];
    ParseEncoded(Message(cmd, []), s[4..]);
  }
}
