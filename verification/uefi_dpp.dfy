/** UEFI device paths: a list of nodes, each with a type, a subtype and a length, closed
    by an End node (section 10.3 of the UEFI Specification 2.8). */
module UefiDpp {
  import opened Numbers
  import opened Wrappers

  type Bytes = seq<byte>

  datatype Error = EParse | EOddLength

  datatype Hdr = Hdr(protoType: byte, protoSubType: byte, length: nat)

  datatype Node =
    | HwPci(hdr: Hdr, function_: byte, device: byte)
    | AcpiDevPath(hdr: Hdr, hid: Bytes, uid: Bytes)
    | AcpiExDevPath(hdr: Hdr, hid: Bytes, uid: Bytes, cid: Bytes, hidStr: Bytes, uidStr: Bytes, cidStr: Bytes)
    | MsgATAPI(hdr: Hdr, primary: bool, master: bool, lun: nat)
    | MsgMAC(hdr: Hdr, mac: Bytes, ifType: byte)
    | MediaHDD(hdr: Hdr, partNum: nat, partStart: nat, partSize: nat, partSig: Bytes, partFmt: byte, sigType: byte)
    | MediaFilePath(hdr: Hdr, path: seq<nat>)
    | MediaPIWGFF(hdr: Hdr, ff: Bytes)
    | MediaPIWGFV(hdr: Hdr, fv: Bytes)
    | Raw(hdr: Hdr, raw: Bytes)

  const TYPE_HW := 1
  const TYPE_ACPI := 2
  const TYPE_MESSAGING := 3
  const TYPE_MEDIA := 4
  const TYPE_END := 0x7f

  // ---------------------------------------------------------------- numbers

  function LittleEndian(b: Bytes): nat {
    if b == [] then 0 else b[0] + 256 * LittleEndian(b[1..])
  }

  /** `v` as `n` bytes, the lowest first. */
  function ToLittleEndian(v: nat, n: nat): Bytes {
    if n == 0 then [] else [v % 256] + ToLittleEndian(v / 256, n - 1)
  }

  lemma {:induction false} LittleEndianRoundTrip(b: Bytes)
    ensures ToLittleEndian(LittleEndian(b), |b|) == b
  {
    if b == [] {
    } else {
      LittleEndianRoundTrip(b[1..]);
      LowByte(b[0], LittleEndian(b[1..]));
    }
  }

  lemma LowByte(lo: int, v: nat)
    requires 0 <= lo < 256
    ensures (lo + 256 * v) % 256 == lo && (lo + 256 * v) / 256 == v
  {
  }

  // ---------------------------------------------------------------- nodes

  /** The bytes before the first zero. */
  function ReadToNull(b: Bytes): Result<Bytes, Error> {
    if b == [] then Err(EParse)
    else if b[0] == 0 then Ok([])
    else
      match ReadToNull(b[1..])
      case Err(e) => Err(e)
      case Ok(s) => Ok([b[0]] + s)
  }

  lemma {:induction false} ReadToNullMeaning(b: Bytes)
    ensures match ReadToNull(b)
            case Ok(s) => s + [0] <= b && 0 !in s
            case Err(_) => 0 !in b
  {
    if b == [] || b[0] == 0 {
    } else {
      ReadToNullMeaning(b[1..]);
    }
  }

  function ParseHwPci(h: Hdr, b: Bytes): Result<Node, Error> {
    if |b| != 2 then Err(EParse) else Ok(HwPci(h, b[0], b[1]))
  }

  function ParseAcpiDevPath(h: Hdr, b: Bytes): Result<Node, Error>
    requires |b| == h.length - 4
  {
    if h.length != 12 then Err(EParse) else Ok(AcpiDevPath(h, b[..4], b[4..8]))
  }

  function ParseAcpiExDevPath(h: Hdr, b: Bytes): Result<Node, Error>
    requires |b| == h.length - 4
  {
    if h.length < 19 then Err(EParse)
    else
      match ReadToNull(b[12..])
      case Err(e) => Err(e)
      case Ok(hidStr) =>
        ReadToNullMeaning(b[12..]);
        var rest := b[12..][|hidStr| + 1..];
        match ReadToNull(rest)
        case Err(e) => Err(e)
        case Ok(uidStr) =>
          ReadToNullMeaning(rest);
          match ReadToNull(rest[|uidStr| + 1..])
          case Err(e) => Err(e)
          case Ok(cidStr) => Ok(AcpiExDevPath(h, b[..4], b[4..8], b[8..12], hidStr, uidStr, cidStr))
  }

  function ParseMsgATAPI(h: Hdr, b: Bytes): Result<Node, Error>
    requires |b| == h.length - 4
  {
    if h.length != 8 then Err(EParse) else Ok(MsgATAPI(h, b[0] == 0, b[1] == 0, LittleEndian(b[2..4])))
  }

  function ParseMsgMAC(h: Hdr, b: Bytes): Result<Node, Error>
    requires |b| == h.length - 4
  {
    if h.length != 37 then Err(EParse) else Ok(MsgMAC(h, b[..32], b[32]))
  }

  function ParseMediaHdd(h: Hdr, b: Bytes): Result<Node, Error> {
    if |b| < 38 then Err(EParse)
    else Ok(MediaHDD(h, LittleEndian(b[..4]), LittleEndian(b[4..12]), LittleEndian(b[12..20]), b[20..36], b[36], b[37]))
  }

  /** A code unit decoded on its own: half a surrogate pair becomes the replacement character. */
  function DecodeUnit(u: nat): nat { if 0xd800 <= u <= 0xdfff then 0xfffd else u }

  function CodeUnit(lo: byte, hi: byte): nat {
    var v: int := hi;
    lo + 256 * v
  }

  function DecodeUTF16(b: Bytes): Result<seq<nat>, Error> {
    if |b| % 2 != 0 then Err(EOddLength)
    else Ok(seq(|b| / 2, i requires 0 <= i < |b| / 2 => DecodeUnit(CodeUnit(b[2 * i], b[2 * i + 1]))))
  }

  function TrimNull(s: seq<nat>): seq<nat> {
    if s != [] && s[|s| - 1] == 0 then s[..|s| - 1] else s
  }

  function Slashes(s: seq<nat>): seq<nat> {
    seq(|s|, i requires 0 <= i < |s| => if s[i] == 0x5c then 0x2f else s[i])
  }

  function ParseMediaFilePath(h: Hdr, b: Bytes): Result<Node, Error>
    requires |b| == h.length - 4
  {
    match DecodeUTF16(b[..h.length - 4])
    case Err(e) => Err(e)
    case Ok(path) => Ok(MediaFilePath(h, Slashes(TrimNull(path))))
  }

  function ParseMediaPIWGFV(h: Hdr, b: Bytes): Result<Node, Error> {
    if h.length != 20 then Err(EParse) else Ok(MediaPIWGFV(h, b))
  }

  function ParseMediaPIWGFF(h: Hdr, b: Bytes): Result<Node, Error> {
    if h.length != 20 then Err(EParse) else Ok(MediaPIWGFF(h, b))
  }

  function ParseNode(h: Hdr, data: Bytes): Result<Node, Error>
    requires |data| == h.length - 4
  {
    if h.protoType == TYPE_HW && h.protoSubType == 1 then ParseHwPci(h, data)
    else if h.protoType == TYPE_ACPI && h.protoSubType == 1 then ParseAcpiDevPath(h, data)
    else if h.protoType == TYPE_ACPI && h.protoSubType == 2 then ParseAcpiExDevPath(h, data)
    else if h.protoType == TYPE_MESSAGING && h.protoSubType == 1 then ParseMsgATAPI(h, data)
    else if h.protoType == TYPE_MESSAGING && h.protoSubType == 11 then ParseMsgMAC(h, data)
    else if h.protoType == TYPE_MEDIA && h.protoSubType == 1 then ParseMediaHdd(h, data)
    else if h.protoType == TYPE_MEDIA && h.protoSubType == 4 then ParseMediaFilePath(h, data)
    else if h.protoType == TYPE_MEDIA && h.protoSubType == 6 then ParseMediaPIWGFF(h, data)
    else if h.protoType == TYPE_MEDIA && h.protoSubType == 7 then ParseMediaPIWGFV(h, data)
    else Ok(Raw(h, data))
  }

  function Zeros(b: Bytes): nat { if b == [] then 0 else (if b[0] == 0 then 1 else 0) + Zeros(b[1..]) }

  /** Which payloads a node of each kind accepts. */
  predicate PayloadOk(h: Hdr, data: Bytes) {
    match (h.protoType, h.protoSubType)
    case (1, 1) => |data| == 2
    case (2, 1) => |data| == 8
    case (2, 2) => |data| >= 15 && Zeros(data[12..]) >= 3
    case (3, 1) => |data| == 4
    case (3, 11) => |data| == 33
    case (4, 1) => |data| >= 38
    case (4, 4) => |data| % 2 == 0
    case (4, 6) => |data| == 16
    case (4, 7) => |data| == 16
    case _ => true
  }

  lemma {:induction false} ZerosAfterNull(b: Bytes)
    ensures match ReadToNull(b)
            case Ok(s) => |s| < |b| && Zeros(b) == 1 + Zeros(b[|s| + 1..])
            case Err(_) => Zeros(b) == 0
  {
    if b == [] || b[0] == 0 {
    } else {
      ZerosAfterNull(b[1..]);
      var s := ReadToNull(b[1..]);
      if s.Ok? {
        assert b[1..][|s.value| + 1..] == b[|s.value| + 2..];
      }
    }
  }

  lemma AcpiExParses(h: Hdr, data: Bytes)
    requires |data| == h.length - 4
    ensures ParseAcpiExDevPath(h, data).Ok? <==> |data| >= 15 && Zeros(data[12..]) >= 3
    ensures ParseAcpiExDevPath(h, data).Ok? ==> ParseAcpiExDevPath(h, data).value.hdr == h
  {
    hide Zeros, ReadToNull;
    if h.length >= 19 {
      var b := data[12..];
      ZerosAfterNull(b);
      var first := ReadToNull(b);
      if first.Ok? {
        var rest := b[|first.value| + 1..];
        ZerosAfterNull(rest);
        var second := ReadToNull(rest);
        if second.Ok? {
          ZerosAfterNull(rest[|second.value| + 1..]);
        }
      }
    }
  }

  /** A node is parsed exactly when its payload suits its kind; the node keeps the header. */
  lemma NodeParses(h: Hdr, data: Bytes)
    requires |data| == h.length - 4
    ensures ParseNode(h, data).Ok? <==> PayloadOk(h, data)
    ensures ParseNode(h, data).Ok? ==> ParseNode(h, data).value.hdr == h
  {
    hide Zeros, ParseAcpiExDevPath, LittleEndian;
    AcpiExParses(h, data);
  }

  /** Type and subtype decide the kind of the node; a pair that is not known gives a raw node. */
  predicate KindIs(n: Node, t: byte, st: byte) {
    && (n.HwPci? <==> t == 1 && st == 1)
    && (n.AcpiDevPath? <==> t == 2 && st == 1)
    && (n.AcpiExDevPath? <==> t == 2 && st == 2)
    && (n.MsgATAPI? <==> t == 3 && st == 1)
    && (n.MsgMAC? <==> t == 3 && st == 11)
    && (n.MediaHDD? <==> t == 4 && st == 1)
    && (n.MediaFilePath? <==> t == 4 && st == 4)
    && (n.MediaPIWGFF? <==> t == 4 && st == 6)
    && (n.MediaPIWGFV? <==> t == 4 && st == 7)
    && (n.Raw? <==> !Known(t, st))
  }

  predicate Known(t: byte, st: byte) {
    (t, st) in [(1, 1), (2, 1), (2, 2), (3, 1), (3, 11), (4, 1), (4, 4), (4, 6), (4, 7)]
  }

  lemma KindFixed(h: Hdr, data: Bytes)
    requires |data| == h.length - 4 && ParseNode(h, data).Ok?
    ensures KindIs(ParseNode(h, data).value, h.protoType, h.protoSubType)
  {
    hide LittleEndian, DecodeUTF16, ReadToNull, Slashes, TrimNull;
  }

  /** Where the fields of a node stand in its payload. */
  predicate FieldsStand(n: Node, data: Bytes) {
    match n
    case HwPci(_, f, d) => |data| == 2 && f == data[0] && d == data[1]
    case AcpiDevPath(_, hid, uid) => |data| == 8 && hid == data[..4] && uid == data[4..]
    case AcpiExDevPath(_, hid, uid, cid, hidStr, uidStr, cidStr) =>
      && |data| >= 15 && hid == data[..4] && uid == data[4..8] && cid == data[8..12]
      && 0 !in hidStr && 0 !in uidStr && 0 !in cidStr
      && hidStr + [0] + (uidStr + [0] + (cidStr + [0])) <= data[12..]
    case MsgATAPI(_, primary, master, lun) =>
      |data| == 4 && (primary <==> data[0] == 0) && (master <==> data[1] == 0) && lun == CodeUnit(data[2], data[3])
    case MsgMAC(_, mac, ifType) => |data| == 33 && mac == data[..32] && ifType == data[32]
    case MediaHDD(_, num, start, size, sig, fmt, sigType) =>
      && |data| >= 38 && num == LittleEndian(data[..4])
      && start == LittleEndian(data[4..12]) && size == LittleEndian(data[12..20])
      && sig == data[20..36] && fmt == data[36] && sigType == data[37]
    case MediaFilePath(_, path) => |data| % 2 == 0 && PathStands(path, data)
    case MediaPIWGFF(_, ff) => |data| == 16 && ff == data
    case MediaPIWGFV(_, fv) => |data| == 16 && fv == data
    case Raw(_, raw) => raw == data
  }

  /** One character for each code unit, but for a zero at the end: a slash for a backslash, the
      replacement character for half a surrogate pair, and itself for any other. */
  predicate PathStands(path: seq<nat>, data: Bytes)
    requires |data| % 2 == 0
  {
    var n := |data| / 2;
    && |path| == (if n > 0 && UnitAt(data, n - 1) == 0 then n - 1 else n)
    && forall i | 0 <= i < |path| ::
         var u := UnitAt(data, i);
         path[i] == if u == 0x5c then 0x2f else if 0xd800 <= u < 0xe000 then 0xfffd else u
  }

  lemma PathStandsThere(h: Hdr, data: Bytes)
    requires |data| == h.length - 4 && |data| % 2 == 0
    ensures ParseMediaFilePath(h, data).Ok? && PathStands(ParseMediaFilePath(h, data).value.path, data)
  {
    hide CodeUnit;
    PathIs(h, data);
  }

  lemma StringsStand(h: Hdr, data: Bytes)
    requires |data| == h.length - 4 && ParseAcpiExDevPath(h, data).Ok?
    ensures FieldsStand(ParseAcpiExDevPath(h, data).value, data)
  {
    hide ReadToNull;
    var n := ParseAcpiExDevPath(h, data).value;
    var b := data[12..];
    ReadToNullMeaning(b);
    var rest := b[|n.hidStr| + 1..];
    ReadToNullMeaning(rest);
    ReadToNullMeaning(rest[|n.uidStr| + 1..]);
    PrefixChain(n.uidStr + [0], n.cidStr + [0], rest);
    PrefixChain(n.hidStr + [0], n.uidStr + [0] + (n.cidStr + [0]), b);
  }

  lemma TwoByteNumber(b: Bytes)
    requires |b| == 2
    ensures LittleEndian(b) == CodeUnit(b[0], b[1])
  {
    assert b[1..] == [b[1]] && b[1..][1..] == [];
    assert LittleEndian(b[1..]) == b[1] + 256 * LittleEndian([]);
  }

  /** Each field is read from its place. */
  lemma FieldsAreRead(h: Hdr, data: Bytes)
    requires |data| == h.length - 4 && ParseNode(h, data).Ok?
    ensures FieldsStand(ParseNode(h, data).value, data)
  {
    hide LittleEndian, CodeUnit, ParseMediaFilePath, ParseAcpiExDevPath, ParseNode, PathStands;
    KindOf(h, data);
    match ParseNode(h, data).value
    case MediaFilePath(_, _) =>
      PathStandsThere(h, data);
      PathNode(h, data);
    case AcpiExDevPath(_, _, _, _, _, _, _) =>
      StringsStand(h, data);
    case _ =>
      OtherFields(h, data);
  }

  lemma OtherFields(h: Hdr, data: Bytes)
    requires |data| == h.length - 4 && ParseNode(h, data).Ok?
    requires !ParseNode(h, data).value.MediaFilePath? && !ParseNode(h, data).value.AcpiExDevPath?
    ensures FieldsStand(ParseNode(h, data).value, data)
  {
    hide LittleEndian, CodeUnit, DecodeUTF16, ReadToNull;
    if |data| == 4 {
      TwoByteNumber(data[2..4]);
    }
  }

  /** The payload as the specification lays it out. */
  function Payload(n: Node): Bytes {
    match n
    case HwPci(_, f, d) => [f, d]
    case AcpiDevPath(_, hid, uid) => hid + uid
    case AcpiExDevPath(_, hid, uid, cid, hidStr, uidStr, cidStr) =>
      hid + uid + cid + (hidStr + [0]) + (uidStr + [0]) + (cidStr + [0])
    case MsgATAPI(_, primary, master, lun) =>
      [if primary then 0 else 1, if master then 0 else 1] + ToLittleEndian(lun, 2)
    case MsgMAC(_, mac, ifType) => mac + [ifType]
    case MediaHDD(_, num, start, size, sig, fmt, sigType) =>
      ToLittleEndian(num, 4) + ToLittleEndian(start, 8) + ToLittleEndian(size, 8) + sig + [fmt, sigType]
    case MediaFilePath(_, path) => EncodePath(path)
    case MediaPIWGFF(_, ff) => ff
    case MediaPIWGFV(_, fv) => fv
    case Raw(_, raw) => raw
  }

  /** A path that can be written out again: it ends in a zero and holds no other slash than
      backslashes and no half of a surrogate pair. */
  predicate PlainPath(data: Bytes)
    requires |data| % 2 == 0
  {
    |data| >= 2 && UnitAt(data, |data| / 2 - 1) == 0 && forall i | 0 <= i < |data| / 2 - 1 :: Plain(UnitAt(data, i))
  }

  /** What was parsed is what the payload says: writing it out gives the payload back, up to
      bytes that nothing describes, flags other than 0 and 1, and paths that are not plain. */
  lemma PayloadRoundTrip(h: Hdr, data: Bytes)
    requires |data| == h.length - 4 && ParseNode(h, data).Ok?
    ensures var n := ParseNode(h, data).value;
            && (!n.MediaFilePath? && !n.MsgATAPI? ==> Payload(n) <= data)
            && (!n.MediaFilePath? && !n.MsgATAPI? && !n.MediaHDD? && !n.AcpiExDevPath? ==> Payload(n) == data)
            && (n.MediaFilePath? ==> |data| % 2 == 0 && (Payload(n) == data <==> PlainPath(data)))
            && (n.MsgATAPI? ==> Payload(n)[2..] == data[2..] && (data[0] <= 1 && data[1] <= 1 ==> Payload(n) == data))
  {
    hide ParseNode, Payload, PlainPath;
    KindOf(h, data);
    match ParseNode(h, data).value
    case MediaFilePath(_, _) =>
      PathRoundTripIff(h, data);
    case MsgATAPI(_, _, _, _) =>
      AtapiRoundTrip(h, data);
    case MediaHDD(_, _, _, _, _, _, _) =>
      HddRoundTrip(h, data);
    case AcpiExDevPath(_, _, _, _, _, _, _) =>
      AcpiExRoundTrip(h, data);
    case _ =>
      FixedRoundTrip(h, data);
  }

  /** Which parser made a node. */
  lemma KindOf(h: Hdr, data: Bytes)
    requires |data| == h.length - 4 && ParseNode(h, data).Ok?
    ensures match ParseNode(h, data).value
            case MediaFilePath(_, _) => |data| % 2 == 0 && ParseNode(h, data) == ParseMediaFilePath(h, data)
            case MsgATAPI(_, _, _, _) => |data| == 4 && ParseNode(h, data) == ParseMsgATAPI(h, data)
            case MediaHDD(_, _, _, _, _, _, _) => |data| >= 38 && ParseNode(h, data) == ParseMediaHdd(h, data)
            case AcpiExDevPath(_, _, _, _, _, _, _) => ParseNode(h, data) == ParseAcpiExDevPath(h, data)
            case _ => true
  {
    hide LittleEndian, DecodeUnit, Slashes, TrimNull, ReadToNull;
  }

  lemma FixedRoundTrip(h: Hdr, data: Bytes)
    requires |data| == h.length - 4 && ParseNode(h, data).Ok?
    requires var n := ParseNode(h, data).value; !n.MediaFilePath? && !n.MsgATAPI? && !n.MediaHDD? && !n.AcpiExDevPath?
    ensures Payload(ParseNode(h, data).value) == data
  {
    hide LittleEndian, DecodeUTF16, ReadToNull;
  }

  lemma AtapiRoundTrip(h: Hdr, data: Bytes)
    requires |data| == h.length - 4 == 4
    ensures var p := Payload(ParseMsgATAPI(h, data).value);
            |p| == 4 && p[2..] == data[2..] && (data[0] <= 1 && data[1] <= 1 ==> p == data)
  {
    hide LittleEndian, ToLittleEndian;
    LittleEndianRoundTrip(data[2..4]);
  }

  // ---------------------------------------------------------------- paths

  /** The `i`-th code unit of a path. */
  function UnitAt(data: Bytes, i: nat): nat
    requires 2 * i + 1 < |data|
  {
    CodeUnit(data[2 * i], data[2 * i + 1])
  }

  /** Backslashes again. */
  function Unslash(v: nat): nat { if v == 0x2f then 0x5c else v }

  /** A path as the specification lays it out: two bytes for each unit, and two zeros. */
  function EncodePath(path: seq<nat>): Bytes {
    if path == [] then [0, 0] else ToLittleEndian(Unslash(path[0]), 2) + EncodePath(path[1..])
  }

  lemma TwoBytes(v: nat)
    ensures |ToLittleEndian(v, 2)| == 2
    ensures ToLittleEndian(v, 2)[0] == v % 256 && ToLittleEndian(v, 2)[1] == v / 256 % 256
  {
    assert ToLittleEndian(v, 2) == [v % 256] + ToLittleEndian(v / 256, 1);
    assert ToLittleEndian(v / 256, 1) == [v / 256 % 256] + ToLittleEndian(v / 256 / 256, 0);
  }

  /** The bytes of the unit stand at its place. */
  predicate EncodedAt(e: Bytes, path: seq<nat>, i: nat)
    requires i < |path| && |e| == 2 * |path| + 2
  {
    e[2 * i] == Unslash(path[i]) % 256 && e[2 * i + 1] == Unslash(path[i]) / 256 % 256
  }

  lemma EncodedLater(first: Bytes, rest: Bytes, path: seq<nat>, i: nat)
    requires |first| == 2 && 0 < i < |path| && |rest| == 2 * |path[1..]| + 2 && EncodedAt(rest, path[1..], i - 1)
    ensures EncodedAt(first + rest, path, i)
  {
    assert path[i] == path[1..][i - 1];
    assert (first + rest)[2 * i] == rest[2 * (i - 1)] && (first + rest)[2 * i + 1] == rest[2 * (i - 1) + 1];
  }

  lemma {:induction false} EncodePathAt(path: seq<nat>)
    ensures |EncodePath(path)| == 2 * |path| + 2
    ensures EncodePath(path)[2 * |path|] == EncodePath(path)[2 * |path| + 1] == 0
    ensures forall i | 0 <= i < |path| :: EncodedAt(EncodePath(path), path, i)
  {
    hide ToLittleEndian, EncodedAt, Unslash;
    if path == [] {
    } else {
      var v, rest := Unslash(path[0]), EncodePath(path[1..]);
      EncodePathAt(path[1..]);
      TwoBytes(v);
      var first := ToLittleEndian(v, 2);
      assert EncodePath(path) == first + rest;
      EncodedFirst(first, rest, path);
      forall i | 0 < i < |path|
        ensures EncodedAt(first + rest, path, i)
      {
        EncodedLater(first, rest, path, i);
      }
    }
  }

  lemma EncodedFirst(first: Bytes, rest: Bytes, path: seq<nat>)
    requires path != [] && |first| == 2 && |rest| == 2 * |path|
    requires first[0] == Unslash(path[0]) % 256 && first[1] == Unslash(path[0]) / 256 % 256
    ensures EncodedAt(first + rest, path, 0)
  {
  }

  /** A unit that keeps its meaning when it is decoded on its own. */
  predicate Plain(u: nat) { u != 0x2f && !(0xd800 <= u <= 0xdfff) }

  lemma UnitBytes(lo: byte, hi: byte)
    ensures CodeUnit(lo, hi) % 256 == lo && CodeUnit(lo, hi) / 256 == hi
  {
    LowByte(lo, hi);
  }

  /** A unit as it is kept: decoded on its own, a backslash turned. */
  function PathUnit(u: nat): nat {
    var d := DecodeUnit(u);
    if d == 0x5c then 0x2f else d
  }

  lemma UnitKept(lo: byte, hi: byte)
    ensures var v := Unslash(PathUnit(CodeUnit(lo, hi)));
            (v % 256 == lo && v / 256 % 256 == hi) <==> Plain(CodeUnit(lo, hi))
  {
    UnitBytes(lo, hi);
  }

  /** The path kept: all units, but for a zero at the end. */
  lemma PathIs(h: Hdr, data: Bytes)
    requires |data| == h.length - 4 && |data| % 2 == 0
    ensures ParseMediaFilePath(h, data).Ok?
    ensures var path, n := ParseMediaFilePath(h, data).value.path, |data| / 2;
            && |path| == (if n > 0 && UnitAt(data, n - 1) == 0 then n - 1 else n)
            && forall i | 0 <= i < |path| :: path[i] == PathUnit(UnitAt(data, i))
  {
    hide CodeUnit;
    assert data[..h.length - 4] == data;
  }

  lemma EncodedIff(e: Bytes, path: seq<nat>, data: Bytes, i: nat)
    requires i < |path| && |e| == 2 * |path| + 2 && EncodedAt(e, path, i)
    requires 2 * i + 1 < |data| && path[i] == PathUnit(UnitAt(data, i))
    ensures Plain(UnitAt(data, i)) <==> e[2 * i] == data[2 * i] && e[2 * i + 1] == data[2 * i + 1]
  {
    hide CodeUnit, PathUnit, Unslash, Plain;
    UnitKept(data[2 * i], data[2 * i + 1]);
  }

  /** A path written out gives the payload back exactly when it is plain. */
  lemma PathRoundTripIff(h: Hdr, data: Bytes)
    requires |data| == h.length - 4 && |data| % 2 == 0
    ensures ParseMediaFilePath(h, data).Ok?
    ensures Payload(ParseMediaFilePath(h, data).value) == data <==> PlainPath(data)
  {
    hide EncodePath, ParseMediaFilePath, CodeUnit, PathUnit, Plain, EncodedAt;
    PathIs(h, data);
    PathNode(h, data);
    var path, n := ParseMediaFilePath(h, data).value.path, |data| / 2;
    EncodePathAt(path);
    var e := EncodePath(path);
    if |path| == n - 1 {
      forall i | 0 <= i < n - 1
        ensures Plain(UnitAt(data, i)) <==> e[2 * i] == data[2 * i] && e[2 * i + 1] == data[2 * i + 1]
      {
        EncodedIff(e, path, data, i);
      }
      ZeroUnit(data[2 * (n - 1)], data[2 * (n - 1) + 1]);
      if PlainPath(data) {
        SameUnits(e, data, n);
      }
    }
  }

  lemma PathNode(h: Hdr, data: Bytes)
    requires |data| == h.length - 4
    ensures ParseMediaFilePath(h, data).Ok? ==> ParseMediaFilePath(h, data).value.MediaFilePath?
  {
  }

  lemma ZeroUnit(lo: byte, hi: byte)
    requires CodeUnit(lo, hi) == 0
    ensures lo == hi == 0
  {
  }

  lemma SameUnits(e: Bytes, data: Bytes, n: nat)
    requires |e| == |data| == 2 * n > 0
    requires e[2 * (n - 1)] == data[2 * (n - 1)] && e[2 * (n - 1) + 1] == data[2 * (n - 1) + 1]
    requires forall i | 0 <= i < n - 1 :: e[2 * i] == data[2 * i] && e[2 * i + 1] == data[2 * i + 1]
    ensures e == data
  {
    forall k | 0 <= k < 2 * n
      ensures e[k] == data[k]
    {
      SameUnit(e, data, n, k / 2);
      assert k == 2 * (k / 2) || k == 2 * (k / 2) + 1;
    }
  }

  lemma SameUnit(e: Bytes, data: Bytes, n: nat, i: nat)
    requires |e| == |data| == 2 * n && i < n
    requires e[2 * (n - 1)] == data[2 * (n - 1)] && e[2 * (n - 1) + 1] == data[2 * (n - 1) + 1]
    requires forall i | 0 <= i < n - 1 :: e[2 * i] == data[2 * i] && e[2 * i + 1] == data[2 * i + 1]
    ensures e[2 * i] == data[2 * i] && e[2 * i + 1] == data[2 * i + 1]
  {
  }

  lemma HddRoundTrip(h: Hdr, data: Bytes)
    requires |data| >= 38
    ensures Payload(ParseMediaHdd(h, data).value) == data[..38]
  {
    hide LittleEndian, ToLittleEndian;
    LittleEndianRoundTrip(data[..4]);
    LittleEndianRoundTrip(data[4..12]);
    LittleEndianRoundTrip(data[12..20]);
    assert data[..38] == data[..4] + data[4..12] + data[12..20] + data[20..36] + [data[36], data[37]];
  }

  lemma AcpiExRoundTrip(h: Hdr, data: Bytes)
    requires |data| == h.length - 4 && ParseAcpiExDevPath(h, data).Ok?
    ensures Payload(ParseAcpiExDevPath(h, data).value) <= data
  {
    hide ReadToNull;
    var n := ParseAcpiExDevPath(h, data).value;
    var b := data[12..];
    ReadToNullMeaning(b);
    var rest1 := b[|n.hidStr| + 1..];
    ReadToNullMeaning(rest1);
    var rest2 := rest1[|n.uidStr| + 1..];
    ReadToNullMeaning(rest2);
    PrefixChain(n.uidStr + [0], n.cidStr + [0], rest1);
    PrefixChain(n.hidStr + [0], (n.uidStr + [0]) + (n.cidStr + [0]), b);
    PrefixChain(data[..12], (n.hidStr + [0]) + ((n.uidStr + [0]) + (n.cidStr + [0])), data);
    assert n.hid + n.uid + n.cid == data[..12];
    Reassociate(data[..12], n.hidStr + [0], n.uidStr + [0], n.cidStr + [0]);
  }

  lemma PrefixChain(x: Bytes, y: Bytes, b: Bytes)
    requires x <= b && y <= b[|x|..]
    ensures x + y <= b
  {
  }

  lemma Reassociate(w: Bytes, x: Bytes, y: Bytes, z: Bytes)
    ensures w + (x + (y + z)) == w + x + y + z
  {
  }

  // ---------------------------------------------------------------- lists

  function HdrOf(b: Bytes): Hdr
    requires |b| >= 4
  {
    Hdr(b[0], b[1], CodeUnit(b[2], b[3]))
  }

  /** The nodes up to the End node, which must be the last thing in the input. */
  function ParseList(b: Bytes): Result<seq<Node>, Error> {
    if |b| < 4 then Err(EParse)
    else
      var h := HdrOf(b);
      if h.length < 4 || |b| < h.length then Err(EParse)
      else if h.protoType == TYPE_END then
        if |b| == h.length then Ok([]) else Err(EParse)
      else
        match ParseNode(h, b[4..h.length])
        case Err(e) => Err(e)
        case Ok(p) =>
          match ParseList(b[h.length..])
          case Err(e) => Err(e)
          case Ok(list) => Ok([p] + list)
  }

  method ParseFilePathList(in_: Bytes) returns (r: Result<seq<Node>, Error>)
    ensures r == ParseList(in_)
    ensures r.Ok? ==> exists ns, end :: Spells(in_, ns, end) && Describes(r.value, ns)
  {
    hide ParseNode, Spells, Describes;
    var reachedEnd := false;
    var b := in_;
    var list: seq<Node> := [];
    PrependNothing(ParseList(b));
    while |b| >= 4
      invariant !reachedEnd && ParseList(in_) == Prepend(list, ParseList(b))
      decreases |b|
    {
      var h := HdrOf(b);
      if h.length < 4 {
        return Err(EParse);
      }
      if |b| < h.length {
        return Err(EParse);
      }
      var data := b[4..h.length];
      var rest := b[h.length..];
      if h.protoType == TYPE_END {
        assert list + [] == list;
        reachedEnd := true;
        b := rest;
        break;
      } else {
        var p := ParseNode(h, data);
        if p.Err? {
          return Err(p.error);
        }
        PrependTwice(list, [p.value], ParseList(rest));
        b := rest;
        list := list + [p.value];
      }
    }
    if !reachedEnd {
      return Err(EParse);
    }
    if |b| != 0 {
      return Err(EParse);
    }
    ghost var ns, end := ParsedIsSpelled(in_);
    ParsedDescribes(list, ns);
    return Ok(list);
  }

  function Prepend(list: seq<Node>, r: Result<seq<Node>, Error>): Result<seq<Node>, Error> {
    match r
    case Err(e) => Err(e)
    case Ok(more) => Ok(list + more)
  }

  lemma PrependNothing(r: Result<seq<Node>, Error>)
    ensures Prepend([], r) == r
  {
    if r.Ok? {
      assert [] + r.value == r.value;
    }
  }

  lemma PrependTwice(x: seq<Node>, y: seq<Node>, r: Result<seq<Node>, Error>)
    ensures Prepend(x, Prepend(y, r)) == Prepend(x + y, r)
  {
    if r.Ok? {
      assert x + (y + r.value) == x + y + r.value;
    }
  }

  // ---------------------------------------------------------------- the language

  /** The bytes of one node: their number is the length in the header. */
  predicate Framed(n: Bytes) { |n| >= 4 && HdrOf(n).length == |n| }

  /** A node other than an End node, with a payload that suits its kind. */
  predicate WellFormed(n: Bytes) {
    Framed(n) && HdrOf(n).protoType != TYPE_END && PayloadOk(HdrOf(n), n[4..])
  }

  predicate IsEnd(n: Bytes) { Framed(n) && HdrOf(n).protoType == TYPE_END }

  function Join(ns: seq<Bytes>): Bytes { if ns == [] then [] else ns[0] + Join(ns[1..]) }

  /** The input is these nodes, all well formed, and the End node after them. */
  ghost predicate Spells(b: Bytes, ns: seq<Bytes>, end: Bytes) {
    b == Join(ns) + end && IsEnd(end) && forall i | 0 <= i < |ns| :: WellFormed(ns[i])
  }

  /** What a spelled list is parsed to: one node per piece, in order. */
  ghost predicate ParsedFrom(list: seq<Node>, ns: seq<Bytes>) {
    |list| == |ns| && forall i | 0 <= i < |ns| ::
      WellFormed(ns[i]) && list[i].hdr == HdrOf(ns[i]) && ParseNode(HdrOf(ns[i]), ns[i][4..]) == Ok(list[i])
  }

  /** One node per piece, in order: of the kind that the first two bytes name, with the header of
      the piece and its fields. */
  ghost predicate Describes(list: seq<Node>, ns: seq<Bytes>) {
    |list| == |ns| && forall i | 0 <= i < |ns| ::
      && |ns[i]| >= 4 && list[i].hdr == Hdr(ns[i][0], ns[i][1], |ns[i]|)
      && KindIs(list[i], ns[i][0], ns[i][1]) && FieldsStand(list[i], ns[i][4..])
  }

  lemma ParsedDescribes(list: seq<Node>, ns: seq<Bytes>)
    requires ParsedFrom(list, ns)
    ensures Describes(list, ns)
  {
    hide ParseNode, PayloadOk, KindIs, FieldsStand;
    forall i | 0 <= i < |ns|
      ensures |ns[i]| >= 4 && list[i].hdr == Hdr(ns[i][0], ns[i][1], |ns[i]|)
      ensures KindIs(list[i], ns[i][0], ns[i][1]) && FieldsStand(list[i], ns[i][4..])
    {
      assert WellFormed(ns[i]);
      KindFixed(HdrOf(ns[i]), ns[i][4..]);
      FieldsAreRead(HdrOf(ns[i]), ns[i][4..]);
    }
  }

  lemma FramedPrefix(n: Bytes, rest: Bytes)
    requires Framed(n)
    ensures HdrOf(n + rest) == HdrOf(n) && (n + rest)[4..|n|] == n[4..] && (n + rest)[|n|..] == rest
  {
  }

  /** Every spelled list is accepted, and parsed node by node. */
  lemma {:induction false} SpelledParses(b: Bytes, ns: seq<Bytes>, end: Bytes)
    requires Spells(b, ns, end)
    ensures ParseList(b).Ok? && ParsedFrom(ParseList(b).value, ns)
    decreases |ns|
  {
    hide ParseNode, PayloadOk;
    if ns == [] {
      assert b == end;
    } else {
      var n, rest := ns[0], Join(ns[1..]) + end;
      assert b == n + rest;
      FramedPrefix(n, rest);
      NodeParses(HdrOf(n), n[4..]);
      assert Spells(rest, ns[1..], end) by {
        assert forall i | 0 <= i < |ns[1..]| :: WellFormed(ns[1..][i]) by {
          assert forall i | 0 <= i < |ns| :: WellFormed(ns[i]);
        }
      }
      SpelledParses(rest, ns[1..], end);
    }
  }

  lemma JoinNothing()
    ensures Join([]) == []
  {
  }

  lemma JoinOneMore(n: Bytes, more: seq<Bytes>, end: Bytes)
    ensures Join([n] + more) + end == n + (Join(more) + end)
  {
    assert ([n] + more)[1..] == more;
  }

  /** Every accepted input is spelled by well-formed nodes and one End node. */
  lemma {:induction false} ParsedIsSpelled(b: Bytes) returns (ns: seq<Bytes>, end: Bytes)
    requires ParseList(b).Ok?
    ensures Spells(b, ns, end) && ParsedFrom(ParseList(b).value, ns)
    decreases |b|
  {
    hide ParseNode, PayloadOk, Join;
    JoinNothing();
    var h := HdrOf(b);
    if h.protoType == TYPE_END {
      ns, end := [], b;
    } else {
      var n, rest := b[..h.length], b[h.length..];
      NodeParses(h, b[4..h.length]);
      assert n[4..] == b[4..h.length];
      var more;
      more, end := ParsedIsSpelled(rest);
      ns := [n] + more;
      assert ns[1..] == more;
      assert b == n + rest;
      JoinOneMore(n, more, end);
    }
  }

  /** The parser accepts exactly the lists of well-formed nodes closed by an End node. */
  lemma AcceptsExactlyLists(b: Bytes)
    ensures ParseList(b).Ok? <==> exists ns, end :: Spells(b, ns, end)
  {
    if ParseList(b).Ok? {
      var ns, end := ParsedIsSpelled(b);
    }
    forall ns, end | Spells(b, ns, end)
      ensures ParseList(b).Ok?
    {
      SpelledParses(b, ns, end);
    }
  }

  function TotalLength(list: seq<Node>): nat {
    if list == [] then 0 else list[0].hdr.length + TotalLength(list[1..])
  }

  lemma {:induction false} JoinedLength(list: seq<Node>, ns: seq<Bytes>)
    requires ParsedFrom(list, ns)
    ensures TotalLength(list) == |Join(ns)|
    decreases |ns|
  {
    if ns == [] {
    } else {
      assert ParsedFrom(list[1..], ns[1..]);
      JoinedLength(list[1..], ns[1..]);
    }
  }

  /** The lengths of the nodes and of the End node add up to the input. */
  lemma LengthsAddUp(b: Bytes)
    requires ParseList(b).Ok?
    ensures exists end :: IsEnd(end) && |b| == TotalLength(ParseList(b).value) + HdrOf(end).length
  {
    var ns, end := ParsedIsSpelled(b);
    JoinedLength(ParseList(b).value, ns);
  }

  // ---------------------------------------------------------------- the specification

  /** Three strings that end in a zero each, and nothing after them. */
  predicate ThreeStrings(b: Bytes) { b != [] && b[|b| - 1] == 0 && Zeros(b) == 3 }

  /** Whole code units, of which the last and no other is zero. */
  predicate NullTerminated(b: Bytes) {
    && |b| >= 2 && |b| % 2 == 0
    && forall i | 0 <= i < |b| / 2 :: UnitAt(b, i) == 0 <==> i == |b| / 2 - 1
  }

  /** A path of characters other than zero is written out in this way. */
  lemma WrittenNullTerminated(path: seq<nat>)
    requires forall i | 0 <= i < |path| :: 0 < path[i] < 0x1_0000
    ensures NullTerminated(EncodePath(path))
  {
    hide EncodePath;
    EncodePathAt(path);
    var e := EncodePath(path);
    forall i | 0 <= i < |e| / 2
      ensures UnitAt(e, i) == 0 <==> i == |e| / 2 - 1
    {
      assert i < |path| ==> EncodedAt(e, path, i) && 0 < path[i] < 0x1_0000;
    }
  }

  /** Payloads as section 10.3 lays them out; kinds that the parser does not know are not judged. */
  predicate StrictPayload(h: Hdr, data: Bytes) {
    match (h.protoType, h.protoSubType)
    case (1, 1) => |data| == 2
    case (2, 1) => |data| == 8
    case (2, 2) => |data| >= 15 && ThreeStrings(data[12..])
    case (3, 1) => |data| == 4 && data[0] <= 1 && data[1] <= 1
    case (3, 11) => |data| == 33
    case (4, 1) => |data| == 38
    case (4, 4) => NullTerminated(data)
    case (4, 6) => |data| == 16
    case (4, 7) => |data| == 16
    case _ => true
  }

  /** What is let through besides: bytes after the strings of an extended ACPI node, ATAPI flags
      above 1, bytes after the fields of a hard drive node, and paths without just one zero unit
      at the end. */
  predicate LenientPayload(h: Hdr, data: Bytes) {
    match (h.protoType, h.protoSubType)
    case (2, 2) => |data| >= 15 && Zeros(data[12..]) >= 3 && (Zeros(data[12..]) > 3 || data[|data| - 1] != 0)
    case (3, 1) => |data| == 4 && (data[0] > 1 || data[1] > 1)
    case (4, 1) => |data| > 38
    case (4, 4) => |data| % 2 == 0 && !NullTerminated(data)
    case _ => false
  }

  lemma PayloadOkIff(h: Hdr, data: Bytes)
    ensures PayloadOk(h, data) <==> StrictPayload(h, data) || LenientPayload(h, data)
    ensures !(StrictPayload(h, data) && LenientPayload(h, data))
  {
    hide Zeros, NullTerminated;
    if |data| >= 15 {
      assert data[12..][|data[12..]| - 1] == data[|data| - 1];
    }
    if |data| % 2 != 0 {
      assert !NullTerminated(data) by { OddIsNot(data); }
    }
  }

  lemma OddIsNot(b: Bytes)
    requires |b| % 2 != 0
    ensures !NullTerminated(b)
  {
  }

  /** The End Entire node. */
  predicate StrictEnd(n: Bytes) { n == [0x7f, 0xff, 4, 0] }

  /** An End node with another subtype, such as the end of one of several paths, or with a payload. */
  predicate LenientEnd(n: Bytes) { IsEnd(n) && (HdrOf(n).protoSubType != 0xff || |n| != 4) }

  lemma EndIff(n: Bytes)
    ensures IsEnd(n) <==> StrictEnd(n) || LenientEnd(n)
    ensures !(StrictEnd(n) && LenientEnd(n))
  {
    if IsEnd(n) && |n| == 4 && n[1] == 0xff {
      assert n[2] == 4 && n[3] == 0;
      assert n == [n[0], n[1], n[2], n[3]];
    }
  }

  predicate StrictNode(n: Bytes) {
    Framed(n) && HdrOf(n).protoType != TYPE_END && StrictPayload(HdrOf(n), n[4..])
  }

  /** The list is one device path as the specification wants it. */
  ghost predicate StrictlySpells(b: Bytes, ns: seq<Bytes>, end: Bytes) {
    b == Join(ns) + end && StrictEnd(end) && forall i | 0 <= i < |ns| :: StrictNode(ns[i])
  }

  /** A node, or the End node, is let through although it is not what the specification wants. */
  ghost predicate SomeLenient(ns: seq<Bytes>, end: Bytes) {
    LenientEnd(end) || exists i :: 0 <= i < |ns| && !StrictNode(ns[i])
  }

  lemma StrictIsSpelled(b: Bytes, ns: seq<Bytes>, end: Bytes)
    ensures StrictlySpells(b, ns, end) <==> Spells(b, ns, end) && !SomeLenient(ns, end)
  {
    hide PayloadOk, StrictPayload, LenientPayload, Join, Framed, StrictEnd, LenientEnd, IsEnd;
    EndIff(end);
    forall i | 0 <= i < |ns|
      ensures StrictNode(ns[i]) ==> WellFormed(ns[i])
    {
      if Framed(ns[i]) {
        FramedLength(ns[i]);
        PayloadOkIff(HdrOf(ns[i]), ns[i][4..]);
      }
    }
  }

  lemma FramedLength(n: Bytes)
    requires Framed(n)
    ensures |n| >= 4
  {
  }

  lemma FirstType(b: Bytes, ns: seq<Bytes>, end: Bytes)
    requires Spells(b, ns, end)
    ensures |b| >= 4 && (ns == [] ==> b == end) && (HdrOf(b).protoType == TYPE_END <==> ns == [])
  {
    hide PayloadOk;
    if ns == [] {
      JoinNothing();
    } else {
      FirstPiece(b, ns, end);
      FramedPrefix(ns[0], Join(ns[1..]) + end);
    }
  }

  /** There is only one way to take an input apart. */
  lemma {:induction false} SpelledOnce(b: Bytes, ns: seq<Bytes>, end: Bytes, ns': seq<Bytes>, end': Bytes)
    requires Spells(b, ns, end) && Spells(b, ns', end')
    ensures ns == ns' && end == end'
    decreases |ns|
  {
    hide PayloadOk, Join, Spells;
    FirstType(b, ns, end);
    FirstType(b, ns', end');
    if ns == [] {
    } else {
      FirstPiece(b, ns, end);
      FirstPiece(b, ns', end');
      var rest, rest' := Join(ns[1..]) + end, Join(ns'[1..]) + end';
      FramedPrefix(ns[0], rest);
      FramedPrefix(ns'[0], rest');
      assert ns[0] == b[..HdrOf(b).length] == ns'[0];
      assert rest == b[HdrOf(b).length..] == rest';
      SpelledOnce(rest, ns[1..], end, ns'[1..], end');
      assert ns == [ns[0]] + ns[1..] && ns' == [ns'[0]] + ns'[1..];
    }
  }

  lemma FirstPiece(b: Bytes, ns: seq<Bytes>, end: Bytes)
    requires ns != [] && Spells(b, ns, end)
    ensures WellFormed(ns[0]) && b == ns[0] + (Join(ns[1..]) + end) && Spells(Join(ns[1..]) + end, ns[1..], end)
  {
    hide PayloadOk;
    assert forall i | 0 <= i < |ns[1..]| :: ns[1..][i] == ns[i + 1];
  }

  ghost predicate IsStrict(b: Bytes) { exists ns, end :: StrictlySpells(b, ns, end) }

  ghost predicate IsLenient(b: Bytes) { exists ns, end :: Spells(b, ns, end) && SomeLenient(ns, end) }

  /** The parser accepts every device path of section 10.3, and besides exactly the lists in
      which some node or the End node is one of the lenient ones; no input is both. */
  lemma AcceptsStrictAndLenient(b: Bytes)
    ensures ParseList(b).Ok? <==> IsStrict(b) || IsLenient(b)
    ensures !(IsStrict(b) && IsLenient(b))
  {
    hide Spells, StrictlySpells, SomeLenient, ParseList;
    AcceptsExactlyLists(b);
    forall ns, end
      ensures StrictlySpells(b, ns, end) <==> Spells(b, ns, end) && !SomeLenient(ns, end)
    {
      StrictIsSpelled(b, ns, end);
    }
    if ns, end :| Spells(b, ns, end) {
      forall ns', end' | Spells(b, ns', end')
        ensures ns' == ns && end' == end
      {
        SpelledOnce(b, ns, end, ns', end');
      }
    }
  }

  /** An End node of another subtype with a payload is accepted. */
  lemma LongEndAccepted()
    ensures ParseList([0x7f, 1, 6, 0, 9, 9]) == Ok([])
  {
    var b: Bytes := [0x7f, 1, 6, 0, 9, 9];
    assert HdrOf(b) == Hdr(TYPE_END, 1, 6);
  }

  /** Several device paths in one are not: nothing may follow the first End node. */
  lemma SecondPathRejected(ns: seq<Bytes>, end: Bytes, more: Bytes)
    requires Spells(Join(ns) + end, ns, end) && more != []
    ensures ParseList(Join(ns) + end + more).Err?
    decreases |ns|
  {
    hide PayloadOk, ParseNode;
    if ns == [] {
      assert Join(ns) + end + more == end + more;
      FramedPrefix(end, more);
    } else {
      FirstPiece(Join(ns) + end, ns, end);
      var rest := Join(ns[1..]) + end;
      assert Join(ns) + end + more == ns[0] + (rest + more);
      FramedPrefix(ns[0], rest + more);
      SecondPathRejected(ns[1..], end, more);
    }
  }
}
