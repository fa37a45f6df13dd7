/** The byte-addressed layer over a block device that accepts aligned transfers
    only, and the RAID metadata backup and restore built on it. */
module Raid {
  import opened Numbers

  datatype Error =
    | EBounds | EAlignment | EReadSize | EBlkSsz | ELbaVal | EUnknownRaidFormat
    | ENoData | ETypeMismatch | EOF | EInval | ENoSpc | EShortWrite | EIoctl

  datatype Status = Ok | Err(error: Error)

  datatype RaidType = Unset | Unknown | Msm | Ddf

  const MAX_ALIGN := 16384
  const DDF_ANCHOR_SIZE := 512
  const IMSM_RECORD_SIZE := 1024
  const IMSM_SIG: seq<byte> := [73, 110, 116, 101, 108, 32, 82, 97, 105, 100, 32, 73,
                                83, 77, 32, 67, 102, 103, 32, 83, 105, 103, 46, 32]
  const DDF_SIG: seq<byte> := [0xde, 0x11, 0xde, 0x11]
  const NO_SECONDARY := 0xffff_ffff_ffff_ffff

  // ---------------------------------------------------------------- values

  /** The remainder operator of Go: its sign is that of the dividend. */
  function GoMod(a: int, b: int): int
    requires b > 0
  {
    if a < 0 then -((-a) % b) else a % b
  }

  /** 64-bit two's-complement reading of an integer. */
  function WrapI64(v: int): int {
    var u := v % 0x1_0000_0000_0000_0000;
    if u < 0x8000_0000_0000_0000 then u else u - 0x1_0000_0000_0000_0000
  }

  lemma WrapMeaning(v: int)
    ensures -0x8000_0000_0000_0000 <= WrapI64(v) < 0x8000_0000_0000_0000
    ensures exists k: int :: v == WrapI64(v) + k * 0x1_0000_0000_0000_0000
  {
    var k := v / 0x1_0000_0000_0000_0000;
    assert v == WrapI64(v) + k * 0x1_0000_0000_0000_0000
        || v == WrapI64(v) + (k + 1) * 0x1_0000_0000_0000_0000;
  }

  /** The contents `c` with `data` written over it from `at` on. */
  function Splice(c: seq<byte>, at: nat, data: seq<byte>): (r: seq<byte>)
    requires at + |data| <= |c|
    ensures |r| == |c|
  {
    seq(|c|, i requires 0 <= i < |c| => if at <= i < at + |data| then data[i - at] else c[i])
  }

  /** Rewriting a larger block in which only `data` differs is the same as writing `data`. */
  lemma SpliceWithin(c: seq<byte>, begin: nat, block: seq<byte>, off: nat, data: seq<byte>)
    requires begin + |block| <= |c| && off + |data| <= |block|
    requires forall i | 0 <= i < |block| :: block[i] == c[begin + i]
    ensures Splice(c, begin, Splice(block, off, data)) == Splice(c, begin + off, data)
  {
    forall i | 0 <= i < |c|
      ensures Splice(c, begin, Splice(block, off, data))[i] == Splice(c, begin + off, data)[i]
    {
      if begin <= i < begin + |block| {
        assert c[i] == c[begin + (i - begin)] == block[i - begin];
      }
    }
  }

  /** Where an offset points on a device of `n` bytes: negative means from the end. */
  function Position(at: int, n: nat): int { if at < 0 then n + at else at }

  /** The last `m` bytes. */
  function Suffix(c: seq<byte>, m: nat): seq<byte>
    requires m <= |c|
  {
    c[|c| - m..]
  }

  ghost predicate IsSuffix(s: seq<byte>, c: seq<byte>) {
    |s| <= |c| && s == Suffix(c, |s|)
  }

  lemma SuffixOfSuffix(s: seq<byte>, c: seq<byte>, m: nat)
    requires IsSuffix(s, c) && m <= |s|
    ensures Suffix(s, m) == Suffix(c, m)
  {
    forall k | 0 <= k < m
      ensures Suffix(s, m)[k] == Suffix(c, m)[k]
    {
      assert s[|s| - m + k] == Suffix(c, |s|)[|s| - m + k];
    }
  }

  function BigEndian(b: seq<byte>): nat {
    if b == [] then 0 else 256 * BigEndian(b[..|b| - 1]) + b[|b| - 1]
  }

  function Pow256(n: nat): nat { if n == 0 then 1 else 256 * Pow256(n - 1) }

  lemma BigEndianBelow(b: seq<byte>)
    ensures BigEndian(b) < Pow256(|b|)
  {
    if b == [] {
    } else {
      BigEndianBelow(b[..|b| - 1]);
    }
  }

  lemma BigEndianBound(b: seq<byte>)
    requires |b| == 8
    ensures BigEndian(b) <= NO_SECONDARY
  {
    BigEndianBelow(b);
    assert Pow256(8) == NO_SECONDARY + 1;
  }

  predicate HasSig(buf: seq<byte>, sig: seq<byte>) {
    |buf| >= |sig| && buf[..|sig|] == sig
  }

  /** The LBAs of the primary and the secondary DDF header, as the anchor gives them. */
  function FindOffsets(anchor: seq<byte>): (nat, nat)
    requires |anchor| >= 112
  {
    (BigEndian(anchor[96..104]), BigEndian(anchor[104..112]))
  }

  /** Byte offset of an LBA, in 64-bit arithmetic. */
  function LbaOffset(sectorSize: nat, lba: nat): int { WrapI64(sectorSize * lba) }

  /** The alignments the retry loop goes through. */
  predicate IsStep(a: int) {
    a == 512 || a == 1024 || a == 2048 || a == 4096 || a == 8192 || a == 16384
  }

  function Align(at: int, how: int): (int, int)
    requires how > 0
  {
    if GoMod(at, how) == 0 then (at, 0)
    else if 0 < at < how then (0, at)
    else
      var off := if at < 0 then how + GoMod(at, how) else GoMod(at, how);
      (at - off, off)
  }

  lemma NonzeroMultiple(k: int, m: int)
    requires k != 0 && m > 0
    ensures k * m >= m || k * m <= -m
  {
    if k >= 1 {
      assert 0 <= (k - 1) * m;
    } else {
      assert 0 <= (-k - 1) * m;
    }
  }

  lemma DivModUnique(a: int, q: int, m: int, r: int)
    requires 0 <= r < m && a == q * m + r
    ensures a / m == q && a % m == r
  {
    var q', r' := a / m, a % m;
    assert a == m * q' + r';
    assert (q - q') * m == q * m - m * q';
    if q != q' {
      NonzeroMultiple(q - q', m);
    }
  }

  lemma MultipleSum(a: int, b: int, m: int)
    requires m > 0 && a % m == 0 && b % m == 0
    ensures (a + b) % m == 0 && (a - b) % m == 0
  {
    assert a + b == (a / m + b / m) * m;
    assert a - b == (a / m - b / m) * m;
    DivModUnique(a + b, a / m + b / m, m, 0);
    DivModUnique(a - b, a / m - b / m, m, 0);
  }

  /** Despite the truncating remainder, Align rounds towards minus infinity. */
  lemma AlignIsFloor(at: int, how: int)
    requires how > 0
    ensures var (res, off) := Align(at, how);
            res + off == at && 0 <= off < how && res % how == 0
  {
    var q, m := Abs(at) / how, Abs(at) % how;
    assert Abs(at) == q * how + m;
    if at >= 0 {
      if at < how {
        DivModUnique(at, 0, how, at);
      }
      assert Align(at, how) == (at - m, m);
      DivModUnique(at - m, q, how, 0);
    } else if m == 0 {
      assert Align(at, how) == (at, 0);
      DivModUnique(at, -q, how, 0);
    } else {
      assert Align(at, how) == (at - (how - m), how - m);
      assert at - (how - m) == (-q - 1) * how;
      DivModUnique(at - (how - m), -q - 1, how, 0);
    }
  }

  lemma MultipleAboveMinus(x: int, m: int)
    requires m > 0 && x % m == 0 && -m < x
    ensures 0 <= x
  {
    if x < 0 {
      assert x == (x / m) * m;
      NonzeroMultiple(x / m, m);
    }
  }

  function StartOf(begin: int, n: nat): int { if begin < 0 then n + begin else begin }

  /** The aligned start of a read lies less than one step before the position asked for. */
  lemma AlignBegin(at: int, how: int, n: nat)
    requires how > 0 && Abs(at) <= n
    ensures var (begin, off) := Align(at, how);
            && (begin < 0 <==> at < 0)
            && StartOf(begin, n) + off == Position(at, n)
            && (n % how == 0 ==> 0 <= StartOf(begin, n) && StartOf(begin, n) % how == 0)
  {
    AlignIsFloor(at, how);
    var begin := Align(at, how).0;
    if at >= 0 {
      MultipleAboveMinus(begin, how);
    } else if n % how == 0 {
      MultipleSum(n, begin, how);
      MultipleAboveMinus(n + begin, how);
    }
  }

  /** Two multiples that differ by less than one step are equal, and rounding the end
      of a read up by one step keeps its length a multiple. */
  lemma RoundedLength(begin: int, end: int, how: int)
    requires how > 0 && begin % how == 0 && end % how == 0
    ensures (end - begin) % how == 0 && (end - begin + how) % how == 0
    ensures begin - how < end <= begin ==> end == begin
  {
    MultipleSum(end, begin, how);
    DivModUnique(how, 1, how, 0);
    MultipleSum(end - begin, how, how);
    if begin - how < end {
      MultipleAboveMinus(end - begin, how);
    }
  }

  // ---------------------------------------------------------------- device contents

  /** There is something to read at this place of a device of `n` bytes. */
  predicate Reaches(n: nat, at: int, size: int) {
    Abs(at) <= n && (Position(at, n) < n || size == 0)
  }

  /** The bytes from `at` to `at + size`, cut off at the end of the device. */
  function BytesAt(c: seq<byte>, at: int, size: nat): seq<byte>
    requires Abs(at) <= |c|
  {
    c[Position(at, |c|)..Min(Position(at, |c|) + size, |c|)]
  }

  lemma BytesAtSplice(c: seq<byte>, at: nat, data: seq<byte>)
    requires at + |data| <= |c|
    ensures BytesAt(Splice(c, at, data), at, |data|) == data
  {
  }

  lemma BytesBesideSplice(c: seq<byte>, at: nat, data: seq<byte>, other: nat, size: nat)
    requires at + |data| <= |c| && other + size <= |c|
    requires other + size <= at || at + |data| <= other
    ensures BytesAt(Splice(c, at, data), other, size) == BytesAt(c, other, size)
  {
  }

  /** A DDF header starts at this offset, before the anchor. */
  predicate HeaderAt(c: seq<byte>, offset: int) {
    && offset < |c| - DDF_ANCHOR_SIZE
    && Abs(offset) <= |c|
    && |BytesAt(c, offset, DDF_ANCHOR_SIZE)| == DDF_ANCHOR_SIZE
    && HasSig(BytesAt(c, offset, DDF_ANCHOR_SIZE), DDF_SIG)
  }

  predicate HasDdf(c: seq<byte>, sector: nat)
    requires |c| >= DDF_ANCHOR_SIZE
  {
    var anchor := Suffix(c, DDF_ANCHOR_SIZE);
    var (pri, sec) := FindOffsets(anchor);
    && HasSig(anchor, DDF_SIG)
    && HeaderAt(c, LbaOffset(sector, pri))
    && (sec == NO_SECONDARY || HeaderAt(c, LbaOffset(sector, sec)))
  }

  predicate DetectImsm(c: seq<byte>)
    requires |c| >= IMSM_RECORD_SIZE
  {
    Suffix(c, IMSM_RECORD_SIZE)[..|IMSM_SIG|] == IMSM_SIG
  }

  /** Where the DDF records start, going by the anchor. */
  function RecordStart(c: seq<byte>, sector: nat): int
    requires |c| >= DDF_ANCHOR_SIZE
  {
    var (pri, sec) := FindOffsets(Suffix(c, DDF_ANCHOR_SIZE));
    LbaOffset(sector, if sec > pri then pri else sec)
  }

  /** How much of the device SaveDdf keeps, whether or not it reports an error. */
  function DdfLength(c: seq<byte>, sector: nat): nat
    requires |c| >= DDF_ANCHOR_SIZE && RecordStart(c, sector) < |c|
  {
    var start := RecordStart(c, sector);
    if Abs(start) > |c| then 0 else if start < 0 then -start else |c| - start
  }

  /** On a detected DDF device the records start before the anchor; nothing keeps an LBA
      that overflows from being taken, which puts them at a negative offset. */
  lemma DetectedRecordStart(c: seq<byte>, sector: nat)
    requires |c| >= DDF_ANCHOR_SIZE && HasDdf(c, sector)
    ensures RecordStart(c, sector) < |c| - DDF_ANCHOR_SIZE
  {
    BigEndianBound(Suffix(c, DDF_ANCHOR_SIZE)[96..104]);
    BigEndianBound(Suffix(c, DDF_ANCHOR_SIZE)[104..112]);
  }

  /** An anchor whose primary LBA overflows to minus one sector points at itself. */
  lemma WrappedRecordStart(c: seq<byte>)
    requires |c| >= DDF_ANCHOR_SIZE && HasSig(Suffix(c, DDF_ANCHOR_SIZE), DDF_SIG)
    requires FindOffsets(Suffix(c, DDF_ANCHOR_SIZE)) == (NO_SECONDARY, NO_SECONDARY)
    ensures HasDdf(c, 512) && RecordStart(c, 512) == -512
  {
    assert BytesAt(c, -512, DDF_ANCHOR_SIZE) == Suffix(c, DDF_ANCHOR_SIZE);
  }

  /** The type that detection settles on. */
  function Classify(c: seq<byte>, sector: nat, thr: nat, default: RaidType): RaidType
    requires |c| >= IMSM_RECORD_SIZE
  {
    if DetectImsm(c) then Msm
    else if HasDdf(c, sector) then Ddf
    else if |c| > thr then Unknown
    else default
  }

  /** The signature is a text, 1024 bytes before the end. */
  lemma ImsmMeaning(c: seq<byte>)
    requires |c| >= 1024
    ensures DetectImsm(c) <==>
              forall i | 0 <= i < 24 :: c[|c| - 1024 + i] as int == "Intel Raid ISM Cfg Sig. "[i] as int
  {
    var text := "Intel Raid ISM Cfg Sig. ";
    assert forall i | 0 <= i < 24 :: IMSM_SIG[i] as int == text[i] as int;
    assert forall i | 0 <= i < 24 :: Suffix(c, 1024)[i] == c[|c| - 1024 + i];
  }

  lemma HeaderMeaning(c: seq<byte>, offset: nat)
    ensures HeaderAt(c, offset) <==> offset + 512 < |c| && c[offset..offset + 4] == [0xde, 0x11, 0xde, 0x11]
  {
    if offset + 512 < |c| {
      assert BytesAt(c, offset, 512)[..4] == c[offset..offset + 4];
    }
  }

  /** The anchor is the last 512 bytes, and the LBAs stand in it from bytes 96 and 104 on. */
  lemma DdfMeaning(c: seq<byte>, sector: nat)
    requires |c| >= 512
    ensures var anchor := |c| - 512;
            var pri, sec := BigEndian(c[anchor + 96..anchor + 104]), BigEndian(c[anchor + 104..anchor + 112]);
            HasDdf(c, sector) <==>
              && c[anchor..anchor + 4] == [0xde, 0x11, 0xde, 0x11]
              && HeaderAt(c, LbaOffset(sector, pri))
              && (sec == 0xffff_ffff_ffff_ffff || HeaderAt(c, LbaOffset(sector, sec)))
  {
    hide BigEndian, HeaderAt, LbaOffset;
    var anchor, a := |c| - 512, Suffix(c, 512);
    assert a[..4] == c[anchor..anchor + 4];
    assert a[96..104] == c[anchor + 96..anchor + 104] && a[104..112] == c[anchor + 104..anchor + 112];
  }

  /** Signatures decide, iMSM before DDF, and without one the size. */
  lemma ClassifyMeaning(c: seq<byte>, sector: nat, thr: nat, default: RaidType)
    requires |c| >= IMSM_RECORD_SIZE
    ensures DetectImsm(c) ==> Classify(c, sector, thr, default) == Msm
    ensures !DetectImsm(c) && HasDdf(c, sector) ==> Classify(c, sector, thr, default) == Ddf
    ensures !DetectImsm(c) && !HasDdf(c, sector) ==>
              Classify(c, sector, thr, default) == if |c| > thr then Unknown else default
  {
    hide HasDdf, DetectImsm;
  }

  /** Unless an LBA overflows, what is kept of a DDF device starts at the lower of the headers, and
      so holds both. */
  lemma HeadersKept(c: seq<byte>, sector: nat)
    requires |c| >= 512 && HasDdf(c, sector)
    requires var (pri, sec) := FindOffsets(Suffix(c, 512));
             sector * pri < 0x8000_0000_0000_0000
             && (sec != 0xffff_ffff_ffff_ffff ==> sector * sec < 0x8000_0000_0000_0000)
    ensures var (pri, sec) := FindOffsets(Suffix(c, 512));
            var m := DdfLength(c, sector);
            && m <= |c| && |c| - m <= sector * pri && HeaderAt(c, sector * pri)
            && (if sec == 0xffff_ffff_ffff_ffff then |c| - m == sector * pri
                else && |c| - m <= sector * sec && HeaderAt(c, sector * sec)
                     && (|c| - m == sector * pri || |c| - m == sector * sec))
  {
    hide BigEndian;
    DetectedRecordStart(c, sector);
    var (pri, sec) := FindOffsets(Suffix(c, 512));
    BigEndianBound(Suffix(c, 512)[96..104]);
    BigEndianBound(Suffix(c, 512)[104..112]);
    NoOverflow(sector, pri);
    if sec != 0xffff_ffff_ffff_ffff {
      NoOverflow(sector, sec);
      ProductOrder(sector, pri, sec);
    }
  }

  lemma NoOverflow(sector: nat, lba: nat)
    requires sector * lba < 0x8000_0000_0000_0000
    ensures LbaOffset(sector, lba) == sector * lba
  {
  }

  lemma ProductOrder(s: nat, a: nat, b: nat)
    ensures a <= b ==> s * a <= s * b
    ensures b <= a ==> s * b <= s * a
  {
  }

  // ---------------------------------------------------------------- block device

  /** The open block device. It refuses transfers as it likes (`accepts` is given the
      position and the length); reads and writes stop at the end of the device. */
  class BlockFile {
    const accepts: (int, int) -> bool
    const required: nat
    const logicalSector: nat
    const sectorReadable: bool
    const sizeReadable: bool
    const size: nat
    var content: seq<byte>
    var pos: nat

    constructor (required: nat, logicalSector: nat, sectorReadable: bool, sizeReadable: bool, content: seq<byte>)
      requires required > 0
      ensures Demands() && this.required == required
      ensures this.logicalSector == logicalSector && this.sectorReadable == sectorReadable
      ensures this.sizeReadable == sizeReadable
      ensures this.content == content && size == |content| && pos == 0
    {
      size := |content|;
      this.required, this.content, pos := required, content, 0;
      this.logicalSector, this.sectorReadable, this.sizeReadable := logicalSector, sectorReadable, sizeReadable;
      accepts := (at, length) => required > 0 && at % required == 0 && length % required == 0;
    }

    /** The size as far as it can be known: 0 if it cannot be read. */
    function Reported(): nat { if sizeReadable then size else 0 }

    /** The device takes exactly the transfers aligned to `required` bytes. */
    ghost predicate Demands() {
      required > 0 && forall at, length :: accepts(at, length) <==> at % required == 0 && length % required == 0
    }

    /** ... and its size is a multiple of that. */
    ghost predicate Regular()
      reads this
    {
      Demands() && |content| % required == 0
    }

    lemma Truncated(begin: int, length: int)
      requires Regular() && accepts(begin, length)
      ensures accepts(begin, |content| - begin)
    {
      MultipleSum(|content|, begin, required);
    }

    method Seek(offset: int, fromEnd: bool) returns (p: nat, err: Status)
      modifies this`pos
      ensures var target := if fromEnd then |content| + offset else offset;
              if target < 0 then p == 0 && err == Err(EInval) && pos == old(pos)
              else p == pos == target && err == Ok
    {
      var target := if fromEnd then |content| + offset else offset;
      if target < 0 {
        return 0, Err(EInval);
      }
      pos := target;
      return pos, Ok;
    }

    method Read(buf: array<byte>, length: nat) returns (n: nat, err: Status)
      requires length <= buf.Length
      modifies this`pos, buf
      ensures pos == old(pos) + n
      ensures length == 0 ==> n == 0 && err == Ok
      ensures length > 0 && !accepts(old(pos), length) ==> n == 0 && err == Err(EAlignment)
      ensures length > 0 && accepts(old(pos), length) ==>
                if old(pos) >= |content| then n == 0 && err == Err(EOF)
                else n == Min(length, |content| - old(pos)) && err == Ok
      ensures n <= length
      ensures n > 0 ==> old(pos) + n <= |content| && forall i | 0 <= i < n :: buf[i] == content[old(pos) + i]
    {
      if length == 0 {
        return 0, Ok;
      }
      if !accepts(pos, length) {
        return 0, Err(EAlignment);
      }
      if pos >= |content| {
        return 0, Err(EOF);
      }
      n := Min(length, |content| - pos);
      forall i | 0 <= i < n {
        buf[i] := content[pos + i];
      }
      pos := pos + n;
      err := Ok;
    }

    /** Stores what fits before the end of the device, then reports the lack of space. */
    method Write(buf: array<byte>) returns (n: nat, err: Status)
      requires buf.Length > 0
      modifies this`pos, this`content
      ensures |content| == old(|content|)
      ensures !accepts(old(pos), buf.Length) ==> n == 0 && err == Err(EAlignment) && content == old(content)
      ensures accepts(old(pos), buf.Length) && old(pos) >= |content| ==>
                n == 0 && err == Err(ENoSpc) && content == old(content)
      ensures accepts(old(pos), buf.Length) && old(pos) < |content| ==>
                && n == Min(buf.Length, |content| - old(pos))
                && err == (if n == buf.Length then Ok else Err(ENoSpc))
                && content == Splice(old(content), old(pos), buf[..n])
      ensures pos == old(pos) + n
    {
      if !accepts(pos, buf.Length) {
        return 0, Err(EAlignment);
      }
      if pos >= |content| {
        return 0, Err(ENoSpc);
      }
      n := Min(buf.Length, |content| - pos);
      content := Splice(content, pos, buf[..n]);
      pos := pos + n;
      err := if n == buf.Length then Ok else Err(ENoSpc);
    }

    method WriteAt(buf: array<byte>, length: nat, at: nat) returns (n: nat, err: Status)
      requires length <= buf.Length
      modifies this`content
      ensures |content| == old(|content|)
      ensures n == if length > 0 && accepts(at, length) && at < |content| then Min(length, |content| - at) else 0
      ensures err == (if length > 0 && !accepts(at, length) then Err(EAlignment)
                      else if n < length then Err(ENoSpc) else Ok)
      ensures content == if n > 0 then Splice(old(content), at, buf[..n]) else old(content)
    {
      if length == 0 {
        return 0, Ok;
      }
      if !accepts(at, length) {
        return 0, Err(EAlignment);
      }
      if at >= |content| {
        return 0, Err(ENoSpc);
      }
      n := Min(length, |content| - at);
      content := Splice(content, at, buf[..n]);
      err := if n == length then Ok else Err(ENoSpc);
    }
  }

  // ---------------------------------------------------------------- device

  /** Overwrites part of a buffer in place. */
  method Overlay(buf: array<byte>, total: nat, offset: nat, data: seq<byte>)
    requires offset + |data| <= total <= buf.Length
    modifies buf
    ensures buf[..total] == Splice(old(buf[..total]), offset, data)
  {
    var i, j := offset, 0;
    while j < |data|
      invariant 0 <= j <= |data| && i == offset + j
      invariant forall k | 0 <= k < buf.Length :: buf[k] == if offset <= k < i then data[k - offset] else old(buf[k])
    {
      buf[i] := data[j];
      i, j := i + 1, j + 1;
    }
  }

  class Device {
    const file: BlockFile
    var isOpen: bool
    var alignment: nat
    var arrayType: RaidType
    var sectorSize: nat
    var devSize: nat
    var arrayMetadata: seq<byte>
    var group: Array?

    constructor (file: BlockFile)
      requires |file.content| == file.size
      ensures Valid() && this.file == file && !isOpen && alignment == 0
      ensures arrayType == Unset && arrayMetadata == [] && group == null
    {
      this.file := file;
      isOpen, alignment, arrayType := false, 0, Unset;
      sectorSize, devSize, arrayMetadata, group := 0, 0, [], null;
    }

    ghost predicate SizeCached()
      reads this
    {
      devSize == 0 || devSize == file.Reported()
    }

    ghost predicate Valid()
      reads this, file
    {
      && |file.content| == file.size
      && SizeCached()
      && (alignment == 0 || IsStep(alignment))
      && (sectorSize == 0 || sectorSize == file.logicalSector)
    }

    /** The device demands one of the alignments tried, its size can be read and is a multiple
        of it, and the alignment found so far does not exceed it. */
    ghost predicate Ready()
      reads this, file
    {
      && Valid()
      && file.sizeReadable
      && file.Regular()
      && IsStep(file.required)
      && alignment <= file.required
    }

    method Open()
      requires Valid()
      modifies this`isOpen, file`pos
      ensures isOpen && Valid()
      ensures if old(isOpen) then file.pos == old(file.pos) else file.pos == 0
    {
      if !isOpen {
        isOpen, file.pos := true, 0;
      }
    }

    method Close()
      requires Valid()
      modifies this`isOpen
      ensures !isOpen && Valid()
    {
      isOpen := false;
    }

    method ReadSize() returns (n: nat, err: Status)
      requires SizeCached()
      modifies this`devSize
      ensures SizeCached() && n == devSize == file.Reported()
      ensures err == if file.sizeReadable then Ok else Err(EIoctl)
    {
      err := Ok;
      if devSize == 0 {
        if file.sizeReadable {
          devSize := file.size;
        } else {
          err := Err(EIoctl);
        }
      }
      n := devSize;
    }

    /** Seeks to the aligned place at or before `at`; on success `begin` is absolute. */
    method SeekAligned(at: int) returns (begin: int, offset1: nat, err: Status)
      requires Valid() && alignment != 0 && Abs(at) <= |file.content|
      modifies file`pos
      ensures 0 <= begin && offset1 < alignment
      ensures err == Ok || err == Err(EInval)
      ensures err == Ok ==> file.pos == begin && begin + offset1 == Position(at, |file.content|)
      ensures |file.content| % alignment == 0 ==> err == Ok && begin % alignment == 0
    {
      begin, offset1 := Align(at, alignment).0, Align(at, alignment).1;
      AlignIsFloor(at, alignment);
      AlignBegin(at, alignment, |file.content|);
      if begin < 0 {
        begin, err := file.Seek(begin, true);
      } else {
        var _, seekErr := file.Seek(begin, false);
        err := seekErr;
      }
    }

    /** The length of a read that covers `need` bytes from `begin` on. */
    method ReadLength(begin: nat, need: nat) returns (readEnd: nat)
      requires alignment != 0
      ensures need <= readEnd < need + alignment
      ensures begin % alignment == 0 ==> readEnd % alignment == 0 && (need == 0 ==> readEnd == 0)
    {
      var (end, o) := Align(begin + need, alignment);
      AlignIsFloor(begin + need, alignment);
      var length := end - begin;
      if o > 0 {
        length := length + alignment;
      }
      if begin % alignment == 0 {
        RoundedLength(begin, end, alignment);
      }
      readEnd := length;
    }

    /** One pass of the retry loop, with the current alignment. */
    method Attempt(at: int, reqSize: nat, buf: array<byte>)
      returns (total: nat, begin: int, offset1: nat, offset2: int, err: Status)
      requires Valid() && isOpen && alignment != 0 && Abs(at) <= |file.content|
      requires buf.Length == 2 * MAX_ALIGN + reqSize
      modifies file`pos, buf
      ensures err == Ok ==>
                && 0 <= begin && begin + total <= |file.content|
                && total <= buf.Length && (forall i | 0 <= i < total :: buf[i] == file.content[begin + i])
                && begin + offset1 == Position(at, |file.content|)
                && offset1 <= offset2 <= total
                && offset2 == Min(offset1 + reqSize, |file.content| - begin)
      ensures file.Regular() && err == Ok && total > 0 ==> file.accepts(begin, total)
      ensures Ready() && Reaches(|file.content|, at, reqSize) && alignment == file.required ==> err == Ok
    {
      begin, offset1, err := SeekAligned(at);
      offset2 := offset1 + reqSize;
      var readEnd := ReadLength(begin, offset1 + reqSize);
      total := 0;
      if err == Ok {
        total, err := file.Read(buf, readEnd);
        if file.Regular() && total > 0 {
          file.Truncated(begin, readEnd);
        }
      }
      if err == Err(EOF) && total - offset1 >= reqSize {
        err := Ok;
      }
      if offset2 > total {
        offset2 := total;
      }
    }

    method RawAlignedRead(at: int, reqSize: int)
      returns (buf: array<byte>, total: nat, begin: int, offset1: int, offset2: int, err: Status)
      requires Valid() && isOpen
      requires reqSize >= 0 || Abs(at) > file.Reported()
      modifies this`alignment, this`devSize, file`pos
      ensures Valid() && devSize == file.Reported() && fresh(buf)
      ensures Abs(at) > file.Reported() ==> err == Err(EBounds) && alignment == old(alignment)
      ensures err == Ok ==>
                && alignment != 0
                && reqSize >= 0 && Abs(at) <= file.Reported() <= |file.content|
                && 0 <= begin && total <= buf.Length && begin + total <= |file.content|
                && (forall i | 0 <= i < total :: buf[i] == file.content[begin + i])
                && begin + offset1 == Position(at, |file.content|)
                && 0 <= offset1 <= offset2 <= total
                && offset2 == Min(offset1 + reqSize, |file.content| - begin)
      ensures file.Regular() && err == Ok && total > 0 ==> file.accepts(begin, total)
      ensures old(Ready()) && Reaches(|file.content|, at, reqSize) ==> err == Ok && Ready()
    {
      var _, _ := ReadSize();
      if Abs(at) > devSize {
        buf := new byte[0];
        return buf, 0, 0, 0, 0, Err(EBounds);
      }
      if alignment == 0 {
        alignment := 512;
      }
      buf := new byte[MAX_ALIGN * 2 + reqSize];
      total, begin, offset1, offset2, err := 0, 0, 0, 0, Ok;
      while alignment <= MAX_ALIGN
        invariant Valid() || alignment == 2 * MAX_ALIGN
        invariant devSize == file.Reported() && alignment >= 512
        invariant old(Ready()) && Reaches(|file.content|, at, reqSize) ==> alignment <= file.required
        decreases 2 * MAX_ALIGN - alignment
      {
        total, begin, offset1, offset2, err := Attempt(at, reqSize, buf);
        if err == Ok {
          return;
        }
        alignment := alignment * 2;
      }
      alignment := 0;
      buf := new byte[0];
      if err == Ok {
        err := Err(EAlignment);
      }
    }

    method AlignedRead(at: int, size: int) returns (data: seq<byte>, err: Status)
      requires Valid() && isOpen
      requires size >= 0 || Abs(at) > file.Reported()
      modifies this`alignment, this`devSize, file`pos
      ensures Valid() && devSize == file.Reported()
      ensures Abs(at) > file.Reported() ==> err == Err(EBounds) && alignment == old(alignment)
      ensures err == Ok ==>
                && alignment != 0 && size >= 0 && Abs(at) <= file.Reported() <= |file.content|
                && data == BytesAt(file.content, at, size)
      ensures err != Ok ==> data == []
      ensures old(Ready()) && Reaches(|file.content|, at, size) ==> err == Ok && Ready()
    {
      var buf, total, begin, o1, o2, readErr := RawAlignedRead(at, size);
      if readErr != Ok {
        return [], readErr;
      }
      data, err := buf[o1..o2], readErr;
      ghost var p := Position(at, |file.content|);
      assert p + |data| == Min(p + size, |file.content|);
      forall k | 0 <= k < |data|
        ensures data[k] == file.content[p..p + |data|][k]
      {
        assert data[k] == buf[o1 + k] == file.content[begin + (o1 + k)];
      }
    }

    method WriteBlock(buf: array<byte>, total: nat, begin: nat) returns (err: Status)
      requires total <= buf.Length && begin + total <= |file.content|
      modifies file`content
      ensures |file.content| == old(|file.content|)
      ensures err == Ok ==> file.content == Splice(old(file.content), begin, buf[..total])
      ensures err != Ok ==> file.content == old(file.content)
      ensures total == 0 || file.accepts(begin, total) ==> err == Ok
    {
      var n;
      n, err := file.WriteAt(buf, total, begin);
      if err == Ok && n < total {
        err := Err(EShortWrite);
      }
    }

    /** Read, modify, write: only the bytes of `data` change, or nothing does. */
    method AlignedWrite(at: int, data: seq<byte>) returns (err: Status)
      requires Valid() && isOpen
      modifies this`alignment, this`devSize, file`pos, file`content
      ensures Valid() && |file.content| == old(|file.content|)
      ensures err == Ok ==>
                && alignment != 0 && Abs(at) <= |file.content|
                && Position(at, |file.content|) + |data| <= |file.content|
                && file.content == Splice(old(file.content), Position(at, |file.content|), data)
      ensures err != Ok ==> file.content == old(file.content)
      ensures old(Ready()) && Reaches(|file.content|, at, |data|)
                && Position(at, |file.content|) + |data| <= |file.content|
              ==> err == Ok
      ensures old(Ready()) && Reaches(|file.content|, at, |data|) ==> Ready()
    {
      var size := |data|;
      ghost var was := file.content;
      var buf, total, begin, offset1, offset2, readErr := RawAlignedRead(at, size);
      err := readErr;
      if err == Ok && offset2 - offset1 < size {
        err := Err(EShortWrite);
      }
      if err == Ok {
        ghost var block := buf[..total];
        Overlay(buf, total, offset1, data);
        SpliceWithin(was, begin, block, offset1, data);
        err := WriteBlock(buf, total, begin);
      }
    }

    /** Callers come here after a transfer has settled the alignment: with none, Go divides by zero. */
    method InRange(at: int, size: nat) returns (b: bool)
      requires Valid() && alignment != 0
      modifies this`devSize
      ensures Valid() && b == (file.sizeReadable && Position(at, |file.content|) + size <= |file.content|)
    {
      var n, err := ReadSize();
      if err != Ok {
        return false;
      }
      var p := if at < 0 then n + at else at;
      var (ap, off) := Align(p + size, alignment);
      AlignIsFloor(p + size, alignment);
      b := ap + off <= n;
    }

    // -------------------------------------------------------------- RAID metadata

    method LbaToByte(lba: nat) returns (offset: int, err: Status)
      requires Valid()
      modifies this`sectorSize
      ensures Valid()
      ensures err == if old(sectorSize) != 0 then Ok
                     else if !file.sectorReadable then Err(EIoctl)
                     else if file.logicalSector % 512 != 0 then Err(EBlkSsz)
                     else Ok
      ensures if err == Err(EIoctl) then sectorSize == 0 && offset == 0
              else sectorSize == file.logicalSector && offset == LbaOffset(sectorSize, lba)
    {
      err := Ok;
      if sectorSize == 0 {
        if !file.sectorReadable {
          return 0, Err(EIoctl);
        }
        sectorSize := file.logicalSector;
        if sectorSize % 512 != 0 {
          err := Err(EBlkSsz);
        }
      }
      offset := LbaOffset(sectorSize, lba);
    }

    /** Whether a lookup of an LBA gets past the reading and the check of the sector size. */
    ghost predicate SectorOk()
      reads this, file
    {
      sectorSize == 0 ==> file.sectorReadable && file.logicalSector % 512 == 0
    }

    method ReadHeader(lba: nat, anchorStart: int) returns (ok: bool)
      requires Valid() && isOpen && anchorStart == |file.content| - DDF_ANCHOR_SIZE
      modifies this`alignment, this`devSize, this`sectorSize, file`pos
      ensures Valid() && (old(SectorOk()) ==> SectorOk())
      ensures ok ==> HeaderAt(file.content, LbaOffset(file.logicalSector, lba))
      ensures old(Ready()) ==>
                Ready() && (ok <==> HeaderAt(file.content, LbaOffset(file.logicalSector, lba)) && old(SectorOk()))
    {
      var at, err := LbaToByte(lba);
      if err == Ok && at >= anchorStart {
        err := Err(ELbaVal);
      }
      if err != Ok {
        return false;
      }
      var buf;
      buf, err := AlignedRead(at, DDF_ANCHOR_SIZE);
      if err == Ok && |buf| != DDF_ANCHOR_SIZE {
        err := Err(EReadSize);
      }
      ok := err == Ok && HasSig(buf, DDF_SIG);
    }

    method DetectDdf(data: seq<byte>) returns (found: bool)
      requires Valid() && isOpen && |file.content| >= DDF_ANCHOR_SIZE
      requires |data| >= DDF_ANCHOR_SIZE && IsSuffix(data, file.content)
      modifies this`alignment, this`devSize, this`sectorSize, file`pos
      ensures Valid() && (old(SectorOk()) ==> SectorOk())
      ensures found ==> HasDdf(file.content, file.logicalSector)
      ensures old(Ready()) && old(SectorOk()) ==> Ready() && (found <==> HasDdf(file.content, file.logicalSector))
    {
      devSize := file.Reported();
      if !file.sizeReadable {
        return false;
      }
      var anchorStart := devSize - DDF_ANCHOR_SIZE;
      var buf := data[|data| - DDF_ANCHOR_SIZE..];
      SuffixOfSuffix(data, file.content, DDF_ANCHOR_SIZE);
      if !HasSig(buf, DDF_SIG) {
        return false;
      }
      var (pri, sec) := FindOffsets(buf);
      found := ReadHeader(pri, anchorStart);
      if found && sec != NO_SECONDARY {
        found := ReadHeader(sec, anchorStart);
      }
    }

    method DetectRaidType(thr: nat) returns (err: Status)
      requires Valid()
      modifies this`isOpen, this`alignment, this`devSize, this`sectorSize, this`arrayType, file`pos
      ensures Valid() && isOpen && (old(SectorOk()) ==> SectorOk())
      ensures err == Ok ==> |file.content| >= 8192
      ensures err != Ok ==> arrayType == old(arrayType)
      ensures old(Ready()) && |file.content| >= 8192 ==> err == Ok
      ensures old(Ready()) && old(SectorOk()) && err == Ok ==>
                Ready() && arrayType == Classify(file.content, file.logicalSector, thr, old(arrayType))
      ensures old(Ready()) && old(SectorOk()) && err == Ok ==> TypeRight(thr, old(arrayType))
    {
      hide Classify, TypeRight;
      Open();
      var buf;
      buf, err := AlignedRead(-8192, 8192);
      if err == Ok && |buf| != 8192 {
        err := Err(EReadSize);
      }
      if err != Ok {
        return;
      }
      assert buf == Suffix(file.content, 8192);
      SettleType(buf, thr);
    }

    /** The type is that of the signatures, iMSM before DDF; without one a device above the
        threshold is of unknown type and any other keeps its type. */
    ghost predicate TypeRight(thr: nat, before: RaidType)
      reads this, file
    {
      && |file.content| >= 1024
      && (DetectImsm(file.content) ==> arrayType == Msm)
      && (!DetectImsm(file.content) && HasDdf(file.content, file.logicalSector) ==> arrayType == Ddf)
      && (!DetectImsm(file.content) && !HasDdf(file.content, file.logicalSector) ==>
            arrayType == if |file.content| > thr then Unknown else before)
    }

    method SettleType(buf: seq<byte>, thr: nat)
      requires Valid() && isOpen && |buf| >= IMSM_RECORD_SIZE && IsSuffix(buf, file.content)
      modifies this`alignment, this`devSize, this`sectorSize, this`arrayType, file`pos
      ensures Valid() && (old(SectorOk()) ==> SectorOk())
      ensures old(Ready()) && old(SectorOk()) ==>
                Ready() && arrayType == Classify(file.content, file.logicalSector, thr, old(arrayType))
      ensures old(Ready()) && old(SectorOk()) ==> TypeRight(thr, old(arrayType))
    {
      hide HasDdf, Classify;
      ClassifyMeaning(file.content, file.logicalSector, thr, arrayType);
      SuffixOfSuffix(buf, file.content, IMSM_RECORD_SIZE);
      if DetectImsm(buf) {
        arrayType := Msm;
        return;
      }
      var isDdf := DetectDdf(buf);
      if isDdf {
        arrayType := Ddf;
        return;
      }
      var size, _ := ReadSize();
      if size > thr {
        arrayType := Unknown;
      }
    }

    method SaveImsm() returns (err: Status)
      requires Valid() && isOpen
      modifies this`alignment, this`devSize, this`arrayMetadata, file`pos
      ensures Valid() && IsSuffix(arrayMetadata, file.content)
      ensures err == Ok ==> |arrayMetadata| == IMSM_RECORD_SIZE
      ensures err != Ok ==> arrayMetadata == []
      ensures old(Ready()) ==> Ready() && (err == Ok <==> |file.content| >= IMSM_RECORD_SIZE)
    {
      arrayMetadata, err := AlignedRead(-IMSM_RECORD_SIZE, IMSM_RECORD_SIZE);
      if |arrayMetadata| != IMSM_RECORD_SIZE && err == Ok {
        err := Err(EShortWrite);
      }
    }

    method SaveFrom(recordStart: int) returns (err: Status)
      requires Valid() && isOpen && devSize == |file.content|
      modifies this`alignment, this`devSize, this`arrayMetadata, file`pos
      ensures Valid() && IsSuffix(arrayMetadata, file.content)
      ensures err == Ok ==> 0 <= recordStart <= |file.content| && arrayMetadata == file.content[recordStart..]
      ensures old(Ready()) && 0 <= recordStart <= |file.content| ==> err == Ok
      ensures old(Ready()) && recordStart < |file.content| ==>
                Ready() && arrayMetadata == (if Abs(recordStart) <= |file.content|
                                             then file.content[Position(recordStart, |file.content|)..] else [])
    {
      var bufSiz := devSize - recordStart;
      arrayMetadata, err := AlignedRead(recordStart, bufSiz);
      if |arrayMetadata| < bufSiz {
        err := Err(EReadSize);
      }
    }

    /** Reads from the anchor where the first DDF record starts. */
    method FindRecords() returns (recordStart: int, err: Status)
      requires Valid() && isOpen
      modifies this`alignment, this`devSize, this`sectorSize, file`pos
      ensures Valid()
      ensures err == Ok ==>
                && devSize == |file.content| >= DDF_ANCHOR_SIZE
                && recordStart == RecordStart(file.content, file.logicalSector)
      ensures old(Ready()) && old(SectorOk()) && |file.content| >= DDF_ANCHOR_SIZE ==> Ready() && err == Ok
    {
      recordStart := 0;
      var anchor;
      anchor, err := AlignedRead(-DDF_ANCHOR_SIZE, DDF_ANCHOR_SIZE);
      if |anchor| != DDF_ANCHOR_SIZE && err == Ok {
        err := Err(EShortWrite);
      }
      if err != Ok {
        return;
      }
      assert anchor == Suffix(file.content, DDF_ANCHOR_SIZE);
      var (priLba, secLba) := FindOffsets(anchor);
      if secLba > priLba {
        recordStart, err := LbaToByte(priLba);
      } else {
        recordStart, err := LbaToByte(secLba);
      }
    }

    /** Keeps the bytes from the first DDF record to the end of the device. */
    method SaveDdf() returns (err: Status)
      requires Valid() && isOpen
      modifies this`alignment, this`devSize, this`sectorSize, this`arrayMetadata, file`pos
      ensures Valid()
      ensures arrayMetadata == old(arrayMetadata) || IsSuffix(arrayMetadata, file.content)
      ensures err == Ok ==>
                && |file.content| >= DDF_ANCHOR_SIZE
                && 0 <= RecordStart(file.content, file.logicalSector) <= |file.content|
                && arrayMetadata == file.content[RecordStart(file.content, file.logicalSector)..]
      ensures old(Ready()) && old(SectorOk()) && |file.content| >= DDF_ANCHOR_SIZE ==>
                && (err == Ok <==> 0 <= RecordStart(file.content, file.logicalSector) <= |file.content|)
                && (RecordStart(file.content, file.logicalSector) < |file.content| ==>
                      Ready() && |arrayMetadata| == DdfLength(file.content, file.logicalSector))
    {
      hide RecordStart;
      var recordStart;
      recordStart, err := FindRecords();
      if err != Ok {
        return;
      }
      err := SaveFrom(recordStart);
    }

    method Backup() returns (err: Status)
      requires Valid()
      modifies this`isOpen, this`alignment, this`devSize, this`sectorSize, this`arrayMetadata, file`pos
      ensures Valid() && isOpen
      ensures arrayMetadata == old(arrayMetadata) || IsSuffix(arrayMetadata, file.content)
      ensures err == Ok && arrayType == Msm ==> |arrayMetadata| == IMSM_RECORD_SIZE
      ensures err == Ok && arrayType == Ddf ==>
                && |file.content| >= DDF_ANCHOR_SIZE
                && 0 <= RecordStart(file.content, file.logicalSector) <= |file.content|
                && arrayMetadata == file.content[RecordStart(file.content, file.logicalSector)..]
      ensures err == Ok ==> arrayType != Unset
      ensures old(Ready()) && arrayType == Msm ==> Ready() && (err == Ok <==> |file.content| >= IMSM_RECORD_SIZE)
      ensures old(Ready()) && old(SectorOk()) && arrayType == Ddf && |file.content| >= DDF_ANCHOR_SIZE ==>
                && (err == Ok <==> 0 <= RecordStart(file.content, file.logicalSector) <= |file.content|)
                && (RecordStart(file.content, file.logicalSector) < |file.content| ==>
                      Ready() && |arrayMetadata| == DdfLength(file.content, file.logicalSector))
      ensures old(Ready()) && arrayType == Unknown ==> Ready() && err == Ok && arrayMetadata == old(arrayMetadata)
    {
      Open();
      match arrayType
      case Msm => err := SaveImsm();
      case Ddf => err := SaveDdf();
      case Unknown => err := Ok;
      case Unset => err := Err(EUnknownRaidFormat);
    }

    method WriteBack() returns (err: Status)
      requires Valid() && isOpen && 0 < |arrayMetadata| <= |file.content|
      modifies this`alignment, this`devSize, file`pos, file`content
      ensures Valid() && |file.content| == old(|file.content|)
      ensures file.content == if err == Ok
                              then Splice(old(file.content), |file.content| - |arrayMetadata|, arrayMetadata)
                              else old(file.content)
      ensures old(Ready()) ==> err == Ok
    {
      err := AlignedWrite(-|arrayMetadata|, arrayMetadata);
    }

    /** Puts the kept bytes back at the end of the device. */
    method Restore() returns (err: Status)
      requires Valid() && |arrayMetadata| <= |file.content|
      modifies this`isOpen, this`alignment, this`devSize, file`pos, file`content
      ensures Valid() && isOpen && |file.content| == old(|file.content|)
      ensures file.content == if err == Ok && arrayType != Unknown
                              then Splice(old(file.content), |file.content| - |arrayMetadata|, arrayMetadata)
                              else old(file.content)
      ensures err == Ok ==> arrayMetadata != [] && arrayType != Unset
      ensures old(Ready()) && arrayMetadata != [] && arrayType != Unset ==> err == Ok
    {
      hide Splice;
      Open();
      if arrayMetadata == [] {
        return Err(ENoData);
      }
      if arrayType == Msm || arrayType == Ddf {
        err := WriteBack();
      } else {
        err := if arrayType == Unknown then Ok else Err(EUnknownRaidFormat);
      }
    }
  }

  // ---------------------------------------------------------------- arrays

  /** The larger size is within the tolerance of the smaller. */
  predicate SizesMatch(a: nat, b: nat, tol: real) {
    if a > b then a as real <= b as real * (1.0 + tol) else b as real <= a as real * (1.0 + tol)
  }

  /** Either size is within the tolerance of the other. */
  lemma SizesMatchIff(a: nat, b: nat, tol: real)
    requires tol >= 0.0
    ensures SizesMatch(a, b, tol) <==> a as real <= b as real * (1.0 + tol) && b as real <= a as real * (1.0 + tol)
    ensures SizesMatch(a, a, tol) && SizesMatch(a, b, tol) == SizesMatch(b, a, tol)
  {
    NotLess(a as real, tol);
    NotLess(b as real, tol);
  }

  lemma NotLess(x: real, tol: real)
    requires x >= 0.0 && tol >= 0.0
    ensures x <= x * (1.0 + tol)
  {
  }

  predicate Matches(a: Device, b: Device, tol: real) {
    a.file.sizeReadable && b.file.sizeReadable && SizesMatch(a.file.size, b.file.size, tol)
  }

  /** Devices whose size cannot be read match none. */
  method SizeMatch(a: Device, b: Device, tol: real) returns (m: bool)
    requires a.SizeCached() && b.SizeCached()
    modifies a`devSize, b`devSize
    ensures a.SizeCached() && b.SizeCached() && m == Matches(a, b, tol)
    ensures tol >= 0.0 ==>
              (m <==> && a.file.sizeReadable && b.file.sizeReadable
                      && a.file.size as real <= b.file.size as real * (1.0 + tol)
                      && b.file.size as real <= a.file.size as real * (1.0 + tol))
  {
    if tol >= 0.0 {
      SizesMatchIff(a.file.size, b.file.size, tol);
    }
    var sa, errA := a.ReadSize();
    if errA != Ok {
      return false;
    }
    var sb, errB := b.ReadSize();
    m := errB == Ok && SizesMatch(sa, sb, tol);
  }

  class Array {
    const arrayType: RaidType
    var devices: seq<Device>

    constructor (d: Device)
      modifies d`group
      ensures devices == [d] && arrayType == d.arrayType && d.group == this
    {
      devices, arrayType := [d], d.arrayType;
      new;
      d.group := this;
    }

    method Add(d: Device) returns (err: Status)
      modifies this`devices, d`group
      ensures if d.arrayType == arrayType
              then err == Ok && devices == old(devices) + [d] && d.group == this
              else err == Err(ETypeMismatch) && devices == old(devices) && d.group == old(d.group)
    {
      if d.arrayType != arrayType {
        return Err(ETypeMismatch);
      }
      devices, d.group := devices + [d], this;
      err := Ok;
    }

    /** Its members know it, are of its type and match its first device in size. */
    ghost predicate Consistent(all: seq<Device>, tol: real)
      reads this, all
    {
      && devices != []
      && arrayType != Unset
      && (forall e <- devices ::
            && e in all && e.group == this && e.arrayType == arrayType
            && (e == devices[0] || Matches(devices[0], e, tol)))
      && (forall i, j | 0 <= i < j < |devices| :: devices[i] != devices[j])
    }

    /** The device would have been added to this array. */
    ghost predicate Claims(d: Device, tol: real)
      reads this, d
    {
      devices != [] && d.arrayType == arrayType && Matches(devices[0], d, tol)
    }
  }

  /** The arrays built so far share out the devices that are in one. */
  ghost predicate SharedOut(arrays: seq<Array>, devices: seq<Device>, tol: real)
    reads arrays, devices
  {
    && (forall a <- arrays :: a.Consistent(devices, tol))
    && (forall d <- devices :: d.group != null ==> d.group in arrays && d in d.group.devices)
    && (forall a <- arrays, d <- devices | d.group == null :: !a.Claims(d, tol))
    && (forall i, j | 0 <= i < j < |arrays| ::
          arrays[i] != arrays[j] && Passes(arrays[i], arrays[j].devices, devices, tol))
  }

  /** The array claims none of the members. */
  ghost predicate Passes(a: Array, members: seq<Device>, devices: seq<Device>, tol: real)
    reads a, devices
  {
    forall e <- members :: e in devices && !a.Claims(e, tol)
  }

  ghost predicate Different(devices: seq<Device>) {
    forall i, j | 0 <= i < j < |devices| :: devices[i] != devices[j]
  }

  /** The devices that are in a set, in the order of the list. */
  ghost function Within(devices: seq<Device>, s: set<Device>): seq<Device> {
    if devices == [] then [] else (if devices[0] in s then [devices[0]] else []) + Within(devices[1..], s)
  }

  ghost function Elements(members: seq<Device>): set<Device> { set e <- members }

  lemma {:induction false} WithinSplit(a: seq<Device>, b: seq<Device>, s: set<Device>)
    ensures Within(a + b, s) == Within(a, s) + Within(b, s)
  {
    if a == [] {
      assert a + b == b;
    } else {
      assert (a + b)[1..] == a[1..] + b && (a + b)[0] == a[0];
      WithinSplit(a[1..], b, s);
      var first := if a[0] in s then [a[0]] else [];
      assert Within(a + b, s) == first + Within(a[1..] + b, s) && Within(a, s) == first + Within(a[1..], s);
      assert first + (Within(a[1..], s) + Within(b, s)) == first + Within(a[1..], s) + Within(b, s);
    }
  }

  lemma {:induction false} WithinSame(a: seq<Device>, s: set<Device>, t: set<Device>)
    requires forall d <- a :: d in s <==> d in t
    ensures Within(a, s) == Within(a, t)
  {
    if a == [] {
    } else {
      assert a[0] in a;
      WithinSame(a[1..], s, t);
    }
  }

  lemma {:induction false} WithinNone(a: seq<Device>, s: set<Device>)
    requires forall d <- a :: d !in s
    ensures Within(a, s) == []
  {
    if a == [] {
    } else {
      assert a[0] in a;
      WithinNone(a[1..], s);
    }
  }

  lemma {:induction false} WithinIn(a: seq<Device>, s: set<Device>)
    ensures forall d <- Within(a, s) :: d in a && d in s
    ensures forall d <- a | d in s :: d in Within(a, s)
  {
    if a == [] {
    } else {
      WithinIn(a[1..], s);
      assert a == [a[0]] + a[1..];
    }
  }

  /** The members stand in the order of the list from `i` to `hi`. */
  ghost predicate InOrder(devices: seq<Device>, i: nat, hi: nat, members: seq<Device>) {
    i <= hi <= |devices| && (Different(devices) ==> members == Within(devices[i..hi], Elements(members)))
  }

  lemma InOrderStart(devices: seq<Device>, i: nat)
    requires i < |devices|
    ensures InOrder(devices, i, i + 1, [devices[i]])
  {
    assert devices[i..i + 1] == [devices[i]] && [devices[i]][1..] == [];
  }

  lemma NotYet(devices: seq<Device>, i: nat, j: nat)
    requires i <= j < |devices| && Different(devices)
    ensures devices[j] !in devices[i..j] && devices[i..j + 1] == devices[i..j] + [devices[j]]
  {
  }

  lemma InOrderSkip(devices: seq<Device>, i: nat, j: nat, members: seq<Device>)
    requires j < |devices| && InOrder(devices, i, j, members)
    ensures InOrder(devices, i, j + 1, members)
  {
    if Different(devices) {
      var s, e := Elements(members), devices[j];
      NotYet(devices, i, j);
      WithinIn(devices[i..j], s);
      WithinSplit(devices[i..j], [e], s);
      WithinNone([e], s);
    }
  }

  lemma InOrderAdd(devices: seq<Device>, i: nat, j: nat, members: seq<Device>)
    requires j < |devices| && InOrder(devices, i, j, members)
    ensures InOrder(devices, i, j + 1, members + [devices[j]])
  {
    if Different(devices) {
      var e := devices[j];
      var s, t := Elements(members), Elements(members + [e]);
      assert t == s + {e};
      NotYet(devices, i, j);
      WithinSame(devices[i..j], s, t);
      WithinSplit(devices[i..j], [e], t);
      assert Within([e], t) == [e] by { assert [e][1..] == []; }
    }
  }

  lemma CutApart(devices: seq<Device>, i: nat)
    requires i <= |devices| && Different(devices)
    ensures forall d <- devices[..i] :: d !in devices[i..]
  {
  }

  lemma InOrderAll(devices: seq<Device>, i: nat, members: seq<Device>)
    requires i <= |devices| && InOrder(devices, i, |devices|, members)
    ensures InOrder(devices, 0, |devices|, members)
  {
    if Different(devices) {
      var s := Elements(members);
      assert devices[i..|devices|] == devices[i..] && devices[0..|devices|] == devices == devices[..i] + devices[i..];
      WithinIn(devices[i..], s);
      CutApart(devices, i);
      WithinNone(devices[..i], s);
      WithinSplit(devices[..i], devices[i..], s);
    }
  }

  /** The first device of the list that has a type. */
  ghost predicate Leads(devices: seq<Device>, d: Device)
    reads devices`arrayType
  {
    exists f :: 0 <= f < |devices| && LeadsAt(devices, d, f)
  }

  ghost predicate LeadsAt(devices: seq<Device>, d: Device, f: nat)
    requires f < |devices|
    reads devices`arrayType
  {
    devices[f] == d && forall k | 0 <= k < f :: devices[k].arrayType == Unset
  }

  /** Opens an array with the device at `i` and adds the later devices that fit. */
  method Gather(devices: seq<Device>, i: nat, tol: real) returns (a: Array)
    requires 0.0 < tol && i < |devices| && devices[i].group == null && devices[i].arrayType != Unset
    requires forall d <- devices :: d.SizeCached()
    modifies devices`group, devices`devSize
    ensures forall d <- devices :: d.SizeCached()
    ensures fresh(a) && a.Consistent(devices, tol) && a.devices[0] == devices[i]
    ensures forall e <- a.devices :: old(e.group) == null
    ensures forall e <- devices ::
              if old(e.group) != null then e.group == old(e.group) else e.group == null || e.group == a
    ensures forall e <- devices :: e.group == a ==> e in a.devices
    ensures forall k | i <= k < |devices| :: devices[k].group == null ==> !a.Claims(devices[k], tol)
    ensures InOrder(devices, 0, |devices|, a.devices)
  {
    hide InOrder, Matches;
    var d := devices[i];
    a := new Array(d);
    InOrderStart(devices, i);
    for j := i to |devices|
      invariant forall e <- devices :: e.SizeCached()
      invariant fresh(a) && a.Consistent(devices, tol) && a.devices[0] == d
      invariant forall e <- a.devices :: old(e.group) == null
      invariant forall e <- devices ::
                  if old(e.group) != null then e.group == old(e.group) else e.group == null || e.group == a
      invariant forall e <- devices :: e.group == a ==> e in a.devices
      invariant forall k | i <= k < j :: devices[k].group == null ==> !a.Claims(devices[k], tol)
      invariant InOrder(devices, i, if j == i then i + 1 else j, a.devices)
    {
      var e := devices[j];
      ghost var before := a.devices;
      if e.group == null && e.arrayType == a.arrayType {
        var m := SizeMatch(d, e, tol);
        if m {
          var err := a.Add(e);
          InOrderAdd(devices, i, j, before);
        }
      }
      if a.devices == before && j > i {
        InOrderSkip(devices, i, j, before);
      }
    }
    InOrderAll(devices, i, a.devices);
  }

  lemma SharedOutNext(arrays: seq<Array>, a: Array, devices: seq<Device>, tol: real)
    requires a.Consistent(devices, tol) && forall b <- arrays :: b.Consistent(devices, tol)
    requires forall d <- devices :: d.group != null ==> (d.group in arrays || d.group == a) && d in d.group.devices
    requires forall e <- devices | e.group == null :: !a.Claims(e, tol)
    requires forall b <- arrays, e <- devices | e.group == null :: !b.Claims(e, tol)
    requires forall k, l | 0 <= k < l < |arrays| ::
               arrays[k] != arrays[l] && Passes(arrays[k], arrays[l].devices, devices, tol)
    requires forall k | 0 <= k < |arrays| :: arrays[k] != a && Passes(arrays[k], a.devices, devices, tol)
    ensures SharedOut(arrays + [a], devices, tol)
  {
    hide Array.Consistent, Array.Claims, Passes;
    var more := arrays + [a];
    forall k, l | 0 <= k < l < |more|
      ensures more[k] != more[l] && Passes(more[k], more[l].devices, devices, tol)
    {
      assert more[k] == arrays[k] && more[l] == if l < |arrays| then arrays[l] else a;
    }
    assert forall b <- more :: b in arrays || b == a;
    assert forall b <- arrays :: b in more;
    assert a in more;
  }

  method NextArray(devices: seq<Device>, i: nat, tol: real, arrays: seq<Array>) returns (more: seq<Array>)
    requires 0.0 < tol && i < |devices| && devices[i].group == null && devices[i].arrayType != Unset
    requires forall d <- devices :: d.SizeCached()
    requires forall k | 0 <= k < i :: devices[k].arrayType != Unset ==> devices[k].group != null
    requires SharedOut(arrays, devices, tol)
    requires forall a <- arrays :: InOrder(devices, 0, |devices|, a.devices)
    modifies devices`group, devices`devSize
    ensures forall d <- devices :: d.SizeCached()
    ensures SharedOut(more, devices, tol)
    ensures forall a <- more :: InOrder(devices, 0, |devices|, a.devices)
    ensures |more| == |arrays| + 1 && more[..|arrays|] == arrays
    ensures more[|arrays|].devices != [] && more[|arrays|].devices[0] == devices[i]
    ensures devices[i].group != null
    ensures forall d <- devices :: old(d.group) != null ==> d.group == old(d.group)
  {
    hide InOrder, Matches;
    var a := Gather(devices, i, tol);
    forall e <- devices | e.group == null
      ensures !a.Claims(e, tol)
    {
      var k :| 0 <= k < |devices| && devices[k] == e;
    }
    forall b <- arrays
      ensures b.Consistent(devices, tol)
    {
      assert old(b.Consistent(devices, tol));
    }
    forall b <- arrays, e <- devices | old(e.group) == null
      ensures !b.Claims(e, tol)
    {
      assert old(!b.Claims(e, tol));
    }
    forall k, l | 0 <= k < l < |arrays|
      ensures arrays[k] != arrays[l] && Passes(arrays[k], arrays[l].devices, devices, tol)
    {
      assert old(Passes(arrays[k], arrays[l].devices, devices, tol));
      forall e <- arrays[l].devices
        ensures e in devices && !arrays[k].Claims(e, tol)
      {
        assert old(!arrays[k].Claims(e, tol));
      }
    }
    forall k | 0 <= k < |arrays|
      ensures arrays[k] != a && Passes(arrays[k], a.devices, devices, tol)
    {
      assert arrays[k] in arrays;
    }
    SharedOutNext(arrays, a, devices, tol);
    more := arrays + [a];
  }

  /** Both sizes can be read, and either is within the tolerance of the other. */
  predicate Near(a: Device, b: Device, tol: real) {
    && a.file.sizeReadable && b.file.sizeReadable
    && a.file.size as real <= b.file.size as real * (1.0 + tol)
    && b.file.size as real <= a.file.size as real * (1.0 + tol)
  }

  predicate SameSize(a: Device, b: Device) {
    a.file.sizeReadable && b.file.sizeReadable && a.file.size == b.file.size
  }

  lemma MatchesNear(a: Device, b: Device, tol: real)
    requires tol >= 0.0
    ensures Matches(a, b, tol) <==> Near(a, b, tol)
  {
    SizesMatchIff(a.file.size, b.file.size, tol);
  }

  /** Devices of one type and size end up in one array. */
  lemma EqualTogether(arrays: seq<Array>, devices: seq<Device>, tol: real)
    requires tol >= 0.0 && SharedOut(arrays, devices, tol)
    requires forall d <- devices :: d.group == null <==> d.arrayType == Unset
    ensures forall d <- devices, e <- devices | SameSize(d, e) && d.arrayType == e.arrayType != Unset ::
              d.group == e.group
  {
    hide Matches;
    forall d <- devices, e <- devices | SameSize(d, e) && d.arrayType == e.arrayType != Unset
      ensures d.group == e.group
    {
      var i :| 0 <= i < |arrays| && arrays[i] == d.group;
      var j :| 0 <= j < |arrays| && arrays[j] == e.group;
      if i < j {
        ClaimsLikeMember(arrays[i], devices, tol, d, e);
      } else if j < i {
        ClaimsLikeMember(arrays[j], devices, tol, e, d);
      }
    }
  }

  lemma ClaimsLikeMember(a: Array, devices: seq<Device>, tol: real, d: Device, e: Device)
    requires tol >= 0.0 && a.Consistent(devices, tol) && d in a.devices && SameSize(d, e) && e.arrayType == d.arrayType
    ensures a.Claims(e, tol)
  {
    hide Matches;
    var first := a.devices[0];
    MatchesNear(first, d, tol);
    MatchesNear(first, e, tol);
    NotLess(e.file.size as real, tol);
  }

  lemma MembersNear(arrays: seq<Array>, devices: seq<Device>, tol: real)
    requires tol >= 0.0 && SharedOut(arrays, devices, tol)
    ensures forall a <- arrays, e <- a.devices :: a.devices != [] && (e == a.devices[0] || Near(a.devices[0], e, tol))
  {
    hide Matches, Near;
    forall a <- arrays, e <- a.devices
      ensures a.devices != [] && (e == a.devices[0] || Near(a.devices[0], e, tol))
    {
      assert a.Consistent(devices, tol);
      MatchesNear(a.devices[0], e, tol);
    }
  }

  /** Sorts the devices into arrays: every device of a known type is in exactly one, an
      unset one in none, and no array holds a device that an earlier array claims. */
  method FindArrays(devices: seq<Device>, tol: real) returns (arrays: seq<Array>)
    requires 0.0 < tol
    requires forall d <- devices :: d.SizeCached() && d.group == null
    modifies devices`group, devices`devSize
    ensures forall d <- devices :: d.SizeCached()
    ensures SharedOut(arrays, devices, tol)
    ensures forall d <- devices :: d.group == null <==> d.arrayType == Unset
    ensures forall a <- arrays :: InOrder(devices, 0, |devices|, a.devices)
    ensures arrays != [] ==> arrays[0].devices != [] && Leads(devices, arrays[0].devices[0])
    ensures forall d <- devices, e <- devices | SameSize(d, e) && d.arrayType == e.arrayType != Unset ::
              d.group == e.group
    ensures forall a <- arrays, e <- a.devices :: a.devices != [] && (e == a.devices[0] || Near(a.devices[0], e, tol))
  {
    hide InOrder, Matches;
    arrays := [];
    for i := 0 to |devices|
      invariant forall d <- devices :: d.SizeCached()
      invariant SharedOut(arrays, devices, tol)
      invariant forall a <- arrays :: InOrder(devices, 0, |devices|, a.devices)
      invariant arrays == [] ==> forall k | 0 <= k < i :: devices[k].arrayType == Unset
      invariant arrays != [] ==> arrays[0].devices != [] && Leads(devices, arrays[0].devices[0])
      invariant forall k | 0 <= k < i :: devices[k].arrayType != Unset ==> devices[k].group != null
    {
      var d := devices[i];
      if d.group != null || d.arrayType == Unset {
        continue;
      }
      if arrays == [] {
        assert LeadsAt(devices, devices[i], i);
      }
      arrays := NextArray(devices, i, tol, arrays);
    }
    EqualTogether(arrays, devices, tol);
    MembersNear(arrays, devices, tol);
  }
}