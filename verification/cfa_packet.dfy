/** Packets of the Crystalfontz displays: the checksum, the writer and the
    incremental reader. */
module CfaPacket {
  type Command = bv8

  const MAX_DATA_LENGTH := 22
  const REPORT_KEY: Command := 0x80

  datatype PktType = CFCommand | CFResponse | CFReport | CFError

  function TypeOf(cmd: Command): PktType {
    match cmd >> 6
    case 0 => CFCommand
    case 1 => CFResponse
    case 2 => CFReport
    case _ => CFError
  }

  // ---------------------------------------------------------------- checksum

  predicate Low(v: bv16) { v & 1 == 1 }

  function Half(v: bv16): bv16 { v >> 1 }

  function Flip(v: bv16): bv16 { v ^ 0x8408 }

  function Xor(v: bv16, w: bv16): bv16 { v ^ w }

  /** One bit of the checksum: `b` is the byte, shifted so that its next bit is lowest. */
  function Step(crc: bv16, b: bv16): bv16 {
    if Low(Xor(crc, b)) then Flip(Half(crc)) else Half(crc)
  }

  function Steps(crc: bv16, b: bv16, n: nat): bv16
    decreases n
  {
    if n == 0 then crc else Steps(Step(crc, b), Half(b), n - 1)
  }

  function Update(crc: bv16, b: bv8): bv16 { Steps(crc, b as bv16, 8) }

  /** The register after a string of bytes. */
  function Register(crc: bv16, bytes: seq<bv8>): bv16 {
    if bytes == [] then crc else Update(Register(crc, bytes[..|bytes| - 1]), bytes[|bytes| - 1])
  }

  function Swap(v: bv16): bv16 { ((v << 8) & 0xff00) | (v >> 8) }

  function Inverted(v: bv16): bv16 { !v }

  function Crc(bytes: seq<bv8>): bv16 { Swap(Inverted(Register(0xffff, bytes))) }

  method CrcByte(before: bv16, byte: bv8) returns (crc: bv16)
    ensures crc == Update(before, byte)
  {
    crc := before;
    var b := byte as bv16;
    for i := 8 downto 0
      invariant Steps(crc, b, i) == Update(before, byte)
    {
      ghost var was := crc;
      if (crc ^ b) & 0x01 == 1 {
        crc := crc >> 1;
        crc := crc ^ 0x8408;
      } else {
        crc := crc >> 1;
      }
      assert crc == Step(was, b);
      b := b >> 1;
    }
  }

  method CfCrc(bytes: seq<bv8>) returns (crc: bv16)
    ensures crc == Crc(bytes)
  {
    crc := 0xffff;
    for k := 0 to |bytes|
      invariant crc == Register(0xffff, bytes[..k])
    {
      crc := CrcByte(crc, bytes[k]);
      assert bytes[..k + 1][..k] == bytes[..k];
    }
    assert bytes[..|bytes|] == bytes;
    crc := Swap(Inverted(crc));
  }

  // ---------------------------------------------------------------- algebra of the checksum

  /** A step on a zero bit. */
  function Shift(t: bv16): bv16 { if Low(t) then Flip(Half(t)) else Half(t) }

  function Shifts(t: bv16, n: nat): bv16
    decreases n
  {
    if n == 0 then t else Shifts(Shift(t), n - 1)
  }

  /** `t` is the exclusive or of `c` and `b`. */
  ghost predicate IsXor(t: bv16, c: bv16, b: bv16) { t == Xor(c, b) }

  lemma HalfXor(t: bv16, c: bv16, b: bv16)
    requires IsXor(t, c, b)
    ensures IsXor(Half(t), Half(c), Half(b))
  {
  }

  lemma FlippedXor(t: bv16, c: bv16, b: bv16)
    requires IsXor(t, c, b)
    ensures IsXor(Flip(t), Flip(c), b)
  {
  }

  lemma StepXor(t: bv16, crc: bv16, b: bv16)
    requires IsXor(t, crc, b)
    ensures IsXor(Shift(t), Step(crc, b), Half(b))
  {
    hide Low, Half, Flip, Xor;
    HalfXor(t, crc, b);
    FlippedXor(Half(t), Half(crc), Half(b));
  }

  lemma XorZero(t: bv16, c: bv16)
    requires IsXor(t, c, 0)
    ensures t == c
  {
  }

  /** `b` has no bits beyond the lowest `n`. */
  ghost predicate Fits(b: bv16, n: nat)
    decreases n
  {
    if n == 0 then b == 0 else Fits(Half(b), n - 1)
  }

  /** Feeding bits is the same as xor-ing them into the register first. */
  lemma {:induction false} StepsXor(t: bv16, crc: bv16, b: bv16, n: nat)
    requires IsXor(t, crc, b) && Fits(b, n)
    ensures Steps(crc, b, n) == Shifts(t, n)
    decreases n
  {
    hide IsXor, Step, Shift;
    if n == 0 {
      XorZero(t, crc);
    } else {
      StepXor(t, crc, b);
      StepsXor(Shift(t), Step(crc, b), Half(b), n - 1);
    }
  }

  lemma UpdateXor(t: bv16, crc: bv16, b: bv8)
    requires IsXor(t, crc, b as bv16)
    ensures Update(crc, b) == Shifts(t, 8)
  {
    hide IsXor, Steps, Shifts;
    ByteFits(b as bv16);
    StepsXor(t, crc, b as bv16, 8);
  }

  lemma ByteFits(v: bv16)
    requires v & 0xff00 == 0
    ensures Fits(v, 8)
  {
  }

  lemma ShiftInjective(c: bv16, d: bv16)
    requires Shift(c) == Shift(d)
    ensures c == d
  {
  }

  lemma {:induction false} ShiftsInjective(c: bv16, d: bv16, n: nat)
    requires Shifts(c, n) == Shifts(d, n)
    ensures c == d
    decreases n
  {
    hide Shift;
    if n == 0 {
    } else {
      ShiftsInjective(Shift(c), Shift(d), n - 1);
      ShiftInjective(c, d);
    }
  }

  lemma {:induction false} ShiftsAdd(t: bv16, m: nat, n: nat)
    ensures Shifts(Shifts(t, m), n) == Shifts(t, m + n)
    decreases m
  {
    hide Shift;
    if m == 0 {
    } else {
      ShiftsAdd(Shift(t), m - 1, n);
    }
  }

  /** The lowest `n` bits are clear, so that the others only move down. */
  ghost predicate Above(h: bv16, n: nat)
    decreases n
  {
    n == 0 || (!Low(h) && Above(Half(h), n - 1))
  }

  function Down(h: bv16, n: nat): bv16
    decreases n
  {
    if n == 0 then h else Down(Half(h), n - 1)
  }

  lemma LowXor(t: bv16, c: bv16, b: bv16)
    requires IsXor(t, c, b)
    ensures Low(t) == (Low(c) != Low(b))
  {
  }

  lemma ShiftXor(u: bv16, t: bv16, h: bv16)
    requires IsXor(u, t, h) && !Low(h)
    ensures IsXor(Shift(u), Shift(t), Half(h))
  {
    hide IsXor, Low, Half, Flip;
    LowXor(u, t, h);
    HalfXor(u, t, h);
    FlippedXor(Half(u), Half(t), Half(h));
  }

  lemma {:induction false} ShiftsAbove(u: bv16, t: bv16, h: bv16, n: nat)
    requires IsXor(u, t, h) && Above(h, n)
    ensures IsXor(Shifts(u, n), Shifts(t, n), Down(h, n))
    decreases n
  {
    hide IsXor, Shift;
    if n == 0 {
    } else {
      ShiftXor(u, t, h);
      ShiftsAbove(Shift(u), Shift(t), Half(h), n - 1);
    }
  }

  lemma HighByte(h: bv16)
    requires h & 0xff == 0
    ensures Above(h, 8) && Down(h, 8) == h >> 8
  {
  }

  /** Two bytes as they lie in the register, the first one lowest. */
  function Pair(x: bv8, y: bv8): bv16 { (x as bv16) | ((y as bv16) << 8) }

  lemma PairXor(s: bv16, x: bv8, y: bv8)
    ensures IsXor(s ^ Pair(x, y), s ^ (x as bv16), (y as bv16) << 8)
    ensures ((y as bv16) << 8) & 0xff == 0 && ((y as bv16) << 8) >> 8 == y as bv16
  {
  }

  /** Two bytes fill the register: 16 shifts of their xor with it. */
  lemma UpdateTwo(s: bv16, x: bv8, y: bv8)
    ensures Update(Update(s, x), y) == Shifts(s ^ Pair(x, y), 16)
  {
    hide Steps, Shifts, Above, Down, Update, IsXor, Pair;
    var t, u, h := s ^ (x as bv16), s ^ Pair(x, y), (y as bv16) << 8;
    PairXor(s, x, y);
    HighByte(h);
    ShiftsAbove(u, t, h, 8);
    XorHolds(s, x);
    UpdateXor(t, s, x);
    UpdateXor(Shifts(u, 8), Update(s, x), y);
    ShiftsAdd(u, 8, 8);
  }

  lemma XorHolds(s: bv16, x: bv8)
    ensures IsXor(s ^ (x as bv16), s, x as bv16)
  {
  }

  // ---------------------------------------------------------------- error detection

  /** The register after a good packet: section C.2 of RFC 1662. */
  const RESIDUE: bv16 := 0xf0b8

  lemma TwoShifts(t: bv16, u: bv16, v: bv16, n: nat)
    requires Shift(t) == u && Shift(u) == v
    ensures Shifts(t, n + 2) == Shifts(v, n)
  {
    hide Shift;
  }

  lemma AllOnes()
    ensures Shifts(0xffff, 16) == RESIDUE
  {
    hide Shifts;
    TwoShifts(0xffff, 0xfbf7, 0xf9f3, 14);
    TwoShifts(0xf9f3, 0xf8f1, 0xf870, 12);
    TwoShifts(0xf870, 0x7c38, 0x3e1c, 10);
    TwoShifts(0x3e1c, 0x1f0e, 0x0f87, 8);
    TwoShifts(0x0f87, 0x83cb, 0xc5ed, 6);
    TwoShifts(0xc5ed, 0xe6fe, 0x737f, 4);
    TwoShifts(0x737f, 0xbdb7, 0xdad3, 2);
    TwoShifts(0xdad3, 0xe961, 0xf0b8, 0);
    NoShifts(RESIDUE);
  }

  lemma NoShifts(t: bv16)
    ensures Shifts(t, 0) == t
  {
  }

  lemma Complement(s: bv16)
    ensures s ^ Inverted(s) == 0xffff
  {
  }

  lemma ResidueIff(s: bv16, x: bv8, y: bv8)
    ensures Update(Update(s, x), y) == RESIDUE <==> Pair(x, y) == Inverted(s)
  {
    hide Shifts, Update, Pair, Inverted;
    UpdateTwo(s, x, y);
    AllOnes();
    Complement(s);
    XorCancels(Pair(x, y), Inverted(s), s);
    if Update(Update(s, x), y) == RESIDUE {
      ShiftsInjective(s ^ Pair(x, y), 0xffff, 16);
    }
  }

  function BigEndian16(x: bv8, y: bv8): bv16 { ((x as bv16) << 8) | (y as bv16) }

  lemma BigEndianSwaps(x: bv8, y: bv8)
    ensures BigEndian16(x, y) == Swap(Pair(x, y))
  {
  }

  lemma SwapTwice(v: bv16)
    ensures Swap(Swap(v)) == v
  {
  }

  /** A checksum is right exactly when running the register over it leaves the residue. */
  lemma ValidIffResidue(body: seq<bv8>, x: bv8, y: bv8)
    ensures BigEndian16(x, y) == Crc(body) <==> Register(0xffff, body + [x, y]) == RESIDUE
  {
    hide Update, Pair, BigEndian16, Swap, Register, Inverted;
    RegisterTwo(body, x, y);
    ResidueIff(Register(0xffff, body), x, y);
    BigEndianSwaps(x, y);
    SwapTwice(Pair(x, y));
    SwapTwice(Inverted(Register(0xffff, body)));
  }

  lemma RegisterTwo(body: seq<bv8>, x: bv8, y: bv8)
    ensures Register(0xffff, body + [x, y]) == Update(Update(Register(0xffff, body), x), y)
  {
    hide Update;
    assert (body + [x, y])[..|body| + 1] == body + [x];
    assert (body + [x])[..|body|] == body;
  }

  lemma UpdateInjective(c: bv16, d: bv16, b: bv8)
    requires Update(c, b) == Update(d, b)
    ensures c == d
  {
    hide Update, Shifts, IsXor;
    XorHolds(c, b);
    XorHolds(d, b);
    UpdateXor(c ^ (b as bv16), c, b);
    UpdateXor(d ^ (b as bv16), d, b);
    ShiftsInjective(c ^ (b as bv16), d ^ (b as bv16), 8);
    XorCommutes(c, b as bv16);
    XorCommutes(d, b as bv16);
    XorCancels(c, d, b as bv16);
  }

  lemma XorCommutes(c: bv16, d: bv16)
    ensures c ^ d == d ^ c
  {
  }

  lemma XorCancels(c: bv16, d: bv16, v: bv16)
    ensures v ^ c == v ^ d <==> c == d
  {
  }

  lemma PairInjective(x: bv8, y: bv8, x': bv8, y': bv8)
    ensures Pair(x, y) == Pair(x', y') <==> x == x' && y == y'
  {
  }

  lemma UpdateTwoInjective(s: bv16, x: bv8, y: bv8, x': bv8, y': bv8)
    requires Update(Update(s, x), y) == Update(Update(s, x'), y')
    ensures x == x' && y == y'
  {
    hide Update, Shifts, Pair;
    UpdateTwo(s, x, y);
    UpdateTwo(s, x', y');
    ShiftsInjective(s ^ Pair(x, y), s ^ Pair(x', y'), 16);
    XorCancels(Pair(x, y), Pair(x', y'), s);
    PairInjective(x, y, x', y');
  }

  /** The strings differ, and nowhere but in the bytes at `i` and `i + 1`. */
  ghost predicate DifferAt(s: seq<bv8>, t: seq<bv8>, i: nat) {
    && |s| == |t| && i + 2 <= |s| && s != t
    && forall k | 0 <= k < |s| && k != i && k != i + 1 :: s[k] == t[k]
  }

  /** Damage to two neighbouring bytes always shows in the register. */
  lemma {:induction false} DamageShows(s: seq<bv8>, t: seq<bv8>, i: nat)
    requires DifferAt(s, t, i)
    ensures Register(0xffff, s) != Register(0xffff, t)
    decreases |s|
  {
    hide Update;
    var n := |s| - 1;
    if n == i + 1 {
      assert s == s[..i] + [s[i], s[i + 1]];
      assert t == s[..i] + [t[i], t[i + 1]];
      RegisterTwo(s[..i], s[i], s[i + 1]);
      RegisterTwo(s[..i], t[i], t[i + 1]);
      if Register(0xffff, s) == Register(0xffff, t) {
        UpdateTwoInjective(Register(0xffff, s[..i]), s[i], s[i + 1], t[i], t[i + 1]);
      }
    } else {
      assert s == s[..n] + [s[n]] && t == t[..n] + [s[n]];
      DamageShows(s[..n], t[..n], i);
      if Register(0xffff, s) == Register(0xffff, t) {
        UpdateInjective(Register(0xffff, s[..n]), Register(0xffff, t[..n]), s[n]);
      }
    }
  }

  // ---------------------------------------------------------------- single bits

  function Feed(crc: bv16, bit: bool): bv16 { Step(crc, Bit(bit)) }

  function FeedAll(crc: bv16, bits: seq<bool>): bv16
    decreases |bits|
  {
    if bits == [] then crc else FeedAll(Feed(crc, bits[0]), bits[1..])
  }

  /** The lowest `n` bits in the order in which they are fed. */
  function BitsOf(v: bv16, n: nat): (bits: seq<bool>)
    ensures |bits| == n
    decreases n
  {
    if n == 0 then [] else [Low(v)] + BitsOf(Half(v), n - 1)
  }

  /** The bits of a byte string as they are sent. */
  function Bits(bytes: seq<bv8>): (bits: seq<bool>)
    ensures |bits| == 8 * |bytes|
  {
    if bytes == [] then [] else Bits(bytes[..|bytes| - 1]) + BitsOf(bytes[|bytes| - 1] as bv16, 8)
  }

  lemma StepFeeds(crc: bv16, b: bv16)
    ensures Step(crc, b) == Feed(crc, Low(b))
  {
    hide Flip, Half;
  }

  lemma {:induction false} StepsFeed(crc: bv16, b: bv16, n: nat)
    ensures Steps(crc, b, n) == FeedAll(crc, BitsOf(b, n))
    decreases n
  {
    hide Step, Feed, Low, Half;
    if n == 0 {
    } else {
      StepFeeds(crc, b);
      StepsFeed(Step(crc, b), Half(b), n - 1);
      assert BitsOf(b, n)[1..] == BitsOf(Half(b), n - 1);
    }
  }

  lemma {:induction false} FeedSplit(crc: bv16, a: seq<bool>, b: seq<bool>)
    ensures FeedAll(crc, a + b) == FeedAll(FeedAll(crc, a), b)
    decreases |a|
  {
    hide Feed;
    if a == [] {
      assert a + b == b;
    } else {
      assert (a + b)[1..] == a[1..] + b;
      FeedSplit(Feed(crc, a[0]), a[1..], b);
    }
  }

  /** The register is that of the bits, one by one. */
  lemma {:induction false} RegisterFeeds(crc: bv16, bytes: seq<bv8>)
    ensures Register(crc, bytes) == FeedAll(crc, Bits(bytes))
  {
    hide Feed, Steps;
    if bytes == [] {
    } else {
      var n := |bytes| - 1;
      RegisterFeeds(crc, bytes[..n]);
      StepsFeed(Register(crc, bytes[..n]), bytes[n] as bv16, 8);
      FeedSplit(crc, Bits(bytes[..n]), BitsOf(bytes[n] as bv16, 8));
    }
  }

  function Bit(bit: bool): bv16 { if bit then 1 else 0 }

  lemma HalfDropsBit(crc: bv16, bit: bool)
    ensures Half(Xor(crc, Bit(bit))) == Half(crc)
  {
  }

  lemma FeedIsShift(crc: bv16, bit: bool)
    ensures Feed(crc, bit) == Shift(Xor(crc, Bit(bit)))
  {
    hide Low, Half, Flip, Xor, Bit;
    HalfDropsBit(crc, bit);
  }

  lemma XorInjective(c: bv16, d: bv16, v: bv16)
    requires Xor(c, v) == Xor(d, v)
    ensures c == d
  {
  }

  lemma FeedInjective(c: bv16, d: bv16, bit: bool)
    requires Feed(c, bit) == Feed(d, bit)
    ensures c == d
  {
    hide Feed, Shift, Xor, Bit;
    FeedIsShift(c, bit);
    FeedIsShift(d, bit);
    ShiftInjective(Xor(c, Bit(bit)), Xor(d, Bit(bit)));
    XorInjective(c, d, Bit(bit));
  }

  lemma {:induction false} FeedAllInjective(c: bv16, d: bv16, bits: seq<bool>)
    requires FeedAll(c, bits) == FeedAll(d, bits)
    ensures c == d
    decreases |bits|
  {
    hide Feed;
    if bits == [] {
    } else {
      FeedAllInjective(Feed(c, bits[0]), Feed(d, bits[0]), bits[1..]);
      FeedInjective(c, d, bits[0]);
    }
  }

  /** `v` moved up by one, with `bit` below it. */
  function Push(v: bv16, bit: bool): bv16 { (v << 1) | (if bit then 1 else 0) }

  /** The number whose lowest bits these are. */
  function Word(bits: seq<bool>): bv16 {
    if bits == [] then 0 else Push(Word(bits[1..]), bits[0])
  }

  lemma {:induction false} FitsMore(v: bv16, n: nat, m: nat)
    requires Fits(v, n) && n <= m
    ensures Fits(v, m)
    decreases m
  {
    if n == m {
    } else if n == 0 {
      FitsMore(Half(v), 0, m - 1);
    } else {
      FitsMore(Half(v), n - 1, m - 1);
    }
  }

  /** What `n` halvings leave. */
  function Halves(v: bv16, n: nat): bv16
    decreases n
  {
    if n == 0 then v else Halves(Half(v), n - 1)
  }

  lemma {:induction false} FitsIff(v: bv16, n: nat)
    ensures Fits(v, n) <==> Halves(v, n) == 0
    decreases n
  {
    hide Half;
    if n == 0 {
    } else {
      FitsIff(Half(v), n - 1);
    }
  }

  lemma {:induction false} HalvesAdd(v: bv16, m: nat, n: nat)
    ensures Halves(v, m + n) == Halves(Halves(v, m), n)
    decreases m
  {
    hide Half;
    if m == 0 {
    } else {
      HalvesAdd(Half(v), m - 1, n);
    }
  }

  lemma FourHalves(v: bv16)
    ensures Halves(v, 4) == Shifted4(v) && Halves(v, 3) == Shifted3(v)
  {
  }

  function Shifted4(v: bv16): bv16 { v >> 4 }

  function Shifted3(v: bv16): bv16 { v >> 3 }

  lemma HalvesIs(v: bv16)
    ensures Halves(v, 15) == Shifted3(Shifted4(Shifted4(Shifted4(v))))
    ensures Halves(v, 16) == Shifted4(Shifted4(Shifted4(Shifted4(v))))
  {
    hide Halves, Shifted3, Shifted4;
    var a := Halves(v, 4);
    var b := Halves(a, 4);
    FourHalves(v);
    FourHalves(a);
    FourHalves(b);
    FourHalves(Halves(b, 4));
    HalvesAdd(v, 4, 4);
    HalvesAdd(v, 8, 4);
    HalvesAdd(v, 12, 3);
    HalvesAdd(v, 12, 4);
  }

  lemma ShiftedOut(v: bv16)
    ensures Shifted4(Shifted4(Shifted4(Shifted4(v)))) == 0
    ensures Shifted3(Shifted4(Shifted4(Shifted4(v)))) == 0 ==> v & 0x8000 == 0
  {
  }

  lemma FifteenFit(v: bv16)
    requires Fits(v, 15)
    ensures v & 0x8000 == 0
  {
    hide Fits, Halves, Shifted3, Shifted4;
    FitsIff(v, 15);
    HalvesIs(v);
    ShiftedOut(v);
  }

  lemma PushBit(v: bv16, bit: bool)
    requires v & 0x8000 == 0
    ensures Half(Push(v, bit)) == v && Low(Push(v, bit)) == bit
  {
  }

  lemma AnyFits(v: bv16)
    ensures Fits(v, 16)
  {
    hide Fits, Halves, Shifted4;
    FitsIff(v, 16);
    HalvesIs(v);
    ShiftedOut(v);
  }

  lemma {:induction false} WordBits(bits: seq<bool>)
    requires |bits| <= 16
    ensures BitsOf(Word(bits), |bits|) == bits && Fits(Word(bits), |bits|)
  {
    hide Push, Half, Low;
    if bits == [] {
    } else {
      var v := Word(bits[1..]);
      WordBits(bits[1..]);
      FitsMore(v, |bits| - 1, 15);
      FifteenFit(v);
      PushBit(v, bits[0]);
      assert bits == [bits[0]] + bits[1..];
    }
  }

  /** Sixteen bits lead one register to different ones if they differ. */
  lemma WindowInjective(c: bv16, a: seq<bool>, b: seq<bool>)
    requires |a| == |b| == 16 && FeedAll(c, a) == FeedAll(c, b)
    ensures a == b
  {
    hide Steps, Shifts, Word, Fits, FeedAll, IsXor;
    var v, w := Word(a), Word(b);
    WordBits(a);
    WordBits(b);
    AnyFits(v);
    AnyFits(w);
    StepsFeed(c, v, 16);
    StepsFeed(c, w, 16);
    XorHolds16(c, v);
    XorHolds16(c, w);
    StepsXor(c ^ v, c, v, 16);
    StepsXor(c ^ w, c, w, 16);
    ShiftsInjective(c ^ v, c ^ w, 16);
    XorCancels(v, w, c);
  }

  lemma XorHolds16(c: bv16, v: bv16)
    ensures IsXor(c ^ v, c, v)
  {
  }

  /** The strings have the same length and differ, and no bit differs outside the 16 from bit `j` on. */
  ghost predicate BurstAt(s: seq<bv8>, t: seq<bv8>, j: nat) {
    && |s| == |t| && j + 16 <= 8 * |s| && Bits(s) != Bits(t)
    && forall k | 0 <= k < 8 * |s| && !(j <= k < j + 16) :: Bits(s)[k] == Bits(t)[k]
  }

  /** A burst of up to sixteen damaged bits always shows, wherever it starts. */
  lemma BurstShows(s: seq<bv8>, t: seq<bv8>, j: nat)
    requires BurstAt(s, t, j)
    ensures Register(0xffff, s) != Register(0xffff, t)
  {
    hide Bits, Register, FeedAll;
    var a, b := Bits(s), Bits(t);
    var before, after := a[..j], a[j + 16..];
    assert a == before + (a[j..j + 16] + after) && b == before + (b[j..j + 16] + after);
    RegisterFeeds(0xffff, s);
    RegisterFeeds(0xffff, t);
    var c := FeedAll(0xffff, before);
    FeedSplit(0xffff, before, a[j..j + 16] + after);
    FeedSplit(0xffff, before, b[j..j + 16] + after);
    FeedSplit(c, a[j..j + 16], after);
    FeedSplit(c, b[j..j + 16], after);
    if Register(0xffff, s) == Register(0xffff, t) {
      FeedAllInjective(FeedAll(c, a[j..j + 16]), FeedAll(c, b[j..j + 16]), after);
      WindowInjective(c, a[j..j + 16], b[j..j + 16]);
    }
  }

  /** An odd number of the lowest `n` bits is set. */
  function OddBits(v: bv16, n: nat): bool
    decreases n
  {
    if n == 0 then false else Low(v) != OddBits(Half(v), n - 1)
  }

  function Odd(v: bv16): bool { OddBits(v, 16) }

  function OddOnes(bits: seq<bool>): bool {
    if bits == [] then false else bits[0] != OddOnes(bits[1..])
  }

  lemma {:induction false} OddXor(t: bv16, c: bv16, b: bv16, n: nat)
    requires IsXor(t, c, b)
    ensures OddBits(t, n) == (OddBits(c, n) != OddBits(b, n))
    decreases n
  {
    hide IsXor, Low, Half;
    if n == 0 {
    } else {
      LowXor(t, c, b);
      HalfXor(t, c, b);
      OddXor(Half(t), Half(c), Half(b), n - 1);
    }
  }

  lemma {:induction false} OddFits(v: bv16, n: nat)
    requires Fits(v, n)
    ensures OddBits(v, n + 1) == OddBits(v, n)
    decreases n
  {
    hide Half;
    if n == 0 {
      assert OddBits(v, 1) == OddBits(v, 0);
    } else {
      OddFits(Half(v), n - 1);
    }
  }

  lemma PolynomialIsOdd()
    ensures Odd(0x8408)
  {
    assert OddBits(0x8408, 16) == OddBits(0x1081, 13);
    assert OddBits(0x1081, 13) == !OddBits(0x0840, 12);
    assert OddBits(0x0840, 12) == OddBits(0x0042, 8);
    assert OddBits(0x0042, 8) == !OddBits(0x0010, 6);
    assert OddBits(0x0010, 6) == OddBits(0x0001, 2) == true;
  }

  lemma FlipIsXor(v: bv16)
    ensures IsXor(Flip(v), v, 0x8408)
  {
  }

  /** The polynomial keeps the parity, as it has an even number of terms. */
  lemma ShiftParity(t: bv16)
    ensures Odd(Shift(t)) == Odd(t)
  {
    hide Fits, Low, Half, Flip, IsXor;
    var h := Half(t);
    HalfFits(t);
    OddFits(h, 15);
    assert Odd(t) == (Low(t) != OddBits(h, 15));
    PolynomialIsOdd();
    FlipIsXor(h);
    OddXor(Flip(h), h, 0x8408, 16);
  }

  lemma HalfFits(v: bv16)
    ensures Fits(Half(v), 15)
  {
    hide Half;
    AnyFits(v);
  }

  lemma OddOfBit(bit: bool)
    ensures Odd(Bit(bit)) == bit
  {
    OddZero(15);
    assert Half(Bit(bit)) == 0;
  }

  lemma {:induction false} OddZero(n: nat)
    ensures !OddBits(0, n)
  {
    if n == 0 {
    } else {
      OddZero(n - 1);
    }
  }

  lemma FeedParity(crc: bv16, bit: bool)
    ensures Odd(Feed(crc, bit)) == (Odd(crc) != bit)
  {
    hide Feed, Shift, OddBits, Xor, Bit;
    var t := Xor(crc, Bit(bit));
    FeedIsShift(crc, bit);
    assert IsXor(t, crc, Bit(bit));
    OddXor(t, crc, Bit(bit), 16);
    OddOfBit(bit);
    ShiftParity(t);
  }

  lemma {:induction false} FeedAllParity(crc: bv16, bits: seq<bool>)
    ensures Odd(FeedAll(crc, bits)) == (Odd(crc) != OddOnes(bits))
    decreases |bits|
  {
    hide Feed, Odd;
    if bits == [] {
    } else {
      FeedParity(crc, bits[0]);
      FeedAllParity(Feed(crc, bits[0]), bits[1..]);
    }
  }

  /** In how many places two bit strings differ. */
  function Flips(a: seq<bool>, b: seq<bool>): nat
    requires |a| == |b|
  {
    if a == [] then 0 else (if a[0] == b[0] then 0 else 1) + Flips(a[1..], b[1..])
  }

  lemma {:induction false} FlipsParity(a: seq<bool>, b: seq<bool>)
    requires |a| == |b|
    ensures Flips(a, b) % 2 == 1 <==> OddOnes(a) != OddOnes(b)
  {
    if a == [] {
    } else {
      FlipsParity(a[1..], b[1..]);
    }
  }

  /** An odd number of flipped bits always shows, wherever they are. */
  lemma OddFlipsShow(s: seq<bv8>, t: seq<bv8>)
    requires |s| == |t| && Flips(Bits(s), Bits(t)) % 2 == 1
    ensures Register(0xffff, s) != Register(0xffff, t)
  {
    hide Odd, OddOnes, Flips, Bits, FeedAll, Register;
    RegisterFeeds(0xffff, s);
    RegisterFeeds(0xffff, t);
    FeedAllParity(0xffff, Bits(s));
    FeedAllParity(0xffff, Bits(t));
    FlipsParity(Bits(s), Bits(t));
  }

  // ---------------------------------------------------------------- few flips

  /** A step on a zero bit without a branch. */
  function Folded(t: bv16): bv16 { (t >> 1) ^ ((t & 1) << 15) ^ ((t & 1) << 10) ^ ((t & 1) << 3) }

  /** Eight of them at once. */
  function FoldedByte(t: bv16): bv16 {
    var q := (t ^ (t << 4)) & 0xff;
    (t >> 8) ^ (q << 8) ^ (q << 3) ^ (q >> 4)
  }

  function FoldedNibble(t: bv16): bv16 {
    var q := t & 0xf;
    (t >> 4) ^ (q << 12) ^ (q << 7) ^ q
  }

  lemma FoldedOdd(t: bv16)
    requires Low(t)
    ensures Folded(t) == Flip(Half(t))
  {
  }

  lemma FoldedEven(t: bv16)
    requires !Low(t)
    ensures Folded(t) == Half(t)
  {
  }

  lemma ShiftFolded(t: bv16)
    ensures Shift(t) == Folded(t)
  {
    hide Low, Half, Flip, Folded;
    if Low(t) {
      FoldedOdd(t);
    } else {
      FoldedEven(t);
    }
  }

  lemma NibbleFolded(t: bv16)
    ensures Folded(Folded(Folded(Folded(t)))) == FoldedNibble(t)
  {
  }

  lemma ByteFolded(t: bv16)
    ensures FoldedNibble(FoldedNibble(t)) == FoldedByte(t)
  {
  }

  lemma FourShifts(t: bv16, n: nat)
    ensures Shifts(t, n + 4) == Shifts(FoldedNibble(t), n)
  {
    hide Shift, Folded, FoldedNibble;
    var a := Shift(t);
    var b := Shift(a);
    var c := Shift(b);
    ShiftFolded(t);
    ShiftFolded(a);
    ShiftFolded(b);
    ShiftFolded(c);
    NibbleFolded(t);
    assert Shifts(t, n + 4) == Shifts(a, n + 3) == Shifts(b, n + 2) == Shifts(c, n + 1);
  }

  /** Eight steps are those of the usual byte-wise form. */
  lemma EightShifts(t: bv16, n: nat)
    ensures Shifts(t, n + 8) == Shifts(FoldedByte(t), n)
  {
    hide Shifts, FoldedNibble, FoldedByte;
    FourShifts(t, n + 4);
    FourShifts(FoldedNibble(t), n);
    ByteFolded(t);
  }

  lemma SixteenShifts(v: bv16)
    ensures Shifts(v, 16) == FoldedByte(FoldedByte(v))
  {
    hide Shifts, FoldedByte;
    EightShifts(v, 8);
    EightShifts(FoldedByte(v), 0);
    NoShifts(FoldedByte(FoldedByte(v)));
  }

  /** Where a single bit has got to after `16 * k` steps. */
  function Place(k: nat): bv16
    requires k < 14
  {
    if k == 0 then 0x0001
    else if k == 1 then 0x19d8
    else if k == 2 then 0x1cbb
    else if k == 3 then 0x042b
    else if k == 4 then 0x81bf
    else if k == 5 then 0x2c27
    else if k == 6 then 0x8555
    else if k == 7 then 0x7eea
    else if k == 8 then 0x8e10
    else if k == 9 then 0xf8e7
    else if k == 10 then 0xdf56
    else if k == 11 then 0xa95d
    else if k == 12 then 0x5b44
    else 0xcd50
  }

  lemma PlaceStep(k: nat)
    requires k < 13
    ensures FoldedByte(FoldedByte(Place(k))) == Place(k + 1)
  {
  }

  lemma {:induction false} PlaceReached(k: nat)
    requires k < 14
    ensures Shifts(1, 16 * k) == Place(k)
  {
    hide Shifts, Place, FoldedByte;
    if k == 0 {
      NoShifts(1);
      PlaceZero();
    } else {
      PlaceReached(k - 1);
      ShiftsAdd(1, 16 * (k - 1), 16);
      SixteenShifts(Place(k - 1));
      PlaceStep(k - 1);
    }
  }

  lemma PlaceZero()
    ensures Place(0) == 1
  {
  }

  /** Exactly one bit is set. */
  predicate OneBit(v: bv16) { v != 0 && v & (v - 1) == 0 }

  lemma PlaceIsNoBit(k: nat)
    requires 0 < k < 14
    ensures !OneBit(Place(k))
  {
  }

  function Double(v: bv16): bv16 { v << 1 }

  lemma DoubleMeaning(v: bv16)
    requires v & 0x8000 == 0
    ensures Shift(Double(v)) == v && Half(Double(v)) == v && !Low(Double(v)) && (OneBit(v) ==> OneBit(Double(v)))
  {
  }

  /** The bit that is `r` steps from being the lowest. */
  function Power(r: nat): bv16 { if r == 0 then 1 else Double(Power(r - 1)) }

  lemma OneFits()
    ensures Fits(1, 1) && OneBit(1)
  {
    assert Half(1) == 0;
  }

  lemma {:induction false} PowerMeaning(r: nat)
    requires r < 16
    ensures Shifts(Power(r), r) == 1 && OneBit(Power(r)) && (r > 0 ==> !Low(Power(r))) && Fits(Power(r), r + 1)
  {
    hide Shift, Half, Low, Double, OneBit;
    if r == 0 {
      OneFits();
    } else {
      var v := Power(r - 1);
      PowerMeaning(r - 1);
      FitsMore(v, r, 15);
      FifteenFit(v);
      DoubleMeaning(v);
    }
  }

  lemma OneIsLow()
    ensures Low(1)
  {
  }

  /** A single bit does not come back within the length of a packet. */
  lemma BitDoesNotReturn(n: nat)
    requires 0 < n < 208
    ensures Shifts(1, n) != 1
  {
    hide Shifts, Place, OneBit, Power, Fits, Low;
    var k, r := n / 16, n % 16;
    PlaceReached(k);
    ShiftsAdd(1, 16 * k, r);
    PowerMeaning(r);
    if Shifts(1, n) == 1 {
      ShiftsInjective(Place(k), Power(r), r);
      if k == 0 {
        PlaceZero();
        OneIsLow();
      } else {
        PlaceIsNoBit(k);
      }
    }
  }

  lemma ShiftOfZero(z: bv16)
    ensures Shift(z) == 0 <==> z == 0
  {
  }

  lemma XorAssociates(a: bv16, b: bv16, c: bv16)
    ensures Xor(Xor(a, b), c) == Xor(a, Xor(b, c))
  {
  }

  lemma XorSwaps(a: bv16, b: bv16)
    ensures Xor(a, b) == Xor(b, a)
  {
  }

  lemma XorExchange(a: bv16, b: bv16, c: bv16, d: bv16)
    ensures Xor(Xor(a, b), Xor(c, d)) == Xor(Xor(a, c), Xor(b, d))
  {
    hide Xor;
    XorAssociates(a, b, Xor(c, d));
    XorAssociates(b, c, d);
    XorSwaps(b, c);
    XorAssociates(c, b, d);
    XorAssociates(a, c, Xor(b, d));
  }

  lemma XorSelf(v: bv16)
    ensures Xor(v, v) == 0 && Xor(v, 0) == v && Xor(0, v) == v
  {
  }

  lemma XorIsZero(d: bv16, u: bv16, v: bv16)
    requires IsXor(d, u, v)
    ensures u == v <==> d == 0
  {
    hide Xor;
    XorSelf(u);
    XorSelf(v);
    if d == 0 {
      XorInjective(u, v, v);
    }
  }

  /** How the difference of two registers goes on, with the same bit or with different ones. */
  lemma FeedBoth(d: bv16, u: bv16, v: bv16, x: bool, y: bool)
    requires IsXor(d, u, v)
    ensures IsXor(Shift(Xor(d, Bit(x != y))), Feed(u, x), Feed(v, y))
  {
    hide Feed, Shift, Bit, Xor, IsXor;
    FeedIsShift(u, x);
    FeedIsShift(v, y);
    XorOfXors(d, u, v, x, y);
    ShiftBoth(Xor(d, Bit(x != y)), Xor(u, Bit(x)), Xor(v, Bit(y)));
  }

  lemma BitXor(x: bool, y: bool)
    ensures Bit(x != y) == Xor(Bit(x), Bit(y))
  {
  }

  lemma XorOfXors(d: bv16, u: bv16, v: bv16, x: bool, y: bool)
    requires IsXor(d, u, v)
    ensures IsXor(Xor(d, Bit(x != y)), Xor(u, Bit(x)), Xor(v, Bit(y)))
  {
    hide Xor, Bit;
    BitXor(x, y);
    XorExchange(u, v, Bit(x), Bit(y));
  }

  lemma FlipXor(v: bv16)
    ensures Flip(v) == Xor(v, 0x8408)
  {
  }

  lemma FlipBoth(d: bv16, u: bv16, v: bv16)
    requires IsXor(d, u, v)
    ensures IsXor(d, Flip(u), Flip(v)) && IsXor(Flip(d), Flip(u), v) && IsXor(Flip(d), u, Flip(v))
  {
    hide Xor, Flip;
    FlipXor(d);
    FlipXor(u);
    FlipXor(v);
    XorSelf(0x8408);
    XorSelf(u);
    XorSelf(v);
    XorSelf(d);
    XorExchange(u, v, 0x8408, 0x8408);
    XorExchange(u, v, 0x8408, 0);
    XorExchange(u, v, 0, 0x8408);
  }

  lemma ShiftBoth(d: bv16, u: bv16, v: bv16)
    requires IsXor(d, u, v)
    ensures IsXor(Shift(d), Shift(u), Shift(v))
  {
    hide IsXor, Low, Half, Flip;
    LowXor(d, u, v);
    HalfXor(d, u, v);
    FlipBoth(Half(d), Half(u), Half(v));
  }

  lemma XorNothing(d: bv16)
    ensures Xor(d, Bit(false)) == d
  {
  }

  lemma {:induction false} FeedAllBoth(d: bv16, u: bv16, v: bv16, bits: seq<bool>)
    requires IsXor(d, u, v)
    ensures IsXor(Shifts(d, |bits|), FeedAll(u, bits), FeedAll(v, bits))
    decreases |bits|
  {
    hide IsXor, Feed, Shift, Xor, Bit;
    if bits == [] {
    } else {
      FeedBoth(d, u, v, bits[0], bits[0]);
      XorNothing(d);
      FeedAllBoth(Shift(d), Feed(u, bits[0]), Feed(v, bits[0]), bits[1..]);
    }
  }

  /** Two flipped bits, with fewer than 207 between them, always show. */
  lemma TwoFlipsShow(c: bv16, x: bool, between: seq<bool>, y: bool)
    requires |between| < 207
    ensures FeedAll(c, [x] + between + [y]) != FeedAll(c, [!x] + between + [!y])
  {
    hide Feed, Shift, Xor, Bit, IsXor, FeedAll, Shifts;
    var n := |between|;
    FeedThree(c, x, between, y);
    FeedThree(c, !x, between, !y);
    SelfXor(c);
    FeedBoth(0, c, c, x, !x);
    BitAlone();
    var d := Shift(1);
    FeedAllBoth(d, Feed(c, x), Feed(c, !x), between);
    OneMore(n);
    var e := Shifts(d, n);
    var u, v := FeedAll(Feed(c, x), between), FeedAll(Feed(c, !x), between);
    FeedBoth(e, u, v, y, !y);
    BitDoesNotReturn(n + 1);
    XorWithBit(e);
    ShiftOfZero(Xor(e, Bit(true)));
    XorIsZero(Shift(Xor(e, Bit(true))), Feed(u, y), Feed(v, !y));
  }

  lemma FeedThree(c: bv16, x: bool, between: seq<bool>, y: bool)
    ensures FeedAll(c, [x] + between + [y]) == Feed(FeedAll(Feed(c, x), between), y)
  {
    hide Feed;
    FeedSplit(c, [x] + between, [y]);
    FeedSplit(c, [x], between);
    FeedOne(c, x);
    FeedOne(FeedAll(Feed(c, x), between), y);
  }

  lemma FeedOne(c: bv16, x: bool)
    ensures FeedAll(c, [x]) == Feed(c, x)
  {
    hide Feed;
    assert [x][1..] == [];
  }

  lemma SelfXor(c: bv16)
    ensures IsXor(0, c, c)
  {
  }

  lemma BitAlone()
    ensures Xor(0, Bit(true)) == 1
  {
  }

  lemma OneMore(n: nat)
    ensures Shifts(Shift(1), n) == Shifts(1, n + 1)
  {
    hide Shift;
  }

  lemma XorWithBit(e: bv16)
    ensures Xor(e, Bit(true)) == 0 <==> e == 1
  {
  }

  lemma {:induction false} NoFlips(a: seq<bool>, b: seq<bool>)
    requires |a| == |b| && Flips(a, b) == 0
    ensures a == b
  {
    if a == [] {
    } else {
      NoFlips(a[1..], b[1..]);
      assert a == [a[0]] + a[1..] && b == [b[0]] + b[1..];
    }
  }

  /** Where the first flip is. */
  lemma {:induction false} FirstFlip(a: seq<bool>, b: seq<bool>) returns (i: nat)
    requires |a| == |b| && Flips(a, b) > 0
    ensures i < |a| && a[..i] == b[..i] && b[i] == !a[i]
    ensures Flips(a[i + 1..], b[i + 1..]) == Flips(a, b) - 1
  {
    if a[0] != b[0] {
      i := 0;
    } else {
      var j := FirstFlip(a[1..], b[1..]);
      i := j + 1;
      assert a[1..][j + 1..] == a[i + 1..] && b[1..][j + 1..] == b[i + 1..];
      assert a[..i] == [a[0]] + a[1..][..j] && b[..i] == [b[0]] + b[1..][..j];
    }
  }

  /** Cut at two of its bits. */
  lemma CutAtTwo(a: seq<bool>, i: nat, j: nat)
    requires i + 1 + j < |a|
    ensures a == a[..i] + (([a[i]] + a[i + 1..][..j] + [a[i + 1 + j]]) + a[i + 1..][j + 1..])
  {
  }

  lemma TwoFlipsFeed(crc: bv16, a: seq<bool>, b: seq<bool>)
    requires |a| == |b| <= 208 && Flips(a, b) == 2
    ensures FeedAll(crc, a) != FeedAll(crc, b)
  {
    hide FeedAll, Flips;
    var i := FirstFlip(a, b);
    var j := FirstFlip(a[i + 1..], b[i + 1..]);
    var between, after := a[i + 1..][..j], a[i + 1..][j + 1..];
    NoFlips(after, b[i + 1..][j + 1..]);
    CutAtTwo(a, i, j);
    CutAtTwo(b, i, j);
    var x, y, c := a[i], a[i + 1 + j], FeedAll(crc, a[..i]);
    var v, w := [x] + between + [y], [!x] + between + [!y];
    TwoFlipsShow(c, x, between, y);
    FeedSplit(crc, a[..i], v + after);
    FeedSplit(crc, a[..i], w + after);
    FeedSplit(c, v, after);
    FeedSplit(c, w, after);
    if FeedAll(crc, a) == FeedAll(crc, b) {
      FeedAllInjective(FeedAll(c, v), FeedAll(c, w), after);
    }
  }

  /** One, two or three flipped bits always show in a string no longer than a packet. */
  lemma FewFlipsShow(s: seq<bv8>, t: seq<bv8>)
    requires |s| == |t| <= 26 && 0 < Flips(Bits(s), Bits(t)) <= 3
    ensures Register(0xffff, s) != Register(0xffff, t)
  {
    hide Bits, FeedAll, Register, Flips;
    if Flips(Bits(s), Bits(t)) == 2 {
      RegisterFeeds(0xffff, s);
      RegisterFeeds(0xffff, t);
      TwoFlipsFeed(0xffff, Bits(s), Bits(t));
    } else {
      OddFlipsShow(s, t);
    }
  }

  // ---------------------------------------------------------------- known checksums

  function Absorbed(c: bv16, b: bv8): bv16 { FoldedByte(c ^ (b as bv16)) }

  lemma ByteUpdate(c: bv16, b: bv8)
    ensures Update(c, b) == Absorbed(c, b)
  {
    hide Shifts, FoldedByte, Update, IsXor;
    var t := c ^ (b as bv16);
    XorHolds(c, b);
    UpdateXor(t, c, b);
    EightShifts(t, 0);
    NoShifts(FoldedByte(t));
  }

  lemma OneMoreByte(s: seq<bv8>, k: nat, v: bv16, w: bv16)
    requires k < |s| && Register(0xffff, s[..k]) == v && Absorbed(v, s[k]) == w
    ensures Register(0xffff, s[..k + 1]) == w
  {
    hide Update, Absorbed;
    assert s[..k + 1][..k] == s[..k];
    ByteUpdate(v, s[k]);
  }

  lemma NoBytes()
    ensures Register(0xffff, []) == 0xffff
  {
  }

  /** The checksum of "123456789", and that of the first example in appendix I of ITU-T X.25. */
  lemma KnownChecksums()
    ensures Crc([0x31, 0x32, 0x33, 0x34, 0x35, 0x36, 0x37, 0x38, 0x39]) == 0x6e90
    ensures Crc([0x03, 0x3f]) == 0x5bec
  {
    hide Register;
    KnownDigits();
    KnownFrame();
  }

  lemma KnownDigits()
    ensures Register(0xffff, [0x31, 0x32, 0x33, 0x34, 0x35, 0x36, 0x37, 0x38, 0x39]) == 0x6f91
  {
    hide Register;
    NoBytes();
    var s: seq<bv8> := [0x31, 0x32, 0x33, 0x34, 0x35, 0x36, 0x37, 0x38, 0x39];
    assert s[..0] == [] && s[..9] == s;
    OneMoreByte(s, 0, 0xffff, 0x2f8d);
    OneMoreByte(s, 1, 0x2f8d, 0x4d53);
    OneMoreByte(s, 2, 0x4d53, 0x634b);
    OneMoreByte(s, 3, 0x634b, 0x8b13);
    OneMoreByte(s, 4, 0x8b13, 0x44bf);
    OneMoreByte(s, 5, 0x44bf, 0x198d);
    OneMoreByte(s, 6, 0x198d, 0x1ac8);
    OneMoreByte(s, 7, 0x1ac8, 0xf795);
    OneMoreByte(s, 8, 0xf795, 0x6f91);
  }

  lemma KnownFrame()
    ensures Register(0xffff, [0x03, 0x3f]) == 0x13a4
  {
    hide Register;
    NoBytes();
    var s: seq<bv8> := [0x03, 0x3f];
    assert s[..0] == [] && s[..2] == s;
    OneMoreByte(s, 0, 0xffff, 0x3d1c);
    OneMoreByte(s, 1, 0x3d1c, 0x13a4);
  }
}
