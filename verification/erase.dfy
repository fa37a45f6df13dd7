/** Erasing disks: canaries before, pattern overwrite or hdparm, canary count after, and the
    RAID metadata put back at the end; for one disk, for an array, and for all disks of a unit. */
module Erase {
  import opened Numbers
  import opened Raid

  const ONE_G := 1024 * 1024 * 1024
  const CHUNK := 4096 * 1024
  const NR_OVERWRITE_PATTERNS := 3

  // ---------------------------------------------------------------- canaries

  /** The prep pattern: not empty, shorter than the gap between canaries, not all zero. */
  predicate IsPrepPattern(pattern: seq<byte>) {
    0 < |pattern| <= ONE_G && pattern[0] != 0
  }

  /** How many multiples of 1 GiB leave room for a pattern of `len` bytes. */
  function Slots(n: nat, len: nat): nat {
    if len <= n then 1 + (n - len) / ONE_G else 0
  }

  /** The places are the multiples of 1 GiB at which a pattern of `len` bytes ends on the device. */
  lemma SlotsMeaning(n: nat, len: nat, k: nat)
    ensures k < Slots(n, len) <==> k * 0x4000_0000 + len <= n
  {
    if len <= n {
      var q, r := (n - len) / ONE_G, (n - len) % ONE_G;
      assert n - len == q * ONE_G + r && 0 <= r < ONE_G;
    }
  }

  /** The pattern stands at the `k`-th multiple of 1 GiB. */
  predicate HoldsAt(c: seq<byte>, pattern: seq<byte>, k: nat) {
    k * ONE_G <= |c| && BytesAt(c, k * ONE_G, |pattern|) == pattern
  }

  /** How many of the first `k` places hold the pattern. */
  function CountIn(c: seq<byte>, pattern: seq<byte>, k: nat): nat {
    if k == 0 then 0 else CountIn(c, pattern, k - 1) + if HoldsAt(c, pattern, k - 1) then 1 else 0
  }

  /** How many places of the device hold the pattern. */
  function Canaries(c: seq<byte>, pattern: seq<byte>): nat {
    CountIn(c, pattern, Slots(|c|, |pattern|))
  }

  /** How many places are looked at: only the first if the size of the device cannot be read. */
  function Places(f: BlockFile, n: nat, len: nat): nat { if f.sizeReadable then Slots(n, len) else 1 }

  /** How many of the places looked at hold the pattern. */
  function Seen(f: BlockFile, c: seq<byte>, pattern: seq<byte>): nat {
    CountIn(c, pattern, Places(f, |c|, |pattern|))
  }

  /** The contents after the pattern was written in the first `k` places. */
  ghost function Canaried(c: seq<byte>, pattern: seq<byte>, k: nat): (r: seq<byte>)
    requires k > 0 ==> (k - 1) * ONE_G + |pattern| <= |c|
    ensures |r| == |c|
  {
    if k == 0 then c else Splice(Canaried(c, pattern, k - 1), (k - 1) * ONE_G, pattern)
  }

  lemma {:induction false} CanariedHolds(c: seq<byte>, pattern: seq<byte>, k: nat, j: nat)
    requires j < k && (k - 1) * ONE_G + |pattern| <= |c| && |pattern| <= ONE_G
    ensures HoldsAt(Canaried(c, pattern, k), pattern, j)
  {
    var before := Canaried(c, pattern, k - 1);
    if j < k - 1 {
      CanariedHolds(c, pattern, k - 1, j);
      BytesBesideSplice(before, (k - 1) * ONE_G, pattern, j * ONE_G, |pattern|);
    } else {
      BytesAtSplice(before, j * ONE_G, pattern);
    }
  }

  lemma {:induction false} AllHold(c: seq<byte>, pattern: seq<byte>, k: nat)
    requires forall j: nat | j < k :: HoldsAt(c, pattern, j)
    ensures CountIn(c, pattern, k) == k
  {
    if k == 0 {
    } else {
      AllHold(c, pattern, k - 1);
    }
  }

  lemma {:induction false} NoneHolds(c: seq<byte>, pattern: seq<byte>, k: nat)
    requires forall j: nat | j < k :: !HoldsAt(c, pattern, j)
    ensures CountIn(c, pattern, k) == 0
  {
    if k == 0 {
    } else {
      NoneHolds(c, pattern, k - 1);
    }
  }

  /** The number of places that hold the pattern. */
  lemma {:induction false} CountMeaning(c: seq<byte>, pattern: seq<byte>, k: nat)
    ensures CountIn(c, pattern, k) == |set j: nat | j < k && HoldsAt(c, pattern, j)|
  {
    if k == 0 {
    } else {
      CountMeaning(c, pattern, k - 1);
      assert (set j: nat | j < k && HoldsAt(c, pattern, j))
          == (set j: nat | j < k - 1 && HoldsAt(c, pattern, j)) + if HoldsAt(c, pattern, k - 1) then {k - 1} else {};
    }
  }

  /** After preparation every place holds the pattern. */
  lemma CanariedCount(c: seq<byte>, pattern: seq<byte>, k: nat)
    requires IsPrepPattern(pattern) && 0 < k && (k - 1) * ONE_G + |pattern| <= |c|
    ensures CountIn(Canaried(c, pattern, k), pattern, k) == k
  {
    forall j: nat | j < k
      ensures HoldsAt(Canaried(c, pattern, k), pattern, j)
    {
      CanariedHolds(c, pattern, k, j);
    }
    AllHold(Canaried(c, pattern, k), pattern, k);
  }

  lemma NoCanaryInZeros(n: nat, pattern: seq<byte>, k: nat)
    requires IsPrepPattern(pattern)
    ensures CountIn(Filled(n, 0), pattern, k) == 0
  {
    var c := Filled(n, 0);
    forall j: nat
      ensures !HoldsAt(c, pattern, j)
    {
      if j * ONE_G < n {
        assert BytesAt(c, j * ONE_G, |pattern|)[0] == 0;
      }
    }
    NoneHolds(c, pattern, k);
  }

  /** Writes one canary, with a second try. */
  method WriteCanary(d: Device, pattern: seq<byte>, offs: nat) returns (ok: bool)
    requires d.Valid() && d.isOpen && IsPrepPattern(pattern)
    modifies d`alignment, d`devSize, d.file`pos, d.file`content
    ensures d.Valid() && |d.file.content| == old(|d.file.content|)
    ensures ok ==>
              && d.alignment != 0 && offs + |pattern| <= |d.file.content|
              && d.file.content == Splice(old(d.file.content), offs, pattern)
    ensures !ok ==> d.file.content == old(d.file.content)
    ensures old(d.Ready()) && ((offs == 0 && d.file.content != []) || offs + |pattern| <= |d.file.content|) ==>
              d.Ready() && (ok <==> offs + |pattern| <= |d.file.content|)
  {
    hide Splice;
    var err := d.AlignedWrite(offs, pattern);
    if err != Ok {
      err := d.AlignedWrite(offs, pattern);
    }
    ok := err == Ok;
  }

  method Prepare(d: Device, pattern: seq<byte>) returns (written: nat, ok: bool)
    requires d.Valid() && d.isOpen && IsPrepPattern(pattern)
    modifies d`alignment, d`devSize, d.file`pos, d.file`content
    ensures d.Valid()
    ensures written > 0 ==> (written - 1) * ONE_G + |pattern| <= |d.file.content|
    ensures |d.file.content| == old(|d.file.content|)
    ensures d.file.content == Canaried(old(d.file.content), pattern, written)
    ensures ok ==> written == Places(d.file, |d.file.content|, |pattern|) > 0
    ensures old(d.Ready()) && d.file.content != [] ==> d.Ready() && (ok <==> |pattern| <= |d.file.content|)
  {
    hide Splice, Slots, CountIn;
    ghost var was := d.file.content;
    var offs := 0;
    written := 0;
    while true
      invariant d.Valid() && d.isOpen && offs == written * ONE_G
      invariant |d.file.content| == |was|
      invariant written > 0 ==> offs + |pattern| <= |was|
      invariant d.file.content == Canaried(was, pattern, written)
      invariant old(d.Ready()) && was != [] ==> d.Ready()
      invariant !d.file.sizeReadable ==> written == 0
      decreases |was| - offs
    {
      ok := WriteCanary(d, pattern, offs);
      if !ok {
        return;
      }
      written := written + 1;
      offs := offs + ONE_G;
      var more := d.InRange(offs, |pattern|);
      if !more {
        if d.file.sizeReadable {
          SlotsOf(|was|, |pattern|, written - 1);
        }
        break;
      }
    }
    var writtenCount;
    writtenCount, ok := CountPrepPattern(d, pattern);
    CanariedCount(was, pattern, written);
    ok := ok && writtenCount == written;
  }

  /** The last place tried is the last one in range. */
  lemma LastPlace(c: seq<byte>, pattern: seq<byte>, k: nat)
    requires |pattern| > 0 && (k > 0 ==> k * ONE_G + |pattern| <= |c|)
    requires (k + 1) * ONE_G + |pattern| > |c|
    ensures CountIn(c, pattern, k + 1) == Canaries(c, pattern)
  {
    if k == 0 && |pattern| > |c| {
      assert !HoldsAt(c, pattern, 0);
    } else {
      SlotsOf(|c|, |pattern|, k);
    }
  }

  lemma SlotsOf(n: nat, len: nat, k: nat)
    requires k * ONE_G + len <= n < (k + 1) * ONE_G + len
    ensures Slots(n, len) == k + 1
  {
  }

  lemma NoneCounted(c: seq<byte>, pattern: seq<byte>)
    ensures CountIn(c, pattern, 0) == 0
  {
  }

  lemma CountedNext(c: seq<byte>, pattern: seq<byte>, k: nat)
    ensures CountIn(c, pattern, k + 1) == CountIn(c, pattern, k) + if HoldsAt(c, pattern, k) then 1 else 0
  {
  }

  /** With the place at `k` all places looked at are counted. */
  lemma SeenAll(f: BlockFile, c: seq<byte>, pattern: seq<byte>, k: nat)
    requires |pattern| > 0 && (k > 0 ==> f.sizeReadable && k * ONE_G + |pattern| <= |c|)
    requires f.sizeReadable ==> (k + 1) * ONE_G + |pattern| > |c|
    ensures CountIn(c, pattern, k + 1) == Seen(f, c, pattern)
  {
    if f.sizeReadable {
      LastPlace(c, pattern, k);
    }
  }

  method CountPrepPattern(d: Device, pattern: seq<byte>) returns (count: nat, ok: bool)
    requires d.Valid() && d.isOpen && |pattern| > 0
    modifies d`alignment, d`devSize, d.file`pos
    ensures d.Valid()
    ensures ok ==> count == Seen(d.file, d.file.content, pattern)
    ensures old(d.Ready()) && d.file.content != [] ==> d.Ready() && ok
  {
    hide Seen, CountIn, Slots;
    ghost var k := 0;
    var offs := 0;
    count, ok := 0, true;
    NoneCounted(d.file.content, pattern);
    while true
      invariant d.Valid() && d.isOpen && offs == k * ONE_G
      invariant k > 0 ==> offs + |pattern| <= |d.file.content|
      invariant count == CountIn(d.file.content, pattern, k)
      invariant old(d.Ready()) && d.file.content != [] ==> d.Ready()
      invariant ok && (!d.file.sizeReadable ==> k == 0)
      decreases |d.file.content| - offs
    {
      var buf, err := d.AlignedRead(offs, |pattern|);
      if err != Ok {
        return count, false;
      }
      assert buf == pattern <==> HoldsAt(d.file.content, pattern, k);
      CountedNext(d.file.content, pattern, k);
      if buf == pattern {
        count := count + 1;
      }
      var more := d.InRange(offs + ONE_G, |pattern|);
      if !more {
        SeenAll(d.file, d.file.content, pattern, k);
        break;
      }
      offs := offs + ONE_G;
      k := k + 1;
    }
  }

  // ---------------------------------------------------------------- overwrite

  function Filled(n: nat, b: byte): seq<byte> { seq(n, _ => b) }

  function PatternByte(p: nat): byte { if p == 0 then 0x55 else if p == 1 then 0xAA else 0x00 }

  method FillPattern(buf: array<byte>, p: nat)
    modifies buf
    ensures buf[..] == Filled(buf.Length, PatternByte(p))
  {
    for i := 0 to buf.Length
      invariant forall k | 0 <= k < i :: buf[k] == PatternByte(p)
    {
      buf[i] := PatternByte(p);
    }
  }

  /** Writes the buffer again and again until the device reports an error. */
  method WritePass(d: Device, buf: array<byte>, ghost b: byte)
    requires d.Valid() && d.isOpen && buf.Length == CHUNK && buf[..] == Filled(CHUNK, b)
    modifies d.file`pos, d.file`content
    ensures d.Valid() && |d.file.content| == old(|d.file.content|)
    ensures d.file.Demands() ==>
              d.file.content ==
              if CHUNK % d.file.required == 0 then Filled(|d.file.content|, b) else old(d.file.content)
  {
    ghost var was := d.file.content;
    var _, seekErr := d.file.Seek(0, false);
    while true
      invariant |d.file.content| == |was|
      invariant d.file.Demands() && CHUNK % d.file.required == 0 ==>
                  && d.file.pos % d.file.required == 0
                  && (forall i | 0 <= i < Min(d.file.pos, |was|) :: d.file.content[i] == b)
      invariant d.file.Demands() && CHUNK % d.file.required != 0 ==> d.file.content == was
      decreases |was| - d.file.pos
    {
      var n, err := d.file.Write(buf);
      if err != Ok {
        break;
      }
      if d.file.Demands() && CHUNK % d.file.required == 0 {
        MultipleSum(d.file.pos - CHUNK, CHUNK, d.file.required);
      }
    }
  }

  /** Each pass covers all of the disk; they are one of 0x55, one of 0xaa, and two of zeros. */
  method Overwrite(d: Device) returns (ghost passes: seq<seq<byte>>)
    requires d.Valid()
    modifies d`isOpen, d.file`pos, d.file`content
    ensures d.Valid() && d.isOpen && |d.file.content| == old(|d.file.content|)
    ensures d.file.Demands() ==>
              d.file.content ==
              if CHUNK % d.file.required == 0 then Filled(|d.file.content|, 0) else old(d.file.content)
    ensures var n := |d.file.content|;
            d.file.Demands() && CHUNK % d.file.required == 0 ==>
              passes == [Filled(n, 0x55), Filled(n, 0xaa), Filled(n, 0), Filled(n, 0)]
  {
    passes := [];
    var buf := new byte[CHUNK];
    d.Open();
    for p := 0 to NR_OVERWRITE_PATTERNS + 1
      invariant d.Valid() && d.isOpen && |d.file.content| == old(|d.file.content|)
      invariant d.file.Demands() && CHUNK % d.file.required != 0 ==> d.file.content == old(d.file.content)
      invariant p > 0 && d.file.Demands() && CHUNK % d.file.required == 0 ==>
                  d.file.content == Filled(|d.file.content|, PatternByte(p - 1))
      invariant |passes| == p
      invariant d.file.Demands() && CHUNK % d.file.required == 0 ==>
                  forall k | 0 <= k < p :: passes[k] == Filled(|d.file.content|, PatternByte(k))
    {
      FillPattern(buf, p);
      WritePass(d, buf, PatternByte(p));
      passes := passes + [d.file.content];
    }
  }

  // ---------------------------------------------------------------- one disk

  /** Stops the unit for good when a canary survived or could not be read. */
  method Verify(d: Device, pattern: seq<byte>) returns (ok: bool)
    requires d.Valid() && |pattern| > 0
    modifies d`isOpen, d`alignment, d`devSize, d.file`pos
    ensures d.Valid() && d.isOpen
    ensures ok ==> Seen(d.file, d.file.content, pattern) == 0
    ensures old(d.Ready()) && d.file.content != [] ==>
              d.Ready() && (ok <==> Canaries(d.file.content, pattern) == 0)
  {
    d.Open();
    var writtenCount;
    writtenCount, ok := CountPrepPattern(d, pattern);
    ok := ok && writtenCount == 0;
  }

  lemma StepDividesChunk(a: int)
    ensures IsStep(a) ==> CHUNK % a == 0
  {
  }

  /** What hdparm leaves on the disk and whether it reports success are parameters. */
  method EraseDisk(d: Device, pattern: seq<byte>, secure: seq<byte>, secureOk: bool) returns (ok: bool)
    requires d.Valid() && d.isOpen && IsPrepPattern(pattern) && |secure| == |d.file.content|
    modifies d`isOpen, d`alignment, d`devSize, d.file`pos, d.file`content
    ensures d.Valid() && |d.file.content| == |secure| && (ok ==> d.isOpen)
    ensures ok && secureOk ==> d.file.content == secure && Seen(d.file, secure, pattern) == 0
    ensures ok && !secureOk && d.file.Demands() && CHUNK % d.file.required == 0 ==>
              d.file.content == Filled(|secure|, 0)
    ensures old(d.Ready()) && |pattern| <= |secure| ==>
              d.Ready() && (ok <==> secureOk ==> Canaries(secure, pattern) == 0)
  {
    var written;
    written, ok := Prepare(d, pattern);
    if !ok {
      return;
    }
    d.Close();
    d.file.content := secure;
    if !secureOk {
      StepDividesChunk(d.file.required);
      ghost var _ := Overwrite(d);
      NoCanaryInZeros(|secure|, pattern, Places(d.file, |secure|, |pattern|));
    }
    ok := Verify(d, pattern);
  }

  /** Contents in which only the last `m` bytes survive. */
  ghost function Wiped(was: seq<byte>, m: nat): seq<byte>
    requires m <= |was|
  {
    Filled(|was| - m, 0) + Suffix(was, m)
  }

  /** The erase of one disk and, unless it fails, the restore. */
  method EraseAndRestore(d: Device, pattern: seq<byte>, secure: seq<byte>, secureOk: bool, ghost was: seq<byte>)
    returns (erased: bool, restore: Status)
    requires d.Valid() && d.isOpen && IsPrepPattern(pattern) && |secure| == |was| == |d.file.content|
    requires IsSuffix(d.arrayMetadata, was)
    modifies d`isOpen, d`alignment, d`devSize, d.file`pos, d.file`content
    ensures d.Valid() && |d.file.content| == |secure|
    ensures erased && !secureOk && d.file.Demands() && CHUNK % d.file.required == 0 ==>
              d.file.content == Wiped(was, if restore == Ok && d.arrayType != Unknown then |d.arrayMetadata| else 0)
    ensures erased && secureOk && restore == Ok && d.arrayType != Unknown ==>
              && d.file.content == Splice(secure, |secure| - |d.arrayMetadata|, d.arrayMetadata)
              && Seen(d.file, secure, pattern) == 0
    ensures old(d.Ready()) && |pattern| <= |secure| ==>
              && (erased <==> secureOk ==> Canaries(secure, pattern) == 0)
              && (erased && d.arrayMetadata != [] && d.arrayType != Unset ==> restore == Ok)
  {
    hide Canaries, Seen;
    restore := Ok;
    erased := EraseDisk(d, pattern, secure, secureOk);
    if !erased {
      return;
    }
    restore := d.Restore();
    SuffixOverZeros(was, |d.arrayMetadata|);
    assert Filled(|was|, 0) == Wiped(was, 0);
  }

  /** Backup, erase and restore of one disk, in the order of Erase: an error of the
      backup is only logged, a failure of the erase ends the run. */
  method Run(d: Device, pattern: seq<byte>, secure: seq<byte>, secureOk: bool)
    returns (backup: Status, erased: bool, restore: Status)
    requires d.Valid() && d.arrayMetadata == [] && IsPrepPattern(pattern) && |secure| == |d.file.content|
    modifies d, d.file`pos, d.file`content
    ensures d.Valid() && |d.file.content| == |secure| && IsSuffix(d.arrayMetadata, old(d.file.content))
    ensures backup == Ok && d.arrayType == Msm ==> |d.arrayMetadata| == IMSM_RECORD_SIZE
    ensures backup == Ok && d.arrayType == Ddf ==>
              && |secure| >= DDF_ANCHOR_SIZE
              && |d.arrayMetadata| == |secure| - RecordStart(old(d.file.content), d.file.logicalSector)
    // with the overwrite, nothing but the metadata survives
    ensures erased && !secureOk && d.file.Demands() && CHUNK % d.file.required == 0 ==>
              d.file.content == Wiped(old(d.file.content),
                                      if restore == Ok && d.arrayType != Unknown then |d.arrayMetadata| else 0)
    // with hdparm, no canary was seen on the disk it left
    ensures erased && secureOk && restore == Ok && d.arrayType != Unknown ==>
              && d.file.content == Splice(secure, |secure| - |d.arrayMetadata|, d.arrayMetadata)
              && Seen(d.file, secure, pattern) == 0
    // on a device that works, the run succeeds
    ensures old(d.Ready()) && !secureOk && old(d.arrayType) == Msm
              && |secure| >= IMSM_RECORD_SIZE && |pattern| <= |secure| ==>
              backup == Ok && erased && restore == Ok
    ensures old(d.Ready()) && old(d.SectorOk()) && !secureOk && old(d.arrayType) == Ddf
              && |secure| >= DDF_ANCHOR_SIZE && |pattern| <= |secure|
              && RecordStart(old(d.file.content), d.file.logicalSector) < |secure| ==>
              && (backup == Ok <==> RecordStart(old(d.file.content), d.file.logicalSector) >= 0)
              && |d.arrayMetadata| == DdfLength(old(d.file.content), d.file.logicalSector)
              && erased && (|d.arrayMetadata| > 0 ==> restore == Ok)
    ensures old(d.Ready()) && !secureOk && old(d.arrayType) == Unknown && |pattern| <= |secure| ==> erased
    ensures d.arrayType == old(d.arrayType)
  {
    hide Canaries, Seen, RecordStart, DdfLength, Wiped;
    ghost var was := d.file.content;
    backup := d.Backup();
    assert IsSuffix([], was);
    erased, restore := EraseAndRestore(d, pattern, secure, secureOk, was);
  }

  lemma SuffixOverZeros(was: seq<byte>, m: nat)
    requires m <= |was|
    ensures Splice(Filled(|was|, 0), |was| - m, Suffix(was, m)) == Wiped(was, m)
  {
  }

  /** How many bytes at the end survive an erase of a device with these contents. */
  ghost function Survivors(c: seq<byte>, sector: nat): nat
    requires |c| >= IMSM_RECORD_SIZE
    ensures Survivors(c, sector) <= |c|
  {
    if DetectImsm(c) then IMSM_RECORD_SIZE
    else if HasDdf(c, sector) then (DetectedRecordStart(c, sector); DdfLength(c, sector))
    else 0
  }

  lemma SurvivorsByType(c: seq<byte>, sector: nat, thr: nat)
    requires |c| >= IMSM_RECORD_SIZE
    ensures SurvivesAs(c, sector, Classify(c, sector, thr, Unset), Survivors(c, sector))
  {
    if HasDdf(c, sector) {
      DetectedRecordStart(c, sector);
    }
  }

  /** What detection and the backup make of the signatures and the size. */
  lemma DetectionOf(c: seq<byte>, sector: nat, thr: nat)
    requires |c| >= IMSM_RECORD_SIZE
    ensures Classify(c, sector, thr, Unset) == Unset <==> !DetectImsm(c) && !HasDdf(c, sector) && |c| <= thr
    ensures !DetectImsm(c) && !HasDdf(c, sector) ==> Wiped(c, Survivors(c, sector)) == Filled(|c|, 0)
    ensures DetectImsm(c) ==> Survivors(c, sector) == 1024
  {
    hide HasDdf, DetectImsm;
    ClassifyMeaning(c, sector, thr, Unset);
    if !DetectImsm(c) && !HasDdf(c, sector) {
      assert Survivors(c, sector) == 0 && Suffix(c, 0) == [];
    }
  }

  /** The number of surviving bytes that goes with a device type. */
  ghost predicate SurvivesAs(c: seq<byte>, sector: nat, t: RaidType, m: nat) {
    && |c| >= IMSM_RECORD_SIZE
    && (t == Msm ==> m == IMSM_RECORD_SIZE)
    && (t == Ddf ==> RecordStart(c, sector) < |c| && m == DdfLength(c, sector))
    && (t == Unknown ==> m == 0)
  }

  /** Run on a device that works and has a known type. */
  method EraseTyped(d: Device, pattern: seq<byte>, ghost m: nat) returns (erased: bool)
    requires d.Ready() && d.SectorOk() && d.arrayType != Unset && d.arrayMetadata == []
    requires IsPrepPattern(pattern) && |pattern| <= |d.file.content|
    requires SurvivesAs(d.file.content, d.file.logicalSector, d.arrayType, m)
    modifies d, d.file`pos, d.file`content
    ensures erased && m <= |old(d.file.content)| && d.file.content == Wiped(old(d.file.content), m)
  {
    StepDividesChunk(d.file.required);
    var backup, restore;
    backup, erased, restore := Run(d, pattern, d.file.content, false);
  }

  /** From detection to the end of the run on a device that works: whatever it held,
      only the metadata that its contents announce is left. */
  method DetectAndErase(d: Device, thr: nat, pattern: seq<byte>) returns (erased: bool)
    requires d.Ready() && d.SectorOk()
    requires d.arrayType == Unset && d.arrayMetadata == []
    requires IsPrepPattern(pattern) && 8192 <= |d.file.content| && |pattern| <= |d.file.content|
    modifies d, d.file`pos, d.file`content
    ensures erased <==> Classify(old(d.file.content), d.file.logicalSector, thr, Unset) != Unset
    ensures d.file.content == if erased
                              then Wiped(old(d.file.content), Survivors(old(d.file.content), d.file.logicalSector))
                              else old(d.file.content)
    // a disk with neither signature is erased, and all of it, exactly if it is larger than the threshold
    ensures !DetectImsm(old(d.file.content)) && !HasDdf(old(d.file.content), d.file.logicalSector) ==>
              && (erased <==> |d.file.content| > thr)
              && (erased ==> d.file.content == Filled(|d.file.content|, 0))
    // one with a signature is erased whatever its size
    ensures DetectImsm(old(d.file.content)) ==>
              erased && d.file.content == Filled(|d.file.content| - 1024, 0) + Suffix(old(d.file.content), 1024)
    ensures HasDdf(old(d.file.content), d.file.logicalSector) ==> erased
  {
    hide Classify, Survivors, HasDdf;
    DetectionOf(d.file.content, d.file.logicalSector, thr);
    SurvivorsByType(d.file.content, d.file.logicalSector, thr);
    ghost var m := Survivors(d.file.content, d.file.logicalSector);
    var err := d.DetectRaidType(thr);
    if d.arrayType == Unset {
      return false;
    }
    erased := EraseTyped(d, pattern, m);
  }

  // ---------------------------------------------------------------- the disks of an array

  ghost predicate Separate(devices: seq<Device>) {
    forall i, j | 0 <= i < j < |devices| :: devices[i] != devices[j] && devices[i].file != devices[j].file
  }

  /** What hdparm leaves on a disk, and whether it reports success. */
  datatype Hdparm = Hdparm(left: seq<byte>, ok: bool)

  /** The contents after the erase: those left by hdparm, or zeros. */
  function Erased(h: Hdparm, n: nat): seq<byte> { if h.ok then h.left else Filled(n, 0) }

  /** No canary has survived hdparm. */
  predicate Clean(h: Hdparm, pattern: seq<byte>) { h.ok ==> Canaries(h.left, pattern) == 0 }

  /** The overwrite reaches all of such a disk. */
  ghost predicate Erasable(d: Device) { d.file.Demands() && CHUNK % d.file.required == 0 }

  /** Contents `now` with the last `m` bytes of `c` put back. */
  ghost function Patched(now: seq<byte>, c: seq<byte>, m: nat): seq<byte>
    requires m <= |c| == |now|
  {
    Splice(now, |now| - m, Suffix(c, m))
  }

  lemma PatchedNothing(now: seq<byte>, c: seq<byte>)
    requires |c| == |now|
    ensures Patched(now, c, 0) == now
  {
  }

  /** A disk of the array before the run; a working one may succeed in everything. */
  ghost predicate Pristine(d: Device, t: RaidType, c: seq<byte>, m: nat, working: bool)
    reads d, d.file
  {
    && d.Valid() && d.isOpen && d.arrayMetadata == [] && d.file.content == c
    && (working ==> d.Ready() && d.SectorOk() && d.arrayType == t != Unset && SurvivesAs(c, d.file.logicalSector, t, m))
  }

  /** Its contents are `now`, and some last bytes of what it held are kept: `m` of a working disk. */
  ghost predicate Keeps(d: Device, t: RaidType, c: seq<byte>, m: nat, now: seq<byte>, working: bool)
    reads d, d.file
  {
    && d.Valid() && d.isOpen && d.file.content == now && |now| == |c| && IsSuffix(d.arrayMetadata, c)
    && (working ==> d.Ready() && d.arrayType == t != Unset && |d.arrayMetadata| == m && (t == Unknown ==> m == 0))
  }

  /** The backup of a working disk reports no error. */
  predicate Saves(d: Device, t: RaidType, c: seq<byte>) {
    t == Ddf ==> |c| >= DDF_ANCHOR_SIZE && RecordStart(c, d.file.logicalSector) >= 0
  }

  method BackupOne(d: Device, ghost t: RaidType, ghost c: seq<byte>, ghost m: nat, ghost working: bool)
    returns (err: Status)
    requires Pristine(d, t, c, m, working)
    modifies d, d.file`pos
    ensures Keeps(d, t, c, m, c, working) && (working ==> (err == Ok <==> Saves(d, t, c)))
  {
    hide RecordStart, DdfLength;
    err := d.Backup();
    assert IsSuffix([], c);
    assert IsSuffix(d.arrayMetadata, c) && (working ==> |d.arrayMetadata| == m);
  }

  method EraseOne(d: Device, pattern: seq<byte>, h: Hdparm,
                  ghost t: RaidType, ghost c: seq<byte>, ghost m: nat, ghost working: bool)
    returns (ok: bool, ghost now: seq<byte>)
    requires Keeps(d, t, c, m, c, working) && IsPrepPattern(pattern) && |h.left| == |c|
    requires working ==> |pattern| <= |c|
    modifies d`isOpen, d`alignment, d`devSize, d.file`pos, d.file`content
    ensures ok ==> Keeps(d, t, c, m, now, working) && (h.ok || Erasable(d) ==> now == Erased(h, |c|))
    ensures working ==> (ok <==> Clean(h, pattern))
  {
    ok := EraseDisk(d, pattern, h.left, h.ok);
    now := d.file.content;
  }

  method RestoreOne(d: Device, ghost t: RaidType, ghost c: seq<byte>, ghost m: nat, ghost now: seq<byte>,
                    ghost working: bool)
    returns (err: Status)
    requires Keeps(d, t, c, m, now, working)
    modifies d`isOpen, d`alignment, d`devSize, d.file`pos, d.file`content
    ensures PatchedOnly(d, c, now)
    ensures working ==> m <= |c| == |now| && d.file.content == Patched(now, c, m) && (err == Ok <==> m > 0)
  {
    PatchedNothing(now, c);
    err := d.Restore();
  }

  /** Nothing has changed since the erase but for the bytes that were kept, put back or not. */
  ghost predicate PatchedOnly(d: Device, c: seq<byte>, now: seq<byte>)
    reads d, d.file
  {
    && |now| == |c| && IsSuffix(d.arrayMetadata, c)
    && (d.file.content == now || d.file.content == Patched(now, c, |d.arrayMetadata|))
  }

  ghost function Files(devices: seq<Device>): set<BlockFile> { set d <- devices :: d.file }

  /** Index of the first disk whose backup fails, or the number of disks. */
  ghost function Stop(devices: seq<Device>, t: RaidType, was: seq<seq<byte>>, i: nat): (k: nat)
    requires i <= |devices| == |was|
    ensures i <= k <= |devices|
    ensures forall j | i <= j < k :: Saves(devices[j], t, was[j])
    ensures k < |devices| ==> !Saves(devices[k], t, was[k])
    decreases |devices| - i
  {
    if i == |devices| || !Saves(devices[i], t, was[i]) then i else Stop(devices, t, was, i + 1)
  }

  /** How many bytes at the end of the `k`-th disk survive: those its contents announce, if the
      backup came to it. */
  ghost function Kept(devices: seq<Device>, t: RaidType, was: seq<seq<byte>>, ms: seq<nat>, k: nat): nat
    requires k < |devices| == |was| == |ms|
  {
    if k <= Stop(devices, t, was, 0) then ms[k] else 0
  }

  lemma PristineKeeps(d: Device, t: RaidType, c: seq<byte>, m: nat, working: bool)
    requires Pristine(d, t, c, m, working)
    ensures Keeps(d, t, c, 0, c, working)
  {
    assert IsSuffix([], c);
  }

  lemma WorkingErasable(d: Device, t: RaidType, c: seq<byte>, m: nat)
    requires Pristine(d, t, c, m, true)
    ensures Erasable(d)
  {
    StepDividesChunk(d.file.required);
  }

  /** How much of a disk is kept matters only if it works. */
  lemma KeepsAny(d: Device, t: RaidType, c: seq<byte>, m: nat, n: nat, now: seq<byte>)
    requires Keeps(d, t, c, m, now, false)
    ensures Keeps(d, t, c, n, now, false)
  {
  }

  lemma StopIs(devices: seq<Device>, t: RaidType, was: seq<seq<byte>>, i: nat)
    requires i <= |devices| == |was|
    requires forall j | 0 <= j < i :: Saves(devices[j], t, was[j])
    requires i < |devices| ==> !Saves(devices[i], t, was[i])
    ensures Stop(devices, t, was, 0) == i
  {
  }

  /** Ends at the first disk whose backup reports an error. */
  method BackupAll(devices: seq<Device>,
                   ghost t: RaidType, ghost was: seq<seq<byte>>, ghost ms: seq<nat>, ghost working: bool)
    returns (err: Status)
    requires Separate(devices) && |devices| == |was| == |ms|
    requires forall k | 0 <= k < |devices| :: Pristine(devices[k], t, was[k], ms[k], working)
    modifies devices, Files(devices)
    ensures forall k | 0 <= k < |devices| ::
              Keeps(devices[k], t, was[k], Kept(devices, t, was, ms, k), was[k], working)
    ensures working ==> (err == Ok <==> Stop(devices, t, was, 0) == |devices|)
  {
    hide Pristine, Keeps, Saves, Stop;
    err := Ok;
    ghost var stop := |devices|;
    for i := 0 to |devices|
      invariant err == Ok && stop == |devices|
      invariant forall k | 0 <= k < i :: Keeps(devices[k], t, was[k], ms[k], was[k], working)
      invariant working ==> forall k | 0 <= k < i :: Saves(devices[k], t, was[k])
      invariant forall k | i <= k < |devices| :: Pristine(devices[k], t, was[k], ms[k], working)
    {
      err := BackupOne(devices[i], t, was[i], ms[i], working);
      if err != Ok {
        forall k | i < k < |devices|
          ensures Keeps(devices[k], t, was[k], 0, was[k], working)
        {
          PristineKeeps(devices[k], t, was[k], ms[k], working);
        }
        stop := i;
        break;
      }
    }
    if working {
      StopIs(devices, t, was, stop);
    } else {
      forall k | 0 <= k < |devices|
        ensures Keeps(devices[k], t, was[k], Kept(devices, t, was, ms, k), was[k], false)
      {
        KeepsAny(devices[k], t, was[k], if k <= stop then ms[k] else 0, Kept(devices, t, was, ms, k), was[k]);
      }
    }
  }

  /** Ends at the first disk that cannot be erased, and the run with it. */
  method EraseAll(devices: seq<Device>, pattern: seq<byte>, hs: seq<Hdparm>,
                  ghost t: RaidType, ghost was: seq<seq<byte>>, ghost kept: seq<nat>, ghost working: bool)
    returns (ok: bool, ghost now: seq<seq<byte>>)
    requires Separate(devices) && |devices| == |hs| == |was| == |kept| && IsPrepPattern(pattern)
    requires forall k | 0 <= k < |devices| ::
               Keeps(devices[k], t, was[k], kept[k], was[k], working) && |hs[k].left| == |was[k]|
    requires working ==> forall k | 0 <= k < |devices| :: |pattern| <= |was[k]|
    modifies devices, Files(devices)
    ensures ok ==> |now| == |devices| && forall k | 0 <= k < |devices| ::
              && Keeps(devices[k], t, was[k], kept[k], now[k], working)
              && (hs[k].ok || Erasable(devices[k]) ==> now[k] == Erased(hs[k], |was[k]|))
    ensures working ==> (ok <==> forall k | 0 <= k < |devices| :: Clean(hs[k], pattern))
  {
    hide Keeps, IsPrepPattern, Erasable, Erased, Clean;
    ok, now := true, [];
    for i := 0 to |devices|
      invariant ok && |now| == i
      invariant forall k | 0 <= k < i ::
                  && Keeps(devices[k], t, was[k], kept[k], now[k], working)
                  && (hs[k].ok || Erasable(devices[k]) ==> now[k] == Erased(hs[k], |was[k]|))
      invariant working ==> forall k | 0 <= k < i :: Clean(hs[k], pattern)
      invariant forall k | i <= k < |devices| :: Keeps(devices[k], t, was[k], kept[k], was[k], working)
    {
      ghost var c;
      ok, c := EraseOne(devices[i], pattern, hs[i], t, was[i], kept[i], working);
      if !ok {
        return;
      }
      now := now + [c];
    }
  }

  /** Goes on after an error, and reports the last one. */
  method RestoreAll(devices: seq<Device>, ghost t: RaidType, ghost was: seq<seq<byte>>, ghost kept: seq<nat>,
                    ghost now: seq<seq<byte>>, ghost working: bool)
    returns (err: Status)
    requires Separate(devices) && |devices| == |was| == |kept| == |now|
    requires forall k | 0 <= k < |devices| :: Keeps(devices[k], t, was[k], kept[k], now[k], working)
    modifies devices, Files(devices)
    ensures forall k | 0 <= k < |devices| :: PatchedOnly(devices[k], was[k], now[k])
    ensures working ==> forall k | 0 <= k < |devices| ::
              kept[k] <= |was[k]| == |now[k]| && devices[k].file.content == Patched(now[k], was[k], kept[k])
    ensures working ==> (err == Ok <==> forall k | 0 <= k < |devices| :: kept[k] > 0)
  {
    hide Keeps, PatchedOnly, Patched;
    err := Ok;
    for i := 0 to |devices|
      invariant forall k | 0 <= k < i :: PatchedOnly(devices[k], was[k], now[k])
      invariant working ==> forall k | 0 <= k < i ::
                  kept[k] <= |was[k]| == |now[k]| && devices[k].file.content == Patched(now[k], was[k], kept[k])
      invariant working ==> (err == Ok <==> forall k | 0 <= k < i :: kept[k] > 0)
      invariant forall k | i <= k < |devices| :: Keeps(devices[k], t, was[k], kept[k], now[k], working)
    {
      var e := RestoreOne(devices[i], t, was[i], kept[i], now[i], working);
      if e != Ok {
        err := e;
      }
    }
  }

  /** What is left on the disks of an array, all of them working. */
  ghost predicate Survived(members: seq<Device>, hs: seq<Hdparm>, t: RaidType, cs: seq<seq<byte>>, ms: seq<nat>)
    reads Files(members)
  {
    |members| == |hs| == |cs| == |ms| && forall k | 0 <= k < |members| ::
      && |Erased(hs[k], |cs[k]|)| == |cs[k]| >= Kept(members, t, cs, ms, k)
      && members[k].file.content == Patched(Erased(hs[k], |cs[k]|), cs[k], Kept(members, t, cs, ms, k))
  }

  /** The run on all disks of an array, the erases one after the other: an error of a backup
      ends the backups, but not the run, so that the disks after it are erased whole. */
  method EraseArray(devices: seq<Device>, pattern: seq<byte>, hs: seq<Hdparm>,
                    ghost t: RaidType, ghost was: seq<seq<byte>>, ghost ms: seq<nat>, ghost working: bool)
    returns (backup: Status, erased: bool, restore: Status)
    requires Separate(devices) && |devices| == |hs| == |was| == |ms| && IsPrepPattern(pattern)
    requires forall k | 0 <= k < |devices| ::
               Pristine(devices[k], t, was[k], ms[k], working) && |hs[k].left| == |was[k]|
    requires working ==> forall k | 0 <= k < |devices| :: |pattern| <= |was[k]|
    modifies devices, Files(devices)
    // whatever errors occur, nothing but a suffix of what a disk held survives its erase
    ensures erased ==> forall k | 0 <= k < |devices| :: hs[k].ok || Erasable(devices[k]) ==>
              PatchedOnly(devices[k], was[k], Erased(hs[k], |was[k]|))
    // on working disks it is known which
    ensures working ==>
              && (erased <==> forall k | 0 <= k < |devices| :: Clean(hs[k], pattern))
              && (erased ==> Survived(devices, hs, t, was, ms))
              && (backup == Ok <==> Stop(devices, t, was, 0) == |devices|)
              && (erased ==> (restore == Ok <==> forall k | 0 <= k < |devices| :: Kept(devices, t, was, ms, k) > 0))
  {
    hide Pristine, Keeps, Saves, Stop, Patched, PatchedOnly, Kept, IsPrepPattern, Separate, Erased, Clean, Erasable;
    ghost var kept := seq(|devices|, k requires 0 <= k < |devices| => Kept(devices, t, was, ms, k));
    restore := Ok;
    forall k | 0 <= k < |devices| && working
      ensures Erasable(devices[k])
    {
      WorkingErasable(devices[k], t, was[k], ms[k]);
    }
    backup := BackupAll(devices, t, was, ms, working);
    ghost var now;
    erased, now := EraseAll(devices, pattern, hs, t, was, kept, working);
    if !erased {
      return;
    }
    restore := RestoreAll(devices, t, was, kept, now, working);
  }

  /** A DDF header that gives this LBA for the primary header, and none for the secondary. */
  function Header(pri: seq<byte>): (h: seq<byte>)
    requires |pri| == 8
    ensures |h| == DDF_ANCHOR_SIZE && HasSig(h, DDF_SIG) && h[96..104] == pri && h[104..112] == Filled(8, 255)
  {
    DDF_SIG + Filled(92, 0) + pri + Filled(8, 255) + Filled(400, 0)
  }

  /** A disk whose anchor points at itself by an LBA that overflows. */
  function SelfPointing(): seq<byte> { Filled(7680, 0) + Header(Filled(8, 255)) }

  /** A disk with a header at LBA 14 and the anchor in the sector after it. */
  function WellFormed(): seq<byte> {
    Filled(7168, 0) + Header(Filled(7, 0) + [14]) + Header(Filled(7, 0) + [14])
  }

  lemma {:induction false} FilledOffsets(n: nat)
    ensures BigEndian(Filled(n, 255)) == Pow256(n) - 1 && BigEndian(Filled(n, 0)) == 0
  {
    if n == 0 {
    } else {
      FilledOffsets(n - 1);
      assert Filled(n, 255)[..n - 1] == Filled(n - 1, 255) && Filled(n, 0)[..n - 1] == Filled(n - 1, 0);
    }
  }

  lemma Offsets()
    ensures BigEndian(Filled(8, 255)) == NO_SECONDARY && BigEndian(Filled(7, 0) + [14]) == 14
  {
    FilledOffsets(8);
    assert Pow256(8) == NO_SECONDARY + 1;
    FilledOffsets(7);
    assert (Filled(7, 0) + [14])[..7] == Filled(7, 0);
  }

  lemma SelfPointingIsDdf(thr: nat)
    ensures var c := SelfPointing();
            && |c| == 8192 && Classify(c, 512, thr, Unset) == Ddf
            && RecordStart(c, 512) == -512 && Survivors(c, 512) == 512
  {
    hide BigEndian;
    var c := SelfPointing();
    Offsets();
    assert Suffix(c, DDF_ANCHOR_SIZE) == Header(Filled(8, 255));
    WrappedRecordStart(c);
    assert Suffix(c, IMSM_RECORD_SIZE)[0] == 0;
  }

  lemma WellFormedIsDdf(thr: nat)
    ensures var c := WellFormed();
            && |c| == 8192 && Classify(c, 512, thr, Unset) == Ddf
            && RecordStart(c, 512) == 7168 && Survivors(c, 512) == 1024
  {
    hide BigEndian;
    var c := WellFormed();
    Offsets();
    var h := Header(Filled(7, 0) + [14]);
    assert Suffix(c, DDF_ANCHOR_SIZE) == h && BytesAt(c, 7168, DDF_ANCHOR_SIZE) == h;
    assert LbaOffset(512, 14) == 7168;
    assert !DetectImsm(c) by {
      assert Suffix(c, IMSM_RECORD_SIZE)[..|IMSM_SIG|][0] == h[0] == DDF_SIG[0];
    }
    assert HasDdf(c, 512);
  }

  /** Both disks are detected as DDF and the second announces 1024 bytes of metadata. The backup
      of the first reports an error, and nothing of the second is kept. */
  lemma MetadataLost(first: Device, second: Device, thr: nat)
    requires first.file.logicalSector == 512 && second.file.logicalSector == 512
    ensures var cs := [SelfPointing(), WellFormed()];
            && (forall c <- cs :: |c| == 8192 && Classify(c, 512, thr, Unset) == Ddf)
            && [Survivors(cs[0], 512), Survivors(cs[1], 512)] == [512, 1024]
            && Kept([first, second], Ddf, cs, [512, 1024], 1) == 0
  {
    hide Classify, Survivors, RecordStart, SelfPointing, WellFormed;
    SelfPointingIsDdf(thr);
    WellFormedIsDdf(thr);
    assert !Saves(first, Ddf, SelfPointing());
  }

  // ---------------------------------------------------------------- the whole unit

  /** A working disk as it is found, with these contents. */
  ghost predicate Found(d: Device, c: seq<byte>)
    reads d, d.file
  {
    && d.Ready() && d.SectorOk() && d.arrayType == Unset && d.arrayMetadata == [] && d.group == null
    && d.file.content == c && |c| >= 8192
  }

  /** The same disk after detection. */
  ghost predicate Detected(d: Device, c: seq<byte>, thr: nat)
    reads d, d.file
  {
    && d.Ready() && d.SectorOk() && d.isOpen && d.arrayMetadata == []
    && d.file.content == c && |c| >= 8192 && d.arrayType == Classify(c, d.file.logicalSector, thr, Unset)
  }

  method DetectOne(d: Device, thr: nat, ghost c: seq<byte>)
    requires Found(d, c)
    modifies d`isOpen, d`alignment, d`devSize, d`sectorSize, d`arrayType, d.file`pos
    ensures Detected(d, c, thr)
  {
    hide Classify;
    var err := d.DetectRaidType(thr);
  }

  method DetectAll(devices: seq<Device>, thr: nat, ghost was: map<Device, seq<byte>>)
    requires Separate(devices)
    requires forall d <- devices :: d in was && Found(d, was[d])
    modifies devices, Files(devices)
    ensures forall d <- devices :: Detected(d, was[d], thr) && d.group == null
  {
    hide Detected;
    for i := 0 to |devices|
      invariant forall k | 0 <= k < i :: Detected(devices[k], was[devices[k]], thr) && devices[k].group == null
      invariant forall k | i <= k < |devices| :: Found(devices[k], was[devices[k]])
    {
      DetectOne(devices[i], thr, was[devices[i]]);
    }
  }

  /** The type that the old contents of a disk give it. */
  ghost function KindOf(was: map<Device, seq<byte>>, thr: nat, d: Device): RaidType {
    if d in was && |was[d]| >= IMSM_RECORD_SIZE then Classify(was[d], d.file.logicalSector, thr, Unset) else Unset
  }

  ghost function TypedSet(devices: seq<Device>, was: map<Device, seq<byte>>, thr: nat): set<Device> {
    set d <- devices | KindOf(was, thr, d) != Unset
  }

  /** The disks that have a type, in the order in which they were found. */
  ghost function Typed(devices: seq<Device>, was: map<Device, seq<byte>>, thr: nat): seq<Device> {
    Within(devices, TypedSet(devices, was, thr))
  }

  lemma TypedMeaning(devices: seq<Device>, was: map<Device, seq<byte>>, thr: nat)
    ensures forall d <- Typed(devices, was, thr) :: d in devices && KindOf(was, thr, d) != Unset
    ensures forall d <- devices :: d in Typed(devices, was, thr) <==> KindOf(was, thr, d) != Unset
    ensures forall d <- devices | d in was && |was[d]| >= 1024 ::
              d in Typed(devices, was, thr) <==> Looks(was[d], d.file.logicalSector, thr)
  {
    hide KindOf, Looks;
    WithinIn(devices, TypedSet(devices, was, thr));
    forall d <- devices | d in was && |was[d]| >= 1024
      ensures KindOf(was, thr, d) != Unset <==> Looks(was[d], d.file.logicalSector, thr)
    {
      KindLooks(was, thr, d);
    }
  }

  /** The contents bear a signature, or there is too much of them for anything but a data disk. */
  ghost predicate Looks(c: seq<byte>, sector: nat, thr: nat) {
    |c| >= 1024 && (DetectImsm(c) || HasDdf(c, sector) || |c| > thr)
  }

  lemma KindLooks(was: map<Device, seq<byte>>, thr: nat, d: Device)
    requires d in was && |was[d]| >= 1024
    ensures KindOf(was, thr, d) != Unset <==> Looks(was[d], d.file.logicalSector, thr)
  {
    hide Classify, HasDdf, DetectImsm;
    ClassifyMeaning(was[d], d.file.logicalSector, thr, Unset);
  }

  /** There are disks, all of one type, and each matches the first in size. */
  ghost predicate OneKind(disks: seq<Device>, was: map<Device, seq<byte>>, thr: nat, tol: real) {
    disks != [] && forall d <- disks ::
      KindOf(was, thr, d) == KindOf(was, thr, disks[0]) && (d == disks[0] || Matches(disks[0], d, tol))
  }

  /** The type is that of the signatures and the size, and the sizes are within the tolerance. */
  lemma OneKindMeaning(disks: seq<Device>, was: map<Device, seq<byte>>, thr: nat, tol: real)
    requires tol >= 0.0 && forall d <- disks :: d in was && Looks(was[d], d.file.logicalSector, thr)
    ensures OneKind(disks, was, thr, tol) <==>
              disks != [] && forall d <- disks ::
                && SameLooks(was[d], d.file.logicalSector, was[disks[0]], disks[0].file.logicalSector)
                && (d == disks[0] || Near(disks[0], d, tol))
  {
    hide Classify, HasDdf, DetectImsm, Matches, Near;
    forall d <- disks
      ensures KindOf(was, thr, d) == KindOf(was, thr, disks[0]) <==>
                SameLooks(was[d], d.file.logicalSector, was[disks[0]], disks[0].file.logicalSector)
    {
      ClassifyMeaning(was[d], d.file.logicalSector, thr, Unset);
      ClassifyMeaning(was[disks[0]], disks[0].file.logicalSector, thr, Unset);
    }
    forall d <- disks
      ensures Matches(disks[0], d, tol) <==> Near(disks[0], d, tol)
    {
      MatchesNear(disks[0], d, tol);
    }
  }

  /** Both bear an iMSM signature, or neither does and both or neither bear those of DDF. */
  ghost predicate SameLooks(c: seq<byte>, sector: nat, c': seq<byte>, sector': nat) {
    && |c| >= 1024 && |c'| >= 1024 && DetectImsm(c) == DetectImsm(c')
    && (DetectImsm(c) || HasDdf(c, sector) == HasDdf(c', sector'))
  }

  lemma FirstWithin(devices: seq<Device>, s: set<Device>, f: nat)
    requires f < |devices| && devices[f] in s && forall k | 0 <= k < f :: devices[k] !in s
    ensures Within(devices, s) != [] && Within(devices, s)[0] == devices[f]
  {
    assert devices == devices[..f] + devices[f..];
    WithinSplit(devices[..f], devices[f..], s);
    WithinNone(devices[..f], s);
  }

  /** The devices have been given their types and shared out to arrays. */
  ghost predicate Arranged(devices: seq<Device>, arrays: seq<Array>, was: map<Device, seq<byte>>, thr: nat, tol: real)
    reads arrays, devices
  {
    && SharedOut(arrays, devices, tol)
    && (forall a <- arrays :: InOrder(devices, 0, |devices|, a.devices))
    && (arrays != [] ==> arrays[0].devices != [] && Leads(devices, arrays[0].devices[0]))
    && (forall d <- devices :: (d.group == null <==> d.arrayType == Unset) && d.arrayType == KindOf(was, thr, d))
  }

  lemma AreArranged(devices: seq<Device>, arrays: seq<Array>, was: map<Device, seq<byte>>, thr: nat, tol: real)
    requires SharedOut(arrays, devices, tol)
    requires forall a <- arrays :: InOrder(devices, 0, |devices|, a.devices)
    requires arrays != [] ==> arrays[0].devices != [] && Leads(devices, arrays[0].devices[0])
    requires forall d <- devices :: d.group == null <==> d.arrayType == Unset
    requires forall d <- devices :: d in was && Detected(d, was[d], thr)
    ensures Arranged(devices, arrays, was, thr, tol)
  {
    hide SharedOut, InOrder, Leads, Classify;
  }

  /** A single array holds the disks that have a type, in their order. */
  lemma OneArray(devices: seq<Device>, arrays: seq<Array>, was: map<Device, seq<byte>>, thr: nat, tol: real)
    requires Different(devices) && Arranged(devices, arrays, was, thr, tol) && |arrays| == 1
    ensures var a := arrays[0];
            && a.devices == Typed(devices, was, thr) && OneKind(a.devices, was, thr, tol)
            && a.arrayType == KindOf(was, thr, a.devices[0]) != Unset
            && Different(a.devices) && forall d <- a.devices :: d in devices && d.arrayType == a.arrayType
  {
    hide Matches, KindOf, Within, Leads;
    var a := arrays[0];
    assert a in arrays && a.Consistent(devices, tol);
    assert Elements(a.devices) == TypedSet(devices, was, thr);
    assert devices[0..|devices|] == devices;
  }

  /** Disks of one kind all go to the first array. */
  lemma NoSecondArray(devices: seq<Device>, arrays: seq<Array>, was: map<Device, seq<byte>>, thr: nat, tol: real)
    requires Different(devices) && Arranged(devices, arrays, was, thr, tol)
    requires OneKind(Typed(devices, was, thr), was, thr, tol)
    ensures |arrays| == 1
  {
    hide Matches, KindOf, Within, InOrder, OneKind;
    var disks := Typed(devices, was, thr);
    TypedMeaning(devices, was, thr);
    NotEmpty(disks, was, thr, tol);
    assert disks[0] in disks && disks[0] in devices;
    if |arrays| > 1 {
      assert arrays[0] in arrays && arrays[1] in arrays;
      assert arrays[0].Consistent(devices, tol) && arrays[1].Consistent(devices, tol);
      var x, y := arrays[0].devices[0], arrays[1].devices[0];
      assert x in disks && y in disks;
      assert !arrays[0].Claims(y, tol);
      LeaderIsFirst(devices, was, thr, x);
      SameKind(disks, was, thr, tol, y);
    }
  }

  lemma NotEmpty(disks: seq<Device>, was: map<Device, seq<byte>>, thr: nat, tol: real)
    requires OneKind(disks, was, thr, tol)
    ensures disks != []
  {
  }

  lemma SameKind(disks: seq<Device>, was: map<Device, seq<byte>>, thr: nat, tol: real, d: Device)
    requires OneKind(disks, was, thr, tol) && d in disks
    ensures KindOf(was, thr, d) == KindOf(was, thr, disks[0]) && (d == disks[0] || Matches(disks[0], d, tol))
  {
  }

  lemma LeaderIsFirst(devices: seq<Device>, was: map<Device, seq<byte>>, thr: nat, d: Device)
    requires Leads(devices, d) && KindOf(was, thr, d) != Unset
    requires forall e <- devices :: e.arrayType == KindOf(was, thr, e)
    ensures Typed(devices, was, thr) != [] && Typed(devices, was, thr)[0] == d
  {
    hide KindOf, Within;
    var f :| 0 <= f < |devices| && LeadsAt(devices, d, f);
    FirstWithin(devices, TypedSet(devices, was, thr), f);
  }

  /** What the disks held, and how much of it their contents announce as metadata. */
  ghost function Held(disks: seq<Device>, was: map<Device, seq<byte>>): seq<seq<byte>>
    requires forall d <- disks :: d in was
  {
    seq(|disks|, k requires 0 <= k < |disks| => was[disks[k]])
  }

  ghost function Due(disks: seq<Device>, was: map<Device, seq<byte>>): seq<nat>
    requires forall d <- disks :: d in was && |was[d]| >= IMSM_RECORD_SIZE
  {
    seq(|disks|, k requires 0 <= k < |disks| => Survivors(was[disks[k]], disks[k].file.logicalSector))
  }

  function Treated(disks: seq<Device>, hd: map<Device, Hdparm>): seq<Hdparm>
    requires forall d <- disks :: d in hd
  {
    seq(|disks|, k requires 0 <= k < |disks| => hd[disks[k]])
  }

  lemma MembersSeparate(devices: seq<Device>, members: seq<Device>)
    requires Separate(devices) && (forall d <- members :: d in devices)
    requires Different(members)
    ensures Separate(members)
  {
    forall i, j | 0 <= i < j < |members|
      ensures members[i].file != members[j].file
    {
      assert members[i] in devices && members[j] in devices;
      var k :| 0 <= k < |devices| && devices[k] == members[i];
      var l :| 0 <= l < |devices| && devices[l] == members[j];
      assert if k < l then devices[k].file != devices[l].file else devices[l].file != devices[k].file;
    }
  }

  lemma FilesWithin(devices: seq<Device>, members: seq<Device>)
    requires Separate(devices) && (forall d <- members :: d in devices)
    ensures Files(members) <= Files(devices)
    ensures forall d <- devices | d !in members :: d.file !in Files(members)
  {
    forall d <- devices, e <- members | d != e
      ensures d.file != e.file
    {
      var k :| 0 <= k < |devices| && devices[k] == d;
      var l :| 0 <= l < |devices| && devices[l] == e;
      assert if k < l then devices[k].file != devices[l].file else devices[l].file != devices[k].file;
    }
  }

  lemma DetectedPristine(d: Device, c: seq<byte>, thr: nat)
    requires Detected(d, c, thr) && d.arrayType != Unset
    ensures Pristine(d, d.arrayType, c, Survivors(c, d.file.logicalSector), true)
  {
    hide Classify, Survivors, SurvivesAs;
    SurvivorsByType(c, d.file.logicalSector, thr);
  }

  lemma MembersPristine(devices: seq<Device>, members: seq<Device>, t: RaidType, was: map<Device, seq<byte>>, thr: nat)
    requires Separate(devices) && Different(members) && t != Unset
    requires forall d <- devices :: d in was && |was[d]| >= 8192 && Detected(d, was[d], thr)
    requires forall d <- members :: d in devices && d.arrayType == t
    ensures Separate(members)
    ensures forall k | 0 <= k < |members| ::
              Pristine(members[k], t, Held(members, was)[k], Due(members, was)[k], true)
    ensures forall d <- devices :: d.file.content == was[d]
  {
    hide Classify, Survivors, Pristine;
    MembersSeparate(devices, members);
    forall k | 0 <= k < |members|
      ensures Pristine(members[k], t, Held(members, was)[k], Due(members, was)[k], true)
    {
      assert members[k] in members;
      DetectedPristine(members[k], was[members[k]], thr);
    }
  }

  /** The run on the members of the one array. */
  method EraseMembers(devices: seq<Device>, thr: nat, pattern: seq<byte>, hd: map<Device, Hdparm>, a: Array,
                      ghost was: map<Device, seq<byte>>)
    returns (erased: bool)
    requires IsPrepPattern(pattern) && Separate(devices)
    requires forall d <- devices :: d in was && |was[d]| >= 8192 && Detected(d, was[d], thr) && |pattern| <= |was[d]|
    requires forall d <- devices :: d in hd && |hd[d].left| == |was[d]|
    requires Different(a.devices) && a.arrayType != Unset
    requires forall d <- a.devices :: d in devices && d.arrayType == a.arrayType
    modifies devices, Files(devices)
    ensures forall d <- devices | d !in a.devices :: d.file.content == was[d]
    ensures erased <==> forall d <- a.devices :: Clean(hd[d], pattern)
    ensures erased ==>
              Survived(a.devices, Treated(a.devices, hd), a.arrayType, Held(a.devices, was), Due(a.devices, was))
  {
    hide Classify, Survivors, Kept, IsPrepPattern, Separate, Detected, Pristine, Survived, Clean;
    ghost var members, cs, ms := a.devices, Held(a.devices, was), Due(a.devices, was);
    var hs := Treated(a.devices, hd);
    MembersPristine(devices, members, a.arrayType, was, thr);
    FilesWithin(devices, members);
    assert forall k | 0 <= k < |members| :: members[k] in members;
    var backup, restore;
    backup, erased, restore := EraseArray(a.devices, pattern, hs, a.arrayType, cs, ms, true);
    assert forall k | 0 <= k < |members| :: hs[k] == hd[members[k]];
  }

  /** Finds the types of the disks and shares them out to arrays. */
  method Arrange(devices: seq<Device>, thr: nat, tol: real, ghost was: map<Device, seq<byte>>)
    returns (arrays: seq<Array>)
    requires 0.0 < tol && Separate(devices)
    requires forall d <- devices :: d in was && |was[d]| >= 8192 && Found(d, was[d])
    modifies devices, Files(devices)
    ensures Arranged(devices, arrays, was, thr, tol)
    ensures forall d <- devices :: Detected(d, was[d], thr)
  {
    hide Classify, Matches, Separate, Arranged, InOrder, Leads;
    DetectAll(devices, thr, was);
    arrays := FindArrays(devices, tol);
    assert forall d <- devices :: Detected(d, was[d], thr);
    AreArranged(devices, arrays, was, thr, tol);
  }

  lemma SeparateDifferent(devices: seq<Device>)
    requires Separate(devices)
    ensures Different(devices)
  {
  }

  /** From finding the disks to the end: the disks are erased exactly if those that have a type
      are of one kind and as many as there should be, and no canary survives hdparm on one of
      them; then each keeps what `Kept` says, and no other disk is touched. */
  method EraseUnit(devices: seq<Device>, thr: nat, tol: real, dataDisks: nat, pattern: seq<byte>,
                   hd: map<Device, Hdparm>, ghost was: map<Device, seq<byte>>)
    returns (started: bool, erased: bool)
    requires 0.0 < tol && IsPrepPattern(pattern) && Separate(devices)
    requires forall d <- devices :: d in was && |was[d]| >= 8192 && Found(d, was[d]) && |pattern| <= |was[d]|
    requires forall d <- devices :: d in hd && |hd[d].left| == |was[d]|
    modifies devices, Files(devices)
    ensures started <==> OneKind(Typed(devices, was, thr), was, thr, tol) && |Typed(devices, was, thr)| == dataDisks
    ensures forall d <- devices :: d in Typed(devices, was, thr) <==> Looks(was[d], d.file.logicalSector, thr)
    ensures forall d <- devices | !started || d !in Typed(devices, was, thr) :: d.file.content == was[d]
    ensures (forall d <- Typed(devices, was, thr) :: d in devices)
            && (erased <==> started && forall d <- Typed(devices, was, thr) :: Clean(hd[d], pattern))
    ensures erased ==>
              var disks := Typed(devices, was, thr);
              Survived(disks, Treated(disks, hd), KindOf(was, thr, disks[0]), Held(disks, was), Due(disks, was))
  {
    hide Classify, Survivors, Kept, Matches, IsPrepPattern, Survived, Separate, Different, OneKind, Arranged, Clean;
    hide Detected, KindOf, Typed, Looks;
    TypedMeaning(devices, was, thr);
    SeparateDifferent(devices);
    started, erased := false, false;
    var arrays := Arrange(devices, thr, tol, was);
    Untouched(devices, was, thr);
    if |arrays| != 1 {
      if OneKind(Typed(devices, was, thr), was, thr, tol) {
        NoSecondArray(devices, arrays, was, thr, tol);
      }
      return;
    }
    OneArray(devices, arrays, was, thr, tol);
    var a := arrays[0];
    if |a.devices| != dataDisks {
      return;
    }
    started := true;
    erased := EraseMembers(devices, thr, pattern, hd, a, was);
  }

  lemma Untouched(devices: seq<Device>, was: map<Device, seq<byte>>, thr: nat)
    requires forall d <- devices :: d in was && |was[d]| >= 8192 && Detected(d, was[d], thr)
    ensures forall d <- devices :: d.file.content == was[d]
  {
    hide Classify;
  }
}
