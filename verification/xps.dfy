/** Splitting the CPUs of a mask over the transmit queues of a network card. CPU masks
    are sets of bit numbers. */
module NicXps {
  import opened Numbers

  type Masks = map<string, set<nat>>

  /** The CPUs in a mask below bit `i`. */
  function Below(mask: set<nat>, i: nat): set<nat> { set c | c in mask && c < i }

  /** The CPUs given to any queue. */
  function Union(m: Masks): set<nat> { set q, c | q in m && c in m[q] :: c }

  ghost predicate Distinct(names: seq<string>) {
    forall i, j | 0 <= i < j < |names| :: names[i] != names[j]
  }

  ghost predicate Disjoint(m: Masks) {
    forall q, r | q in m && r in m && q != r :: m[q] !! m[r]
  }

  ghost predicate Contiguous(mask: set<nat>) {
    exists lo: nat :: ContiguousFrom(mask, lo)
  }

  ghost predicate ContiguousFrom(mask: set<nat>, lo: nat) {
    forall c: nat :: c in mask <==> lo <= c < lo + |mask|
  }

  // ---------------------------------------------------------------- sets of bits

  lemma BelowNext(mask: set<nat>, i: nat)
    ensures Below(mask, i + 1) == Below(mask, i) + (if i in mask then {i} else {})
    ensures |Below(mask, i + 1)| == |Below(mask, i)| + (if i in mask then 1 else 0)
  {
    assert Below(mask, i + 1) == Below(mask, i) + (if i in mask then {i} else {});
  }

  lemma BelowAll(mask: set<nat>, i: nat)
    requires forall c <- mask :: c < i
    ensures Below(mask, i) == mask
  {
  }

  /** The CPUs of a mask that have at least `lo` and fewer than `hi` before them. */
  function Ranked(mask: set<nat>, lo: nat, hi: nat): set<nat> {
    set c | c in mask && lo <= |Below(mask, c)| < hi
  }

  lemma BelowOrder(mask: set<nat>, c: nat, i: nat)
    requires c in mask
    ensures c < i <==> |Below(mask, c)| < |Below(mask, i)|
  {
    if c < i {
      assert c !in Below(mask, c) && c in Below(mask, i);
      SubsetSize(Below(mask, c), Below(mask, i));
    } else {
      SubsetSize(Below(mask, i), Below(mask, c));
    }
  }

  /** The CPUs from bit `start` to bit `i` are those of the ranks between. */
  lemma RanksBetween(mask: set<nat>, start: nat, i: nat, lo: nat, hi: nat)
    requires start <= i && |Below(mask, start)| <= lo && |Below(mask, i)| <= hi
    requires |Below(mask, start)| == lo || |Below(mask, start)| == |mask|
    requires |Below(mask, i)| == hi || |Below(mask, i)| == |mask|
    ensures Below(mask, i) - Below(mask, start) == Ranked(mask, lo, hi)
  {
    forall c | c in mask
      ensures c in Below(mask, i) - Below(mask, start) <==> c in Ranked(mask, lo, hi)
    {
      BelowOrder(mask, c, i);
      BelowOrder(mask, c, start);
      SubsetSize(Below(mask, c), mask);
      assert c !in Below(mask, c);
    }
  }

  lemma SubsetSize(a: set<nat>, b: set<nat>)
    requires a <= b
    ensures |a| <= |b| && (|a| == |b| ==> a == b)
  {
    assert b == a + (b - a);
  }

  /** A contiguous mask is used up from its start. */
  lemma {:induction false} ContiguousBelow(mask: set<nat>, lo: nat, i: nat)
    requires ContiguousFrom(mask, lo)
    ensures |Below(mask, i)| == if i < lo then 0 else Min(i - lo, |mask|)
  {
    if i == 0 {
      assert Below(mask, 0) == {};
    } else {
      ContiguousBelow(mask, lo, i - 1);
      BelowNext(mask, i - 1);
    }
  }

  /** No CPU is given twice, and only CPUs of the mask below bit `i` are given. */
  ghost predicate Spread(m: Masks, mask: set<nat>, i: nat) {
    Disjoint(m) && Union(m) <= Below(mask, i)
  }

  lemma UnionWith(m: Masks, q: string, cpus: set<nat>)
    requires q in m ==> m[q] <= cpus
    ensures Union(m[q := cpus]) == Union(m) + cpus
  {
    var n := m[q := cpus];
    forall c | c in Union(m)
      ensures c in Union(n)
    {
      var r :| r in m && c in m[r];
      assert r in n && c in n[r];
    }
    forall c | c in cpus
      ensures c in Union(n)
    {
      assert q in n && c in n[q];
    }
  }

  /** Giving the CPU at bit `i`, if there is one, to a queue. */
  lemma GiveBit(m: Masks, mask: set<nat>, i: nat, q: string)
    requires q in m && Spread(m, mask, i)
    ensures var n := if i in mask then m[q := m[q] + {i}] else m;
            && Spread(n, mask, i + 1)
            && (Union(m) == Below(mask, i) ==> Union(n) == Below(mask, i + 1))
  {
    BelowNext(mask, i);
    if i in mask {
      UnionWith(m, q, m[q] + {i});
      forall r, c | r in m && c in m[r]
        ensures c in Below(mask, i)
      {
        assert c in Union(m);
      }
    }
  }

  /** Giving a queue the CPUs from bit `start` to bit `i`. */
  lemma AddQueue(m: Masks, mask: set<nat>, start: nat, i: nat, q: string, cpus: set<nat>)
    requires Spread(m, mask, start) && start <= i && cpus == Below(mask, i) - Below(mask, start)
    ensures Spread(m[q := cpus], mask, i)
    ensures q !in m && Union(m) == Below(mask, start) ==> Union(m[q := cpus]) == Below(mask, i)
  {
    var n := m[q := cpus];
    forall r, c | r in m && c in m[r]
      ensures c in Below(mask, start)
    {
      assert c in Union(m);
    }
    if q !in m {
      UnionWith(m, q, cpus);
    }
  }

  /** With different names there is one mask per queue. */
  lemma {:induction false} KeysCount(names: seq<string>)
    requires Distinct(names)
    ensures |set q | q in names| == |names|
  {
    if names == [] {
    } else {
      var n := |names| - 1;
      KeysCount(names[..n]);
      assert (set q | q in names) == (set q | q in names[..n]) + {names[n]};
    }
  }

  lemma ShareBound(nrCpus: nat, n: nat, nrq: nat, cPerQ: nat, cRemaining: nat)
    requires 0 < nrq <= n
    requires if nrCpus / nrq == 0 then cPerQ == 1 else cPerQ == nrCpus / nrq && cRemaining == nrCpus % nrq
    ensures n * cPerQ + cRemaining >= nrCpus
    ensures n == nrq && nrCpus / nrq > 0 ==> n * cPerQ <= nrCpus < n * cPerQ + n
  {
    assert nrCpus == nrq * (nrCpus / nrq) + nrCpus % nrq;
    assert (n - nrq) * cPerQ >= 0;
    assert n * cPerQ == nrq * cPerQ + (n - nrq) * cPerQ;
  }

  // ---------------------------------------------------------------- allocation

  /** Takes the next `cPerQ` CPUs from bit `start` on, as far as there are any. */
  method FillQueue(mask: set<nat>, start: nat, cPerQ: nat) returns (qMask: set<nat>, i: nat)
    requires cPerQ > 0 && forall c <- mask :: c < 64
    ensures i > start && qMask == Below(mask, i) - Below(mask, start)
    ensures |Below(mask, i)| == |Below(mask, start)| + |qMask|
    ensures |qMask| <= cPerQ && (i < 64 ==> |qMask| == cPerQ)
    ensures |qMask| == cPerQ ==> i - 1 in mask
  {
    var qCount := 0;
    qMask, i := {}, start;
    while qCount < cPerQ
      invariant start <= i && qCount == |qMask| <= cPerQ
      invariant qMask == Below(mask, i) - Below(mask, start)
      invariant |Below(mask, i)| == |Below(mask, start)| + |qMask|
      invariant qCount == cPerQ ==> i > start && i - 1 in mask
      decreases if qCount < cPerQ then 65 - i else -1, cPerQ - qCount
    {
      BelowNext(mask, i);
      if i in mask {
        qMask := qMask + {i};
        qCount := qCount + 1;
      }
      i := i + 1;
      if i >= 64 {
        break;
      }
    }
  }

  /** Gives the CPU at bit `i`, if there is one, to a queue; the count wraps at zero. */
  method OneBit(given: Masks, mask: set<nat>, i: nat, q: string, nrRemaining: nat)
    returns (qMasks: Masks, cRemaining: nat)
    requires q in given && nrRemaining < U16 && Spread(given, mask, i)
    ensures qMasks.Keys == given.Keys && Spread(qMasks, mask, i + 1)
    ensures Union(given) == Below(mask, i) ==> Union(qMasks) == Below(mask, i + 1)
    ensures |Below(mask, i + 1)| + cRemaining >= |Below(mask, i)| + nrRemaining && cRemaining < U16
    ensures given[q] <= qMasks[q] && |qMasks[q]| <= |given[q]| + 1
    ensures forall r <- given | r != q :: qMasks[r] == given[r]
    ensures i !in mask ==> qMasks == given
  {
    qMasks, cRemaining := given, nrRemaining;
    GiveBit(qMasks, mask, i, q);
    BelowNext(mask, i);
    if i in mask {
      qMasks := qMasks[q := qMasks[q] + {i}];
      cRemaining := (cRemaining + U16 - 1) % U16;
    }
  }

  /** Gives one more CPU to each queue, the queues in any order. */
  method OnePass(given: Masks, mask: set<nat>, start: nat, nrRemaining: nat)
    returns (qMasks: Masks, i: nat, cRemaining: nat)
    requires given != map[] && nrRemaining < U16 && start < 64 && Spread(given, mask, start)
    ensures qMasks.Keys == given.Keys && start < i && Spread(qMasks, mask, i)
    ensures Union(given) == Below(mask, start) ==> Union(qMasks) == Below(mask, i)
    ensures |Below(mask, i)| + cRemaining >= |Below(mask, start)| + nrRemaining && cRemaining < U16
    ensures forall q <- given :: given[q] <= qMasks[q] && |qMasks[q]| <= |given[q]| + 1
    ensures i < 64 ==> i == start + |given.Keys|
    ensures (forall c <- mask :: c < start) ==> qMasks == given
  {
    hide Spread, Union, Below;
    qMasks, i, cRemaining := given, start, nrRemaining;
    var rest := given.Keys;
    while rest != {}
      invariant rest <= qMasks.Keys == given.Keys && Spread(qMasks, mask, i)
      invariant Union(given) == Below(mask, start) ==> Union(qMasks) == Below(mask, i)
      invariant |Below(mask, i)| + cRemaining >= |Below(mask, start)| + nrRemaining && cRemaining < U16
      invariant forall q <- given :: given[q] <= qMasks[q] && |qMasks[q]| <= |given[q]| + (if q in rest then 0 else 1)
      invariant start <= i < 64 && i == start + |given.Keys| - |rest|
      invariant (forall c <- mask :: c < start) ==> qMasks == given
      decreases rest
    {
      var q :| q in rest;
      rest := rest - {q};
      qMasks, cRemaining := OneBit(qMasks, mask, i, q, cRemaining);
      i := i + 1;
      if i >= 64 {
        break;
      }
    }
  }

  /** What a contiguous mask has left fits into one pass. */
  ghost predicate OnePassLeft(mask: set<nat>, start: nat, queues: nat) {
    Contiguous(mask) && start > 0 && start - 1 in mask && |mask| <= |Below(mask, start)| + queues
  }

  lemma OnePassTakesAll(mask: set<nat>, start: nat, queues: nat, i: nat)
    requires OnePassLeft(mask, start, queues) && (forall c <- mask :: c < 64)
    requires start < i && (i < 64 ==> i == start + queues)
    ensures forall c <- mask :: c < i
  {
    var lo: nat :| ContiguousFrom(mask, lo);
    ContiguousBelow(mask, lo, start);
  }

  /** CPUs per queue and what remains, in 16-bit arithmetic. */
  method SplitCount(n: nat, nrCpus: nat) returns (cPerQ: nat, cRemaining: nat)
    requires n % U16 != 0 && nrCpus < U16
    ensures cPerQ > 0 && cRemaining < U16 && n * cPerQ + cRemaining >= nrCpus
    ensures n < U16 ==> cPerQ == if nrCpus / n == 0 then 1 else nrCpus / n
  {
    var nrq := n % U16;
    cPerQ := nrCpus / nrq;
    cRemaining := nrCpus % nrq;
    if cPerQ == 0 {
      cPerQ := 1;
      cRemaining := (nrCpus + U16 - nrq) % U16;
    }
    ShareBound(nrCpus, n, nrq, cPerQ, cRemaining);
  }

  /** The share of the `k`-th queue: the CPUs of a mask, in order, from the `k * n`-th on. */
  function Share(mask: set<nat>, k: nat, n: nat): set<nat> { Ranked(mask, k * n, (k + 1) * n) }

  function PerQueue(nrCpus: nat, n: nat): nat { if n == 0 then 0 else nrCpus / n }

  /** Each queue has at least its share of `n` CPUs. */
  ghost predicate GivenInOrder(m: Masks, qnames: seq<string>, mask: set<nat>, n: nat) {
    forall k | 0 <= k < |qnames| :: qnames[k] in m && Share(mask, k, n) <= m[qnames[k]]
  }

  lemma ShareTaken(mask: set<nat>, start: nat, i: nat, k: nat, n: nat)
    requires start <= i && (forall c <- mask :: c < 64)
    requires |Below(mask, start)| <= k * n && (start < 64 ==> |Below(mask, start)| == k * n)
    requires |Below(mask, i)| <= (k + 1) * n && (i < 64 ==> |Below(mask, i)| == (k + 1) * n)
    ensures Below(mask, i) - Below(mask, start) == Share(mask, k, n)
  {
    if start >= 64 {
      BelowAll(mask, start);
    }
    if i >= 64 {
      BelowAll(mask, i);
    }
    RanksBetween(mask, start, i, k * n, (k + 1) * n);
  }

  /** The first `cPerQ` CPUs to the first queue, the next ones to the second, and so on. */
  method FirstShare(qnames: seq<string>, cpuMask: set<nat>, cPerQ: nat) returns (qMasks: Masks, i: nat)
    requires qnames != [] && cPerQ > 0 && forall c <- cpuMask :: c < 64
    ensures qMasks.Keys == set q | q in qnames
    ensures Spread(qMasks, cpuMask, i)
    ensures Distinct(qnames) ==> Union(qMasks) == Below(cpuMask, i)
    ensures |Below(cpuMask, i)| <= |qnames| * cPerQ
    ensures i < 64 ==> |Below(cpuMask, i)| == |qnames| * cPerQ
    ensures |Below(cpuMask, i)| == |qnames| * cPerQ ==>
              (forall q <- qMasks :: |qMasks[q]| == cPerQ) && i > 0 && i - 1 in cpuMask
    ensures forall q <- qMasks :: |qMasks[q]| <= cPerQ
    ensures Distinct(qnames) ==> forall k | 0 <= k < |qnames| :: qMasks[qnames[k]] == Share(cpuMask, k, cPerQ)
  {
    hide Spread, Union, Below, Disjoint, Share;
    NothingGiven(cpuMask);
    qMasks, i := map[], 0;
    ghost var full := 0;
    for k := 0 to |qnames|
      invariant qMasks.Keys == set q | q in qnames[..k]
      invariant Spread(qMasks, cpuMask, i)
      invariant Distinct(qnames) ==> Union(qMasks) == Below(cpuMask, i)
      invariant full == k * cPerQ
      invariant |Below(cpuMask, i)| <= full
      invariant i < 64 ==> |Below(cpuMask, i)| == full
      invariant |Below(cpuMask, i)| == full ==> forall q <- qMasks :: |qMasks[q]| == cPerQ
      invariant forall q <- qMasks :: |qMasks[q]| <= cPerQ
      invariant k > 0 && |Below(cpuMask, i)| == full ==> i > 0 && i - 1 in cpuMask
      invariant Distinct(qnames) ==> forall j | 0 <= j < k :: qMasks[qnames[j]] == Share(cpuMask, j, cPerQ)
    {
      var qMask;
      var start := i;
      qMask, i := FillQueue(cpuMask, start, cPerQ);
      AddQueue(qMasks, cpuMask, start, i, qnames[k], qMask);
      qMasks := qMasks[qnames[k] := qMask];
      NextMultiple(k, cPerQ);
      ShareTaken(cpuMask, start, i, k, cPerQ);
      full := full + cPerQ;
    }
    assert qnames[..|qnames|] == qnames;
  }

  lemma NothingGiven(mask: set<nat>)
    ensures Spread(map[], mask, 0) && Union(map[]) == Below(mask, 0) == {}
  {
  }

  /** Passes over the queues until nothing remains. */
  method ShareRest(given: Masks, mask: set<nat>, start: nat, nrRemaining: nat)
    returns (qMasks: Masks, i: nat)
    requires given != map[] && (forall c <- mask :: c < 64) && nrRemaining < U16 && Spread(given, mask, start)
    ensures qMasks.Keys == given.Keys && start <= i && Spread(qMasks, mask, i)
    ensures Union(given) == Below(mask, start) ==> Union(qMasks) == Below(mask, i)
    ensures i < 64 ==> |Below(mask, i)| >= |Below(mask, start)| + nrRemaining
    ensures forall q <- given :: given[q] <= qMasks[q]
    ensures start >= 64 ==> qMasks == given
    ensures OnePassLeft(mask, start, |given.Keys|) ==> forall q <- given :: |qMasks[q]| <= |given[q]| + 1
  {
    var cRemaining := nrRemaining;
    qMasks, i := given, start;
    while cRemaining > 0 && i < 64
      invariant qMasks.Keys == given.Keys && start <= i && cRemaining < U16 && Spread(qMasks, mask, i)
      invariant Union(given) == Below(mask, start) ==> Union(qMasks) == Below(mask, i)
      invariant |Below(mask, i)| + cRemaining >= |Below(mask, start)| + nrRemaining
      invariant forall q <- given :: given[q] <= qMasks[q]
      invariant i == start ==> qMasks == given
      invariant start >= 64 ==> i == start
      invariant OnePassLeft(mask, start, |given.Keys|) && i > start ==>
                  (forall c <- mask :: c < i) && forall q <- given :: |qMasks[q]| <= |given[q]| + 1
      decreases 64 - i
    {
      ghost var before := i;
      qMasks, i, cRemaining := OnePass(qMasks, mask, i, cRemaining);
      if OnePassLeft(mask, start, |given.Keys|) && before == start {
        OnePassTakesAll(mask, start, |given.Keys|, i);
      }
    }
  }

  lemma StillGiven(given: Masks, qMasks: Masks, qnames: seq<string>, mask: set<nat>, cPerQ: nat, n: nat)
    requires given.Keys == qMasks.Keys && forall q <- given :: given[q] <= qMasks[q]
    requires forall k | 0 <= k < |qnames| :: qnames[k] in given && given[qnames[k]] == Share(mask, k, cPerQ)
    requires n == cPerQ || n == 0
    ensures GivenInOrder(qMasks, qnames, mask, n)
  {
    hide Share;
    forall k | 0 <= k < |qnames|
      ensures qnames[k] in qMasks && Share(mask, k, n) <= qMasks[qnames[k]]
    {
      NoShare(mask, k);
    }
  }

  lemma NoShare(mask: set<nat>, k: nat)
    ensures Share(mask, k, 0) == {}
  {
  }

  /** The sizes of the masks, from the counts of the two phases. */
  lemma Finish(given: Masks, qMasks: Masks, qnames: seq<string>, cpuMask: set<nat>, nrCpus: nat, cPerQ: nat,
               start: nat, i: nat)
    requires Distinct(qnames) && nrCpus == |cpuMask| && 0 < |qnames| && (forall c <- cpuMask :: c < 64)
    requires given.Keys == qMasks.Keys == set q | q in qnames
    requires (forall q <- given :: given[q] <= qMasks[q] && |given[q]| <= cPerQ) && (start >= 64 ==> qMasks == given)
    requires cPerQ == if nrCpus / |qnames| == 0 then 1 else nrCpus / |qnames|
    requires start < 64 ==> |Below(cpuMask, start)| == |qnames| * cPerQ
    requires |Below(cpuMask, start)| <= |qnames| * cPerQ
    requires |Below(cpuMask, start)| == |qnames| * cPerQ ==>
               (forall q <- given :: |given[q]| == cPerQ) && start > 0 && start - 1 in cpuMask
    requires OnePassLeft(cpuMask, start, |given.Keys|) ==> forall q <- given :: |qMasks[q]| <= |given[q]| + 1
    ensures forall q <- qMasks :: |qMasks[q]| >= nrCpus / |qnames|
    ensures Contiguous(cpuMask) ==> forall q <- qMasks, r <- qMasks :: |qMasks[q]| <= |qMasks[r]| + 1
  {
    var n := |qnames|;
    SubsetSize(Below(cpuMask, start), cpuMask);
    if start >= 64 {
      BelowAll(cpuMask, start);
    }
    KeysCount(qnames);
    ShareBound(nrCpus, n, n, cPerQ, nrCpus % n);
    if nrCpus / n == 0 {
      DivZero(nrCpus, n);
    } else {
      forall q <- qMasks
        ensures cPerQ <= |qMasks[q]|
      {
        SubsetSize(given[q], qMasks[q]);
      }
    }
  }

  /** Enough CPUs are given: all there are, or as many as asked for. */
  lemma Coverage(mask: set<nat>, start: nat, i: nat, total: nat, cRemaining: nat, nrCpus: nat)
    requires (forall c <- mask :: c < 64) && start <= i && total + cRemaining >= nrCpus
    requires start < 64 ==> |Below(mask, start)| == total
    requires i < 64 ==> |Below(mask, i)| >= |Below(mask, start)| + cRemaining
    ensures Below(mask, i) <= mask && |Below(mask, i)| >= Min(nrCpus, |mask|)
    ensures nrCpus >= |mask| ==> Below(mask, i) == mask
  {
    SubsetSize(Below(mask, i), mask);
    if i >= 64 {
      BelowAll(mask, i);
    }
  }

  lemma NextMultiple(k: nat, m: nat)
    ensures (k + 1) * m == k * m + m
  {
  }

  lemma DivZero(a: nat, b: nat)
    requires b > 0 && a / b == 0
    ensures a < b
  {
  }

  /** A set of masks with no overlap, and with no gaps when `nrCpus` covers the mask. */
  method XpsConfig(qnames: seq<string>, cpuMask: set<nat>, nrCpus: nat) returns (qMasks: Masks)
    requires |qnames| % U16 != 0 && nrCpus < U16 && forall c <- cpuMask :: c < 64
    ensures qMasks.Keys == set q | q in qnames
    ensures Disjoint(qMasks) && Union(qMasks) <= cpuMask
    ensures Distinct(qnames) ==> |Union(qMasks)| >= Min(nrCpus, |cpuMask|)
    ensures Distinct(qnames) && nrCpus >= |cpuMask| ==> Union(qMasks) == cpuMask
    ensures Distinct(qnames) && |qnames| < U16 ==>
              GivenInOrder(qMasks, qnames, cpuMask, PerQueue(nrCpus, |qnames|))
    ensures Distinct(qnames) && nrCpus == |cpuMask| && |qnames| < U16 ==>
              forall q <- qMasks :: |qMasks[q]| >= PerQueue(nrCpus, |qnames|)
    ensures Distinct(qnames) && nrCpus == |cpuMask| && |qnames| < U16 && Contiguous(cpuMask) ==>
              forall q <- qMasks, r <- qMasks :: |qMasks[q]| <= |qMasks[r]| + 1
  {
    var cPerQ, cRemaining := SplitCount(|qnames|, nrCpus);
    var i;
    qMasks, i := FirstShare(qnames, cpuMask, cPerQ);
    hide Below, Contiguous, OnePassLeft, Union, Share;
    ghost var start, n := i, |qnames|;
    ghost var given := qMasks;
    assert qnames[0] in given;
    qMasks, i := ShareRest(qMasks, cpuMask, i, cRemaining);
    if Distinct(qnames) && n < U16 {
      StillGiven(given, qMasks, qnames, cpuMask, cPerQ, PerQueue(nrCpus, n));
    }
    if Distinct(qnames) && nrCpus == |cpuMask| && n < U16 {
      Finish(given, qMasks, qnames, cpuMask, nrCpus, cPerQ, start, i);
    }
    Coverage(cpuMask, start, i, n * cPerQ, cRemaining, nrCpus);
  }
}
