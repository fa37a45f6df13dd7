/** Choosing the CPUs for interrupt queues: the lightest ones first, where the weight
    of a CPU counts its own uses and, less, those of its siblings. */
module CpuTopology {
  import opened Numbers

  type CpuSet = seq<nat>
  type Counts = map<nat, nat>

  /** A map lookup as Go does it: zero where there is no entry. */
  function Use(u: Counts, c: nat): nat { if c in u then u[c] else 0 }

  function Siblings(t: map<nat, CpuSet>, c: nat): CpuSet { if c in t then t[c] else [] }

  /** Uses of the CPUs in a list, one CPU aside. */
  function UseOfOthers(s: CpuSet, c: nat, u: Counts): nat {
    if s == [] then 0
    else (if s[0] == c then 0 else Use(u, s[0])) + UseOfOthers(s[1..], c, u)
  }

  function TotalUse(s: CpuSet, u: Counts): nat {
    if s == [] then 0 else Use(u, s[0]) + TotalUse(s[1..], u)
  }

  ghost predicate Distinct(s: CpuSet) {
    forall i, j | 0 <= i < j < |s| :: s[i] != s[j]
  }

  lemma {:induction false} OthersAndOne(s: CpuSet, c: nat, u: Counts)
    requires Distinct(s)
    ensures UseOfOthers(s, c, u) + (if c in s then Use(u, c) else 0) == TotalUse(s, u)
  {
    if s == [] {
    } else {
      OthersAndOne(s[1..], c, u);
    }
  }

  /** The sum that the loop over the siblings computes. */
  lemma {:induction false} UseOfOthersSnoc(s: CpuSet, x: nat, c: nat, u: Counts)
    ensures UseOfOthers(s + [x], c, u) == UseOfOthers(s, c, u) + (if x == c then 0 else Use(u, x))
  {
    if s == [] {
      assert [x][1..] == [];
    } else {
      assert (s + [x])[1..] == s[1..] + [x];
      UseOfOthersSnoc(s[1..], x, c, u);
    }
  }

  lemma {:induction false} NoOtherUse(s: CpuSet, c: nat, u: Counts)
    requires forall x <- s :: x == c || Use(u, x) == 0
    ensures UseOfOthers(s, c, u) == 0
  {
    if s == [] {
    } else {
      NoOtherUse(s[1..], c, u);
    }
  }

  lemma {:induction false} SomeOtherUse(s: CpuSet, c: nat, u: Counts, x: nat)
    requires x in s && x != c
    ensures UseOfOthers(s, c, u) >= Use(u, x)
  {
    if s[0] == x {
    } else {
      SomeOtherUse(s[1..], c, u, x);
    }
  }

  /** One more use of `x` counts once in each list that holds it. */
  lemma {:induction false} OthersRaised(s: CpuSet, c: nat, u: Counts, v: Counts, x: nat)
    requires Distinct(s) && Raised(u, v, [x])
    ensures UseOfOthers(s, c, v) == UseOfOthers(s, c, u) + if x in s && x != c then 1 else 0
  {
    if s == [] {
    } else {
      OthersRaised(s[1..], c, u, v, x);
    }
  }

  lemma {:induction false} SameOthers(s: CpuSet, c: nat, u: Counts, v: Counts)
    requires forall x :: Use(u, x) == Use(v, x)
    ensures UseOfOthers(s, c, u) == UseOfOthers(s, c, v)
  {
    if s == [] {
    } else {
      SameOthers(s[1..], c, u, v);
    }
  }

  lemma SubsetSize(a: set<nat>, b: set<nat>)
    requires a <= b
    ensures |a| <= |b|
  {
    assert b == a + (b - a);
  }

  lemma UnionSize(a: set<nat>, b: set<nat>)
    ensures |a + b| <= |a| + |b|
  {
    assert a + b == a + (b - a) && |b - a| <= |b| by { SubsetSize(b - a, b); }
  }

  lemma OneMoreTime(n: nat, k: int)
    ensures n * (k - 1) == n * k - n
  {
  }

  function Elems(s: CpuSet): set<nat> { set c | c in s }

  lemma {:induction false} DistinctSize(s: CpuSet)
    requires Distinct(s)
    ensures |Elems(s)| == |s|
  {
    if s == [] {
    } else {
      DistinctSize(s[1..]);
      assert s == [s[0]] + s[1..];
      assert forall k | 0 <= k < |s[1..]| :: s[1..][k] != s[0];
      assert Elems(s) == Elems(s[1..]) + {s[0]};
    }
  }

  /** A list without repetitions that covers another such list is at least as long. */
  lemma CoverSize(s: CpuSet, t: CpuSet)
    requires Distinct(s) && Distinct(t) && Elems(s) <= Elems(t)
    ensures |s| <= |t|
  {
    DistinctSize(s);
    DistinctSize(t);
    SubsetSize(Elems(s), Elems(t));
  }

  ghost predicate Even(cpus: CpuSet, u: Counts) {
    forall c <- cpus, d <- cpus :: Use(u, c) <= Use(u, d) + 1
  }

  /** `picked` were used once more. */
  ghost predicate Raised(u: Counts, v: Counts, picked: CpuSet) {
    forall c :: Use(v, c) == Use(u, c) + (if c in picked then 1 else 0)
  }

  /** No CPU left out was used less than one that was picked. */
  ghost predicate LeastFirst(cpus: CpuSet, u: Counts, picked: CpuSet) {
    forall c <- picked, d <- cpus | d !in picked :: Use(u, c) <= Use(u, d)
  }

  lemma StaysEven(cpus: CpuSet, u: Counts, v: Counts, picked: CpuSet)
    requires Even(cpus, u) && Raised(u, v, picked) && LeastFirst(cpus, u, picked)
    ensures Even(cpus, v)
  {
    forall c <- cpus, d <- cpus
      ensures Use(v, c) <= Use(v, d) + 1
    {
      assert Use(u, c) <= Use(u, d) + 1;
    }
  }

  class Topology {
    const allCpus: CpuSet
    const coreSib: map<nat, CpuSet>
    const threadSib: map<nat, CpuSet>
    const numCpus: nat
    var useCount: Counts

    constructor (allCpus: CpuSet, coreSib: map<nat, CpuSet>, threadSib: map<nat, CpuSet>)
      requires Distinct(allCpus) && |allCpus| < U16
      ensures Valid() && Balanced() && this.allCpus == allCpus
      ensures this.coreSib == coreSib && this.threadSib == threadSib && useCount == map[]
    {
      this.allCpus, this.coreSib, this.threadSib := allCpus, coreSib, threadSib;
      numCpus, useCount := |allCpus|, map[];
    }

    ghost predicate Valid()
      reads this
    {
      && Distinct(allCpus)
      && numCpus == |allCpus| < U16
      && (useCount == map[] || useCount.Keys == Elems(allCpus))
    }

    /** No CPU is used more than once more often than another. */
    ghost predicate Balanced()
      reads this
    {
      Even(allCpus, useCount)
    }

    /** All CPUs share a socket and none has a second thread. */
    ghost predicate OneSocket() {
      forall c <- allCpus :: Siblings(coreSib, c) == allCpus && Siblings(threadSib, c) == [c]
    }

    /** The weight in hundredths: 0.5 for a use of a thread sibling, 0.01 for one of a core sibling. */
    ghost function WeightIn(u: Counts, c: nat): nat {
      100 * Use(u, c) + 50 * UseOfOthers(Siblings(threadSib, c), c, u) + UseOfOthers(Siblings(coreSib, c), c, u)
    }

    /** `c` is not excluded, and no other such CPU is lighter. */
    ghost predicate Lightest(u: Counts, c: nat, exclude: CpuSet) {
      c in allCpus && c !in exclude && forall d <- allCpus | d !in exclude :: WeightIn(u, c) <= WeightIn(u, d)
    }

    /** Each CPU was the lightest one left, given the uses before it was picked. */
    ghost predicate PickedGreedily(u: Counts, picked: CpuSet) {
      forall k | 0 <= k < |picked| :: PickedLightest(u, picked[k], picked[..k])
    }

    ghost predicate PickedLightest(u: Counts, c: nat, before: CpuSet) {
      exists v :: Raised(u, v, before) && Lightest(v, c, before)
    }

    method SiblingWeight(siblings: map<nat, CpuSet>, c: nat) returns (sw: nat)
      ensures sw == UseOfOthers(Siblings(siblings, c), c, useCount)
    {
      sw := 0;
      var sibs := Siblings(siblings, c);
      for i := 0 to |sibs|
        invariant sw == UseOfOthers(sibs[..i], c, useCount)
      {
        assert sibs[..i + 1] == sibs[..i] + [sibs[i]];
        UseOfOthersSnoc(sibs[..i], sibs[i], c, useCount);
        if sibs[i] == c {
          continue;
        }
        sw := sw + Use(useCount, sibs[i]);
      }
      assert sibs[..|sibs|] == sibs;
    }

    method Weight(c: nat) returns (w: nat)
      ensures w == WeightIn(useCount, c)
    {
      w := 100 * Use(useCount, c);
      var t := SiblingWeight(threadSib, c);
      w := w + 50 * t;
      var k := SiblingWeight(coreSib, c);
      w := w + k;
    }

    /** On one socket without thread siblings the weights are ordered like the use counts. */
    lemma WeightOrder(u: Counts, c: nat, d: nat)
      requires Distinct(allCpus) && OneSocket() && c in allCpus && d in allCpus && WeightIn(u, c) <= WeightIn(u, d)
      ensures Use(u, c) <= Use(u, d)
    {
      OthersAndOne(allCpus, c, u);
      OthersAndOne(allCpus, d, u);
      assert UseOfOthers([c], c, u) == 0 == UseOfOthers([d], d, u);
    }

    /** The weight from the uses: an unused machine weighs nothing, and one more use of `x` adds 1 to
        the weight of `x` itself, 0.5 to that of its thread siblings and 0.01 to that of its core
        siblings. */
    lemma WeightOfUses(u: Counts, v: Counts, c: nat, x: nat)
      requires Distinct(Siblings(threadSib, c)) && Distinct(Siblings(coreSib, c))
      ensures (forall d :: Use(u, d) == 0) ==> WeightIn(u, c) == 0
      ensures Raised(u, v, [x]) ==>
                WeightIn(v, c) == WeightIn(u, c)
                                  + if x == c then 100
                                    else (if x in Siblings(threadSib, c) then 50 else 0)
                                         + (if x in Siblings(coreSib, c) then 1 else 0)
    {
      if forall d :: Use(u, d) == 0 {
        NoOtherUse(Siblings(threadSib, c), c, u);
        NoOtherUse(Siblings(coreSib, c), c, u);
      }
      if Raised(u, v, [x]) {
        OthersRaised(Siblings(threadSib, c), c, u, v, x);
        OthersRaised(Siblings(coreSib, c), c, u, v, x);
      }
    }

    /** The two have the same core siblings, themselves among them. */
    ghost predicate SameSocket(c: nat, d: nat) {
      var s := Siblings(coreSib, c);
      s == Siblings(coreSib, d) && Distinct(s) && c in s && d in s
    }

    /** Uses of the other threads of the same core. */
    function ThreadUse(u: Counts, c: nat): nat { UseOfOthers(Siblings(threadSib, c), c, u) }

    /** `c` is not used more than `d`, where a use of a thread sibling counts 50 and an own use 99: so of
        two CPUs used alike, the one whose thread siblings are used less comes first. */
    ghost predicate Preferred(u: Counts, c: nat, d: nat) {
      99 * Use(u, c) + 50 * ThreadUse(u, c) <= 99 * Use(u, d) + 50 * ThreadUse(u, d)
    }

    lemma LightestPreferred(u: Counts, c: nat, exclude: CpuSet, d: nat)
      requires Lightest(u, c, exclude) && d in allCpus && d !in exclude && SameSocket(c, d)
      ensures Preferred(u, c, d)
    {
      OthersAndOne(Siblings(coreSib, c), c, u);
      OthersAndOne(Siblings(coreSib, c), d, u);
    }

    /** Each CPU was preferred, when it was picked, to those of its socket that were left. */
    ghost predicate PicksPreferred(u: Counts, picked: CpuSet) {
      forall k, d | 0 <= k < |picked| && d in allCpus && d !in picked[..k] && SameSocket(picked[k], d) ::
        exists v :: Raised(u, v, picked[..k]) && Preferred(v, picked[k], d)
    }

    lemma GreedyPrefers(u: Counts, picked: CpuSet)
      requires PickedGreedily(u, picked)
      ensures PicksPreferred(u, picked)
    {
      hide Lightest, Preferred, Raised, SameSocket;
      forall k, d | 0 <= k < |picked| && d in allCpus && d !in picked[..k] && SameSocket(picked[k], d)
        ensures exists v :: Raised(u, v, picked[..k]) && Preferred(v, picked[k], d)
      {
        assert PickedLightest(u, picked[k], picked[..k]);
        var v :| Raised(u, v, picked[..k]) && Lightest(v, picked[k], picked[..k]);
        LightestPreferred(v, picked[k], picked[..k], d);
      }
    }

    /** One socket, of cores with at most `n` threads each. */
    ghost predicate Cores(n: nat) {
      forall c <- allCpus :: Siblings(coreSib, c) == allCpus && Core(Siblings(threadSib, c), c, n)
    }

    ghost predicate Core(t: CpuSet, c: nat, n: nat) {
      Distinct(t) && c in t && |t| <= n && forall d <- t :: d in allCpus && c in Siblings(threadSib, d)
    }

    /** No two of them are threads of one core. */
    ghost predicate DifferentCores(picked: CpuSet) {
      forall i, j | 0 <= i < j < |picked| ::
        picked[i] !in Siblings(threadSib, picked[j]) && picked[j] !in Siblings(threadSib, picked[i])
    }

    /** All threads of the cores that are in use. */
    ghost function Touched(picked: CpuSet): set<nat> {
      if picked == [] then {} else Elems(Siblings(threadSib, picked[0])) + Touched(picked[1..])
    }

    lemma {:induction false} TouchedSize(picked: CpuSet, n: nat)
      requires Cores(n) && forall c <- picked :: c in allCpus
      ensures |Touched(picked)| <= n * |picked|
    {
      hide Cores;
      if picked == [] {
      } else {
        var t := Siblings(threadSib, picked[0]);
        assert picked[0] in picked;
        CoreOf(picked[0], n);
        TouchedSize(picked[1..], n);
        DistinctSize(t);
        UnionSize(Elems(t), Touched(picked[1..]));
        OneMoreTime(n, |picked|);
      }
    }

    lemma CoreOf(c: nat, n: nat)
      requires Cores(n) && c in allCpus
      ensures Core(Siblings(threadSib, c), c, n)
    {
    }

    lemma {:induction false} TouchedHolds(picked: CpuSet, c: nat, d: nat)
      requires c in picked && d in Siblings(threadSib, c)
      ensures d in Touched(picked)
    {
      if picked[0] != c {
        TouchedHolds(picked[1..], c, d);
      }
    }

    /** Fewer CPUs than there are cores leave a core that is not in use. */
    lemma FreeCore(before: CpuSet, n: nat) returns (d: nat)
      requires Distinct(allCpus) && Cores(n) && n * |before| < |allCpus| && forall b <- before :: b in allCpus
      ensures d in allCpus && d !in Touched(before)
    {
      hide Cores;
      TouchedSize(before, n);
      DistinctSize(allCpus);
      if forall c | c in Elems(allCpus) :: c in Touched(before) {
        SubsetSize(Elems(allCpus), Touched(before));
        assert false;
      }
      d :| d in Elems(allCpus) && d !in Touched(before);
    }

    /** While there are cores that are not in use, the next CPU is on one of them. */
    lemma NextCore(v: Counts, before: CpuSet, c: nat, n: nat)
      requires Distinct(allCpus) && Cores(n) && c in allCpus && c !in before && n * |before| < |allCpus|
      requires forall b <- before :: b in allCpus
      requires forall x :: Use(v, x) == if x in before then 1 else 0
      requires forall d <- allCpus | d !in before :: Preferred(v, c, d)
      ensures forall b <- before :: b !in Siblings(threadSib, c) && c !in Siblings(threadSib, b)
    {
      hide Cores;
      var d := FreeCore(before, n);
      CoreOf(c, n);
      CoreOf(d, n);
      forall b <- before
        ensures b !in Siblings(threadSib, d) && b != d
      {
        CoreOf(b, n);
        if b in Siblings(threadSib, d) || b == d {
          TouchedHolds(before, b, d);
        }
      }
      NoOtherUse(Siblings(threadSib, d), d, v);
      forall b <- before
        ensures b !in Siblings(threadSib, c) && c !in Siblings(threadSib, b)
      {
        CoreOf(b, n);
        if b in Siblings(threadSib, c) {
          SomeOtherUse(Siblings(threadSib, c), c, v, b);
        }
      }
    }

    /** The CPU picked last was preferred, given one use of each of the others. */
    lemma LastPreferred(u: Counts, before: CpuSet, c: nat, n: nat)
      requires Distinct(allCpus) && Cores(n) && forall x :: Use(u, x) == 0
      requires PicksPreferred(u, before + [c]) && c in allCpus
      ensures forall d <- allCpus | d !in before :: Preferred(Ones(before), c, d)
    {
      hide Cores, Preferred, SameSocket;
      var picked, k := before + [c], |before|;
      assert picked[k] == c && picked[..k] == before;
      forall d <- allCpus | d !in before
        ensures Preferred(Ones(before), c, d)
      {
        InOneSocket(n, c, d);
        var v :| Raised(u, v, picked[..k]) && Preferred(v, picked[k], d);
        SameUse(v, Ones(before), c, d);
      }
    }

    lemma PreferredBefore(u: Counts, before: CpuSet, c: nat)
      requires PicksPreferred(u, before + [c])
      ensures PicksPreferred(u, before)
    {
      hide Preferred, SameSocket, Raised;
      var picked := before + [c];
      forall i, d | 0 <= i < |before| && d in allCpus && d !in before[..i] && SameSocket(before[i], d)
        ensures exists v :: Raised(u, v, before[..i]) && Preferred(v, before[i], d)
      {
        assert before[..i] == picked[..i] && before[i] == picked[i];
      }
    }

    /** On an unused machine no core is given twice before all are in use. */
    lemma {:induction false} CoresFirst(u: Counts, picked: CpuSet, n: nat)
      requires Distinct(allCpus) && Cores(n) && forall x :: Use(u, x) == 0
      requires PicksPreferred(u, picked) && Distinct(picked) && forall c <- picked :: c in allCpus
      requires n * (|picked| - 1) < |allCpus|
      ensures DifferentCores(picked)
    {
      hide Cores, PicksPreferred, Preferred;
      if picked == [] {
      } else {
        var k := |picked| - 1;
        var before, c := picked[..k], picked[k];
        assert picked == before + [c];
        PreferredBefore(u, before, c);
        OneMoreTime(n, k);
        CoresFirst(u, before, n);
        LastPreferred(u, before, c, n);
        NextCore(Ones(before), before, c, n);
      }
    }

    function Ones(before: CpuSet): Counts { map c | c in Elems(before) :: 1 }

    lemma InOneSocket(n: nat, c: nat, d: nat)
      requires Distinct(allCpus) && Cores(n) && c in allCpus && d in allCpus
      ensures SameSocket(c, d)
    {
    }

    lemma SameUse(u: Counts, v: Counts, c: nat, d: nat)
      requires forall x :: Use(u, x) == Use(v, x)
      ensures Preferred(u, c, d) == Preferred(v, c, d)
    {
      SameOthers(Siblings(threadSib, c), c, u, v);
      SameOthers(Siblings(threadSib, d), d, u, v);
    }

    method FillCounts()
      requires Valid()
      modifies this
      ensures Valid() && useCount.Keys == Elems(allCpus)
      ensures forall c :: Use(useCount, c) == Use(old(useCount), c)
    {
      DistinctSize(allCpus);
      assert |useCount| == |useCount.Keys|;
      if |useCount| % U16 < numCpus {
        useCount := map c | c in Elems(allCpus) :: 0;
      }
      assert allCpus != [] ==> allCpus[0] in Elems(allCpus);
    }

    /** The order of the visits is arbitrary, and so is the choice between CPUs of equal weight.
        With every CPU excluded the result is CPU 0. */
    method LowestWeight(exclude: CpuSet) returns (lowest: nat)
      requires Valid()
      modifies this
      ensures Valid() && useCount.Keys == Elems(allCpus)
      ensures forall c :: Use(useCount, c) == Use(old(useCount), c)
      ensures if Elems(allCpus) <= Elems(exclude) then lowest == 0 else Lightest(useCount, lowest, exclude)
    {
      FillCounts();
      var first := true;
      lowest := 0;
      var wl := Weight(lowest);
      var rest := useCount.Keys;
      ghost var counts := useCount;
      while rest != {}
        invariant useCount == counts
        invariant rest <= useCount.Keys
        invariant first ==> lowest == 0 && forall c <- useCount.Keys - rest :: c in exclude
        invariant !first ==> lowest in allCpus && lowest !in exclude && wl == WeightIn(useCount, lowest)
        invariant !first ==> forall c <- useCount.Keys - rest | c !in exclude :: wl <= WeightIn(useCount, c)
        decreases rest
      {
        var c :| c in rest;
        rest := rest - {c};
        if c in exclude {
          continue;
        }
        var wc := Weight(c);
        if first || wc < wl {
          lowest, wl, first := c, wc, false;
        }
      }
    }

    /** A set of different CPUs, each the lightest one left when it was taken. */
    method CreateSetWeighted(setSize: int) returns (picked: CpuSet)
      requires Valid()
      modifies this
      ensures Valid()
      ensures |picked| == Min(setSize % U16, numCpus) && Distinct(picked)
      ensures forall c <- picked :: c in allCpus
      ensures Raised(old(useCount), useCount, picked)
      ensures PickedGreedily(old(useCount), picked)
      ensures PicksPreferred(old(useCount), picked)
      ensures forall n: nat | Cores(n) :: (forall c :: Use(old(useCount), c) == 0) && n * (|picked| - 1) < numCpus ==>
                DifferentCores(picked)
      ensures OneSocket() && old(Balanced()) ==> Balanced()
    {
      hide PickedGreedily, PicksPreferred, WeightIn, Cores, DifferentCores;
      var size := setSize % U16;
      if size > numCpus {
        size := numCpus;
      }
      ghost var counts := useCount;
      picked := [];
      NonePicked(counts);
      while |picked| < size
        invariant Valid() && |picked| <= size && Distinct(picked)
        invariant forall c <- picked :: c in allCpus
        invariant Raised(counts, useCount, picked)
        invariant PickedGreedily(counts, picked)
        invariant OneSocket() ==> LeastFirst(allCpus, counts, picked)
      {
        if Elems(allCpus) <= Elems(picked) {
          CoverSize(allCpus, picked);
        }
        var next := LowestWeight(picked);
        if OneSocket() {
          forall d <- allCpus | d !in picked
            ensures Use(counts, next) <= Use(counts, d)
          {
            WeightOrder(useCount, next, d);
          }
        }
        PickedOneMore(counts, useCount, picked, next);
        useCount := useCount[next := useCount[next] + 1];
        picked := picked + [next];
      }
      if OneSocket() && Even(allCpus, counts) {
        StaysEven(allCpus, counts, useCount, picked);
      }
      GreedyPrefers(counts, picked);
      if forall c :: Use(counts, c) == 0 {
        forall n: nat | Cores(n) && n * (|picked| - 1) < numCpus
          ensures DifferentCores(picked)
        {
          CoresFirst(counts, picked, n);
        }
      }
    }

    lemma NonePicked(u: Counts)
      ensures PickedGreedily(u, [])
    {
    }

    lemma PickedOneMore(u: Counts, v: Counts, picked: CpuSet, next: nat)
      requires PickedGreedily(u, picked) && Raised(u, v, picked) && Lightest(v, next, picked)
      ensures PickedGreedily(u, picked + [next])
    {
      var more := picked + [next];
      assert PickedLightest(u, next, picked);
      forall k | 0 <= k < |more|
        ensures PickedLightest(u, more[k], more[..k])
      {
        hide PickedLightest;
        if k < |picked| {
          assert more[..k] == picked[..k];
        } else {
          assert more[..k] == picked;
        }
      }
    }
  }
}
