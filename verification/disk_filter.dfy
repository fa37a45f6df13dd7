/** Choosing a set of disks of nearly equal size, as close as possible to a target size. */
module DiskFilter {
  import opened Numbers
  import opened Wrappers

  datatype Disk = Disk(identifier: string, size: nat)

  /** The tolerance is a percentage of the wanted size. */
  predicate SizeToleranceMatch(have: nat, want: nat, tol: nat) {
    Abs(want - have) <= Limit(want, tol)
  }

  function Limit(want: nat, tol: nat): nat { want * tol / 100 }

  lemma ToleranceMeaning(have: nat, want: nat, tol: nat)
    ensures SizeToleranceMatch(have, want, tol) <==> 100 * Abs(want - have) <= want * tol
  {
    var p := want * tol;
    assert p == 100 * (p / 100) + p % 100;
  }

  function Dist(d: Disk, tgt: nat): nat { Abs(tgt - d.size) }

  // ---------------------------------------------------------------- order of selection

  /** Index of the first element that is closest to the target. */
  function ClosestIn(dl: seq<Disk>, tgt: nat): (idx: nat)
    requires dl != []
    ensures idx < |dl|
  {
    if |dl| == 1 then 0
    else
      var i := ClosestIn(dl[..|dl| - 1], tgt);
      if Dist(dl[|dl| - 1], tgt) < Dist(dl[i], tgt) then |dl| - 1 else i
  }

  lemma {:induction false} ClosestInMeaning(dl: seq<Disk>, tgt: nat)
    requires dl != []
    ensures var idx := ClosestIn(dl, tgt);
            forall k | 0 <= k < |dl| :: if k < idx then Dist(dl[idx], tgt) < Dist(dl[k], tgt)
                                        else Dist(dl[idx], tgt) <= Dist(dl[k], tgt)
  {
    if |dl| == 1 {
    } else {
      ClosestInMeaning(dl[..|dl| - 1], tgt);
    }
  }

  method Closest(dl: seq<Disk>, tgt: nat) returns (idx: nat)
    requires dl != []
    ensures idx == ClosestIn(dl, tgt)
  {
    var delta: int := -1;
    idx := 0;
    for i := 0 to |dl|
      invariant i == 0 ==> delta == -1
      invariant i > 0 ==> idx == ClosestIn(dl[..i], tgt) && delta == Dist(dl[idx], tgt)
    {
      var dist := Dist(dl[i], tgt);
      assert dl[..i + 1][..i] == dl[..i];
      if delta == -1 || dist < delta {
        delta, idx := dist, i;
      }
    }
    assert dl[..|dl|] == dl;
  }

  function Without(dl: seq<Disk>, i: nat): seq<Disk>
    requires i < |dl|
  {
    dl[..i] + dl[i + 1..]
  }

  /** The disks in the order in which they are selected. */
  function Order(dl: seq<Disk>, tgt: nat): (r: seq<Disk>)
    ensures |r| == |dl|
    decreases |dl|
  {
    if dl == [] then []
    else
      var i := ClosestIn(dl, tgt);
      [dl[i]] + Order(Without(dl, i), tgt)
  }

  lemma WithoutPermutes(dl: seq<Disk>, i: nat)
    requires i < |dl|
    ensures multiset(dl) == multiset{dl[i]} + multiset(Without(dl, i))
  {
    assert dl == dl[..i] + [dl[i]] + dl[i + 1..];
  }

  lemma {:induction false} OrderPermutes(dl: seq<Disk>, tgt: nat)
    ensures multiset(Order(dl, tgt)) == multiset(dl)
    decreases |dl|
  {
    hide ClosestIn, Without;
    if dl == [] {
    } else {
      var i := ClosestIn(dl, tgt);
      WithoutLength(dl, i);
      WithoutPermutes(dl, i);
      OrderPermutes(Without(dl, i), tgt);
      assert Order(dl, tgt) == [dl[i]] + Order(Without(dl, i), tgt);
    }
  }

  lemma WithoutIn(dl: seq<Disk>, i: nat, d: Disk)
    requires i < |dl| && d in Without(dl, i)
    ensures d in dl
  {
  }

  lemma WithoutLength(dl: seq<Disk>, i: nat)
    requires i < |dl|
    ensures |Without(dl, i)| == |dl| - 1
  {
  }

  /** None of the others is closer than the closest. */
  lemma ClosestIsBefore(dl: seq<Disk>, tgt: nat, d: Disk)
    requires dl != [] && d in Order(Without(dl, ClosestIn(dl, tgt)), tgt)
    ensures Dist(dl[ClosestIn(dl, tgt)], tgt) <= Dist(d, tgt)
  {
    hide ClosestIn, Dist, Order, Without;
    var rest := Without(dl, ClosestIn(dl, tgt));
    OrderPermutes(rest, tgt);
    assert d in multiset(Order(rest, tgt));
    WithoutIn(dl, ClosestIn(dl, tgt), d);
    ClosestInMeaning(dl, tgt);
  }

  /** Closest first. */
  lemma {:induction false} OrderSorted(dl: seq<Disk>, tgt: nat)
    ensures forall i, j | 0 <= i < j < |dl| :: Dist(Order(dl, tgt)[i], tgt) <= Dist(Order(dl, tgt)[j], tgt)
    decreases |dl|
  {
    hide ClosestIn, Dist, Without;
    if dl == [] {
    } else {
      var i := ClosestIn(dl, tgt);
      var rest := Without(dl, i);
      WithoutLength(dl, i);
      OrderSorted(rest, tgt);
      OrderStep(dl, tgt);
      forall d <- Order(rest, tgt)
        ensures Dist(dl[i], tgt) <= Dist(d, tgt)
      {
        ClosestIsBefore(dl, tgt, d);
      }
    }
  }

  /** The disks at a given distance, in the order of the list. */
  function AtDistance(dl: seq<Disk>, tgt: nat, d: nat): seq<Disk> {
    if dl == [] then []
    else (if Dist(dl[0], tgt) == d then [dl[0]] else []) + AtDistance(dl[1..], tgt, d)
  }

  lemma {:induction false} AtDistanceSplit(a: seq<Disk>, b: seq<Disk>, tgt: nat, d: nat)
    ensures AtDistance(a + b, tgt, d) == AtDistance(a, tgt, d) + AtDistance(b, tgt, d)
  {
    hide Dist;
    if a == [] {
      assert a + b == b;
    } else {
      assert (a + b)[1..] == a[1..] + b && (a + b)[0] == a[0];
      AtDistanceSplit(a[1..], b, tgt, d);
      var first := if Dist(a[0], tgt) == d then [a[0]] else [];
      assert first + (AtDistance(a[1..], tgt, d) + AtDistance(b, tgt, d))
          == (first + AtDistance(a[1..], tgt, d)) + AtDistance(b, tgt, d);
    }
  }

  lemma {:induction false} NoneAtDistance(a: seq<Disk>, tgt: nat, d: nat)
    requires forall k | 0 <= k < |a| :: Dist(a[k], tgt) != d
    ensures AtDistance(a, tgt, d) == []
  {
    if a == [] {
    } else {
      NoneAtDistance(a[1..], tgt, d);
    }
  }

  /** Disks equally far from the target keep their order. */
  lemma {:induction false} OrderStable(dl: seq<Disk>, tgt: nat, d: nat)
    ensures AtDistance(Order(dl, tgt), tgt, d) == AtDistance(dl, tgt, d)
    decreases |dl|
  {
    hide ClosestIn, Dist, AtDistance;
    if dl == [] {
    } else {
      var i := ClosestIn(dl, tgt);
      var before, after, rest := dl[..i], dl[i + 1..], Order(Without(dl, i), tgt);
      OrderStable(Without(dl, i), tgt, d);
      assert dl == before + ([dl[i]] + after);
      AtDistanceSplit(before, [dl[i]] + after, tgt, d);
      AtDistanceSplit([dl[i]], after, tgt, d);
      AtDistanceSplit(before, after, tgt, d);
      AtDistanceSplit([dl[i]], rest, tgt, d);
      AtDistanceOne(dl[i], tgt, d);
      ClosestInMeaning(dl, tgt);
      if Dist(dl[i], tgt) == d {
        NoneAtDistance(before, tgt, d);
      }
    }
  }

  lemma AtDistanceOne(x: Disk, tgt: nat, d: nat)
    ensures AtDistance([x], tgt, d) == if Dist(x, tgt) == d then [x] else []
  {
    assert [x][1..] == [];
  }

  // ---------------------------------------------------------------- filter

  /** Start of the window that the selection ends with: the first disk goes when it does
      not match the second; none when the disks run out. */
  function Scan(order: seq<Disk>, count: nat, setTol: nat, k: nat, n: nat): Option<nat>
    requires k <= n <= |order|
    decreases |order| - n
  {
    if n - k >= count then Some(k)
    else if n == |order| then None
    else if n > k && !SizeToleranceMatch(order[k].size, order[k + 1].size, setTol)
    then Scan(order, count, setTol, k + 1, n + 1)
    else Scan(order, count, setTol, k, n + 1)
  }

  predicate IsWindow(out: seq<Disk>, order: seq<Disk>, k: nat, count: nat) {
    k + count <= |order| && out == order[k..k + count]
  }

  predicate InSpread(out: seq<Disk>, setTol: nat)
    requires out != []
  {
    SizeToleranceMatch(Smallest(out), Largest(out), setTol)
  }

  function Largest(out: seq<Disk>): nat
    requires out != []
  {
    if |out| == 1 then out[0].size
    else
      var l := Largest(out[..|out| - 1]);
      if out[|out| - 1].size > l then out[|out| - 1].size else l
  }

  function Smallest(out: seq<Disk>): nat
    requires out != []
  {
    if |out| == 1 then out[0].size
    else
      var s := Smallest(out[..|out| - 1]);
      if out[|out| - 1].size < s then out[|out| - 1].size else s
  }

  lemma {:induction false} ExtremesMeaning(out: seq<Disk>)
    requires out != []
    ensures forall k | 0 <= k < |out| :: Smallest(out) <= out[k].size <= Largest(out)
    ensures exists k :: 0 <= k < |out| && out[k].size == Largest(out)
    ensures exists k :: 0 <= k < |out| && out[k].size == Smallest(out)
  {
    var n := |out| - 1;
    assert out[n].size == out[n].size;
    if n == 0 {
    } else {
      ExtremesMeaning(out[..n]);
      var k :| 0 <= k < n && out[..n][k].size == Largest(out[..n]);
      var j :| 0 <= j < n && out[..n][j].size == Smallest(out[..n]);
      assert out[k].size == Largest(out[..n]) && out[j].size == Smallest(out[..n]);
    }
  }

  /** The last disk is near enough to the target and the spread small enough. */
  predicate GoodEnough(out: seq<Disk>, tgt: nat, setTol: nat, tgtTol: nat)
    requires out != []
  {
    SizeToleranceMatch(out[|out| - 1].size, tgt, tgtTol) && InSpread(out, setTol)
  }

  /** The larger of two sizes exceeds the other by no more than its tolerance. */
  predicate Alike(x: nat, y: nat, setTol: nat) { x <= y ==> 100 * (y - x) <= y * setTol }

  /** Near enough is a matter of percents of the target, small enough of percents of the larger of any
      two disks. */
  lemma GoodEnoughMeaning(out: seq<Disk>, tgt: nat, setTol: nat, tgtTol: nat)
    requires out != []
    ensures GoodEnough(out, tgt, setTol, tgtTol) <==>
              && 100 * Abs(tgt - out[|out| - 1].size) <= tgt * tgtTol
              && forall i, j | 0 <= i < |out| && 0 <= j < |out| :: Alike(out[i].size, out[j].size, setTol)
  {
    hide Smallest, Largest, Alike, SizeToleranceMatch;
    var s, l := Smallest(out), Largest(out);
    ToleranceMeaning(out[|out| - 1].size, tgt, tgtTol);
    ExtremesMeaning(out);
    assert SizeToleranceMatch(s, l, setTol) <==> Alike(s, l, setTol) by {
      ToleranceMeaning(s, l, setTol);
      AlikeIs(s, l, setTol);
    }
    if Alike(s, l, setTol) {
      forall i, j | 0 <= i < |out| && 0 <= j < |out|
        ensures Alike(out[i].size, out[j].size, setTol)
      {
        AlikeWithin(s, l, out[i].size, out[j].size, setTol);
      }
    }
  }

  lemma AlikeIs(s: nat, l: nat, setTol: nat)
    requires s <= l
    ensures Alike(s, l, setTol) <==> 100 * Abs(l - s) <= l * setTol
  {
  }

  lemma AlikeWithin(s: nat, l: nat, x: nat, y: nat, setTol: nat)
    requires s <= x <= l && s <= y <= l && Alike(s, l, setTol)
    ensures Alike(x, y, setTol)
  {
    if x <= y && setTol >= 100 {
      Product(y, 100, setTol);
    } else if x <= y {
      Product(100 - setTol, y, l);
      assert y * (100 - setTol) == 100 * y - y * setTol && l * (100 - setTol) == 100 * l - l * setTol;
    }
  }

  lemma Product(a: nat, b: nat, c: nat)
    requires b <= c
    ensures a * b <= a * c && b * a <= c * a
  {
  }

  /** The set the selection comes to, if it is good enough. */
  function ChosenFrom(order: seq<Disk>, tgt: nat, count: nat, setTol: nat, tgtTol: nat): seq<Disk>
    requires count > 0
  {
    match Scan(order, count, setTol, 0, 0)
    case None => []
    case Some(k) =>
      if k + count > |order| then []
      else
        var out := order[k..k + count];
        if GoodEnough(out, tgt, setTol, tgtTol) then out else []
  }

  function Chosen(in_: seq<Disk>, tgt: nat, count: nat, setTol: nat, tgtTol: nat): seq<Disk>
    requires count > 0
  {
    ChosenFrom(Order(in_, tgt), tgt, count, setTol, tgtTol)
  }

  lemma OrderStep(dl: seq<Disk>, tgt: nat)
    requires dl != []
    ensures var i := ClosestIn(dl, tgt); Order(dl, tgt)[0] == dl[i] && Order(dl, tgt)[1..] == Order(Without(dl, i), tgt)
  {
  }

  /** Moves the closest disks over one by one, dropping the first when it does not match
      the second, until there are enough. */
  method Select(in_: seq<Disk>, tgtSize: nat, count: nat, setTolPct: nat) returns (out: seq<Disk>)
    requires 0 < count <= |in_|
    ensures var order := Order(in_, tgtSize);
            match Scan(order, count, setTolPct, 0, 0)
            case None => out == []
            case Some(k) => IsWindow(out, order, k, count)
  {
    hide ClosestIn, Dist, SizeToleranceMatch, Order;
    out := [];
    ghost var order := Order(in_, tgtSize);
    ghost var k, n := 0, 0;
    var workingList := in_;
    while |out| < count
      invariant 0 <= k <= n <= |order| && |out| <= count && out == order[k..n]
      invariant order[n..] == Order(workingList, tgtSize)
      invariant Scan(order, count, setTolPct, 0, 0) == Scan(order, count, setTolPct, k, n)
      decreases |workingList|
    {
      if |workingList| == 0 {
        return [];
      }
      var closest := Closest(workingList, tgtSize);
      OrderStep(workingList, tgtSize);
      assert workingList[closest] == order[n..][0] == order[n];
      assert order[n..][1..] == order[n + 1..];
      out := out + [workingList[closest]];
      workingList := Without(workingList, closest);
      n := n + 1;
      if |out| > 1 && !SizeToleranceMatch(out[0].size, out[1].size, setTolPct) {
        out := out[1..];
        k := k + 1;
      }
    }
  }

  method Extremes(out: seq<Disk>) returns (smallest: nat, largest: nat)
    requires out != []
    ensures smallest == Smallest(out) && largest == Largest(out)
  {
    largest, smallest := out[0].size, out[0].size;
    for i := 1 to |out|
      invariant largest == Largest(out[..i]) && smallest == Smallest(out[..i])
    {
      assert out[..i + 1][..i] == out[..i];
      if out[i].size > largest {
        largest := out[i].size;
      }
      if out[i].size < smallest {
        smallest := out[i].size;
      }
    }
    assert out[..|out|] == out;
  }

  /** The selection, if its last disk is near enough to the target and its spread small enough. */
  method Filter(in_: seq<Disk>, tgtSize: nat, count: int, setTolPct: nat, tgtTolPct: nat) returns (out: seq<Disk>)
    requires count > 0
    ensures out == Chosen(in_, tgtSize, count, setTolPct, tgtTolPct)
  {
    hide Order, SizeToleranceMatch, Scan;
    out := [];
    if count > |in_| {
      ScanTooShort(Order(in_, tgtSize), count, setTolPct, 0, 0);
      return;
    }
    out := Select(in_, tgtSize, count, setTolPct);
    if out == [] {
      return;
    }
    if !SizeToleranceMatch(out[|out| - 1].size, tgtSize, tgtTolPct) {
      return [];
    }
    var smallest, largest := Extremes(out);
    if !SizeToleranceMatch(smallest, largest, setTolPct) {
      return [];
    }
  }

  lemma {:induction false} ScanTooShort(order: seq<Disk>, count: nat, setTol: nat, k: nat, n: nat)
    requires k <= n <= |order| && n - k < count && count > |order| - k
    ensures Scan(order, count, setTol, k, n) == None
    decreases |order| - n
  {
    if n == |order| {
    } else {
      if n > k && !SizeToleranceMatch(order[k].size, order[k + 1].size, setTol) {
        ScanTooShort(order, count, setTol, k + 1, n + 1);
      } else {
        ScanTooShort(order, count, setTol, k, n + 1);
      }
    }
  }

  // ---------------------------------------------------------------- what is chosen

  /** The chosen disks are none, or exactly `count` neighbours in the order of distance. */
  lemma ChosenIsWindow(in_: seq<Disk>, tgt: nat, count: nat, setTol: nat, tgtTol: nat) returns (k: nat)
    requires count > 0
    ensures var out := Chosen(in_, tgt, count, setTol, tgtTol);
            out == [] || (|out| == count && IsWindow(out, Order(in_, tgt), k, count))
  {
    hide Order, InSpread, SizeToleranceMatch;
    k := 0;
    if Chosen(in_, tgt, count, setTol, tgtTol) != [] {
      k := Scan(Order(in_, tgt), count, setTol, 0, 0).value;
    }
  }

  /** The chosen disks are disks of the input, none of them taken twice. */
  lemma ChosenFromInput(in_: seq<Disk>, tgt: nat, count: nat, setTol: nat, tgtTol: nat)
    requires count > 0
    ensures multiset(Chosen(in_, tgt, count, setTol, tgtTol)) <= multiset(in_)
  {
    hide Chosen, Order;
    var order := Order(in_, tgt);
    OrderPermutes(in_, tgt);
    var k := ChosenIsWindow(in_, tgt, count, setTol, tgtTol);
    var out := Chosen(in_, tgt, count, setTol, tgtTol);
    if out != [] {
      assert order == order[..k] + out + order[k + count..];
    }
  }

  /** Every chosen disk is near enough to the target, though only the last was checked. */
  lemma ChosenNearTarget(in_: seq<Disk>, tgt: nat, count: nat, setTol: nat, tgtTol: nat)
    requires count > 0
    ensures forall d <- Chosen(in_, tgt, count, setTol, tgtTol) :: SizeToleranceMatch(d.size, tgt, tgtTol)
  {
    hide Order, Scan, InSpread, Limit;
    OrderSorted(in_, tgt);
    var out := Chosen(in_, tgt, count, setTol, tgtTol);
    if out != [] {
      var k := ChosenIsWindow(in_, tgt, count, setTol, tgtTol);
      forall i | 0 <= i < count
        ensures Dist(out[i], tgt) <= Dist(out[count - 1], tgt)
      {
        assert out[i] == Order(in_, tgt)[k + i] && out[count - 1] == Order(in_, tgt)[k + count - 1];
      }
    }
  }

  /** No disk is larger than the one at `m`, and any two differ by its tolerance at most. */
  ghost predicate AlikeUnder(out: seq<Disk>, m: nat, setTol: nat) {
    m < |out| && forall i, j | 0 <= i < |out| && 0 <= j < |out| ::
      out[i].size <= out[m].size && Abs(out[i].size - out[j].size) <= Limit(out[m].size, setTol)
  }

  /** Any two chosen disks differ by no more than the set tolerance of the largest. */
  lemma ChosenAlike(in_: seq<Disk>, tgt: nat, count: nat, setTol: nat, tgtTol: nat)
    requires count > 0
    ensures var out := Chosen(in_, tgt, count, setTol, tgtTol);
            out != [] ==> exists m :: AlikeUnder(out, m, setTol)
  {
    hide Order, Limit;
    var out := Chosen(in_, tgt, count, setTol, tgtTol);
    if out != [] {
      SpreadAlike(out, setTol);
    }
  }

  lemma SpreadAlike(out: seq<Disk>, setTol: nat)
    requires out != [] && InSpread(out, setTol)
    ensures exists m :: AlikeUnder(out, m, setTol)
  {
    hide Largest, Smallest, Limit;
    ExtremesMeaning(out);
    var m :| 0 <= m < |out| && out[m].size == Largest(out);
    assert AlikeUnder(out, m, setTol);
  }

  // ---------------------------------------------------------------- when a set is found

  /** The disk at `k` is the first that matches the one after it. */
  predicate FirstPair(order: seq<Disk>, k: nat, setTol: nat) {
    && k + 1 < |order|
    && SizeToleranceMatch(order[k].size, order[k + 1].size, setTol)
    && forall j | 0 <= j < k :: !SizeToleranceMatch(order[j].size, order[j + 1].size, setTol)
  }

  /** A window that starts with a pair that matches is never given up. */
  lemma {:induction false} ScanStays(order: seq<Disk>, count: nat, setTol: nat, k: nat, n: nat)
    requires k < n <= |order| && n - k <= count
    requires k + 1 < |order| && SizeToleranceMatch(order[k].size, order[k + 1].size, setTol)
    ensures Scan(order, count, setTol, k, n) == if k + count <= |order| then Some(k) else None
    decreases |order| - n
  {
    hide SizeToleranceMatch;
    if n - k == count || n == |order| {
    } else {
      ScanStays(order, count, setTol, k, n + 1);
    }
  }

  /** Only the first pair that matches is ever tried, for two disks or more. */
  lemma {:induction false} ScanFindsFirstPair(order: seq<Disk>, count: nat, setTol: nat, k: nat)
    requires count > 1 && k < |order|
    requires forall j | 0 <= j < k :: !SizeToleranceMatch(order[j].size, order[j + 1].size, setTol)
    ensures match Scan(order, count, setTol, k, k + 1)
            case Some(v) => FirstPair(order, v, setTol) && v + count <= |order|
            case None => forall v: nat :: FirstPair(order, v, setTol) ==> v + count > |order|
    decreases |order| - k
  {
    hide SizeToleranceMatch;
    if k + 1 == |order| {
    } else {
      if SizeToleranceMatch(order[k].size, order[k + 1].size, setTol) {
        assert FirstPair(order, k, setTol);
        ScanStays(order, count, setTol, k, k + 2);
      } else {
        ScanFindsFirstPair(order, count, setTol, k + 1);
      }
    }
  }

  ghost predicate Offered(order: seq<Disk>, k: nat, tgt: nat, count: nat, setTol: nat, tgtTol: nat)
    requires count > 1
  {
    FirstPair(order, k, setTol) && k + count <= |order| && GoodEnough(order[k..k + count], tgt, setTol, tgtTol)
  }

  /** Two disks or more are found exactly when the window at the first pair that matches is
      long enough, near enough and alike enough. */
  lemma FoundIff(order: seq<Disk>, tgt: nat, count: nat, setTol: nat, tgtTol: nat)
    requires count > 1
    ensures ChosenFrom(order, tgt, count, setTol, tgtTol) != []
        <==> exists k: nat :: Offered(order, k, tgt, count, setTol, tgtTol)
  {
    hide SizeToleranceMatch, GoodEnough;
    if order != [] {
      ScanFindsFirstPair(order, count, setTol, 0);
      if k: nat :| Offered(order, k, tgt, count, setTol, tgtTol) {
        assert Scan(order, count, setTol, 0, 0) == Some(k);
      }
      if ChosenFrom(order, tgt, count, setTol, tgtTol) != [] {
        var v := Scan(order, count, setTol, 0, 0).value;
        assert Offered(order, v, tgt, count, setTol, tgtTol);
      }
    }
  }

  /** One disk is found exactly when the closest is near enough. */
  lemma OneFoundIff(in_: seq<Disk>, tgt: nat, setTol: nat, tgtTol: nat)
    ensures Chosen(in_, tgt, 1, setTol, tgtTol) != []
        <==> in_ != [] && exists d <- in_ :: SizeToleranceMatch(d.size, tgt, tgtTol)
  {
    hide Order, Limit;
    var order := Order(in_, tgt);
    if in_ != [] {
      OneOnly(order[0], setTol);
      OrderStep(in_, tgt);
      assert order[0..1] == [order[0]];
      assert Scan(order, 1, setTol, 0, 0) == Some(0);
      var i := ClosestIn(in_, tgt);
      ClosestInMeaning(in_, tgt);
      assert in_[i] in in_;
    }
  }

  lemma OneOnly(d: Disk, setTol: nat)
    ensures InSpread([d], setTol)
  {
    assert Limit(d.size, setTol) >= 0;
  }

  /** So a set that would do may be missed: sizes on the two sides of the target alternate,
      and no disk matches its neighbour. */
  lemma ViableSetMissed()
    ensures var in_ := [Disk("a", 90), Disk("b", 111), Disk("c", 88), Disk("d", 113)];
            Chosen(in_, 100, 2, 5, 50) == [] && GoodEnough([in_[0], in_[2]], 100, 5, 50)
  {
    hide Order, Scan, ChosenFrom;
    var in_ := [Disk("a", 90), Disk("b", 111), Disk("c", 88), Disk("d", 113)];
    SpreadOfTwo(in_[0], in_[2], 5);
    OrderOfSorted(in_, 100);
    FoundIff(in_, 100, 2, 5, 50);
  }

  lemma SpreadOfTwo(a: Disk, b: Disk, setTol: nat)
    ensures InSpread([a, b], setTol)
        == if a.size < b.size then SizeToleranceMatch(a.size, b.size, setTol)
           else SizeToleranceMatch(b.size, a.size, setTol)
  {
    hide SizeToleranceMatch;
    assert [a, b][..1] == [a];
    assert Smallest([a]) == a.size == Largest([a]);
  }

  /** A list that is in order already stays as it is. */
  lemma {:induction false} OrderOfSorted(dl: seq<Disk>, tgt: nat)
    requires forall i, j | 0 <= i < j < |dl| :: Dist(dl[i], tgt) <= Dist(dl[j], tgt)
    ensures Order(dl, tgt) == dl
    decreases |dl|
  {
    hide Dist;
    if dl == [] {
    } else {
      ClosestOfSorted(dl, tgt);
      assert Without(dl, 0) == dl[1..];
      OrderOfSorted(dl[1..], tgt);
    }
  }

  lemma {:induction false} ClosestOfSorted(dl: seq<Disk>, tgt: nat)
    requires dl != []
    requires forall i, j | 0 <= i < j < |dl| :: Dist(dl[i], tgt) <= Dist(dl[j], tgt)
    ensures ClosestIn(dl, tgt) == 0
  {
    if |dl| == 1 {
    } else {
      var n := |dl| - 1;
      ClosestOfSorted(dl[..n], tgt);
      assert ClosestIn(dl[..n], tgt) == 0;
      assert Dist(dl[0], tgt) <= Dist(dl[n], tgt);
    }
  }
}
