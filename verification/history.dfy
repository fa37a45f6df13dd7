/** The log server's list of recently seen units: most recent first, at most 100. */
module ActivityLog {
  import opened Wrappers

  const MAX_HISTORY := 100

  // ---------------------------------------------------------------- moving to the front

  /** Index of the first occurrence, or the length if there is none. */
  function Find(l: seq<string>, sn: string): (i: nat)
    ensures i <= |l| && (i < |l| ==> l[i] == sn)
    ensures forall j | 0 <= j < i :: l[j] != sn
  {
    if l == [] || l[0] == sn then 0 else 1 + Find(l[1..], sn)
  }

  function ToFront<T>(l: seq<T>, i: nat, default: T): seq<T> {
    if i < |l| then [l[i]] + l[..i] + l[i + 1..] else [default] + l
  }

  function Take<T>(l: seq<T>, n: nat): seq<T> { if |l| <= n then l else l[..n] }

  predicate Distinct(l: seq<string>) {
    forall i, j | 0 <= i < j < |l| :: l[i] != l[j]
  }

  function Touch(l: seq<string>, sn: string): seq<string> {
    ToFront(l, Find(l, sn), sn)
  }

  lemma ToFrontAt<T>(l: seq<T>, f: nat, default: T)
    requires f <= |l|
    ensures var r := ToFront(l, f, default);
            && |r| == (if f < |l| then |l| else |l| + 1)
            && r[0] == (if f < |l| then l[f] else default)
            && forall j | 0 < j < |r| :: r[j] == l[if j <= f then j - 1 else j]
  {
  }

  lemma TouchMeaning(l: seq<string>, sn: string)
    requires Distinct(l)
    ensures Distinct(Touch(l, sn)) && Touch(l, sn)[0] == sn
    ensures forall x :: x in Touch(l, sn) <==> x == sn || x in l
  {
    hide ToFront;
    var r, f := Touch(l, sn), Find(l, sn);
    ToFrontAt(l, f, sn);
    forall i, j | 0 <= i < j < |r|
      ensures r[i] != r[j]
    {
      assert r[j] == l[if j <= f then j - 1 else j];
      assert i > 0 ==> r[i] == l[if i <= f then i - 1 else i];
    }
    forall k | 0 <= k < |l|
      ensures l[k] in r
    {
      assert l[k] == if k == f then r[0] else if k < f then r[k + 1] else r[k];
    }
  }

  /** All serials seen, never cut short. */
  function Recent(uses: seq<string>): seq<string> {
    if uses == [] then []
    else Touch(Recent(uses[..|uses| - 1]), uses[|uses| - 1])
  }

  /** One more than the index of the last occurrence; 0 if there is none. */
  function LastUse(uses: seq<string>, sn: string): (k: nat)
    ensures k <= |uses| && (k == 0 <==> sn !in uses)
  {
    if uses == [] then 0
    else if uses[|uses| - 1] == sn then |uses|
    else LastUse(uses[..|uses| - 1], sn)
  }

  ghost predicate ByLastUse(l: seq<string>, uses: seq<string>) {
    forall i, j | 0 <= i < j < |l| :: LastUse(uses, l[i]) > LastUse(uses, l[j])
  }

  /** Moving to the front lists every serial once, the one used last first. */
  lemma {:induction false} RecentMeaning(uses: seq<string>)
    ensures Distinct(Recent(uses)) && ByLastUse(Recent(uses), uses)
    ensures forall x :: x in Recent(uses) <==> x in uses
  {
    if uses == [] {
    } else {
      var before, sn := uses[..|uses| - 1], uses[|uses| - 1];
      RecentMeaning(before);
      TouchMeaning(Recent(before), sn);
      assert uses == before + [sn];
      TouchKeepsOrder(Recent(before), before, sn);
    }
  }

  lemma TouchKeepsOrder(l: seq<string>, before: seq<string>, sn: string)
    requires Distinct(l) && ByLastUse(l, before)
    ensures ByLastUse(Touch(l, sn), before + [sn])
  {
    hide ToFront;
    var uses, r, f := before + [sn], Touch(l, sn), Find(l, sn);
    assert uses[..|uses| - 1] == before;
    ToFrontAt(l, f, sn);
    forall i, j | 0 <= i < j < |r|
      ensures LastUse(uses, r[i]) > LastUse(uses, r[j])
    {
      var j' := if j <= f then j - 1 else j;
      assert r[j] == l[j'] != sn;
      if i > 0 {
        var i' := if i <= f then i - 1 else i;
        assert r[i] == l[i'] != sn;
      }
    }
  }

  lemma FindTaken(l: seq<string>, sn: string, n: nat)
    ensures Find(Take(l, n), sn) == if Find(l, sn) < n then Find(l, sn) else |Take(l, n)|
  {
    var f, g := Find(l, sn), Find(Take(l, n), sn);
    if f < |Take(l, n)| {
      assert Take(l, n)[f] == l[f];
    }
  }

  /** Cutting the list short first makes no difference to its front. */
  lemma TouchTaken(l: seq<string>, sn: string, n: nat)
    requires n > 0
    ensures Take(Touch(Take(l, n), sn), n) == Take(Touch(l, sn), n)
  {
    hide ToFront;
    var f, g := Find(l, sn), Find(Take(l, n), sn);
    FindTaken(l, sn, n);
    ToFrontAt(l, f, sn);
    ToFrontAt(Take(l, n), g, sn);
    var a, b := Touch(Take(l, n), sn), Touch(l, sn);
    assert |Take(a, n)| == |Take(b, n)|;
    forall j | 0 <= j < |Take(b, n)|
      ensures a[j] == b[j]
    {
    }
  }

  // ---------------------------------------------------------------- records

  datatype Record = Record(sn: string, t: int, state: int, platform: string)

  /** What units report: their platform's code name, or the stage they have reached. */
  datatype Report = Codename(sn: string, name: string, now: int) | Stage(sn: string, state: int, now: int)

  function Serials(l: seq<Record>): seq<string> { seq(|l|, i requires 0 <= i < |l| => l[i].sn) }

  function Blank(sn: string): Record { Record(sn, 0, 0, "") }

  function Updated(r: Record, e: Report): Record {
    match e
    case Codename(_, name, now) => r.(platform := name, t := now)
    case Stage(_, state, now) => r.(state := state, t := now)
  }

  /** The list after a look-up: the record at the front, a blank one if there was none. */
  function LookedUp(l: seq<Record>, sn: string): (r: seq<Record>)
    ensures r != [] && r[0].sn == sn
  {
    Take(ToFront(l, Find(Serials(l), sn), Blank(sn)), MAX_HISTORY)
  }

  function Received(l: seq<Record>, e: Report): seq<Record> {
    var r := LookedUp(l, e.sn);
    r[0 := Updated(r[0], e)]
  }

  function History(es: seq<Report>): seq<Record> {
    if es == [] then [] else Received(History(es[..|es| - 1]), es[|es| - 1])
  }

  function Uses(es: seq<Report>): seq<string> { seq(|es|, i requires 0 <= i < |es| => es[i].sn) }

  lemma LookedUpSerials(l: seq<Record>, sn: string)
    ensures Serials(LookedUp(l, sn)) == Take(Touch(Serials(l), sn), MAX_HISTORY)
  {
    hide ToFront;
    var f := Find(Serials(l), sn);
    ToFrontAt(l, f, Blank(sn));
    ToFrontAt(Serials(l), f, sn);
    assert Serials(ToFront(l, f, Blank(sn))) == ToFront(Serials(l), f, sn);
  }

  lemma ReceivedSerials(l: seq<Record>, e: Report)
    ensures Serials(Received(l, e)) == Take(Touch(Serials(l), e.sn), MAX_HISTORY)
  {
    hide LookedUp, Touch, Take;
    LookedUpSerials(l, e.sn);
    var r := LookedUp(l, e.sn);
    assert Serials(r[0 := Updated(r[0], e)]) == Serials(r);
  }

  /** After any reports, the list holds the 100 serials used last, in the order of last use,
      even when serials that had dropped out come back. */
  lemma {:induction false} HistoryIsRecent(es: seq<Report>)
    ensures Serials(History(es)) == Take(Recent(Uses(es)), MAX_HISTORY)
  {
    hide Touch, Received;
    if es == [] {
    } else {
      var before, e := es[..|es| - 1], es[|es| - 1];
      HistoryIsRecent(before);
      assert Uses(es)[..|es| - 1] == Uses(before);
      ReceivedSerials(History(before), e);
      TouchTaken(Recent(Uses(before)), e.sn, MAX_HISTORY);
    }
  }

  lemma HistoryDistinct(es: seq<Report>)
    ensures Distinct(Serials(History(es))) && |History(es)| <= 100
    ensures var all := Recent(Uses(es)); Serials(History(es)) == if |all| <= 100 then all else all[..100]
  {
    hide History, Recent;
    HistoryIsRecent(es);
    RecentMeaning(Uses(es));
    assert |Serials(History(es))| <= MAX_HISTORY;
  }

  // ---------------------------------------------------------------- what a record says

  function LastTime(es: seq<Report>, sn: string): int {
    if es == [] then 0
    else if es[|es| - 1].sn == sn then es[|es| - 1].now
    else LastTime(es[..|es| - 1], sn)
  }

  function LastState(es: seq<Report>, sn: string): int {
    if es == [] then 0
    else if es[|es| - 1].Stage? && es[|es| - 1].sn == sn then es[|es| - 1].state
    else LastState(es[..|es| - 1], sn)
  }

  function LastName(es: seq<Report>, sn: string): string {
    if es == [] then ""
    else if es[|es| - 1].Codename? && es[|es| - 1].sn == sn then es[|es| - 1].name
    else LastName(es[..|es| - 1], sn)
  }

  predicate Listed(es: seq<Report>, sn: string) {
    sn in Take(Recent(Uses(es)), MAX_HISTORY)
  }

  /** The number of reports after which the unit was last not in the list. */
  function LastAbsent(es: seq<Report>, sn: string): (k: nat)
    ensures k <= |es| && !Listed(es[..k], sn)
    ensures forall j | k < j <= |es| :: Listed(es[..j], sn)
  {
    if !Listed(es, sn) then
      assert es[..|es|] == es;
      |es|
    else
      var n := |es| - 1;
      var k := LastAbsent(es[..n], sn);
      assert forall j | 0 <= j <= n :: es[..n][..j] == es[..j];
      assert es[..|es|] == es;
      k
  }

  predicate Tells(r: Record, es: seq<Report>) {
    r.t == LastTime(es, r.sn) && r.state == LastState(es, r.sn) && r.platform == LastName(es, r.sn)
  }

  /** A record after a report is the one reported on, or was there before. */
  lemma ReceivedFrom(l: seq<Record>, e: Report, r: Record)
    requires Distinct(Serials(l)) && r in Received(l, e)
    ensures || (r in l && r.sn != e.sn)
            || (exists o <- l :: o.sn == e.sn && r == Updated(o, e))
            || (e.sn !in Serials(l) && r == Updated(Blank(e.sn), e))
  {
    hide ToFront;
    var f := Find(Serials(l), e.sn);
    ToFrontAt(l, f, Blank(e.sn));
    var j :| 0 <= j < |Received(l, e)| && Received(l, e)[j] == r;
    if j == 0 {
      assert f < |l| ==> l[f] in l && l[f].sn == e.sn;
    } else {
      var i := if j <= f then j - 1 else j;
      assert r == l[i] && Serials(l)[i] != e.sn;
    }
  }

  lemma TellsNext(r: Record, es: seq<Report>, e: Report)
    requires Tells(r, es)
    ensures Tells(if r.sn == e.sn then Updated(r, e) else r, es + [e])
  {
    assert (es + [e])[..|es|] == es;
  }

  /** A record tells the last time, stage and code name reported since the unit was last
      not in the list. */
  lemma {:induction false} RecordsTell(es: seq<Report>, r: Record)
    requires r in History(es)
    ensures Tells(r, es[LastAbsent(es, r.sn)..])
  {
    hide Received, Recent, Take, Find, Tells;
    assert es != [];
    var n := |es| - 1;
    var before, e, k := es[..n], es[n], LastAbsent(es, r.sn);
    HistoryDistinct(before);
    HistoryIsRecent(before);
    HistoryIsRecent(es);
    ReceivedFrom(History(before), e, r);
    InSerials(History(es), r);
    assert k == LastAbsent(before, r.sn) && es[k..] == before[k..] + [e];
    if r in History(before) && r.sn != e.sn {
      RecordsTell(before, r);
      TellsNext(r, before[k..], e);
    } else if o :| o in History(before) && o.sn == e.sn && r == Updated(o, e) {
      RecordsTell(before, o);
      TellsNext(o, before[k..], e);
    } else {
      assert before[k..] == [] && Tells(Blank(e.sn), []) by { BlankTells(e.sn); }
      TellsNext(Blank(e.sn), [], e);
    }
  }

  lemma BlankTells(sn: string)
    ensures Tells(Blank(sn), [])
  {
  }

  lemma InSerials(l: seq<Record>, r: Record)
    requires r in l
    ensures r.sn in Serials(l)
  {
    var i :| 0 <= i < |l| && l[i] == r;
    assert Serials(l)[i] == r.sn;
  }

  // ---------------------------------------------------------------- the server's list

  class HistEntry {
    const sn: string
    var t: int
    var state: int
    var platform: string

    constructor (sn: string)
      ensures this.sn == sn && AsRecord() == Blank(sn)
    {
      this.sn, t, state, platform := sn, 0, 0, "";
    }

    function AsRecord(): Record
      reads this
    {
      Record(sn, t, state, platform)
    }

    method SetStage(state: int, now: int)
      modifies this
      ensures AsRecord() == Updated(old(AsRecord()), Stage(sn, state, now))
    {
      t := now;
      this.state := state;
    }

    method SetPlat(plat: string, now: int)
      modifies this
      ensures AsRecord() == Updated(old(AsRecord()), Codename(sn, plat, now))
    {
      t := now;
      platform := plat;
    }
  }

  function Records(l: seq<HistEntry>): (r: seq<Record>)
    reads l
    ensures |r| == |l| && forall i | 0 <= i < |l| :: r[i] == l[i].AsRecord()
  {
    if l == [] then [] else [l[0].AsRecord()] + Records(l[1..])
  }

  lemma RecordsToFront(l: seq<HistEntry>, f: nat, entry: HistEntry)
    requires f <= |l| && (f < |l| ==> entry == l[f]) && (f == |l| ==> entry.AsRecord() == Blank(entry.sn))
    ensures Records(ToFront(l, f, entry)) == ToFront(Records(l), f, Blank(entry.sn))
  {
    hide ToFront;
    ToFrontAt(l, f, entry);
    ToFrontAt(Records(l), f, Blank(entry.sn));
  }

  class ActivityHistory {
    var entries: seq<HistEntry>
    /** All reports received so far. */
    ghost var reports: seq<Report>

    /** The list is what the reports so far make it. */
    ghost predicate Valid()
      reads this, entries
    {
      Records(entries) == History(reports)
    }

    constructor ()
      ensures Valid() && reports == []
    {
      entries, reports := [], [];
    }

    /** Position of the serial's entry, or the length of the list. */
    method IndexOf(sn: string) returns (i: nat)
      ensures i == Find(Serials(Records(entries)), sn) && i <= |entries|
      ensures i < |entries| <==> sn in Serials(Records(entries))
      ensures i < |entries| ==> entries[i].sn == sn
    {
      hide Records, Find;
      i := 0;
      while i < |entries|
        invariant 0 <= i <= |entries|
        invariant forall j | 0 <= j < i :: entries[j].sn != sn
      {
        if entries[i].sn == sn {
          break;
        }
        i := i + 1;
      }
      FoundAt(entries, sn, i);
    }

    /** The entry for a serial, now at the front: the one that is there, or a new blank one. */
    method GetEnt(sn: string) returns (entry: HistEntry)
      modifies this`entries
      ensures Records(entries) == LookedUp(old(Records(entries)), sn)
      ensures entries != [] && entries[0] == entry && entry.sn == sn
      ensures if sn in Serials(old(Records(entries))) then entry in old(entries) else fresh(entry)
      ensures forall e | e in entries :: e == entry || e in old(entries)
    {
      hide ToFront, Records, Find, Serials;
      ghost var was, records := entries, Records(entries);
      var i := IndexOf(sn);
      if i < |entries| {
        entry := entries[i];
        entries := entries[..i] + entries[i + 1..];
        entries := [entry] + entries;
      } else {
        entry := new HistEntry(sn);
        entries := [entry] + entries;
      }
      FrontOf(was, i, entry);
      assert Records(was) == records;
      RecordsToFront(was, i, entry);
      if |entries| > MAX_HISTORY {
        entries := entries[..MAX_HISTORY];
      }
      RecordsTaken(ToFront(was, i, entry), MAX_HISTORY);
    }

    /** The stage of a unit, if it is in the list. */
    method UnitState(sn: string) returns (state: Option<int>)
      requires Valid()
      ensures state.Some? <==> Listed(reports, sn)
      ensures state.Some? ==> state.value == LastState(reports[LastAbsent(reports, sn)..], sn)
    {
      hide Records, History, Find, LastAbsent, LastState, Take;
      HistoryIsRecent(reports);
      var i := IndexOf(sn);
      state := None;
      if i < |entries| {
        state := Some(entries[i].state);
        assert Records(entries)[i] == entries[i].AsRecord();
        RecordsTell(reports, entries[i].AsRecord());
      }
    }

    /** A unit reports its code name; only a report that was stored shows in the list. */
    method ReportCodename(sn: string, name: string, now: int, stored: bool) returns (ok: bool)
      requires Valid()
      modifies this, entries
      ensures Valid() && ok == stored
      ensures reports == old(reports) + if stored then [Codename(sn, name, now)] else []
    {
      hide Records, LookedUp, History;
      if !stored {
        assert reports + [] == reports;
        return false;
      }
      ghost var rep := Codename(sn, name, now);
      var e := GetEnt(sn);
      FrontApart(entries, reports, sn);
      ghost var was := Records(entries);
      e.SetPlat(name, now);
      FrontChanged(entries, was, rep);
      HistoryNext(reports, rep);
      reports := reports + [rep];
      ok := true;
    }

    /** A unit reports the stage it has reached; only a report that was stored shows in the list. */
    method ReportState(sn: string, state: int, now: int, stored: bool) returns (ok: bool)
      requires Valid()
      modifies this, entries
      ensures Valid() && ok == stored
      ensures reports == old(reports) + if stored then [Stage(sn, state, now)] else []
    {
      hide Records, LookedUp, History;
      if !stored {
        assert reports + [] == reports;
        return false;
      }
      ghost var rep := Stage(sn, state, now);
      var e := GetEnt(sn);
      FrontApart(entries, reports, sn);
      ghost var was := Records(entries);
      e.SetStage(state, now);
      FrontChanged(entries, was, rep);
      HistoryNext(reports, rep);
      reports := reports + [rep];
      ok := true;
    }
  }

  /** No entry is in the list twice. */
  lemma FrontApart(l: seq<HistEntry>, es: seq<Report>, sn: string)
    requires l != [] && Records(l) == LookedUp(History(es), sn)
    ensures forall j | 0 < j < |l| :: l[j] != l[0]
  {
    hide LookedUp, Take, History;
    HistoryDistinct(es);
    LookedUpSerials(History(es), sn);
    TouchMeaning(Serials(History(es)), sn);
    TakenDistinct(Touch(Serials(History(es)), sn), MAX_HISTORY);
    var sns := Serials(Records(l));
    assert forall j | 0 <= j < |l| :: sns[j] == l[j].sn;
  }

  lemma TakenDistinct(l: seq<string>, n: nat)
    requires Distinct(l)
    ensures Distinct(Take(l, n))
  {
  }

  lemma FrontChanged(l: seq<HistEntry>, was: seq<Record>, rep: Report)
    requires |l| == |was| > 0 && l[0].AsRecord() == Updated(was[0], rep)
    requires forall j | 0 < j < |l| :: l[j].AsRecord() == was[j]
    ensures Records(l) == was[0 := Updated(was[0], rep)]
  {
    hide Updated;
  }

  lemma HistoryNext(es: seq<Report>, rep: Report)
    ensures var was := LookedUp(History(es), rep.sn); History(es + [rep]) == was[0 := Updated(was[0], rep)]
  {
    hide LookedUp, Updated;
    assert (es + [rep])[..|es|] == es;
  }

  lemma RecordsTaken(l: seq<HistEntry>, n: nat)
    ensures Records(Take(l, n)) == Take(Records(l), n)
  {
  }

  lemma FoundAt(l: seq<HistEntry>, sn: string, i: nat)
    requires i <= |l| && (i < |l| ==> l[i].sn == sn)
    requires forall j | 0 <= j < i :: l[j].sn != sn
    ensures i == Find(Serials(Records(l)), sn)
    ensures i < |l| <==> sn in Serials(Records(l))
  {
    var sns := Serials(Records(l));
    assert forall j | 0 <= j < |l| :: sns[j] == l[j].sn;
    assert i < |l| ==> sns[i] == sn;
  }

  lemma FrontOf<T>(l: seq<T>, i: nat, x: T)
    requires i <= |l| && (i < |l| ==> x == l[i])
    ensures ToFront(l, i, x) == [x] + if i < |l| then l[..i] + l[i + 1..] else l
    ensures forall y | y in ToFront(l, i, x) :: y == x || y in l
  {
  }
}
