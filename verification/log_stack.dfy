/** The chain of log sinks: adding sinks with a replay of earlier entries, logging to all of
    them, and removing one. */
module LogStack {
  import opened Wrappers

  const MEM_LOG_IDENT := "memLog"

  datatype LogEntry = LogEntry(time: int, msg: string, flags: nat)

  // ---------------------------------------------------------------- the chain as a list

  /** A sink and all entries handed to it; the memory log forgets them when it is finalized. */
  datatype Sink = Sink(ident: string, isMem: bool, entries: seq<LogEntry>, finalized: bool)

  /** Index of the sink with the given identity, or the length if there is none. */
  function Find(s: seq<Sink>, id: string): (i: nat)
    ensures i <= |s| && (i < |s| ==> s[i].ident == id)
    ensures forall j | 0 <= j < i :: s[j].ident != id
  {
    if s == [] || s[0].ident == id then 0 else 1 + Find(s[1..], id)
  }

  predicate Has(s: seq<Sink>, id: string) { Find(s, id) < |s| }

  predicate Distinct(s: seq<Sink>) {
    forall i, j | 0 <= i < j < |s| :: s[i].ident != s[j].ident
  }

  function Handed(s: Sink, e: LogEntry): Sink { s.(entries := s.entries + [e]) }

  function Logged(s: seq<Sink>, e: LogEntry): seq<Sink> {
    seq(|s|, i requires 0 <= i < |s| => Handed(s[i], e))
  }

  /** What the memory log holds. */
  function Stored(s: seq<Sink>): seq<LogEntry> {
    var i := Find(s, MEM_LOG_IDENT);
    if i < |s| && s[i].isMem then s[i].entries else []
  }

  function Replayed(s: seq<Sink>, sink: Sink, addPrevious: bool): Sink {
    if addPrevious && !sink.isMem then sink.(entries := sink.entries + Stored(s)) else sink
  }

  function Added(s: seq<Sink>, sink: Sink, addPrevious: bool): seq<Sink> {
    if Has(s, sink.ident) then s else [Replayed(s, sink, addPrevious)] + s
  }

  function Closed(s: Sink): Sink {
    s.(entries := if s.isMem then [] else s.entries, finalized := true)
  }

  /** The chain after a removal, and whether the removal panics: only the last of several sinks
      is taken out; any other stays, finalized, and what followed it is lost. */
  function Removed(s: seq<Sink>, id: string): (seq<Sink>, bool) {
    var i := Find(s, id);
    if i == |s| then (s, false)
    else if 0 < i == |s| - 1 then (s[..i], false)
    else (s[..i] + [Closed(s[i])], 0 < i)
  }

  // ---------------------------------------------------------------- runs

  datatype Op = Log(e: LogEntry) | Add(sink: Sink, addPrevious: bool) | Flush

  /** Runs that add plain sinks only. */
  predicate Plain(ops: seq<Op>) {
    forall op <- ops :: op.Add? ==> op.sink.ident != MEM_LOG_IDENT && !op.sink.isMem
  }

  function Step(s: seq<Sink>, op: Op): seq<Sink> {
    match op
    case Log(e) => Logged(s, e)
    case Add(sink, addPrevious) => Added(s, sink, addPrevious)
    case Flush => Removed(s, MEM_LOG_IDENT).0
  }

  function Run(s: seq<Sink>, ops: seq<Op>): seq<Sink>
    decreases |ops|
  {
    if ops == [] then s else Run(Step(s, ops[0]), ops[1..])
  }

  const DEFAULT: seq<Sink> := [Sink(MEM_LOG_IDENT, true, [], false)]

  /** All entries logged in a run. */
  function EntriesOf(ops: seq<Op>): seq<LogEntry> {
    if ops == [] then [] else EntryOf(ops[0]) + EntriesOf(ops[1..])
  }

  function EntryOf(op: Op): seq<LogEntry> { if op.Log? then [op.e] else [] }

  lemma EntriesSplit(ops: seq<Op>, before: seq<LogEntry>)
    requires ops != []
    ensures before + EntriesOf(ops) == before + EntryOf(ops[0]) + EntriesOf(ops[1..])
  {
  }

  /** The memory log is at the end, or gone. */
  predicate MemLast(s: seq<Sink>) {
    forall i | 0 <= i < |s| :: s[i].ident == MEM_LOG_IDENT ==> i == |s| - 1
  }

  lemma StepKeeps(s: seq<Sink>, op: Op)
    requires s != [] && Distinct(s) && MemLast(s) && Plain([op])
    ensures Step(s, op) != [] && Distinct(Step(s, op)) && MemLast(Step(s, op))
    ensures op.Flush? ==> !Removed(s, MEM_LOG_IDENT).1
  {
    hide Find;
    assert op in [op];
    match op {
      case Log(_) =>
      case Add(_, _) =>
      case Flush =>
    }
  }

  /** Some flush in the run panics. */
  predicate Panics(s: seq<Sink>, ops: seq<Op>)
    decreases |ops|
  {
    ops != [] && ((ops[0].Flush? && Removed(s, MEM_LOG_IDENT).1) || Panics(Step(s, ops[0]), ops[1..]))
  }

  /** Identities stay distinct, the memory log stays last, and flushing it never panics. */
  lemma {:induction false} RunKeeps(s: seq<Sink>, ops: seq<Op>)
    requires s != [] && Distinct(s) && MemLast(s) && Plain(ops)
    ensures Run(s, ops) != [] && Distinct(Run(s, ops)) && MemLast(Run(s, ops)) && !Panics(s, ops)
    decreases |ops|
  {
    if ops == [] {
    } else {
      assert ops[0] in ops && Plain([ops[0]]);
      StepKeeps(s, ops[0]);
      RunKeeps(Step(s, ops[0]), ops[1..]);
    }
  }

  predicate Holds(s: seq<Sink>, id: string, entries: seq<LogEntry>) {
    Has(s, id) && s[Find(s, id)].entries == entries
  }

  lemma FindIs(s: seq<Sink>, id: string, i: nat)
    requires i < |s| && s[i].ident == id && forall j | 0 <= j < i :: s[j].ident != id
    ensures Find(s, id) == i
  {
  }

  /** A plain sink loses nothing and gets each later entry once, whatever is added or flushed. */
  lemma StepHolds(s: seq<Sink>, op: Op, id: string, entries: seq<LogEntry>)
    requires s != [] && Distinct(s) && MemLast(s) && Plain([op])
    requires id != MEM_LOG_IDENT && Holds(s, id, entries)
    ensures Holds(Step(s, op), id, entries + EntryOf(op))
  {
    hide Find;
    assert op in [op];
    var i, t := Find(s, id), Step(s, op);
    match op {
      case Log(_) => FindIs(t, id, i);
      case Add(sink, _) => FindIs(t, id, if Has(s, sink.ident) then i else i + 1);
      case Flush => FindIs(t, id, i);
    }
  }

  lemma {:induction false} RunHolds(s: seq<Sink>, ops: seq<Op>, id: string, entries: seq<LogEntry>)
    requires s != [] && Distinct(s) && MemLast(s) && Plain(ops)
    requires id != MEM_LOG_IDENT && Holds(s, id, entries)
    ensures Holds(Run(s, ops), id, entries + EntriesOf(ops))
    decreases |ops|
  {
    hide Holds, Step, Distinct, MemLast, EntryOf;
    if ops == [] {
      assert entries + EntriesOf(ops) == entries;
    } else {
      assert ops[0] in ops && Plain([ops[0]]);
      StepKeeps(s, ops[0]);
      StepHolds(s, ops[0], id, entries);
      RunHolds(Step(s, ops[0]), ops[1..], id, entries + EntryOf(ops[0]));
      EntriesSplit(ops, entries);
    }
  }

  predicate MemThere(s: seq<Sink>) {
    s != [] && s[|s| - 1].isMem && s[|s| - 1].ident == MEM_LOG_IDENT
  }

  lemma StoredLast(s: seq<Sink>)
    requires Distinct(s) && MemThere(s)
    ensures Stored(s) == s[|s| - 1].entries
  {
    FindIs(s, MEM_LOG_IDENT, |s| - 1);
  }

  lemma StepStores(s: seq<Sink>, op: Op)
    requires Distinct(s) && MemThere(s) && Plain([op]) && !op.Flush?
    ensures Distinct(Step(s, op)) && MemThere(Step(s, op))
    ensures Stored(Step(s, op)) == Stored(s) + EntryOf(op)
  {
    hide Stored, Find;
    assert op in [op];
    StoredLast(s);
    match op {
      case Log(e) =>
      case Add(sink, addPrevious) => assert Step(s, op)[|Step(s, op)| - 1] == s[|s| - 1];
    }
    StoredLast(Step(s, op));
  }

  /** Until it is flushed, the memory log holds all that was logged. */
  lemma {:induction false} MemHoldsAll(s: seq<Sink>, ops: seq<Op>)
    requires Distinct(s) && MemThere(s) && Plain(ops) && Flush !in ops
    ensures var t := Run(s, ops); Distinct(t) && MemThere(t) && Stored(t) == Stored(s) + EntriesOf(ops)
    decreases |ops|
  {
    hide Stored, Step, MemThere, Distinct, EntryOf;
    if ops == [] {
      assert Stored(s) + EntriesOf(ops) == Stored(s);
    } else {
      assert ops[0] in ops && Plain([ops[0]]);
      StepStores(s, ops[0]);
      MemHoldsAll(Step(s, ops[0]), ops[1..]);
      EntriesSplit(ops, Stored(s));
    }
  }

  /** What a sink added after these operations is handed: `held` is in the memory log before them,
      and `others` tells whether other sinks are there. A flush takes the memory log out if they
      are, and empties it if not. */
  function Retained(ops: seq<Op>, others: bool, held: seq<LogEntry>): seq<LogEntry>
    decreases |ops|
  {
    if ops == [] then held
    else match ops[0]
      case Log(e) => Retained(ops[1..], others, held + [e])
      case Add(_, _) => Retained(ops[1..], true, held)
      case Flush => if others then [] else Retained(ops[1..], false, [])
  }

  /** Until the first flush that is all that was logged. */
  lemma {:induction false} RetainedAll(ops: seq<Op>, others: bool, held: seq<LogEntry>)
    requires Flush !in ops
    ensures Retained(ops, others, held) == held + EntriesOf(ops)
    decreases |ops|
  {
    if ops == [] {
      assert held + EntriesOf(ops) == held;
    } else {
      EntriesSplit(ops, held);
      if ops[0].Log? {
        RetainedAll(ops[1..], others, held + [ops[0].e]);
      } else {
        assert held + EntryOf(ops[0]) == held;
        RetainedAll(ops[1..], true, held);
      }
    }
  }

  /** After the last flush it is what was logged since, if no sink had been added by then, and
      nothing otherwise. */
  lemma {:induction false} RetainedSince(ops: seq<Op>, since: seq<Op>, others: bool, held: seq<LogEntry>)
    requires Flush !in since
    ensures Retained(ops + [Flush] + since, others, held)
            == if others || exists op <- ops :: op.Add? then [] else EntriesOf(since)
    decreases |ops|
  {
    var all := ops + [Flush] + since;
    if ops == [] {
      assert all[0] == Flush && all[1..] == since;
      RetainedAll(since, false, []);
    } else {
      assert all[0] == ops[0] && all[1..] == ops[1..] + [Flush] + since;
      assert forall op <- ops :: op == ops[0] || op in ops[1..];
      match ops[0] {
        case Log(e) => RetainedSince(ops[1..], since, others, held + [e]);
        case Add(_, _) => RetainedSince(ops[1..], since, true, held);
        case Flush => RetainedSince(ops[1..], since, false, []);
      }
    }
  }

  lemma GoneStays(s: seq<Sink>, op: Op)
    requires Distinct(s) && !Has(s, MEM_LOG_IDENT) && Plain([op])
    ensures Distinct(Step(s, op)) && !Has(Step(s, op), MEM_LOG_IDENT)
  {
    hide Find, Stored;
    assert op in [op];
    var t := Step(s, op);
    assert forall i | 0 <= i < |t| :: t[i].ident != MEM_LOG_IDENT;
  }

  lemma {:induction false} GoneForGood(s: seq<Sink>, ops: seq<Op>)
    requires Distinct(s) && !Has(s, MEM_LOG_IDENT) && Plain(ops)
    ensures Stored(Run(s, ops)) == []
    decreases |ops|
  {
    hide Distinct, Step;
    if ops == [] {
    } else {
      assert ops[0] in ops && Plain([ops[0]]);
      GoneStays(s, ops[0]);
      GoneForGood(Step(s, ops[0]), ops[1..]);
    }
  }

  /** What the memory log holds after any run. */
  lemma {:induction false} RunStores(s: seq<Sink>, ops: seq<Op>)
    requires Distinct(s) && MemThere(s) && Plain(ops)
    ensures Stored(Run(s, ops)) == Retained(ops, |s| > 1, Stored(s))
    decreases |ops|
  {
    hide Stored, Distinct;
    if ops == [] {
    } else {
      var t := Step(s, ops[0]);
      assert ops[0] in ops && Plain([ops[0]]);
      StoredLast(s);
      if ops[0].Flush? {
        FlushStores(s);
        if |s| > 1 {
          GoneForGood(t, ops[1..]);
        } else {
          RunStores(t, ops[1..]);
        }
      } else {
        StepStores(s, ops[0]);
        MoreThanOne(s, ops[0]);
        assert Stored(s) + [] == Stored(s);
        RunStores(t, ops[1..]);
      }
    }
  }

  lemma MoreThanOne(s: seq<Sink>, op: Op)
    requires MemThere(s) && Plain([op]) && !op.Flush?
    ensures |Step(s, op)| > 1 <==> |s| > 1 || op.Add?
  {
    assert op in [op];
  }

  lemma FlushStores(s: seq<Sink>)
    requires Distinct(s) && MemThere(s)
    ensures var t := Step(s, Flush);
            && Distinct(t)
            && if |s| > 1 then !Has(t, MEM_LOG_IDENT) else |t| == 1 && MemThere(t) && Stored(t) == []
  {
    FindIs(s, MEM_LOG_IDENT, |s| - 1);
  }

  /** A sink added to the default chain in the middle of a run ends with exactly the entries
      logged from then on, and with those that the memory log still held in front of them if
      they are to be replayed: none lost, none twice, whatever is flushed later. */
  lemma ReplayComplete(before: seq<Op>, sink: Sink, addPrevious: bool, after: seq<Op>)
    requires Plain(before) && Plain(after) && Plain([Add(sink, addPrevious)]) && sink.entries == []
    ensures var s := Run(DEFAULT, before);
            !Has(s, sink.ident) ==>
              Holds(Run(Added(s, sink, addPrevious), after), sink.ident,
                    (if addPrevious then Retained(before, false, []) else []) + EntriesOf(after))
  {
    hide Run, Holds, Retained;
    assert Add(sink, addPrevious) in [Add(sink, addPrevious)];
    RunKeeps(DEFAULT, before);
    RunStores(DEFAULT, before);
    var s := Run(DEFAULT, before);
    assert Stored(s) == Retained(before, false, []);
    if !Has(s, sink.ident) {
      var t := Added(s, sink, addPrevious);
      StepKeeps(s, Add(sink, addPrevious));
      AddedHolds(s, sink, addPrevious);
      RunHolds(t, after, sink.ident, if addPrevious then Retained(before, false, []) else []);
    }
  }

  lemma AddedHolds(s: seq<Sink>, sink: Sink, addPrevious: bool)
    requires !Has(s, sink.ident) && !sink.isMem && sink.entries == []
    ensures Holds(Added(s, sink, addPrevious), sink.ident, if addPrevious then Stored(s) else [])
  {
  }

  /** Flushing with another sink present takes out the memory log and nothing else. */
  lemma FlushRemovesMemOnly(s: seq<Sink>)
    requires |s| > 1 && Distinct(s) && s[|s| - 1].ident == MEM_LOG_IDENT
    ensures Removed(s, MEM_LOG_IDENT) == (s[..|s| - 1], false)
  {
    FindIs(s, MEM_LOG_IDENT, |s| - 1);
  }

  function Without(s: seq<Sink>, id: string): seq<Sink> {
    var i := Find(s, id);
    if i < |s| then s[..i] + s[i + 1..] else s
  }

  /** A removal does what it is for, to take out one sink and keep the others as they are,
      exactly when there is no such sink or it is the last of several. */
  lemma RemovedIff(s: seq<Sink>, id: string)
    requires Distinct(s)
    ensures var (t, panic) := Removed(s, id);
            (!panic && t == Without(s, id)) <==> (!Has(s, id) || 0 < Find(s, id) == |s| - 1)
  {
    hide Find;
    var i, w := Find(s, id), Without(s, id);
    if i < |s| {
      assert forall j | 0 <= j < |w| :: w[j] == s[if j < i then j else j + 1];
      if !(0 < i == |s| - 1) {
        assert Removed(s, id).0[i].ident == id;
      }
    }
  }

  lemma AddedOnTop(s: seq<Sink>, sink: Sink)
    requires Distinct(s) && MemThere(s) && s[|s| - 1].entries == [] && sink.entries == []
    requires forall t <- s :: t.ident != sink.ident
    ensures Step(s, Add(sink, true)) == [sink] + s
  {
    hide Stored;
    StoredLast(s);
    assert sink.entries + Stored(s) == sink.entries;
    assert !Has(s, sink.ident) by {
      var i := Find(s, sink.ident);
      assert i < |s| ==> s[i] in s;
    }
  }

  lemma RemovedOfThree(a: Sink, b: Sink, c: Sink)
    requires a.ident != b.ident
    ensures Removed([a, b, c], b.ident) == ([a, Closed(b)], true)
    ensures Removed([a, b, c], a.ident) == ([Closed(a)], false)
  {
    hide Find;
    var s := [a, b, c];
    FindIs(s, b.ident, 1);
    FindIs(s, a.ident, 0);
    assert s[..1] + [Closed(s[1])] == [a, Closed(b)] && s[..0] + [Closed(s[0])] == [Closed(a)];
  }

  const FILE := Sink("fileLog", false, [], false)
  const CONSOLE := Sink("consoleLog", false, [], false)

  /** With a file and a console above the memory log, removing the file panics and loses the
      memory log; removing the console panics not, loses both others, and keeps the console. */
  lemma RemovalLosesSinks()
    ensures var s := Run(DEFAULT, [Add(FILE, true), Add(CONSOLE, true)]);
            && s == [CONSOLE, FILE] + DEFAULT
            && Removed(s, FILE.ident) == ([CONSOLE, Closed(FILE)], true)
            && Removed(s, CONSOLE.ident) == ([Closed(CONSOLE)], false)
  {
    assert FILE.ident[0] == 'f' && CONSOLE.ident[0] == 'c' && MEM_LOG_IDENT[0] == 'm';
    var one, s := [FILE] + DEFAULT, [CONSOLE, FILE] + DEFAULT;
    var ops := [Add(FILE, true), Add(CONSOLE, true)];
    AddedOnTop(DEFAULT, FILE);
    AddedOnTop(one, CONSOLE);
    assert s == [CONSOLE] + one;
    assert Run(DEFAULT, ops) == Run(one, ops[1..]) && Run(one, ops[1..]) == Run(s, ops[1..][1..]);
    assert s == [CONSOLE, FILE, DEFAULT[0]];
    RemovedOfThree(CONSOLE, FILE, DEFAULT[0]);
  }

  // ---------------------------------------------------------------- the sinks themselves

  class Logger {
    const ident: string
    const isMem: bool
    var next: Logger?
    var entries: seq<LogEntry>
    var finalized: bool

    /** A sink that is not in any chain. */
    constructor (ident: string, isMem: bool)
      ensures this.ident == ident && this.isMem == isMem && next == null && entries == [] && !finalized
    {
      this.ident, this.isMem, next, entries, finalized := ident, isMem, null, [], false;
    }

    function AsSink(): Sink
      reads this`entries, this`finalized
    {
      Sink(ident, isMem, entries, finalized)
    }

    /** The entry goes to this sink and to every one after it. */
    method AddEntry(e: LogEntry, ghost chain: seq<Logger>)
      requires Chained(chain) && chain[0] == this
      modifies chain`entries
      ensures forall l <- chain :: l.entries == old(l.entries) + [e]
      decreases |chain|
    {
      ChainedRest(chain);
      entries := entries + [e];
      if next != null {
        hide Chained;
        next.AddEntry(e, chain[1..]);
      }
    }

    /** The entries in turn. */
    method AddEntries(es: seq<LogEntry>, ghost chain: seq<Logger>)
      requires es != [] ==> Chained(chain) && chain[0] == this
      modifies chain`entries
      ensures forall l <- chain :: l.entries == old(l.entries) + es
    {
      hide Chained;
      assert forall l <- chain :: l.entries + [] == l.entries;
      for i := 0 to |es|
        invariant forall l <- chain :: l.entries == old(l.entries) + es[..i]
      {
        AddEntry(es[i], chain);
        assert es[..i + 1] == es[..i] + [es[i]];
        assert forall l <- chain :: old(l.entries) + es[..i + 1] == old(l.entries) + es[..i] + [es[i]];
      }
      assert es[..|es|] == es;
    }

    /** Chains this sink to another; panics when it is chained already. */
    method ForwardTo(sl: Logger?) returns (panics: bool)
      modifies this`next
      ensures panics == (old(next) != null && sl != null)
      ensures next == if panics then old(next) else sl
    {
      panics := false;
      if next == null || sl == null {
        next := sl;
      } else {
        panics := true;
      }
    }

    /** Finalizes this sink and every one after it. */
    method Finalize(ghost chain: seq<Logger>)
      requires Chained(chain) && chain[0] == this
      modifies chain`entries, chain`finalized
      ensures forall l <- chain :: l.finalized && l.entries == if l.isMem then [] else old(l.entries)
      decreases |chain|
    {
      ChainedRest(chain);
      finalized := true;
      if isMem {
        entries := [];
      }
      if next != null {
        next.Finalize(chain[1..]);
      }
    }
  }

  predicate Apart(chain: seq<Logger>) {
    forall i, j | 0 <= i < j < |chain| :: chain[i].ident != chain[j].ident
  }

  /** The loggers are different and linked in this order. */
  ghost predicate Links(chain: seq<Logger>)
    reads chain`next
  {
    && chain != []
    && (forall i, j | 0 <= i < j < |chain| :: chain[i] != chain[j])
    && (forall i | 0 <= i < |chain| - 1 :: chain[i].next == chain[i + 1])
  }

  /** ... and the last is linked to none. */
  ghost predicate Chained(chain: seq<Logger>)
    reads chain`next
  {
    Links(chain) && chain[|chain| - 1].next == null
  }

  /** ... and they have distinct identities. */
  ghost predicate Linked(chain: seq<Logger>)
    reads chain`next
  {
    Chained(chain) && Apart(chain)
  }

  lemma ChainedRest(chain: seq<Logger>)
    requires Chained(chain)
    ensures (|chain| == 1) == (chain[0].next == null)
    ensures |chain| > 1 ==> Chained(chain[1..]) && chain[0] !in chain[1..] && chain[0].next == chain[1]
    ensures forall l <- chain :: l == chain[0] || l in chain[1..]
  {
    assert |chain| > 1 ==> chain[0].next == chain[1];
    assert chain == [chain[0]] + chain[1..];
  }

  lemma LinkAt(chain: seq<Logger>, i: nat)
    requires Linked(chain) && i < |chain|
    ensures (chain[i].next == null) == (i == |chain| - 1)
    ensures i < |chain| - 1 ==> chain[i].next == chain[i + 1]
  {
  }

  lemma LinksOf(chain: seq<Logger>)
    requires Linked(chain)
    ensures Apart(chain) && Links(chain)
  {
  }

  lemma LinkedPrefix(chain: seq<Logger>, k: nat)
    requires Apart(chain) && 0 < k <= |chain| && chain[k - 1].next == null
    requires forall i | 0 <= i < k - 1 :: chain[i].next == chain[i + 1]
    ensures Linked(chain[..k])
  {
  }

  lemma LinkedFront(sl: Logger, chain: seq<Logger>)
    requires Linked(chain) && sl.next == chain[0] && forall j | 0 <= j < |chain| :: chain[j].ident != sl.ident
    ensures Linked([sl] + chain)
  {
    var c := [sl] + chain;
    forall i | 0 <= i < |c| - 1
      ensures c[i].next == c[i + 1]
    {
      if i > 0 {
        assert c[i] == chain[i - 1];
        LinkAt(chain, i - 1);
      }
    }
    assert c[|c| - 1] == chain[|chain| - 1];
    assert Apart(c) by {
      forall i, j | 0 <= i < j < |c|
        ensures c[i].ident != c[j].ident
      {
        assert c[j] == chain[j - 1];
        assert i > 0 ==> c[i] == chain[i - 1];
      }
    }
  }

  lemma SinksDistinct(chain: seq<Logger>)
    requires Linked(chain)
    ensures Distinct(Sinks(chain))
  {
    hide Sinks;
  }

  lemma SinksFront(sl: Logger, chain: seq<Logger>)
    ensures Sinks([sl] + chain) == [sl.AsSink()] + Sinks(chain)
  {
    assert ([sl] + chain)[1..] == chain;
  }

  function Sinks(chain: seq<Logger>): (s: seq<Sink>)
    reads chain`entries, chain`finalized
    ensures |s| == |chain| && forall i | 0 <= i < |chain| :: s[i] == chain[i].AsSink()
  {
    if chain == [] then [] else [chain[0].AsSink()] + Sinks(chain[1..])
  }

  class Stack {
    var top: Logger
    ghost var chain: seq<Logger>

    ghost predicate Valid()
      reads this, chain
    {
      chain != [] && chain[0] == top && Linked(chain)
    }

    /** The memory log alone. */
    constructor ()
      ensures Valid() && fresh(top) && Sinks(chain) == DEFAULT
    {
      var mem := new Logger(MEM_LOG_IDENT, true);
      top, chain := mem, [mem];
    }

    /** Logs one entry to every sink. */
    method FlaggedLogf(e: LogEntry)
      requires Valid()
      modifies chain`entries
      ensures Valid() && Sinks(chain) == Logged(old(Sinks(chain)), e)
    {
      hide Sinks;
      top.AddEntry(e, chain);
    }

    method FindInStack(id: string) returns (l: Logger?)
      requires Valid()
      ensures var i := Find(Sinks(chain), id); l == if i < |chain| then chain[i] else null
    {
      l := top;
      ghost var i := 0;
      while l != null
        invariant 0 <= i <= |chain| && l == if i < |chain| then chain[i] else null
        invariant forall j | 0 <= j < i :: chain[j].ident != id
        decreases |chain| - i
      {
        if l.ident == id {
          break;
        }
        l := l.next;
        i := i + 1;
      }
      FoundAt(chain, id, i);
    }

    /** The search comes to an end: at the last sink, or at the new one if that is the last. */
    ghost predicate Walkable(newLogger: Logger)
      reads this, chain
    {
      && chain != [] && chain[0] == top && Links(chain) && Apart(chain)
      && (chain[|chain| - 1].next == null || chain[|chain| - 1] == newLogger)
    }

    lemma WalkAt(newLogger: Logger, i: nat)
      requires Walkable(newLogger) && i < |chain|
      ensures chain[i] != newLogger ==> (chain[i].next == null) == (i == |chain| - 1)
      ensures i < |chain| - 1 ==> chain[i].next == chain[i + 1]
    {
    }

    /** Whether no sink from the top down has the identity of the new one. */
    method ForwardFrom(newLogger: Logger, sl: Logger, ghost i: nat) returns (err: Option<string>)
      requires Walkable(newLogger) && i < |chain| && sl == chain[i]
      requires forall j | 0 <= j < i :: chain[j].ident != newLogger.ident
      ensures err == if Has(Sinks(chain), newLogger.ident) then Some(newLogger.ident) else None
      ensures err == None ==> forall j | 0 <= j < |chain| :: chain[j].ident != newLogger.ident
      decreases |chain| - i
    {
      hide Sinks, Find, Walkable;
      WalkAt(newLogger, i);
      if newLogger.ident == sl.ident {
        FoundAt(chain, sl.ident, i);
        return Some(sl.ident);
      }
      if sl.next != null {
        err := ForwardFrom(newLogger, sl.next, i + 1);
      } else {
        FoundAt(chain, newLogger.ident, |chain|);
        err := None;
      }
    }

    /** What is replayed to a sink. */
    ghost function Replay(newLog: Logger): seq<LogEntry>
      reads this`chain, chain`entries, chain`finalized
    {
      if newLog.isMem then [] else Stored(Sinks(chain))
    }

    /** Hands the entries of the memory log to a sink, and so to those after it. */
    method AddPreviousEvents(newLog: Logger, ghost tail: seq<Logger>)
      requires Valid() && (Replay(newLog) != [] ==> Chained(tail) && tail[0] == newLog)
      modifies tail`entries
      ensures forall l <- tail :: l.entries == old(l.entries) + old(Replay(newLog))
    {
      hide Find, Sinks, Linked, Chained;
      var entries := [];
      if !newLog.isMem {
        var mem := FindInStack(MEM_LOG_IDENT);
        if mem != null && mem.isMem {
          entries := mem.entries;
        }
        assert entries == Stored(Sinks(chain));
      }
      newLog.AddEntries(entries, tail);
    }

    /** The sinks form a ring: nothing logged to them would come to an end. */
    ghost predicate Ring()
      reads this, chain`next
    {
      chain != [] && chain[0] == top && Links(chain) && chain[|chain| - 1].next == top
    }

    /** Chains the sink to the top; it becomes the top if no sink is like it. */
    method Link(sl: Logger) returns (err: Option<string>, panics: bool)
      requires Valid()
      modifies this, sl`next
      ensures panics == (old(sl.next) != null)
      ensures panics ==> Valid() && chain == old(chain) && sl.next == old(sl.next)
      ensures !panics ==> sl.next == old(top)
      ensures !panics && sl !in old(chain) ==>
                && Valid() && err == (if Has(old(Sinks(chain)), sl.ident) then Some(sl.ident) else None)
                && chain == (if err.None? then [sl] + old(chain) else old(chain))
                && Sinks(chain) == if err.None? then [sl.AsSink()] + old(Sinks(chain)) else old(Sinks(chain))
      ensures !panics && sl in old(chain) ==> Ring() && chain == old(chain) && err == Some(sl.ident)
    {
      hide Find, Sinks, Linked;
      LastOf(sl);
      err := None;
      panics := sl.ForwardTo(top);
      if panics {
        return;
      }
      assert Sinks(chain) == old(Sinks(chain));
      if sl in chain {
        assert Walkable(sl);
        IsThere(chain, sl);
      } else {
        StillLinked(sl);
        assert Linked(chain);
      }
      err := ForwardFrom(sl, top, 0);
      if err == None {
        LinkedFront(sl, chain);
        SinksFront(sl, chain);
        top, chain := sl, [sl] + chain;
      }
    }

    lemma StillLinked(sl: Logger)
      requires chain != [] && chain[0] == top && Links(chain) && Apart(chain) && chain[|chain| - 1].next == null
      ensures Linked(chain) && Walkable(sl)
    {
    }

    /** A sink of the chain without a link is the last one. */
    lemma LastOf(sl: Logger)
      requires Valid()
      ensures Links(chain) && Apart(chain) && chain[|chain| - 1].next == null
      ensures sl in chain && sl.next == null ==> sl == chain[|chain| - 1]
    {
      if sl in chain {
        var i :| 0 <= i < |chain| && chain[i] == sl;
        LinkAt(chain, i);
      }
    }

    /** Puts a sink on top, unless one like it is there. A sink that is turned away has been
        given the earlier entries all the same and stays linked to the top. A sink that is
        linked already gives a panic, after the replay to it and all after it; and a sink that
        is the last of the chain closes it to a ring. */
    method AddLogger(sl: Logger, addPrevious: bool, ghost tail: seq<Logger>) returns (err: Option<string>, panics: bool)
      requires Valid() && (addPrevious && Replay(sl) != [] ==> Chained(tail) && tail[0] == sl)
      modifies this, sl`next, tail`entries
      ensures panics == (old(sl.next) != null)
      ensures forall l <- tail :: l.entries == old(l.entries) + if addPrevious then old(Replay(sl)) else []
      ensures panics ==> Valid() && chain == old(chain) && sl.next == old(sl.next)
      ensures !panics ==> sl.next == old(top)
      ensures !panics && sl !in old(chain) ==>
                && Valid() && Sinks(chain) == Added(old(Sinks(chain)), old(sl.AsSink()), addPrevious)
                && err == (if Has(old(Sinks(chain)), sl.ident) then Some(sl.ident) else None)
                && chain == (if err.None? then [sl] + old(chain) else old(chain))
      ensures !panics && sl in old(chain) ==> Ring() && chain == old(chain) && err == Some(sl.ident)
    {
      hide Find, Sinks, Linked, Has, Stored, Chained, Ring;
      ghost var more := if addPrevious then Replay(sl) else [];
      assert forall l <- tail :: l.entries + [] == l.entries;
      if more != [] {
        AloneInTail(tail);
      }
      if addPrevious {
        AddPreviousEvents(sl, tail);
        assert Linked(chain);
      }
      assert sl.entries == old(sl.entries) + more;
      assert sl.next == null && sl !in chain ==> Sinks(chain) == old(Sinks(chain));
      assert sl.next == null ==> sl.AsSink() == Replayed(old(Sinks(chain)), old(sl.AsSink()), addPrevious);
      err, panics := Link(sl);
    }

    /** Finalizes all sinks and starts again with another: a new sink, or one with all that it is
        linked to, even if that is no proper chain. */
    method NewLogStack(newLog: Logger, ghost tail: seq<Logger>)
      requires Valid()
      modifies this, chain`entries, chain`finalized
      ensures top == newLog && chain == tail
      ensures old(Linked(tail)) && tail[0] == newLog ==> Valid()
      ensures forall l | l in old(chain) :: l.AsSink() == Closed(old(l.AsSink()))
      ensures forall l <- tail | l !in old(chain) :: l.AsSink() == old(l.AsSink())
    {
      top.Finalize(chain);
      top, chain := newLog, tail;
    }

    /** Takes a sink out; the chain afterwards, and whether there was a panic, are as `Removed`
        says. */
    method RemoveLogger(id: string) returns (panics: bool)
      requires Valid()
      modifies this`chain, chain
      ensures Valid() && top == old(top)
      ensures (Sinks(chain), panics) == Removed(old(Sinks(chain)), id)
    {
      hide Find, Sinks, Linked;
      ghost var was, all := Sinks(chain), chain;
      panics := false;
      var l: Logger? := top;
      var prev: Logger? := null;
      ghost var i := 0;
      while l != null
        invariant 0 <= i <= |all| && l == if i < |all| then all[i] else null
        invariant prev == if i > 0 then all[i - 1] else null
        invariant forall j | 0 <= j < i :: all[j].ident != id
        invariant chain == all && Linked(all) && Sinks(all) == was
        decreases |all| - i
      {
        LinkAt(all, i);
        var next := l.next;
        if l.ident == id {
          FoundAt(all, id, i);
          panics := CutAt(i, prev, l, next);
          assert was[..i] + [] == was[..i];
          return;
        }
        prev := l;
        l := next;
        i := i + 1;
      }
      FoundAt(all, id, |all|);
    }

    /** Takes out the memory log that has done its work: it goes, and it alone, when it is the
        last of several sinks. */
    method FlushMemLog() returns (panics: bool)
      requires Valid()
      modifies this`chain, chain
      ensures Valid() && (Sinks(chain), panics) == Removed(old(Sinks(chain)), MEM_LOG_IDENT)
      ensures |old(chain)| > 1 && old(chain)[|old(chain)| - 1].ident == MEM_LOG_IDENT ==>
                !panics && Sinks(chain) == old(Sinks(chain))[..|old(chain)| - 1]
    {
      hide Find, Sinks, Linked;
      SinksDistinct(chain);
      if |chain| > 1 && chain[|chain| - 1].ident == MEM_LOG_IDENT {
        FlushRemovesMemOnly(Sinks(chain));
      }
      panics := RemoveLogger(MEM_LOG_IDENT);
    }

    /** The sink found is cut off and finalized, and the one before it is to be chained to the
        one that followed. */
    method CutAt(ghost i: nat, prev: Logger?, l: Logger, next: Logger?) returns (panics: bool)
      requires Valid() && i < |chain| && l == chain[i]
      requires prev == if i > 0 then chain[i - 1] else null
      requires next == if i < |chain| - 1 then chain[i + 1] else null
      modifies this`chain, chain
      ensures Valid() && top == old(top)
      ensures panics == (0 < i < |old(chain)| - 1)
      ensures Sinks(chain) == old(Sinks(chain))[..i]
                              + if 0 < i == |old(chain)| - 1 then [] else [Closed(old(l.AsSink()))]
    {
      hide Find, Sinks, Linked;
      ghost var all, was, k := chain, Sinks(chain), if 0 < i == |chain| - 1 then i else i + 1;
      LinksOf(all);
      panics := false;
      var _ := l.ForwardTo(null);
      OneChained(l);
      l.Finalize([l]);
      if prev != null {
        panics := prev.ForwardTo(next);
      }
      LinkedPrefix(all, k);
      chain := all[..k];
      SinksCut(all, k, was, i);
    }
  }

  lemma OneChained(l: Logger)
    requires l.next == null
    ensures Chained([l])
  {
  }

  /** The sinks that are left, of which only the one at `i` has changed. */
  lemma SinksCut(all: seq<Logger>, k: nat, was: seq<Sink>, i: nat)
    requires |was| == |all| && i <= k <= i + 1 && k <= |all| && i < |all|
    requires forall j | 0 <= j < k && j != i :: all[j].AsSink() == was[j]
    requires k == i + 1 ==> all[i].AsSink() == Closed(was[i])
    ensures Sinks(all[..k]) == was[..i] + if k == i then [] else [Closed(was[i])]
  {
    hide Sinks, Closed;
  }

  lemma AloneInTail(tail: seq<Logger>)
    requires Chained(tail)
    ensures tail != [] && (tail[0].next == null ==> tail == [tail[0]])
  {
    ChainedRest(tail);
  }

  lemma IsThere(chain: seq<Logger>, sl: Logger)
    requires sl in chain
    ensures Has(Sinks(chain), sl.ident)
  {
    hide Sinks;
    var i :| 0 <= i < |chain| && chain[i] == sl;
    assert Sinks(chain)[i].ident == sl.ident;
  }

  lemma FoundAt(chain: seq<Logger>, id: string, i: nat)
    requires i <= |chain| && (i < |chain| ==> chain[i].ident == id)
    requires forall j | 0 <= j < i :: chain[j].ident != id
    ensures i == Find(Sinks(chain), id)
  {
    hide Sinks;
    var s := Sinks(chain);
    if i < |s| {
      FindIs(s, id, i);
    }
  }
}
