/** What the Var Inspector's change log holds and how one reported change
    enters it: the decision to drop, log or highlight a change, the tick
    header placed before the first change of a new tick, and the bound of
    `MAX_LOG_ENTRIES` rows with the oldest rows evicted first. */
module VarLog {
  import opened JavaLang
  import opened VarKeys
  import opened NameRules

  const MAX_LOG_ENTRIES: nat := 10_000

  /** One row of the tracker panel: a tick header or a change line. */
  datatype Entry =
    | Header(tick: int)
    | Line(kind: VarType, name: string, before: string, after: string, highlight: bool)

  /** The text of the row's label: "Tick n" for a header, and
      "<kind> <name> changed: <before> -> <after>" for a change line. */
  function EntryText(e: Entry): (t: string)
    ensures e.Header? ==> StartsWith(t, "Tick ") && t[5..] == DecimalString(e.tick)
    ensures e.Line? ==> StartsWith(t, TypeName(e.kind) + " " + e.name + " changed: ")
  {
    match e
    case Header(tick) => "Tick " + DecimalString(tick)
    case Line(kind, name, before, after, _) =>
      var t := TypeName(kind) + " " + name + " changed: " + before + " -> " + after;
      assert t[..|TypeName(kind) + " " + name + " changed: "|] == TypeName(kind) + " " + name + " changed: ";
      t
  }

  /** Headers of different ticks read differently. */
  lemma {:induction false} HeaderTextInjective(t1: int, t2: int)
    ensures EntryText(Header(t1)) == EntryText(Header(t2)) <==> t1 == t2
  {
    if EntryText(Header(t1)) == EntryText(Header(t2)) {
      var lo := if t1 < t2 then t1 else t2;
      var hi := if t1 < t2 then t2 else t1;
      ParseDecimalString(t1, lo, hi);
      ParseDecimalString(t2, lo, hi);
    }
  }

  /** The tracker's rows together with the tick of the last header. */
  datatype Log = Log(entries: seq<Entry>, lastTick: int)

  /** Everything that decides whether a change is shown: the per-kind check
      boxes, the blacklisted and highlighted keys, and the two name-rule sets. */
  datatype Filter = Filter(
    enabled: set<VarType>,
    blacklist: set<Int64>,
    highlights: set<Int64>,
    blacklistNames: set<string>,
    highlightNames: set<string>)

  datatype Decision = Drop | Show(highlight: bool)

  /** The guards at the start of `addVarLog`. */
  function Decide(f: Filter, kind: VarType, id: Int32, name: string): (d: Decision)
    ensures d.Drop? <==>
      kind !in f.enabled || Key(kind, id) in f.blacklist || AnyRuleMatches(f.blacklistNames, Some(name))
    ensures d.Show? ==>
      (d.highlight <==> Key(kind, id) in f.highlights || AnyRuleMatches(f.highlightNames, Some(name)))
  {
    if kind !in f.enabled then Drop
    else if Key(kind, id) in f.blacklist || AnyRuleMatches(f.blacklistNames, Some(name)) then Drop
    else Show(Key(kind, id) in f.highlights || AnyRuleMatches(f.highlightNames, Some(name)))
  }

  /** The rows left after removing the first row while there are more than
      `MAX_LOG_ENTRIES`. */
  function KeepNewest(s: seq<Entry>): (r: seq<Entry>)
    ensures |r| <= MAX_LOG_ENTRIES
    ensures |r| <= |s| && r == s[|s| - |r|..]
    ensures |s| <= MAX_LOG_ENTRIES ==> r == s
    ensures |s| > MAX_LOG_ENTRIES ==> |r| == MAX_LOG_ENTRIES
  {
    if |s| <= MAX_LOG_ENTRIES then s else s[|s| - MAX_LOG_ENTRIES..]
  }

  /** The rows a change adds: a header first when its tick is new. */
  function NewRows(lastTick: int, tick: int, line: Entry): (rows: seq<Entry>)
    ensures |rows| > 0 && rows[|rows| - 1] == line
    ensures |rows| == 2 <==> tick != lastTick
    ensures |rows| <= 2 && (tick != lastTick ==> rows[0] == Header(tick))
  {
    if tick != lastTick then [Header(tick), line] else [line]
  }

  /** The body of the `invokeLater` task in `addVarLog`. */
  function Append(log: Log, tick: int, line: Entry): (r: Log)
    ensures r.lastTick == tick
    ensures |r.entries| <= MAX_LOG_ENTRIES
    ensures |r.entries| > 0 && r.entries[|r.entries| - 1] == line
  {
    var all := log.entries + NewRows(log.lastTick, tick, line);
    var kept := KeepNewest(all);
    assert all[|all| - 1] == line;
    assert kept[|kept| - 1] == all[|all| - 1];
    Log(kept, tick)
  }

  /** `addVarLog`, with the tick read from the client. */
  function Record(log: Log, f: Filter, kind: VarType, id: Int32, name: string,
                  before: string, after: string, tick: int): (r: Log)
    ensures Decide(f, kind, id, name).Drop? ==> r == log
    ensures r == log || (r.lastTick == tick && |r.entries| <= MAX_LOG_ENTRIES)
  {
    match Decide(f, kind, id, name)
    case Drop => log
    case Show(h) => Append(log, tick, Line(kind, name, before, after, h))
  }

  /** A dropped change leaves the log as it was; a shown one becomes its last row. */
  lemma {:induction false} RecordEffect(log: Log, f: Filter, kind: VarType, id: Int32, name: string,
                                        before: string, after: string, tick: int)
    ensures var r := Record(log, f, kind, id, name, before, after, tick);
      Decide(f, kind, id, name).Drop? ==> r == log
    ensures var r := Record(log, f, kind, id, name, before, after, tick);
      Decide(f, kind, id, name).Show? ==>
        r.lastTick == tick && |r.entries| > 0 &&
        r.entries[|r.entries| - 1] == Line(kind, name, before, after, Decide(f, kind, id, name).highlight)
  {
    match Decide(f, kind, id, name)
    case Drop =>
    case Show(h) =>
      var line := Line(kind, name, before, after, h);
      AppendEndsWith(log, tick, line);
  }

  /** Whatever was appended, the log ends with the new line, preceded by a
      header for its tick when the tick was new. */
  lemma {:induction false} AppendEndsWith(log: Log, tick: int, line: Entry)
    ensures var r := Append(log, tick, line);
      |r.entries| > 0 && r.entries[|r.entries| - 1] == line
    ensures var r := Append(log, tick, line);
      tick != log.lastTick ==> |r.entries| >= 2 && r.entries[|r.entries| - 2] == Header(tick)
  {
    var all := log.entries + NewRows(log.lastTick, tick, line);
    var r := Append(log, tick, line).entries;
    assert r == KeepNewest(all);
    if tick != log.lastTick {
      assert all[|all| - 2] == Header(tick);
      assert r[|r| - 2] == all[|all| - 2];
    }
  }

  /** A change within the current tick adds no header: every row after it
      is an old row or the new line. */
  lemma {:induction false} SameTickNoHeader(log: Log, tick: int, line: Entry)
    requires tick == log.lastTick
    ensures Append(log, tick, line).entries == KeepNewest(log.entries + [line])
    ensures forall e :: e in Append(log, tick, line).entries ==> e in log.entries || e == line
  {
    var all := log.entries + [line];
    assert NewRows(log.lastTick, tick, line) == [line];
    var r := Append(log, tick, line).entries;
    assert r == KeepNewest(all);
    var k := |all| - |r|;
    forall e | e in r ensures e in log.entries || e == line {
      var i :| 0 <= i < |r| && r[i] == e;
      assert r[i] == all[k + i];
      if k + i < |log.entries| {
        assert all[k + i] == log.entries[k + i];
      }
    }
  }

  /** Eviction only removes rows from the front, and only once the log is full. */
  lemma {:induction false} AppendEvictsOldest(log: Log, tick: int, line: Entry)
    ensures var all := log.entries + NewRows(log.lastTick, tick, line);
      var r := Append(log, tick, line).entries;
      (|all| <= MAX_LOG_ENTRIES ==> r == all) &&
      (|all| > MAX_LOG_ENTRIES ==> |r| == MAX_LOG_ENTRIES && r == all[|all| - MAX_LOG_ENTRIES..])
  {
  }

  // ---------------------------------------------------------------------
  // Labels of the handlers
  // ---------------------------------------------------------------------

  /** `names.getOrDefault(id, Integer.toString(id))`. */
  function NameOrId(names: map<int, string>, id: int): string {
    if id in names then names[id] else DecimalString(id)
  }

  /** The varp label: its name followed by "(index)", or the bare index. */
  function VarpName(names: map<int, string>, index: int): string {
    if index in names then names[index] + "(" + DecimalString(index) + ")" else DecimalString(index)
  }

  /** A VarClientStr value as logged: quoted, or "null". */
  function Quoted(s: Option<string>): string {
    match s
    case None => "null"
    case Some(v) => "\"" + v + "\""
  }

  lemma {:induction false} QuotedInjective(a: Option<string>, b: Option<string>)
    ensures Quoted(a) == Quoted(b) <==> a == b
  {
    if a.Some? {
      var qa := Quoted(a);
      assert qa[0] == '"' && qa[1..|qa| - 1] == a.value;
    }
    if b.Some? {
      var qb := Quoted(b);
      assert qb[0] == '"' && qb[1..|qb| - 1] == b.value;
    }
    assert Quoted(None)[0] == 'n';
  }

  // ---------------------------------------------------------------------
  // The varbit pass of onVarbitChanged
  // ---------------------------------------------------------------------

  /** One turn of the loop over the varbits of a varp: varbit `i` reads
      `getBits(word, i)`, and a changed varbit is logged and written into the
      second snapshot word `acc.0` with `setBits`. These two stand for
      `client.getVarbitValue` and `client.setVarbitValue` on the varp word
      that holds the varbit. */
  function VarbitStep(acc: (int, Log), f: Filter, names: map<int, string>, i: Int32,
                      oldWord: int, newWord: int,
                      getBits: (int, int) -> int, setBits: (int, int, int) -> int, tick: int): (int, Log)
  {
    var before := getBits(oldWord, i);
    var after := getBits(newWord, i);
    if before != after then
      (setBits(acc.0, i, after),
       Record(acc.1, f, Varbit, i, NameOrId(names, i), DecimalString(before), DecimalString(after), tick))
    else acc
  }

  /** The second snapshot word and the log after the loop over the varbits
      `ids` of a varp, starting from `word2` and `log`. */
  function VarbitPass(log: Log, f: Filter, names: map<int, string>, ids: seq<Int32>,
                      oldWord: int, newWord: int, word2: int,
                      getBits: (int, int) -> int, setBits: (int, int, int) -> int, tick: int): (int, Log)
    decreases |ids|
  {
    if ids == [] then (word2, log)
    else
      VarbitStep(VarbitPass(log, f, names, ids[..|ids| - 1], oldWord, newWord, word2, getBits, setBits, tick),
                 f, names, ids[|ids| - 1], oldWord, newWord, getBits, setBits, tick)
  }

  /** The pass over one more varbit is one more step. */
  lemma {:induction false} VarbitPassExtend(log: Log, f: Filter, names: map<int, string>, ids: seq<Int32>, j: nat,
                                            oldWord: int, newWord: int, word2: int,
                                            getBits: (int, int) -> int, setBits: (int, int, int) -> int, tick: int)
    requires j < |ids|
    ensures VarbitPass(log, f, names, ids[..j + 1], oldWord, newWord, word2, getBits, setBits, tick) ==
      VarbitStep(VarbitPass(log, f, names, ids[..j], oldWord, newWord, word2, getBits, setBits, tick),
                 f, names, ids[j], oldWord, newWord, getBits, setBits, tick)
  {
    assert ids[..j + 1][..j] == ids[..j];
  }

  /** When no varbit of the varp changed, the pass logs nothing and leaves the second snapshot as it was. */
  lemma {:induction false} UnchangedVarbitsLogNothing(log: Log, f: Filter, names: map<int, string>, ids: seq<Int32>,
                                                      oldWord: int, newWord: int, word2: int,
                                                      getBits: (int, int) -> int, setBits: (int, int, int) -> int, tick: int)
    requires forall j :: 0 <= j < |ids| ==> getBits(oldWord, ids[j]) == getBits(newWord, ids[j])
    ensures VarbitPass(log, f, names, ids, oldWord, newWord, word2, getBits, setBits, tick) == (word2, log)
    decreases |ids|
  {
    if ids != [] {
      UnchangedVarbitsLogNothing(log, f, names, ids[..|ids| - 1], oldWord, newWord, word2, getBits, setBits, tick);
    }
  }

  /** The varp part of `onVarbitChanged`: compare the second snapshot word
      (already brought up to date for the changed varbits) with the new value. */
  function VarpChange(log: Log, f: Filter, names: map<int, string>, index: Int32,
                      word2: int, newWord: int, tick: int): Log
  {
    if word2 != newWord then
      Record(log, f, Varp, index, VarpName(names, index), DecimalString(word2), DecimalString(newWord), tick)
    else log
  }
}
