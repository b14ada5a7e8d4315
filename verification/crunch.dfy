/** `log_crunch`: the four optional stages applied, in a fixed order, to the
    table read from the input log. Each stage is a pure function of the
    previous stage's output; a stage whose column is absent fails the run
    (the source's uncaught `KeyError`, after which no output is written). */
module Crunch {
  import opened Outcomes
  import opened Seqs
  import opened Frame
  import opened IpAddr
  import opened Dns

  /** The settings `log_crunch` receives, already read from the
      configuration file. */
  datatype Config = Config(
    dedupeEnabled: bool, dedupeColumn: string,
    dropEmptyEnabled: bool,
    dropEnabled: bool, drop: seq<string>,
    nsEnabled: bool, nsFrom: string, nsTo: string)

  datatype CrunchError = MissingColumn(name: string)

  /** The table written to the output file, and the addresses sent to the
      PTR resolver on the way, in the order they were sent. */
  datatype Crunched = Crunched(table: Table, queries: seq<string>)

  // ---------------------------------------------------------------------
  // Stage 1: drop the columns in which every cell is missing
  // ---------------------------------------------------------------------

  /** Drops every column whose cells are all missing, judged over the whole
      table. A column with one present cell anywhere survives. */
  function DropEmptyColumns(t: Table): (u: Table)
    requires WellFormed(t)
    ensures WellFormed(u)
    ensures exists idx :: KeepsColumns(t, u, idx)
    ensures forall c :: c in u.columns <==> c in t.columns && !AllMissing(ColumnOf(t, c))
  {
    var keep := NonEmptyMask(t);
    ProjectSelected(t, keep);
    var u := Project(t, Selected(keep));
    assert forall c :: c in t.columns ==>
      (keep[IndexOf(t.columns, c)] <==> !AllMissing(ColumnOf(t, c)));
    u
  }

  /** For each column position, whether some row has a cell there. */
  function NonEmptyMask(t: Table): (keep: seq<bool>)
    requires WellFormed(t)
    ensures |keep| == |t.columns|
  {
    seq(|t.columns|, j requires 0 <= j < |t.columns| =>
          exists i | 0 <= i < |t.rows| :: t.rows[i][j] != Missing)
  }

  // ---------------------------------------------------------------------
  // Stage 2: drop the configured columns, ignoring absent names
  // ---------------------------------------------------------------------

  /** Drops every column named in `names`; a name that is not a column is
      ignored. */
  function DropColumns(t: Table, names: seq<string>): (u: Table)
    requires WellFormed(t)
    ensures WellFormed(u)
    ensures exists idx :: KeepsColumns(t, u, idx)
    ensures forall c :: c in u.columns <==> c in t.columns && c !in names
  {
    var keep := DropMask(t, names);
    ProjectSelected(t, keep);
    Project(t, Selected(keep))
  }

  /** For each column position, whether its name is not listed in `names`. */
  function DropMask(t: Table, names: seq<string>): (keep: seq<bool>)
    ensures |keep| == |t.columns|
  {
    seq(|t.columns|, j requires 0 <= j < |t.columns| => t.columns[j] !in names)
  }

  // ---------------------------------------------------------------------
  // Stage 3: keep the first row for each value of the key column
  // ---------------------------------------------------------------------

  /** Row `i` is the first row holding its key. */
  ghost predicate IsFirst(keys: seq<Cell>, i: nat)
    requires i < |keys|
  {
    keys[i] !in keys[..i]
  }

  /** `idx` lists, in increasing order, exactly the rows that are the first
      to hold their key. */
  ghost predicate FirstOccurrences(keys: seq<Cell>, idx: seq<nat>)
  {
    && StrictlyIncreasing(idx)
    && (forall k :: 0 <= k < |idx| ==> idx[k] < |keys| && IsFirst(keys, idx[k]))
    && (forall i :: 0 <= i < |keys| && IsFirst(keys, i) ==> i in idx)
  }

  /** `out` is `rows` with every row dropped whose key (a missing key
      included) already occurred in an earlier row. */
  ghost predicate KeepsFirstPerKey<T>(keys: seq<Cell>, rows: seq<T>, out: seq<T>)
  {
    && |keys| == |rows|
    && exists idx :: FirstOccurrences(keys, idx) && |idx| <= |keys| && out == Pick(rows, idx)
  }

  /** The scan behind `drop_duplicates(keep='first')`: walks the rows from
      `i` on, remembering the keys `seen` so far, and lists the rows whose
      key has not been seen. */
  function FirstIndices(keys: seq<Cell>, i: nat, seen: set<Cell>): (idx: seq<nat>)
    requires i <= |keys|
    requires forall x :: x in seen <==> x in keys[..i]
    ensures StrictlyIncreasing(idx)
    ensures |idx| <= |keys| - i
    ensures forall m :: 0 <= m < |idx| ==> i <= idx[m] < |keys| && IsFirst(keys, idx[m])
    ensures forall k :: i <= k < |keys| && IsFirst(keys, k) ==> k in idx
    decreases |keys| - i
  {
    if i == |keys| then []
    else
      var seen' := seen + {keys[i]};
      assert keys[..i + 1] == keys[..i] + [keys[i]];
      if keys[i] in seen then FirstIndices(keys, i + 1, seen')
      else [i] + FirstIndices(keys, i + 1, seen')
  }

  /** `drop_duplicates(subset=col, keep='first')`. pandas hands an empty
      frame back unchanged before it looks at `subset`, so the key column is
      only required of a frame with rows and columns. */
  function Dedupe(t: Table, col: string): (r: Result<Table, CrunchError>)
    requires WellFormed(t)
    ensures r.Success? <==> col in t.columns || IsEmpty(t)
    ensures r.Failure? ==> r.error == MissingColumn(col)
    ensures r.Success? ==>
      && WellFormed(r.value)
      && r.value.columns == t.columns
      && |r.value.rows| <= |t.rows|
      && (col in t.columns ==> KeepsFirstPerKey(ColumnOf(t, col), t.rows, r.value.rows))
      && (col !in t.columns ==> r.value == t)
  {
    if IsEmpty(t) then
      assert col in t.columns ==> FirstOccurrences(ColumnOf(t, col), []) && t.rows == Pick(t.rows, []);
      Success(t)
    else if col !in t.columns then Failure(MissingColumn(col))
    else
      var keys := ColumnOf(t, col);
      var idx := FirstIndices(keys, 0, {});
      var u := Table(t.columns, Pick(t.rows, idx));
      assert FirstOccurrences(keys, idx);
      Success(u)
  }

  // ---------------------------------------------------------------------
  // Stage 4: write the hostname of each row's address into a column
  // ---------------------------------------------------------------------

  /** The addresses a row-by-row lookup of `hosts` sends to the PTR
      resolver: every IPv4 address, in row order, as often as it occurs. */
  function QueryLog(parse: string -> ParseOutcome, hosts: seq<Cell>): (q: seq<string>)
  {
    QueryLogFrom(parse, hosts, 0)
  }

  /** The query log of the rows from `i` on. */
  function QueryLogFrom(parse: string -> ParseOutcome, hosts: seq<Cell>, i: nat): (q: seq<string>)
    requires i <= |hosts|
    decreases |hosts| - i
  {
    if i == |hosts| then []
    else
      (if ValidateCell(parse, hosts[i]) == IPV4 then [hosts[i].text] else [])
      + QueryLogFrom(parse, hosts, i + 1)
  }

  /** The lookup loop from row `i` on: the hostname `nslookup_ip` gives for
      each address, in row order, and the queries sent along the way. */
  function LookupsFrom(parse: string -> ParseOutcome, ptr: (DnsSetting, string) -> PtrAnswer,
                       setting: DnsSetting, hosts: seq<Cell>, i: nat): (r: (seq<Cell>, seq<string>))
    requires i <= |hosts|
    ensures |r.0| == |hosts| - i
    ensures forall k :: 0 <= k < |r.0| ==> r.0[k] == Val(NsLookup(parse, ptr, setting, hosts[i + k]).display)
    ensures r.1 == QueryLogFrom(parse, hosts, i)
    decreases |hosts| - i
  {
    if i == |hosts| then ([], [])
    else
      var lookup := NsLookup(parse, ptr, setting, hosts[i]);
      var rest := LookupsFrom(parse, ptr, setting, hosts, i + 1);
      ([Val(lookup.display)] + rest.0, lookup.queries + rest.1)
  }

  /** The DNS stage: column `to` receives, row by row, the lookup result for
      the address in column `from`; it is appended when absent and
      overwritten when present. Every other cell, and the rows and their
      order, are unchanged. */
  function Enrich(parse: string -> ParseOutcome, ptr: (DnsSetting, string) -> PtrAnswer,
                  setting: DnsSetting, t: Table, from: string, to: string)
    : (r: Result<Crunched, CrunchError>)
    requires WellFormed(t)
    ensures r.Success? <==> from in t.columns
    ensures r.Failure? ==> r.error == MissingColumn(from)
    ensures r.Success? ==>
      var u := r.value.table;
      && WellFormed(u)
      && u.columns == (if to in t.columns then t.columns else t.columns + [to])
      && |u.rows| == |t.rows|
      && (forall i :: 0 <= i < |t.rows| ==>
            ColumnOf(u, to)[i] == Val(NsLookup(parse, ptr, setting, ColumnOf(t, from)[i]).display))
      && (forall c :: c in t.columns && c != to ==> ColumnOf(u, c) == ColumnOf(t, c))
      && r.value.queries == QueryLog(parse, ColumnOf(t, from))
  {
    if from !in t.columns then Failure(MissingColumn(from))
    else
      var (result, queries) := LookupsFrom(parse, ptr, setting, ColumnOf(t, from), 0);
      Success(Crunched(SetColumn(t, to, result), queries))
  }

  // ---------------------------------------------------------------------
  // The pipeline
  // ---------------------------------------------------------------------

  /** Column `c` of the input survives both drop stages under `cfg`. */
  ghost predicate Survives(t: Table, cfg: Config, c: string)
    requires WellFormed(t)
  {
    && c in t.columns
    && (cfg.dropEmptyEnabled ==> !AllMissing(ColumnOf(t, c)))
    && (cfg.dropEnabled ==> c !in cfg.drop)
  }

  /** The table both drop stages leave. */
  function Dropped(t: Table, cfg: Config): (u: Table)
    requires WellFormed(t)
    ensures WellFormed(u) && |u.rows| == |t.rows|
    ensures exists idx :: KeepsColumns(t, u, idx)
    ensures forall c :: c in u.columns <==> Survives(t, cfg, c)
    ensures forall c :: c in u.columns ==> ColumnOf(u, c) == ColumnOf(t, c)
  {
    var t1 := if cfg.dropEmptyEnabled then DropEmptyColumns(t) else t;
    var t2 := if cfg.dropEnabled then DropColumns(t1, cfg.drop) else t1;
    KeepsColumnsChain(t, t1, t2);
    KeptColumnsUnchanged(t, t2);
    assert forall c :: c in t2.columns ==> c in t1.columns;
    assert forall c :: c in t1.columns ==> ColumnOf(t1, c) == ColumnOf(t, c) by {
      KeepsColumnsChain(t, t1, t1);
      KeptColumnsUnchanged(t, t1);
    }
    t2
  }

  /** The deduplication stage stops the run: it is enabled, its column did
      not survive the drops, and the frame they leave is not empty. */
  ghost predicate DedupeFails(t: Table, cfg: Config)
    requires WellFormed(t)
  {
    && cfg.dedupeEnabled
    && !Survives(t, cfg, cfg.dedupeColumn)
    && !IsEmpty(Dropped(t, cfg))
  }

  /** `log_crunch`: empty-column drop, then configured-column drop, then
      deduplication, then DNS enrichment, each only when enabled. */
  function LogCrunch(parse: string -> ParseOutcome, ptr: (DnsSetting, string) -> PtrAnswer,
                     setting: DnsSetting, cfg: Config, t: Table): (r: Result<Crunched, CrunchError>)
    requires WellFormed(t)
    ensures r.Failure? <==> DedupeFails(t, cfg) || (cfg.nsEnabled && !Survives(t, cfg, cfg.nsFrom))
    ensures r.Failure? ==>
      r.error == MissingColumn(if DedupeFails(t, cfg) then cfg.dedupeColumn else cfg.nsFrom)
    ensures r.Success? ==> WellFormed(r.value.table)
  {
    var dropped := Dropped(t, cfg);
    match DedupeStage(dropped, cfg)
    case Failure(e) => Failure(e)
    case Success(t3) =>
      if cfg.nsEnabled then Enrich(parse, ptr, setting, t3, cfg.nsFrom, cfg.nsTo)
      else Success(Crunched(t3, []))
  }

  /** The deduplication stage, the identity when it is disabled. */
  function DedupeStage(t: Table, cfg: Config): (r: Result<Table, CrunchError>)
    requires WellFormed(t)
    ensures r.Success? <==> !cfg.dedupeEnabled || cfg.dedupeColumn in t.columns || IsEmpty(t)
    ensures r.Failure? ==> r.error == MissingColumn(cfg.dedupeColumn)
    ensures r.Success? ==>
      && WellFormed(r.value) && r.value.columns == t.columns
      && |r.value.rows| <= |t.rows|
      && (!cfg.dedupeEnabled || cfg.dedupeColumn !in t.columns ==> r.value == t)
      && (cfg.dedupeEnabled && cfg.dedupeColumn in t.columns ==>
            KeepsFirstPerKey(ColumnOf(t, cfg.dedupeColumn), t.rows, r.value.rows))
  {
    if cfg.dedupeEnabled then Dedupe(t, cfg.dedupeColumn) else Success(t)
  }

  /** `main`: configure the nameserver, starting from the system default,
      then crunch the log with lookups sent to the resulting setting. */
  function Run(parse: string -> ParseOutcome, ptr: (DnsSetting, string) -> PtrAnswer,
               server: Option<ServerConfig>, cfg: Config, t: Table): (r: Result<Crunched, CrunchError>)
    requires WellFormed(t)
    ensures
      if server.Some? && server.value.enabled && ValidateIp(parse, server.value.address) == IPV4
      then r == LogCrunch(parse, ptr, Custom([server.value.address]), cfg, t)
      else r == LogCrunch(parse, ptr, SystemDefault, cfg, t)
  {
    var (setting, _) := CheckCustomDns(parse, server, SystemDefault);
    LogCrunch(parse, ptr, setting, cfg, t)
  }
}
