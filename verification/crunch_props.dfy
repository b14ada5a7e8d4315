/** Properties of the log-crunching stages and of the whole pipeline. */
module CrunchProps {
  import opened Outcomes
  import opened Seqs
  import opened Frame
  import opened IpAddr
  import opened Dns
  import opened Crunch

  // ---------------------------------------------------------------------
  // Empty-column drop
  // ---------------------------------------------------------------------

  /** After the empty columns are gone no column is empty, so a second
      pass changes nothing. */
  lemma DropEmptyColumnsIdempotent(t: Table)
    requires WellFormed(t)
    ensures DropEmptyColumns(DropEmptyColumns(t)) == DropEmptyColumns(t)
  {
    var u := DropEmptyColumns(t);
    var idx :| KeepsColumns(t, u, idx);
    var keep := NonEmptyMask(u);
    forall j | 0 <= j < |keep|
      ensures keep[j]
    {
      var c := u.columns[j];
      KeptColumnUnchanged(t, u, idx, c);
      assert !AllMissing(ColumnOf(u, c));
      DistinctIndex(u.columns, j);
      var i :| 0 <= i < |ColumnOf(u, c)| && ColumnOf(u, c)[i] != Missing;
      assert u.rows[i][j] != Missing;
    }
    ProjectAll(u, keep);
  }

  // ---------------------------------------------------------------------
  // Configured-column drop
  // ---------------------------------------------------------------------

  /** Dropping names none of which is a column leaves the table as it is. */
  lemma DropColumnsIgnoresAbsent(t: Table, names: seq<string>)
    requires WellFormed(t)
    requires forall c :: c in names ==> c !in t.columns
    ensures DropColumns(t, names) == t
  {
    var keep := DropMask(t, names);
    assert forall j :: 0 <= j < |keep| ==> keep[j];
    ProjectAll(t, keep);
  }

  /** Only the set of listed names matters: repeating a name, or listing the
      names in another order, drops the same columns. */
  lemma DropColumnsSetSemantics(t: Table, names: seq<string>, names': seq<string>)
    requires WellFormed(t)
    requires forall c :: c in names <==> c in names'
    ensures DropColumns(t, names) == DropColumns(t, names')
  {
    assert DropMask(t, names) == DropMask(t, names');
  }

  /** Dropping the same names twice is the same as dropping them once. */
  lemma DropColumnsIdempotent(t: Table, names: seq<string>)
    requires WellFormed(t)
    ensures DropColumns(DropColumns(t, names), names) == DropColumns(t, names)
  {
    DropColumnsIgnoresAbsent(DropColumns(t, names), names);
  }

  // ---------------------------------------------------------------------
  // Deduplication
  // ---------------------------------------------------------------------

  /** Picking the first occurrences of the keys gives no key twice. */
  lemma FirstOccurrencesDistinct(keys: seq<Cell>, idx: seq<nat>)
    requires FirstOccurrences(keys, idx)
    ensures Distinct(Pick(keys, idx))
  {
    var out := Pick(keys, idx);
    forall a, b | 0 <= a < b < |out|
      ensures out[a] != out[b]
    {
      assert IsFirst(keys, idx[b]);
      assert keys[..idx[b]][idx[a]] == keys[idx[a]];
    }
  }

  /** Picking the first occurrences of the keys keeps every key. */
  lemma FirstOccurrencesCover(keys: seq<Cell>, idx: seq<nat>)
    requires FirstOccurrences(keys, idx)
    ensures forall x :: x in keys <==> x in Pick(keys, idx)
  {
    var out := Pick(keys, idx);
    forall x | x in keys
      ensures x in out
    {
      var f := IndexOf(keys, x);
      assert IsFirst(keys, f);
      var k :| 0 <= k < |idx| && idx[k] == f;
      assert out[k] == x;
    }
  }

  /** A position that is the first to hold its key is where `IndexOf`
      finds that key. */
  lemma FirstIsIndexOf(keys: seq<Cell>, i: nat)
    requires i < |keys| && IsFirst(keys, i)
    ensures IndexOf(keys, keys[i]) == i
  {
  }

  /** The positions deduplication keeps, and the keys and rows at them. */
  lemma DedupeWitness(t: Table, col: string) returns (idx: seq<nat>)
    requires WellFormed(t) && col in t.columns
    ensures Dedupe(t, col).Success?
    ensures FirstOccurrences(ColumnOf(t, col), idx)
    ensures Dedupe(t, col).value.rows == Pick(t.rows, idx)
    ensures ColumnOf(Dedupe(t, col).value, col) == Pick(ColumnOf(t, col), idx)
  {
    var u := Dedupe(t, col).value;
    var keys := ColumnOf(t, col);
    idx :| FirstOccurrences(keys, idx) && |idx| <= |keys| && u.rows == Pick(t.rows, idx);
    ColumnOfPickedRows(t, idx, IndexOf(t.columns, col));
  }

  /** No two rows left by deduplication share a key. */
  lemma DedupeKeysUnique(t: Table, col: string)
    requires WellFormed(t) && col in t.columns
    ensures Dedupe(t, col).Success?
    ensures Distinct(ColumnOf(Dedupe(t, col).value, col))
  {
    var idx := DedupeWitness(t, col);
    FirstOccurrencesDistinct(ColumnOf(t, col), idx);
  }

  /** Every key of the input is still present after deduplication, and no
      other key is. */
  lemma DedupeKeepsEveryKey(t: Table, col: string)
    requires WellFormed(t) && col in t.columns
    ensures Dedupe(t, col).Success?
    ensures forall x :: x in ColumnOf(t, col) <==> x in ColumnOf(Dedupe(t, col).value, col)
  {
    var idx := DedupeWitness(t, col);
    FirstOccurrencesCover(ColumnOf(t, col), idx);
  }

  /** The row kept for each key is the first input row holding that key. */
  lemma DedupeKeepsFirstRow(t: Table, col: string)
    requires WellFormed(t) && col in t.columns
    ensures Dedupe(t, col).Success?
    ensures var u := Dedupe(t, col).value;
      forall k :: 0 <= k < |u.rows| ==>
        var x := ColumnOf(u, col)[k];
        x in ColumnOf(t, col) && u.rows[k] == t.rows[IndexOf(ColumnOf(t, col), x)]
  {
    var idx := DedupeWitness(t, col);
    var u := Dedupe(t, col).value;
    var keys := ColumnOf(t, col);
    forall k | 0 <= k < |u.rows|
      ensures ColumnOf(u, col)[k] in keys
      ensures u.rows[k] == t.rows[IndexOf(keys, ColumnOf(u, col)[k])]
    {
      FirstIsIndexOf(keys, idx[k]);
    }
  }

  /** On keys that are already unique the scan keeps every row. */
  lemma {:induction false} FirstIndicesOfDistinct(keys: seq<Cell>, i: nat, seen: set<Cell>)
    requires Distinct(keys) && i <= |keys|
    requires forall x :: x in seen <==> x in keys[..i]
    ensures var idx := FirstIndices(keys, i, seen);
      |idx| == |keys| - i && forall m :: 0 <= m < |idx| ==> idx[m] == i + m
    decreases |keys| - i
  {
    if i < |keys| {
      var seen' := FirstIndicesStep(keys, i, seen);
      FirstIndicesOfDistinct(keys, i + 1, seen');
    }
  }

  /** With distinct keys, row `i` is unseen, so the scan keeps it and goes
      on with its key added to the seen set. */
  lemma FirstIndicesStep(keys: seq<Cell>, i: nat, seen: set<Cell>) returns (seen': set<Cell>)
    requires Distinct(keys) && i < |keys|
    requires forall x :: x in seen <==> x in keys[..i]
    ensures forall x :: x in seen' <==> x in keys[..i + 1]
    ensures FirstIndices(keys, i, seen) == [i] + FirstIndices(keys, i + 1, seen')
  {
    seen' := seen + {keys[i]};
    assert keys[..i + 1] == keys[..i] + [keys[i]];
    forall m | 0 <= m < i
      ensures keys[..i][m] != keys[i]
    {
    }
    assert keys[i] !in seen;
  }

  /** A table whose keys are already unique is left as it is. */
  lemma DedupeOfUniqueKeys(u: Table, col: string)
    requires WellFormed(u) && col in u.columns
    requires Distinct(ColumnOf(u, col))
    ensures Dedupe(u, col) == Success(u)
  {
    var keys := ColumnOf(u, col);
    FirstIndicesOfDistinct(keys, 0, {});
    var all := FirstIndices(keys, 0, {});
    assert all == seq(|u.rows|, k => k);
    assert Pick(u.rows, all) == u.rows;
  }

  /** Deduplicating twice on the same column is deduplicating once. */
  lemma DedupeIdempotent(t: Table, col: string)
    requires WellFormed(t) && col in t.columns
    ensures Dedupe(t, col).Success?
    ensures Dedupe(Dedupe(t, col).value, col) == Dedupe(t, col)
  {
    DedupeKeysUnique(t, col);
    DedupeOfUniqueKeys(Dedupe(t, col).value, col);
  }

  /** The first-occurrence scan over the keys A, B, A keeps rows 0 and 1. */
  lemma FirstIndicesExample()
    ensures FirstIndices([Val("A"), Val("B"), Val("A")], 0, {}) == [0, 1]
  {
    var keys := [Val("A"), Val("B"), Val("A")];
    assert keys[..0] == [];
  }

  /** Rows (A,1), (B,2), (A,3) deduplicated on the key keep (A,1), (B,2). */
  lemma DedupeExample()
    ensures
      var t := Table(["key", "v"], [[Val("A"), Val("1")], [Val("B"), Val("2")], [Val("A"), Val("3")]]);
      Dedupe(t, "key") == Success(Table(["key", "v"], [[Val("A"), Val("1")], [Val("B"), Val("2")]]))
  {
    var t := Table(["key", "v"], [[Val("A"), Val("1")], [Val("B"), Val("2")], [Val("A"), Val("3")]]);
    assert WellFormed(t);
    assert IndexOf(t.columns, "key") == 0;
    assert ColumnOf(t, "key") == [Val("A"), Val("B"), Val("A")];
    FirstIndicesExample();
    assert Pick(t.rows, [0, 1]) == [[Val("A"), Val("1")], [Val("B"), Val("2")]];
  }

  // ---------------------------------------------------------------------
  // DNS enrichment
  // ---------------------------------------------------------------------

  /** The query log of the rows from `i` on counts every IPv4 row. */
  lemma {:induction false} QueryLogFromCounts(parse: string -> ParseOutcome, hosts: seq<Cell>, i: nat, a: string)
    requires i <= |hosts|
    ensures multiset(QueryLogFrom(parse, hosts, i))[a] ==
      if ValidateIp(parse, a) == IPV4 then multiset(hosts[i..])[Val(a)] else 0
    decreases |hosts| - i
  {
    if i < |hosts| {
      var h := hosts[i];
      QueryLogFromCounts(parse, hosts, i + 1, a);
      var head := if ValidateCell(parse, h) == IPV4 then [h.text] else [];
      var rest := QueryLogFrom(parse, hosts, i + 1);
      assert QueryLogFrom(parse, hosts, i) == head + rest;
      CountConcat(head, rest, a);
      assert hosts[i..] == [h] + hosts[i + 1..];
      CountConcat([h], hosts[i + 1..], Val(a));
      QueryOfRowCounts(parse, h, a);
    }
  }

  /** One row's contribution to the query log holds `a` once exactly when
      the row holds `a` and `a` is an IPv4 address. */
  lemma QueryOfRowCounts(parse: string -> ParseOutcome, h: Cell, a: string)
    ensures var head := if ValidateCell(parse, h) == IPV4 then [h.text] else [];
      multiset(head)[a] == if ValidateIp(parse, a) == IPV4 then multiset([h])[Val(a)] else 0
  {
  }

  /** Lookups are not cached: an IPv4 address is queried once for every row
      that holds it, and nothing but IPv4 addresses is queried. */
  lemma QueryLogCountsRows(parse: string -> ParseOutcome, hosts: seq<Cell>, a: string)
    ensures multiset(QueryLog(parse, hosts))[a] ==
      if ValidateIp(parse, a) == IPV4 then multiset(hosts)[Val(a)] else 0
  {
    QueryLogFromCounts(parse, hosts, 0, a);
    assert hosts[0..] == hosts;
  }

  // ---------------------------------------------------------------------
  // The pipeline
  // ---------------------------------------------------------------------

  /** With every stage disabled the table passes through unchanged and no
      lookup is made. */
  lemma DisabledStagesAreIdentity(parse: string -> ParseOutcome, ptr: (DnsSetting, string) -> PtrAnswer,
                                  setting: DnsSetting, cfg: Config, t: Table)
    requires WellFormed(t)
    requires !cfg.dropEmptyEnabled && !cfg.dropEnabled && !cfg.dedupeEnabled && !cfg.nsEnabled
    ensures LogCrunch(parse, ptr, setting, cfg, t) == Success(Crunched(t, []))
  {
  }

  /** The drops run before deduplication, so configuring the key column for
      dropping fails the run at the deduplication stage, unless the drops
      leave an empty frame. */
  lemma DroppedKeyFailsDedupe(parse: string -> ParseOutcome, ptr: (DnsSetting, string) -> PtrAnswer,
                              setting: DnsSetting, cfg: Config, t: Table)
    requires WellFormed(t)
    requires cfg.dedupeEnabled && cfg.dropEnabled && cfg.dedupeColumn in cfg.drop
    requires !IsEmpty(Dropped(t, cfg))
    ensures LogCrunch(parse, ptr, setting, cfg, t) == Failure(MissingColumn(cfg.dedupeColumn))
  {
  }

  /** When the drops leave an empty frame, deduplication passes it on
      whatever its key column, and without lookups the run succeeds with
      that frame. */
  lemma EmptyFrameSkipsKeyCheck(parse: string -> ParseOutcome, ptr: (DnsSetting, string) -> PtrAnswer,
                                setting: DnsSetting, cfg: Config, t: Table)
    requires WellFormed(t) && IsEmpty(Dropped(t, cfg)) && !cfg.nsEnabled
    ensures LogCrunch(parse, ptr, setting, cfg, t) == Success(Crunched(Dropped(t, cfg), []))
  {
    assert DedupeStage(Dropped(t, cfg), cfg) == Success(Dropped(t, cfg));
  }

  /** A header-only log whose key column is dropped as empty is written
      out as an empty frame. */
  lemma HeaderOnlyRunSucceeds(parse: string -> ParseOutcome, ptr: (DnsSetting, string) -> PtrAnswer,
                              setting: DnsSetting)
    ensures LogCrunch(parse, ptr, setting, Config(true, "a", true, false, [], false, "", ""), Table(["a"], []))
         == Success(Crunched(Table([], []), []))
  {
    var t := Table(["a"], []);
    var cfg := Config(true, "a", true, false, [], false, "", "");
    assert WellFormed(t);
    assert IsEmpty(Dropped(t, cfg));
    EmptyFrameSkipsKeyCheck(parse, ptr, setting, cfg, t);
    assert Dropped(t, cfg).columns == [];
  }

  /** On success, a column other than the lookup target is written exactly
      when it survives both enabled drops; the lookup target is written
      whenever lookups are enabled. */
  lemma CrunchColumns(parse: string -> ParseOutcome, ptr: (DnsSetting, string) -> PtrAnswer,
                      setting: DnsSetting, cfg: Config, t: Table)
    requires WellFormed(t)
    ensures var r := LogCrunch(parse, ptr, setting, cfg, t);
      r.Success? ==>
        && (forall c :: !(cfg.nsEnabled && c == cfg.nsTo) ==> (c in r.value.table.columns <==> Survives(t, cfg, c)))
        && (cfg.nsEnabled ==> cfg.nsTo in r.value.table.columns)
  {
    CrunchShape(parse, ptr, setting, cfg, t);
    var r := LogCrunch(parse, ptr, setting, cfg, t);
    if r.Success? {
      var d := Dropped(t, cfg);
      forall c | !(cfg.nsEnabled && c == cfg.nsTo)
        ensures c in r.value.table.columns <==> Survives(t, cfg, c)
      {
        assert c in r.value.table.columns <==> c in d.columns;
      }
    }
  }

  /** On success, the header written is the header the drops leave, with
      the lookup target appended when lookups are enabled and it is new. */
  lemma CrunchShape(parse: string -> ParseOutcome, ptr: (DnsSetting, string) -> PtrAnswer,
                    setting: DnsSetting, cfg: Config, t: Table)
    requires WellFormed(t)
    ensures var r := LogCrunch(parse, ptr, setting, cfg, t);
      var d := Dropped(t, cfg).columns;
      r.Success? ==>
        r.value.table.columns == if cfg.nsEnabled && cfg.nsTo !in d then d + [cfg.nsTo] else d
  {
  }

  /** Without deduplication, every written column other than the lookup
      target holds exactly the cells it had in the input. */
  lemma CrunchKeepsCells(parse: string -> ParseOutcome, ptr: (DnsSetting, string) -> PtrAnswer,
                         setting: DnsSetting, cfg: Config, t: Table)
    requires WellFormed(t) && !cfg.dedupeEnabled
    ensures var r := LogCrunch(parse, ptr, setting, cfg, t);
      r.Success? ==>
        forall c :: c in r.value.table.columns && !(cfg.nsEnabled && c == cfg.nsTo) ==>
          c in t.columns && ColumnOf(r.value.table, c) == ColumnOf(t, c)
  {
    var d := Dropped(t, cfg);
    var r := LogCrunch(parse, ptr, setting, cfg, t);
    assert DedupeStage(d, cfg) == Success(d);
    if r.Success? && cfg.nsEnabled {
      var u := r.value.table;
      assert u == Enrich(parse, ptr, setting, d, cfg.nsFrom, cfg.nsTo).value.table;
      forall c | c in u.columns && c != cfg.nsTo
        ensures c in t.columns && ColumnOf(u, c) == ColumnOf(t, c)
      {
        assert c in d.columns;
      }
    }
  }

  /** Rows are never added; without deduplication none is removed; without
      lookups no query is sent. */
  lemma CrunchRowCounts(parse: string -> ParseOutcome, ptr: (DnsSetting, string) -> PtrAnswer,
                        setting: DnsSetting, cfg: Config, t: Table)
    requires WellFormed(t)
    ensures var r := LogCrunch(parse, ptr, setting, cfg, t);
      r.Success? ==>
        && |r.value.table.rows| <= |t.rows|
        && (!cfg.dedupeEnabled ==> |r.value.table.rows| == |t.rows|)
        && (!cfg.nsEnabled ==> r.value.queries == [])
  {
  }

  /** A log whose only column is entirely missing loses that column, and
      its rows, now without cells, are written out. */
  lemma AllMissingRunSucceeds(parse: string -> ParseOutcome, ptr: (DnsSetting, string) -> PtrAnswer,
                              setting: DnsSetting)
    ensures LogCrunch(parse, ptr, setting, Config(true, "a", true, false, [], false, "", ""),
                      Table(["a"], [[Missing], [Missing]]))
         == Success(Crunched(Table([], [[], []]), []))
  {
    var t := Table(["a"], [[Missing], [Missing]]);
    var cfg := Config(true, "a", true, false, [], false, "", "");
    assert WellFormed(t);
    assert IndexOf(t.columns, "a") == 0;
    assert AllMissing(ColumnOf(t, "a"));
    var d := Dropped(t, cfg);
    assert d.columns == [];
    assert |d.rows[0]| == 0 && |d.rows[1]| == 0;
    assert d == Table([], [[], []]);
    EmptyFrameSkipsKeyCheck(parse, ptr, setting, cfg, t);
  }

  /** When the run succeeds with deduplication on, the key column of the
      written table holds no value twice (unless the lookup column
      overwrote it). */
  lemma CrunchedKeysUnique(parse: string -> ParseOutcome, ptr: (DnsSetting, string) -> PtrAnswer,
                           setting: DnsSetting, cfg: Config, t: Table)
    requires WellFormed(t)
    requires cfg.dedupeEnabled && !(cfg.nsEnabled && cfg.nsTo == cfg.dedupeColumn)
    requires LogCrunch(parse, ptr, setting, cfg, t).Success?
    ensures Survives(t, cfg, cfg.dedupeColumn) || IsEmpty(Dropped(t, cfg))
    ensures var u := LogCrunch(parse, ptr, setting, cfg, t).value.table;
      Survives(t, cfg, cfg.dedupeColumn) ==>
        cfg.dedupeColumn in u.columns && Distinct(ColumnOf(u, cfg.dedupeColumn))
  {
    var dropped := Dropped(t, cfg);
    var col := cfg.dedupeColumn;
    if col !in dropped.columns {
      return;
    }
    DedupeKeysUnique(dropped, col);
    var t3 := Dedupe(dropped, col).value;
    assert DedupeStage(dropped, cfg) == Success(t3);
    if cfg.nsEnabled {
      var u := Enrich(parse, ptr, setting, t3, cfg.nsFrom, cfg.nsTo).value.table;
      assert ColumnOf(u, col) == ColumnOf(t3, col);
    }
  }

  /** The first-occurrence scan over two equal addresses and a non-address
      keeps rows 0 and 2. */
  lemma RepeatedAddressScan()
    ensures FirstIndices([Val("8.8.8.8"), Val("8.8.8.8"), Val("bad")], 0, {}) == [0, 2]
  {
    var keys := [Val("8.8.8.8"), Val("8.8.8.8"), Val("bad")];
    assert keys[..0] == [];
  }

  /** Deduplicating two equal addresses and a non-address on the address
      column keeps the first address row and the non-address row. */
  lemma DedupeRepeatedAddress()
    ensures Dedupe(Table(["src_ip"], [[Val("8.8.8.8")], [Val("8.8.8.8")], [Val("bad")]]), "src_ip")
         == Success(Table(["src_ip"], [[Val("8.8.8.8")], [Val("bad")]]))
  {
    var t := Table(["src_ip"], [[Val("8.8.8.8")], [Val("8.8.8.8")], [Val("bad")]]);
    assert WellFormed(t);
    assert IndexOf(t.columns, "src_ip") == 0;
    assert ColumnOf(t, "src_ip") == [Val("8.8.8.8"), Val("8.8.8.8"), Val("bad")];
    RepeatedAddressScan();
    assert Pick(t.rows, [0, 2]) == [[Val("8.8.8.8")], [Val("bad")]];
  }

  /** The lookups of the example: the known address gets its PTR name and
      the non-address the sentinel. */
  lemma LookupExamples(parse: string -> ParseOutcome, ptr: (DnsSetting, string) -> PtrAnswer, setting: DnsSetting)
    requires parse("8.8.8.8") == ParsedV4 && parse("bad") == RaisedValueError
    requires ptr(setting, "8.8.8.8") == PtrAnswers(["dns.google"])
    ensures NsLookup(parse, ptr, setting, Val("8.8.8.8")).display == "dns.google"
    ensures NsLookup(parse, ptr, setting, Val("bad")).display == UNRESOLVED
  {
  }

  /** The lookup loop over `8.8.8.8` and `bad` writes the PTR name and the
      sentinel, and queries only the address. */
  lemma LookupsExample(parse: string -> ParseOutcome, ptr: (DnsSetting, string) -> PtrAnswer, setting: DnsSetting)
    requires parse("8.8.8.8") == ParsedV4 && parse("bad") == RaisedValueError
    requires ptr(setting, "8.8.8.8") == PtrAnswers(["dns.google"])
    ensures LookupsFrom(parse, ptr, setting, [Val("8.8.8.8"), Val("bad")], 0)
         == ([Val("dns.google"), Val(UNRESOLVED)], ["8.8.8.8"])
  {
    var hosts := [Val("8.8.8.8"), Val("bad")];
    LookupExamples(parse, ptr, setting);
    assert QueryLogFrom(parse, hosts, 1) == [];
    assert QueryLogFrom(parse, hosts, 0) == ["8.8.8.8"];
    var r := LookupsFrom(parse, ptr, setting, hosts, 0);
    assert r.0 == [r.0[0], r.0[1]];
  }

  /** Enriching the deduplicated rows: the known address gets its PTR name,
      the non-address gets the sentinel, and one query is sent. */
  lemma EnrichExample(parse: string -> ParseOutcome, ptr: (DnsSetting, string) -> PtrAnswer, setting: DnsSetting)
    requires parse("8.8.8.8") == ParsedV4 && parse("bad") == RaisedValueError
    requires ptr(setting, "8.8.8.8") == PtrAnswers(["dns.google"])
    ensures Enrich(parse, ptr, setting, Table(["src_ip"], [[Val("8.8.8.8")], [Val("bad")]]), "src_ip", "hostname")
         == Success(Crunched(
              Table(["src_ip", "hostname"], [[Val("8.8.8.8"), Val("dns.google")], [Val("bad"), Val(UNRESOLVED)]]),
              ["8.8.8.8"]))
  {
    SourceColumnExample();
    LookupsExample(parse, ptr, setting);
    SetColumnExample();
  }

  /** The source column of the enrichment example. */
  lemma SourceColumnExample()
    ensures var d := Table(["src_ip"], [[Val("8.8.8.8")], [Val("bad")]]);
      WellFormed(d) && "src_ip" in d.columns && ColumnOf(d, "src_ip") == [Val("8.8.8.8"), Val("bad")]
  {
    var d := Table(["src_ip"], [[Val("8.8.8.8")], [Val("bad")]]);
    assert IndexOf(d.columns, "src_ip") == 0;
  }

  /** Assigning a new column to a one-column table appends it. */
  lemma SetColumnExample()
    ensures var d := Table(["src_ip"], [[Val("8.8.8.8")], [Val("bad")]]);
      WellFormed(d) &&
      SetColumn(d, "hostname", [Val("dns.google"), Val(UNRESOLVED)])
        == Table(["src_ip", "hostname"], [[Val("8.8.8.8"), Val("dns.google")], [Val("bad"), Val(UNRESOLVED)]])
  {
    var d := Table(["src_ip"], [[Val("8.8.8.8")], [Val("bad")]]);
    SourceColumnExample();
    var shown := [Val("dns.google"), Val(UNRESOLVED)];
    var u := SetColumn(d, "hostname", shown);
    TwoColumns(u, "src_ip", "hostname", ColumnOf(d, "src_ip"), shown);
  }

  /** A two-column table is determined by its two columns. */
  lemma TwoColumns(u: Table, a: string, b: string, x: seq<Cell>, y: seq<Cell>)
    requires WellFormed(u) && u.columns == [a, b] && |u.rows| == 2
    requires ColumnOf(u, a) == x && ColumnOf(u, b) == y
    ensures u.rows == [[x[0], y[0]], [x[1], y[1]]]
  {
    assert IndexOf(u.columns, a) == 0;
    DistinctIndex(u.columns, 1);
    assert u.rows[0] == [u.rows[0][0], u.rows[0][1]];
    assert u.rows[1] == [u.rows[1][0], u.rows[1][1]];
  }

  /** The worked example: three rows of `src_ip`, deduplicated on it and
      enriched into `hostname` with a stub resolver that knows one
      address. */
  lemma EndToEndExample(parse: string -> ParseOutcome, ptr: (DnsSetting, string) -> PtrAnswer, setting: DnsSetting)
    requires parse("8.8.8.8") == ParsedV4 && parse("bad") == RaisedValueError
    requires ptr(setting, "8.8.8.8") == PtrAnswers(["dns.google"])
    ensures
      var cfg := Config(true, "src_ip", false, false, [], true, "src_ip", "hostname");
      var t := Table(["src_ip"], [[Val("8.8.8.8")], [Val("8.8.8.8")], [Val("bad")]]);
      LogCrunch(parse, ptr, setting, cfg, t) ==
        Success(Crunched(
          Table(["src_ip", "hostname"], [[Val("8.8.8.8"), Val("dns.google")], [Val("bad"), Val(UNRESOLVED)]]),
          ["8.8.8.8"]))
  {
    var t := Table(["src_ip"], [[Val("8.8.8.8")], [Val("8.8.8.8")], [Val("bad")]]);
    assert WellFormed(t);
    DedupeRepeatedAddress();
    EnrichExample(parse, ptr, setting);
  }
}
