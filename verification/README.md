# Palo Alto log cruncher — a Dafny model of the transformation pipeline

The log cruncher reads a CSV export of firewall logs and shrinks it. It can
drop columns that are entirely empty, drop configured columns, and keep only
the first row for each value of a key column. It can also write, for each
row, the reverse-DNS hostname of an address column into another column,
optionally through a custom nameserver.

This project models that pipeline (`log_crunch`) together with the helpers it
relies on: `validate_ip`, `nslookup_ip`, `set_dns_server` and
`check_custom_dns`. Every stage is a pure function on an immutable table.

- `Frame` is the table: a header of unique column names in file order, and
  rows of cells aligned with it. A cell is `Missing` (pandas' NaN) or
  `Val(text)`. Column assignment (`df[c] = values`) is `SetColumn`.
- `IpAddr` is `validate_ip`. The address-literal parser it calls
  (`ipaddress.ip_address`) is a parameter `parse`. For a string, `parse`
  yields an IPv4 object, an IPv6 object, a `ValueError` or another
  exception.
- `Dns` is `nslookup_ip`, `set_dns_server` and `check_custom_dns`.
  - The process-wide resolver is a value `DnsSetting`: the system default,
    or a custom nameserver list. It is passed to every lookup.
  - The PTR query (reverse-name construction plus the network round trip)
    is a parameter `ptr`. For a setting and an address, it either fails or
    yields answer names.
  - A lookup also reports the addresses it sent to `ptr`. This makes the
    "one query per IPv4 row, no caching" behaviour visible.
- `Crunch` holds the four stages and `log_crunch`, in the order the source
  applies them. `Run` models `main`, which configures the nameserver before
  crunching.
- `CrunchProps` holds the lemmas relating stages, and the worked examples.
- `Seqs` and `Outcomes` are helpers: position masks and picking, `Option` and
  `Result`.

When the lookup source column is absent at its stage, the source raises an
uncaught `KeyError` and writes no output. The same happens when the dedupe
column is absent, with one exception. pandas' `drop_duplicates` returns an
empty frame unchanged before it looks at `subset`. An empty frame is one with
no rows, or with no columns left after the drops. The model returns
`Failure(MissingColumn(name))` exactly in the cases where the source raises.

Where the code and its comments disagree, the model follows the code:
- The docstring at pacrunch.py:37 speaks of dropping empty rows. The call at
  pacrunch.py:51 (`axis=1, how='all'`) drops columns whose cells are all
  missing. With no rows at all, every column counts as all-missing.
- For an address that is not IPv4, `set_dns_server` returns nothing rather
  than `False` (its docstring at pacrunch.py:124 says `False`).
  `check_custom_dns` then fails to unpack that result. The failure lands in
  its catch-all handler, which reports a missing or invalid configuration
  entry. The model reports `ConfigMissingOrInvalid` in that case. Either
  way, the resolver is left untouched.
- Both "not an IP" and "lookup failed" produce the same text,
  "Unable to Resolve". IPv6 produces "Unable to Resolve IPv6". The model
  returns these strings, as the code does.

## Model

| member | source | states |
|---|---|---|
| IpAddr.ValidateIp | pacrunch.py:80-95 | Every address gets exactly one of "IPv4", "IPv6" or "NotIP". It is "IPv4" exactly when the parser builds an IPv4 address and "IPv6" exactly when it builds an IPv6 address. A `ValueError` or any other exception gives "NotIP". |
| IpAddr.ValidateCell | pacrunch.py:88-91 | A missing cell (a NaN handed to the parser) is "NotIP". A present cell is classified by its text. |
| Dns.NsLookup | pacrunch.py:97-117 | At most one PTR query is made, for exactly the IPv4 addresses, and it is for that address. IPv6 gives "Unable to Resolve IPv6" and NotIP gives "Unable to Resolve", neither with a query. For IPv4 the result is the first answer name. A failed query or an empty answer gives "Unable to Resolve". |
| Dns.SetDnsServer | pacrunch.py:119-143 | For an IPv4 address, the nameserver list becomes exactly `[address]` and the reply is `(True, address)`. For any other address, the setting is unchanged and there is no reply. |
| Dns.CheckCustomDns | pacrunch.py:152-170 | A missing server entry, a disabled one, or an enabled non-IPv4 address leaves the setting as it was. A disabled entry reports `CustomDisabled`. A missing entry and a non-IPv4 address both report `ConfigMissingOrInvalid`, because the failed unpack lands in the same handler. An enabled IPv4 entry installs `[address]` and reports it. |
| Crunch.DropEmptyColumns | pacrunch.py:49-53 | A column is removed exactly when every row's cell in it is missing, judged over the whole table. The result is well-formed. Its columns are the surviving ones in their original order. Row count, row order and surviving cells are unchanged. |
| Crunch.DropColumns | pacrunch.py:55-59 | The surviving columns are exactly those not named in the list. Absent names are ignored. Order, rows and the remaining cells are unchanged. |
| Crunch.FirstIndices | pacrunch.py:63 | The seen-set scan lists, in increasing order, exactly the rows whose key did not occur in an earlier row. |
| Crunch.Dedupe | pacrunch.py:61-65 | It fails exactly when the key column is absent from a frame that has rows and columns. An empty frame is returned unchanged. Otherwise the columns are unchanged and the rows are the input rows that are first to hold their key, in input order. A missing key counts as a key. |
| Frame.SetColumn | pacrunch.py:73 | After `t[c] = values`, column `c` holds exactly `values`. It is overwritten in place when it exists and appended last otherwise. Every other column keeps its cells, and the table stays well-formed. |
| Crunch.LookupsFrom | pacrunch.py:69-72 | The loop yields, for every row in order, the text `nslookup_ip` gives for its address. The queries it sends are the query log of the addresses from that row on. |
| Crunch.Enrich | pacrunch.py:67-75 | It fails exactly when the source column is absent. Otherwise rows and their order are kept. The target column is appended when absent and overwritten in place when present. Row i of the target column holds the lookup text of row i's source cell. Every other column is unchanged. The queries sent are the query log of the source column. |
| Crunch.Dropped | pacrunch.py:49-59 | The two drop stages in order keep a column exactly when it is in the input, is not all-missing when the empty drop is on, and is not listed when the configured drop is on. The result is one projection of the input: surviving columns keep their relative order, every row is kept in order, and each surviving column holds the same cells as in the input. |
| Crunch.DedupeStage | pacrunch.py:61-65 | The dedupe stage fails exactly when it is enabled, its column is absent and the frame is not empty. When disabled, or handed an empty frame without the column, it passes the table through unchanged. When enabled with the column present, the header is kept and the rows are the first row for each key, in input order. |
| Crunch.LogCrunch | pacrunch.py:49-75 | The run fails exactly in two cases: dedupe is enabled, its column did not survive the two drops, and the frame they leave is not empty; or lookups are enabled and their source column did not survive. The error names the dedupe column when the dedupe stage fails, and the lookup column otherwise. On success the written table is well-formed. |
| CrunchProps.CrunchShape | pacrunch.py:49-75 | On success, the header written is the header the two drops leave. The lookup target is appended when lookups are enabled and it is a new column. |
| CrunchProps.CrunchColumns | pacrunch.py:49-75 | On success, apart from the lookup target, a column is written exactly when it survives both enabled drops. The target is written whenever lookups are enabled. |
| CrunchProps.CrunchKeepsCells | pacrunch.py:49-75 | Without dedupe, every written column other than the lookup target comes from the input and holds exactly its input cells. |
| CrunchProps.CrunchRowCounts | pacrunch.py:61-75 | On success, rows never increase. Without dedupe their number is unchanged. Without lookups no query is made. |
| Crunch.Run | pacrunch.py:196-197 | The pipeline runs with lookups sent to `[address]` exactly when the server entry is present, enabled and IPv4. Otherwise they go to the system default resolver. |
| CrunchProps.DropEmptyColumnsIdempotent | pacrunch.py:49-51 | Dropping empty columns a second time changes nothing. |
| CrunchProps.DropColumnsIgnoresAbsent | pacrunch.py:57 | Dropping only names that are not columns (`errors='ignore'`) leaves the table as it is. |
| CrunchProps.DropColumnsSetSemantics | pacrunch.py:57 | Two drop lists with the same names drop the same columns. A name listed twice acts as if listed once, and order does not matter. |
| CrunchProps.DropColumnsIdempotent | pacrunch.py:55-57 | Dropping the same list twice is the same as dropping it once. |
| CrunchProps.DedupeKeysUnique | pacrunch.py:61-63 | No two rows left by deduplication share a key. |
| CrunchProps.DedupeKeepsEveryKey | pacrunch.py:61-63 | The set of key values is the same before and after deduplication. |
| CrunchProps.DedupeKeepsFirstRow | pacrunch.py:63 | Each kept row is the input row at the first occurrence of its key (`keep='first'`). |
| CrunchProps.FirstIndicesOfDistinct | pacrunch.py:63 | When no key repeats, the scan keeps every row from its starting point on. |
| CrunchProps.DedupeIdempotent | pacrunch.py:61-63 | Deduplicating twice on the same column is deduplicating once. |
| CrunchProps.DedupeExample | pacrunch.py:61-63 | Rows (A,1), (B,2), (A,3) deduplicated on the key give (A,1), (B,2). |
| CrunchProps.QueryLogCountsRows | pacrunch.py:69-72 | An IPv4 address is queried once for every row holding it, with no caching. Nothing else is queried. |
| CrunchProps.DisabledStagesAreIdentity | pacrunch.py:49-75 | With every stage disabled, the table passes through unchanged and no query is made. |
| CrunchProps.DroppedKeyFailsDedupe | pacrunch.py:55-63 | The configured drop runs before dedupe. So listing the dedupe column among the dropped columns fails the run with that column missing, whenever the drops leave a frame with rows and columns. |
| CrunchProps.EmptyFrameSkipsKeyCheck | pacrunch.py:49-65 | When the drops leave an empty frame and lookups are off, the run succeeds whatever the dedupe column, and writes that frame with no query. |
| CrunchProps.HeaderOnlyRunSucceeds | pacrunch.py:49-65 | A header-only log `a`, with the empty drop and dedupe on `a`, is written as a frame with no columns and no rows. |
| CrunchProps.AllMissingRunSucceeds | pacrunch.py:49-65 | A log whose only column `a` is missing in both rows, with the empty drop and dedupe on `a`, is written as two rows without cells. |
| CrunchProps.CrunchedKeysUnique | pacrunch.py:61-73 | When the run succeeds with dedupe enabled, either the key column survived the drops or the frame they left is empty. When it survived, the written table holds it with no key twice, unless the lookup target overwrote it. |
| CrunchProps.EnrichExample | pacrunch.py:67-73 | Enriching the rows `8.8.8.8`, `bad` with a resolver that knows `8.8.8.8` gives `dns.google` and "Unable to Resolve". It sends exactly one query. |
| CrunchProps.EndToEndExample | pacrunch.py:29-78 | The rows `8.8.8.8`, `8.8.8.8`, `bad` are deduplicated on `src_ip` and enriched into `hostname`. The result is two rows, `(8.8.8.8, dns.google)` and `(bad, Unable to Resolve)`, after one query. |

## Left out

- CSV reading and writing (pacrunch.py:47, pacrunch.py:77) are file I/O. Pandas type inference is left out with them. Cells are text or missing, so a numeric cell is not modelled. `ip_address` would accept an integer cell as an IPv4 address.
- YAML configuration loading and the field extraction in `main` (pacrunch.py:179-194, pacrunch.py:205-226) are left out. They are I/O plus dictionary lookups that end the program on any error. The pipeline takes an already-built `Config`. `check_custom_dns` takes the server entry as an `Option`: absent means its `enabled` or `address` key was missing.
- Console output and debug tracebacks are left out. They have no effect on the result.
- The parsing rules of `ipaddress.ip_address` are not modelled. The parser is the parameter `parse`.
- dnspython is not modelled: reverse-name construction (the IN-ADDR.ARPA mapping of section 3.5 of RFC 1035), the PTR query, timeouts, and the text form of an answer. They are folded into the parameter `ptr`: a failed query, a timeout included, is `PtrFailed`. The query log records the address looked up, not the reverse name.
- Dns.SetDnsServer: the `except` branch (pacrunch.py:136-141) is not modelled. It needs dnspython to raise while building the resolver. In that case the source may leave a half-configured global resolver. The read-back mismatch branch (pacrunch.py:134-135) is modelled but cannot occur.
- Crunch.Dedupe: only a single key column is modelled. pandas also accepts a list of columns as `subset`. A null `column` entry is not modelled either. `main` reads it without error (pacrunch.py:183), and `drop_duplicates(subset=None)` (pacrunch.py:63) then removes rows that repeat across all columns instead of failing.
- Crunch.Enrich: the PTR answer is a fixed function of the nameserver setting and the address. pacrunch.py:108 sends one live query per row, so a timeout or a changed answer can affect one of two rows with the same address and not the other. The model cannot represent that: two rows with the same address always get the same hostname. The query log still records one query per IPv4 row.
- Crunch.DropColumns: the drop list is a sequence of names. A single string or a null entry in the configuration is not modelled.
- Crunch.LogCrunch: on success, its own contract states only well-formedness. The column set, the row counts and the queries are stated by `CrunchProps.CrunchShape`, `CrunchProps.CrunchColumns` and `CrunchProps.CrunchRowCounts`. Cell contents are stated by `CrunchProps.CrunchKeepsCells` when dedupe is off, by `CrunchProps.CrunchedKeysUnique` for the key column, and by `CrunchProps.EndToEndExample` for one concrete run. With dedupe on, the cells of the composition follow from the stage contracts and are not restated.
