# DiskUsageMonitor core, modelled in Dafny

DiskUsageMonitor samples the size and used space of one mounted volume every
ten seconds with `df -k --output=size,used`, stores each sample in a SQLite
table keyed by its Unix timestamp, and shows a Dash page with a chart of the
newest samples and a one-row status table. This project models the logic of
`dashapp.py` that sits between those collaborators:

- `Base` (`base.dfy`): the sample record `(timestamp, size, used)`, the
  sampling interval (10 s), the row cap (8640 rows, one day) and the nine-hour
  display offset.
- `Probe` (`probe.dfy`): get_disk_space. It takes the second line of the `df`
  report, splits it on whitespace, removes thousands separators, parses both
  fields with Python's `int()` rules, and scales kilobytes to bytes.
  `str.split`, `str.replace` and `int()` are modelled as functions on strings.
- `Store` (`store.dfy`): the `data` table as a class `Table` whose `rows` field
  the methods update. It holds the primary-key insert, one tick of the sampling
  loop (probe, then insert), and the windowed read of load_data (the newest
  8640 rows, ascending, shifted nine hours).
- `Format` (`format.dfy`): format_number as a method with its loop, proved
  against a specification function. Also free_disk, which builds the status
  row from the newest sample.
- `Graph` (`graph.dfy`): select_graph_type, restricted to the RealTime and
  Candle modes. The axis ranges update_graph computes over the last 100
  points, the relayout check, and update_graph itself.

Numbers are unbounded integers and exact reals. The report text, the clock
reading and the relayout map are parameters.

Where the code behaves otherwise than its names and comments suggest, the model follows the code:

- get_disk_space never looks at the exit status of `df`. A failed run shows up
  only as a report without a second line or with unparsable fields.
- format_number does not saturate at the `T` suffix. From 10^15 on it falls
  off the end of its loop and returns `None`.
- Errors are not recovered. A probe failure or a duplicate timestamp raises
  out of save_data's loop body (`SaveTick` returns `Err` and stores nothing).
  A Candle selection makes update_graph fail on unpacking.
- A relayout map reports a user range under `xaxis.range[0]` and its siblings.
  The code then reads the keys `xaxis.range` and `yaxis.range`. When those keys
  are absent, both ranges become `None` (`IndexedKeysClearRanges`). They do not
  become the user's bounds.

## Model

| member | source | states |
|---|---|---|
| Probe.SplitOn | dashapp.py:94 | `str.split("\n")` yields at least one piece, and at least two exactly when the text holds a newline; no piece contains the separator |
| Probe.SplitAfterPiece | dashapp.py:94 | a separator-free prefix followed by the separator is the first piece, and splitting continues after it |
| Probe.SplitWhole | dashapp.py:94 | text without the separator is one piece |
| Probe.Fields | dashapp.py:94 | every field of `str.split()` is a non-empty run of non-whitespace characters |
| Probe.FieldsOfBlank | dashapp.py:94 | a line of whitespace only has no fields |
| Probe.FieldsSkipSpace | dashapp.py:94 | `str.split()` ignores leading whitespace |
| Probe.FieldsWord | dashapp.py:94 | a run of non-whitespace followed by whitespace or the end is the next field of `str.split()` |
| Probe.RemoveChar | dashapp.py:100-101 | `replace(",", "")` keeps exactly the characters other than the comma, never lengthening the text |
| Probe.NoSuchChar | dashapp.py:100-101 | removing a character that does not occur leaves the text unchanged |
| Probe.DropUnderscores | dashapp.py:100-101 | digit groups joined by single underscores, as `int()` accepts them, leave only digits once the underscores go |
| Probe.ParseInt | dashapp.py:100-101 | `int()` succeeds only on signs, digits and underscores, and on plain digits yields their decimal value |
| Probe.ParseDiskSpace | dashapp.py:84-102 | a parsed sample carries the clock reading as its timestamp and sizes in whole thousands of bytes; a report without a second line is refused |
| Probe.NonNumericSizeRejected | dashapp.py:94-100 | a size field with a character `int()` refuses (commas aside) fails on field 0 |
| Probe.NonNumericUsedRejected | dashapp.py:94-101 | once the size parses, a used field with a character `int()` refuses (commas aside) fails on field 1 |
| Probe.BlankLineRejected | dashapp.py:94-100 | a second line of whitespace only fails for the missing field 0 |
| Probe.NoFieldRejected | dashapp.py:94-100 | a second line without fields fails for the missing field 0 |
| Probe.MissingUsedRejected | dashapp.py:94-101 | a data line with only a parsable size field fails for the missing field 1 |
| Probe.ParseGrouped | dashapp.py:100-101 | `int(s.replace(",", ""))` inverts comma thousands grouping for every natural number |
| Probe.ParseNumberField | dashapp.py:100-101 | a field of a digit then digits and commas, its commas stripped, is read by `int()` as a number (its value) |
| Probe.RenderingsAreNumbers | dashapp.py:100-101 | both the plain decimal and the comma-grouped rendering of `n` are such fields, and both are read back as `n` |
| Probe.TwoFields | dashapp.py:94 | a blank-padded line of two numeric fields splits into exactly those two fields |
| Probe.ParseReport | dashapp.py:84-102 | any report of a header line, then two blank-separated numeric fields, then nothing or further lines, parses to the clock reading and both field values times 1000 |
| Probe.ReportLine | dashapp.py:94-102 | only the second line matters: if it splits into two fields that `int()` reads as `size` and `used`, the sample is `(now, size*1000, used*1000)` |
| Probe.ParsePlainReport | dashapp.py:84-102 | the report `df -k` prints, plain decimal kilobyte counts, parses to the clock reading and both counts times 1000 |
| Probe.ParseDfReport | dashapp.py:84-102 | the same report with comma-grouped counts parses to the same sample |
| Probe.SecondLine | dashapp.py:94 | the second piece of the report is the line after the header |
| Store.Table.constructor | dashapp.py:30-41 | a new table is empty and ordered |
| Store.Table.Insert | dashapp.py:79 | the insert fails exactly when the timestamp is already a key, and then changes nothing; otherwise the rows gain exactly the sample; key order is kept |
| Store.Table.SaveTick | dashapp.py:70-81 | one pass of the sampling loop stores the parsed sample, or stores nothing and reports the probe or key failure |
| Store.Shifted | dashapp.py:60 | a loaded row is the stored row with its timestamp nine hours later |
| Store.LoadWindow | dashapp.py:44-67 | the window holds min(8640, n) rows, the newest ones in ascending order, each shifted |
| Store.WindowAscending | dashapp.py:48-55 | the window keeps ascending key order |
| Store.WindowIsNewest | dashapp.py:48-55 | every window row is a stored row, and a stored row is in the window exactly when fewer than 8640 stored rows are newer |
| Store.KeysAreUnique | dashapp.py:36 | a key-ordered table has as many distinct timestamps as rows |
| Format.FormatFrom | dashapp.py:107-111 | continuing the loop at suffix i, a printed value carries one of the suffixes from i on |
| Format.FormatSpec | dashapp.py:105-111 | a printed value carries a suffix from the list, and a value below 1000 in magnitude is printed unchanged with no suffix |
| Format.FormatNumber | dashapp.py:105-111 | the loop returns what the specification function returns for every input |
| Format.FirstFit | dashapp.py:107-111 | a value in [1000^i, 1000^(i+1)) is printed with the i-th suffix as its value divided by 1000^i |
| Format.SmallHasNoSuffix | dashapp.py:109-110 | a value below 1000 in magnitude is printed unchanged with no suffix |
| Format.NoneIffHuge | dashapp.py:107-111 | the result is None exactly when the magnitude is at least 1000^5 |
| Format.FormatSound | dashapp.py:105-111 | every printed value has a suffix from the list, a magnitude below 1000, and times 1000^i gives back the input |
| Format.FormatExamples | dashapp.py:105-111 | 999, 1000, 1500000 and 0 print as 999, 1k, 1.5M and 0 |
| Format.CellOf | dashapp.py:120 | a cell holds text exactly when format_number returned a value, and is never NaN |
| Format.UsageCell | dashapp.py:118-120 | the usage cell is NaN exactly when size and used are both 0, and holds text exactly when size is not 0 and used / size x 100 is below 1000^5 in magnitude |
| Format.StatusOf | dashapp.py:116-120 | the status row keeps the newest sample's timestamp, its size, used and free cells are never NaN, and its usage cell is the usage of that sample |
| Format.StatusTextIff | dashapp.py:116-120 | the size, used and free cells hold text exactly when their values are below 1000^5 in magnitude |
| Format.FreeDisk | dashapp.py:114-121 | an empty frame gives an empty table; otherwise the row is formatted from the newest sample |
| Format.UsageIsPlainPercent | dashapp.py:118-120 | for 0 <= used <= size, size > 0, the usage cell is a suffix-less value in [0, 100] with usage x size = used x 100 |
| Format.FreeIsDifference | dashapp.py:117 | the free cell is size minus used, formatted |
| Format.StatusExample | dashapp.py:114-121 | a 1 GB volume with 250 MB used shows 1G, 250M, 750M free and 25 % |
| Graph.RealTimeTraces | dashapp.py:126-140 | two traces, `size` drawn as lines and `used` as filled lines with markers, both over the frame's timestamps, with y the size and used columns point by point |
| Graph.SelectGraphType | dashapp.py:124-141 | RealTime returns the frame with a `size` line and a filled `used` line over the time index; Candle returns nothing |
| Graph.Visible | dashapp.py:250 | the visible rows are the last min(100, n) rows of the frame |
| Graph.Peak | dashapp.py:252 | the peak bounds both columns of every row and is a value some row holds |
| Graph.ComputedLayout | dashapp.py:250-284 | margin 45/20/30/20, no range slider, horizontal legend centred above the plot; x from the 10th-newest point (the first when there are at most ten) to one interval past the newest; y from 0 |
| Graph.XRangeShowsNewestTen | dashapp.py:262-268 | on an ascending frame the x-range contains exactly the ten newest points (all if at most ten) and ends one interval after the newest |
| Graph.YRangeHasHeadroom | dashapp.py:250-252 | the y-range starts at 0 and ends at exactly 1.05 x the largest visible value: 1.05 x some visible value, and no less than 1.05 x any; every non-negative visible value lies inside |
| Graph.IsRelayouted | dashapp.py:290-294 | the early-exit scan says true exactly when one of the four range keys is present |
| Graph.Reconcile | dashapp.py:290-302 | margin, range slider and legend are kept; with no range key the layout is unchanged; with one, both ranges become the `xaxis.range` and `yaxis.range` entries, or None where missing |
| Graph.UpdateGraph | dashapp.py:226-304 | for a key-ordered table, Candle fails on unpacking, an empty window fails on indexing, otherwise the figure is the RealTime traces with the computed layout reconciled against the relayout map |
| Graph.RangeKeyOverridesBothAxes | dashapp.py:298-302 | with a range key both axes take the map's values whatever was computed; margin, range slider and legend stay |
| Graph.IndexedKeysClearRanges | dashapp.py:290-302 | a zoom reported only under `xaxis.range[0]` and `xaxis.range[1]` sets both ranges to None |
| Graph.RefreshShowsNewestTen | dashapp.py:233-268 | for a key-ordered table and no range key, the refreshed x-range contains the ten newest loaded points |

## Left out

- The Dash and Flask wiring (create_dash_app's page layout, stylesheets, the callback registration) is presentation only.
- save_data's `while True` loop, its `asyncio.sleep` and `print` are left out; one iteration is `Store.Table.SaveTick`.
- Running `df`, reading the clock and SQLite I/O are left out. The report text and the clock reading are parameters, and the table is a sequence of rows.
- Store.LoadWindow: the SQLite error path (`DatabaseError`/`DataError` re-raised) and pandas' datetime conversion are not modelled; timestamps stay integer seconds.
- Graph.SelectGraphType: the Min-Max mode is left out, because it relies on pandas index alignment of column-wise maxima. An unrecognised mode string is left out too: the mode is a closed variant.
- Format.FormatNumber: the `:.2f` rounding and floating-point division are not modelled; magnitudes are exact reals.
- Format.FreeDisk: the NaN and infinity of a zero-size volume are modelled as cells (`NotANumber`, `NoText`) rather than as floats.
- Probe.ParseInt: only ASCII digits are modelled; `int()` also accepts other Unicode decimal digits and strips surrounding Unicode whitespace.
- Probe.Fields: only ASCII whitespace separates fields; `str.split()` also splits on other Unicode whitespace.
- Graph.UpdateGraph: a relayout value of `None` (not a mapping) is left out; the relayout data is a map from key to an opaque value. The `print` of the newest rows is left out.
- Store.Table.Insert: timestamp, size and used are unbounded integers; sqlite3 refuses (OverflowError) a Python int outside the signed 64-bit range, which real `df` figures never reach.
- Concurrent readers and the writer sharing the database are left out.
