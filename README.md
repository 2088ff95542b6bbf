# Star Resonance damage distribution dashboard — Dafny model

The dashboard (`app.py`) polls a damage-statistics server every refresh.

- It appends a history record `(timestamp, user_id, damage)` for every player whose cumulative total changed since that player's latest record.
- It registers unknown players in the process-wide name registry, under the placeholder `玩家_<id>`.
- It redraws a stacked chart of incremental damage per time bucket. To do this it:
  1. restricts the history to the plotted players;
  2. forward-fills the cumulative counters onto a 1-second grid;
  3. takes first differences, with undefined differences counted as 0;
  4. sums the differences into buckets of the chosen width;
  5. draws the players in ascending order of their total.

The model follows that pipeline, with one deliberate difference in step 2. The code copies the latest row of the time-by-player table whole, so a player whose record is not the latest reads as undefined (see "## Findings"). The model's redraw fills each player's counter forward on its own, which is the evidently intended behaviour. The fill as written is modelled separately, in `RowFill`.

The modules:

- `Samples`: the history record, the polled entry, the latest-sample lookup, the distinct ids in first-appearance order, the registry and the selection filter.
- `Ingest`: what one poll does to the history and to the registry, as functions of the state before the poll. It also has a reference definition of the appended samples.
- `Grid`: the forward-filled 1-second grid, increments, sums and telescoping.
- `Buckets`: left-closed buckets labelled by their start and aligned to an origin.
- `Plot`: the chart, the sort by total, the dropdown options and the whole redraw (`Render`).
- `Dashboard`: class `Session`, with the stored history and the registry as fields. Its methods model the poll loop, the refresh callback and the clear callback.
- `RowFill`: the forward fill exactly as the code performs it, used for the finding below.

Times are integer milliseconds since the Unix epoch. The current time is a parameter. The server's answer is a parameter: `Some(entries)` when the request succeeded, `None` when there is no server address or the request failed.

## Model

| member | source | states |
|---|---|---|
| Samples.LastDamageSpec | app.py:158 | the lookup finds nothing exactly when the player has no record, and otherwise returns the damage of the player's latest record |
| Samples.LastDamageSkip | app.py:158 | records of other players appended later do not change a player's latest damage |
| Samples.DistinctIdsSpec | app.py:186 | the ids of the history, each exactly once; an id is listed exactly when it occurs; an earlier-listed id appeared no later |
| Samples.SelectedSpec | app.py:198 | filtering keeps exactly the records of selected players: each kept record is from the history and of a selected player, and every record of a selected player is kept; a selected player's latest damage is unchanged |
| Samples.SelectedKeepsOrder | app.py:198 | a selected player's records in the selection are all of its records, in history order |
| Dashboard.FindLastDamage | app.py:158 | the backward scan returns the latest damage of the player, None exactly when it has no record |
| Ingest.IngestAllExtends | app.py:157-161 | a poll only appends: the old history is a prefix, at most one record per entry, each stamped with the poll time and carrying a polled id and its total read as 0 when missing |
| Ingest.UnchangedPollAppendsNothing | app.py:160-161 | a poll in which every total equals the player's latest damage leaves the history as it was |
| Ingest.IngestAllIsChanged | app.py:157-161 | for distinct polled ids, the poll appends exactly the reference list of changed entries, in poll order |
| Ingest.ChangedCounts | app.py:158-161 | the reference list holds one record of a polled player when its total differs from its latest damage, none otherwise, and that record carries the total |
| Ingest.IngestAppendsWhenChanged | app.py:158-161 | a polled player gains exactly one record when its total differs from its latest damage (or it has none), and none otherwise |
| Ingest.IngestSkipsUnpolled | app.py:157-161 | players absent from the poll keep their record count and latest damage |
| Ingest.IngestLatest | app.py:158-161 | after the poll every polled player's latest damage is its polled total (0 when missing) |
| Ingest.IngestIdempotent | app.py:157-161 | polling the same answer again, at any later time, appends nothing |
| Ingest.RegisterAllSpec | app.py:162 | registration keeps every known name, makes every polled id known, and gives the new ids, all polled, the placeholder name |
| Ingest.IngestKeepsTimeOrder | app.py:161 | when the poll time is not before any record, the history stays in time order |
| Dashboard.Session.constructor | app.py:13-17 | a fresh session has no history and the preset registry |
| Dashboard.Session.IngestPoll | app.py:157-162 | the loop leaves the history and the registry as the poll functions give them, and every player of the history registered |
| Dashboard.Session.Update | app.py:144-228 | a successful poll is ingested, a failed or absent one leaves the state; the returned view is the redraw of the new state, and its options carry the registered names |
| Dashboard.Session.Clear | app.py:249 | the history is emptied, the registry kept |
| Dashboard.PolledPlayersPlotted | app.py:157-162 | after a poll, with auto-add, every polled player has a trace |
| Grid.FillAtSpec | app.py:204-205 | the per-player fill, the intended form of the fill (the code's own row fill is RowFill.RowFillAt): undefined exactly when the player has no record at or before the grid point, else the damage of its latest such record |
| Grid.FillMonotone | app.py:205 | once defined, a filled value stays defined at later grid points |
| Grid.Telescope | app.py:206 | the first differences of an upward-closed filled series sum to its last value minus its first defined value |
| Grid.PlayerTelescope | app.py:204-206 | a player's per-second increments over the grid sum to its last filled value minus its first defined one |
| Grid.IncrementZeroBeforeFirst | app.py:206 | the first grid point, and every grid point before the player's first record, has increment 0 |
| Grid.SingleSampleFlat | app.py:204-206 | a player with one record has only zero increments |
| Buckets.StartsContiguous | app.py:201-207 | the first bucket holds the first grid point, the last bucket holds the last one, and each bucket starts where its predecessor ends |
| Buckets.BucketHoldsItsPoints | app.py:207 | each bucket's value is the sum of exactly the increments whose grid points lie in it |
| Buckets.BucketsPreserveSum | app.py:207 | the buckets sum to the sum of all increments |
| Buckets.BucketsOfZeros | app.py:207 | zero increments give zero buckets |
| Plot.SortByTotalSpec | app.py:213 | the traces end up in non-decreasing order of total, as a permutation of the unsorted traces |
| Plot.GridSpansSamples | app.py:205 | every selected record lies between the first grid point and one second past the last; the first grid point is the earliest read floored to a second and the last grid point the latest read floored to a second |
| Plot.FillSelected | app.py:198-205 | restricting to the selected players does not change a selected player's filled values |
| Plot.ResampleShape | app.py:198-216 | one trace per selected player with records and no other, all on the shared bucket labels, in non-decreasing order of total; no records gives no chart |
| Plot.ResampleTotals | app.py:204-213 | under the per-player fill, each trace's total is the player's last filled value on the grid minus its first defined one |
| Plot.SingleSampleZeroSeries | app.py:198-207 | a plotted player with a single record is drawn as all zeros |
| Plot.RenderEmptyHistory | app.py:170-173 | an empty history gives no history, no options, no selection and no chart |
| Plot.RenderSelection | app.py:186-196 | the options list every player once with its display name; the plotted players are all the players with auto-add, else the user's selection; every trace is of a plotted player, and with auto-add every player has one |
| Plot.OptionsUseRegistry | app.py:186-187 | when every player of the history is registered the options carry the registered names |
| Plot.TwoSecondBuckets | app.py:201-207 | reads of 100, 150, 150, 220 at 0-3 s give the 2-second bucket increments 50 and 70 |
| Plot.TwoSecondBucketsRendered | app.py:186-207 | the redraw with auto-add aligns to the start of the day and gives the same chart |
| RowFill.RowFillsLoseIncrements | app.py:204-206 | with two players read alternately, the fill as written sums player A's increments to 0 where its damage grew by 50 |
| RowFill.RowFillAloneAgrees | app.py:204-205 | with one player and a time-ordered history the fill as written equals the per-player fill |

## Left out

- Fetching `/api/data` and `/api/clear` over HTTP, JSON decoding and the `try`/`except` around it: the answer is a parameter, and a failed request is `None`.
- An exception raised while looping over a malformed `user` map, after some records have already been appended: the model ingests either the whole poll or nothing.
- The clock: `time.time()` is read once per appended record; the model reads one time per poll.
- The time-zone choice: it only relabels the axis (`tz_convert`), and it does not affect the values.
- Floating-point seconds: times are integers in milliseconds; the bucket width is the already truncated `int(interval_seconds * 1000)` and must be positive, since pandas rejects a zero frequency.
- `pivot_table`'s averaging of several records of one player with the same timestamp; `RowFill.RowFillAt` takes the last of them.
- The unused local-time pivot table, the Plotly figure, its layout and titles, the stacking style, the trace display names and the status messages.
- A selection none of whose players has records: pandas fails or draws nothing; the model draws no chart.
- The timer callback `control_interval` and the application entry point.
- Plot.Resample / Plot.Render: they use the per-player fill `Grid.FillAt`, not the row fill `RowFill.RowFillAt` that the code performs. So they differ from the code whenever two plotted players' records carry different timestamps: a player whose record is not the latest one at a grid point reads as undefined there in the code, and its increments across that point are lost (see "## Findings").
- Grid.FillAt: takes the last record in history order at or before the grid point, where pandas takes the latest timestamp. They coincide on a time-ordered history, which `Ingest.IngestKeepsTimeOrder` shows the poll preserves.
- Plot.SortByTotal: pandas' default sort is not stable, so the order of equal totals is unspecified; the model sorts stably and claims only the order and the permutation.

## Findings

| source | as written | input that shows it | evidently intended | confidence | as-written member | corrected member |
|---|---|---|---|---|---|---|
| app.py:204-206 | `resample('1S').ffill()` copies the latest pivot row as a whole, undefined cells included. Each record has its own timestamp, so a row defines only one player, and the other players read as undefined between their own records; `diff().fillna(0)` then drops their increments. | A reads 100 at 0 s and 150 at 2 s, B reads 5 at 0.1 s and 7 at 2.1 s: A's increments sum to 0 | each player's counter filled forward on its own, so A's increments sum to 50 | medium, not executed | RowFill.RowFillsLoseIncrements | Grid.PlayerTelescope |
