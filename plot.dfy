/** The redraw: which players are plotted, the shared 1-second grid over their
    samples, one bucketed series per player, the series ordered by total, and
    the values the update callback hands back to the page. */
module Plot {
  import opened Samples
  import opened Grid
  import opened Buckets

  /** One plotted series: a player and its per-bucket incremental damage. */
  datatype Trace = Trace(uid: string, values: seq<int>)

  /** Bucket start times shared by all traces, and the traces in drawing order. */
  datatype Chart = Chart(starts: seq<int>, traces: seq<Trace>)

  /** What the update callback returns besides the figure's layout: the stored
      history, the dropdown options (id, display name), the selection and the chart. */
  datatype View = View(history: seq<Sample>, options: seq<(string, string)>, selection: seq<string>, chart: Chart)

  const NoChart: Chart := Chart([], [])

  /** A day in milliseconds. */
  const Day: int := 86400000

  /** Midnight (UTC) of the day holding `t`: the default alignment of buckets. */
  function DayStart(t: int): int
  {
    (t / Day) * Day
  }

  function MinTime(h: seq<Sample>): int
    requires h != []
  {
    if |h| == 1 then h[0].timestamp
    else
      var m := MinTime(h[..|h| - 1]);
      if h[|h| - 1].timestamp < m then h[|h| - 1].timestamp else m
  }

  function MaxTime(h: seq<Sample>): int
    requires h != []
  {
    if |h| == 1 then h[0].timestamp
    else
      var m := MaxTime(h[..|h| - 1]);
      if h[|h| - 1].timestamp > m then h[|h| - 1].timestamp else m
  }

  lemma {:induction false} MinMaxSpec(h: seq<Sample>)
    requires h != []
    ensures forall j :: 0 <= j < |h| ==> MinTime(h) <= h[j].timestamp <= MaxTime(h)
    ensures exists j :: 0 <= j < |h| && h[j].timestamp == MinTime(h)
    ensures exists j :: 0 <= j < |h| && h[j].timestamp == MaxTime(h)
  {
    if |h| == 1 {
      assert h[0].timestamp == MinTime(h);
    } else {
      var n := |h| - 1;
      MinMaxSpec(h[..n]);
      assert forall j :: 0 <= j < n ==> h[j] == h[..n][j];
      var a :| 0 <= a < n && h[..n][a].timestamp == MinTime(h[..n]);
      var b :| 0 <= b < n && h[..n][b].timestamp == MaxTime(h[..n]);
      if h[n].timestamp < MinTime(h[..n]) {
        assert h[n].timestamp == MinTime(h);
      } else {
        assert h[a].timestamp == MinTime(h);
      }
      if h[n].timestamp > MaxTime(h[..n]) {
        assert h[n].timestamp == MaxTime(h);
      } else {
        assert h[b].timestamp == MaxTime(h);
      }
    }
  }

  /** First grid point: the earliest selected sample time floored to a second. */
  function GridStart(f: seq<Sample>): int
    requires f != []
  {
    (MinTime(f) / Second) * Second
  }

  /** Number of grid points: one per second up to the latest sample time floored. */
  function GridLen(f: seq<Sample>): nat
    requires f != []
  {
    MinMaxSpec(f);
    (MaxTime(f) / Second - MinTime(f) / Second) + 1
  }

  /** The grid spans the selected samples and no more: each sample time lies
      between the first grid point and one second past the last, the first
      grid point is the earliest read floored to a second, and the last grid
      point is the latest read floored to a second. */
  lemma GridSpansSamples(f: seq<Sample>)
    requires f != []
    ensures forall j :: 0 <= j < |f| ==>
      GridStart(f) <= f[j].timestamp < GridStart(f) + Second * GridLen(f)
    ensures exists j :: 0 <= j < |f| && GridStart(f) <= f[j].timestamp < GridStart(f) + Second
    ensures exists j :: (0 <= j < |f| &&
      GridStart(f) + Second * (GridLen(f) - 1) <= f[j].timestamp < GridStart(f) + Second * GridLen(f))
  {
    MinMaxSpec(f);
    var a :| 0 <= a < |f| && f[a].timestamp == MinTime(f);
    var b :| 0 <= b < |f| && f[b].timestamp == MaxTime(f);
    assert GridStart(f) + Second * (GridLen(f) - 1) == (MaxTime(f) / Second) * Second;
    assert GridStart(f) <= f[a].timestamp < GridStart(f) + Second;
  }

  /** The bucketed series of `uid` over the grid of the selected samples `f`. */
  function Series(f: seq<Sample>, uid: string, width: int, origin: int): seq<int>
    requires f != [] && width > 0
  {
    BucketSums(PlayerIncrements(f, uid, GridStart(f), GridLen(f)), GridStart(f), width, origin)
  }

  /** The sum of a trace over all its buckets (`interval_damage_df.sum()`). */
  function Total(t: Trace): int
  {
    Sum(t.values)
  }

  /** Insert `t` after every trace whose total is not greater. */
  function Insert(t: Trace, s: seq<Trace>): seq<Trace>
  {
    if s == [] then [t]
    else if Total(t) < Total(s[0]) then [t] + s
    else [s[0]] + Insert(t, s[1..])
  }

  /** Traces in ascending order of total. */
  function SortByTotal(s: seq<Trace>): seq<Trace>
  {
    if s == [] then [] else Insert(s[|s| - 1], SortByTotal(s[..|s| - 1]))
  }

  ghost predicate SortedByTotal(s: seq<Trace>)
  {
    forall i, j :: 0 <= i < j < |s| ==> Total(s[i]) <= Total(s[j])
  }

  lemma {:induction false} InsertPerm(t: Trace, s: seq<Trace>)
    ensures multiset(Insert(t, s)) == multiset(s) + multiset{t}
  {
    if s != [] && Total(t) >= Total(s[0]) {
      InsertPerm(t, s[1..]);
      assert s == [s[0]] + s[1..];
    }
  }

  lemma ConsSorted(x: Trace, r: seq<Trace>)
    requires SortedByTotal(r)
    requires forall j :: 0 <= j < |r| ==> Total(x) <= Total(r[j])
    ensures SortedByTotal([x] + r)
  {
    var out := [x] + r;
    forall i, j | 0 <= i < j < |out| ensures Total(out[i]) <= Total(out[j]) {
      assert out[j] == r[j - 1];
      if i > 0 { assert out[i] == r[i - 1]; }
    }
  }

  lemma {:induction false} InsertSorted(t: Trace, s: seq<Trace>)
    requires SortedByTotal(s)
    ensures SortedByTotal(Insert(t, s))
  {
    if s != [] && Total(t) < Total(s[0]) {
      ConsSorted(t, s);
    } else if s != [] {
      var tail := s[1..];
      assert SortedByTotal(tail);
      InsertSorted(t, tail);
      InsertPerm(t, tail);
      var r := Insert(t, tail);
      forall j | 0 <= j < |r| ensures Total(s[0]) <= Total(r[j]) {
        assert r[j] in multiset(tail) + multiset{t};
        if r[j] != t {
          var k :| 0 <= k < |tail| && tail[k] == r[j];
          assert tail[k] == s[k + 1];
        }
      }
      ConsSorted(s[0], r);
    }
  }

  /** Sorting orders the traces by non-decreasing total and is a permutation. */
  lemma {:induction false} SortByTotalSpec(s: seq<Trace>)
    ensures SortedByTotal(SortByTotal(s))
    ensures multiset(SortByTotal(s)) == multiset(s)
  {
    if s != [] {
      var n := |s| - 1;
      SortByTotalSpec(s[..n]);
      InsertSorted(s[n], SortByTotal(s[..n]));
      InsertPerm(s[n], SortByTotal(s[..n]));
      assert s == s[..n] + [s[n]];
    }
  }

  /** One trace per player with samples in `f`, in first-appearance order. */
  function Unsorted(f: seq<Sample>, width: int, origin: int): seq<Trace>
    requires f != [] && width > 0
  {
    var cols := DistinctIds(f);
    seq(|cols|, k requires 0 <= k < |cols| => Trace(cols[k], Series(f, cols[k], width, origin)))
  }

  /** The resampling pipeline for the players `users`, bucket width `width`
      (milliseconds, already truncated to an integer) and bucket alignment `origin`. */
  function Resample(h: seq<Sample>, users: seq<string>, width: int, origin: int): Chart
    requires width > 0
  {
    var f := Selected(h, users);
    if f == [] then NoChart
    else Chart(Starts(GridStart(f), GridLen(f), width, origin), SortByTotal(Unsorted(f, width, origin)))
  }

  lemma BeforeSnoc(s: seq<Sample>, x: Sample, g: int)
    ensures Before(s + [x], g) == Before(s, g) + (if x.timestamp <= g then [x] else [])
  {
    assert (s + [x])[..|s|] == s;
  }

  lemma SelectedSnoc(s: seq<Sample>, x: Sample, users: seq<string>)
    ensures Selected(s + [x], users) == Selected(s, users) + (if x.uid in users then [x] else [])
  {
    assert (s + [x])[..|s|] == s;
  }

  /** Selecting before or after cutting the history at `g` gives the same samples. */
  lemma {:induction false} BeforeSelected(h: seq<Sample>, users: seq<string>, g: int)
    ensures Before(Selected(h, users), g) == Selected(Before(h, g), users)
  {
    if h != [] {
      var n := |h| - 1;
      var x := h[n];
      assert h == h[..n] + [x];
      BeforeSelected(h[..n], users, g);
      var s := Selected(h[..n], users);
      var b := Before(h[..n], g);
      assert Selected(h, users) == s + (if x.uid in users then [x] else []);
      assert Before(h, g) == b + (if x.timestamp <= g then [x] else []);
      if x.uid in users {
        BeforeSnoc(s, x, g);
      } else {
        assert s + [] == s;
      }
      if x.timestamp <= g {
        SelectedSnoc(b, x, users);
      } else {
        assert b + [] == b;
      }
    }
  }

  /** Restricting the history to the selected players leaves each selected
      player's filled values as they were. */
  lemma FillSelected(h: seq<Sample>, users: seq<string>, uid: string, g: int)
    requires uid in users
    ensures FillAt(Selected(h, users), uid, g) == FillAt(h, uid, g)
  {
    BeforeSelected(h, users, g);
    SelectedSpec(Before(h, g), users);
  }

  /** A selected player appears in the selection's samples exactly when it has
      a sample in the history. */
  lemma SelectedIds(h: seq<Sample>, users: seq<string>, u: string)
    ensures u in DistinctIds(Selected(h, users)) <==> u in users && !Absent(h, u)
  {
    var f := Selected(h, users);
    DistinctIdsSpec(f);
    SelectedSpec(h, users);
    LastDamageSpec(f, u);
    LastDamageSpec(h, u);
    if u in DistinctIds(f) {
      var q :| 0 <= q < |f| && q < |f| && f[q].uid == u;
      assert f[q].uid in users;
    }
    if u in users && !Absent(h, u) {
      assert !Absent(f, u);
      var q :| 0 <= q < |f| && f[q].uid == u;
      assert OccursBy(f, u, |f|);
    }
  }

  /** Every drawn trace is the series of some player of the selection. */
  lemma TraceOrigin(f: seq<Sample>, width: int, origin: int, t: Trace)
    requires f != [] && width > 0
    requires t in SortByTotal(Unsorted(f, width, origin))
    ensures exists k :: (0 <= k < |DistinctIds(f)| &&
      t == Trace(DistinctIds(f)[k], Series(f, DistinctIds(f)[k], width, origin)))
  {
    var un := Unsorted(f, width, origin);
    SortByTotalSpec(un);
    assert t in multiset(un);
    var k :| 0 <= k < |un| && un[k] == t;
  }

  /** Every player of the selection is drawn. */
  lemma TraceOfEach(f: seq<Sample>, width: int, origin: int, k: int)
    requires f != [] && width > 0 && 0 <= k < |DistinctIds(f)|
    ensures exists i :: (0 <= i < |SortByTotal(Unsorted(f, width, origin))| &&
      SortByTotal(Unsorted(f, width, origin))[i].uid == DistinctIds(f)[k])
  {
    var un := Unsorted(f, width, origin);
    var sorted := SortByTotal(un);
    SortByTotalSpec(un);
    assert un[k] in multiset(sorted);
    var i :| 0 <= i < |sorted| && sorted[i] == un[k];
  }

  /** The chart has one trace per selected player that has samples, and no
      other; all traces share the bucket labels; they are drawn in
      non-decreasing order of total. */
  lemma ResampleShape(h: seq<Sample>, users: seq<string>, width: int, origin: int)
    requires width > 0
    ensures var c := Resample(h, users, width, origin);
      && (Selected(h, users) == [] ==> c == NoChart)
      && |c.traces| == |DistinctIds(Selected(h, users))|
      && (forall i :: 0 <= i < |c.traces| ==>
            c.traces[i].uid in users && !Absent(h, c.traces[i].uid) && |c.traces[i].values| == |c.starts|)
      && (forall u :: u in users && !Absent(h, u) ==> exists i :: 0 <= i < |c.traces| && c.traces[i].uid == u)
      && SortedByTotal(c.traces)
  {
    var f := Selected(h, users);
    var c := Resample(h, users, width, origin);
    if f != [] {
      var un := Unsorted(f, width, origin);
      var cols := DistinctIds(f);
      SortByTotalSpec(un);
      assert |c.traces| == |un| by {
        assert |multiset(c.traces)| == |multiset(un)|;
      }
      forall i | 0 <= i < |c.traces|
        ensures c.traces[i].uid in users && !Absent(h, c.traces[i].uid) && |c.traces[i].values| == |c.starts|
      {
        TraceOrigin(f, width, origin, c.traces[i]);
        var k :| 0 <= k < |cols| && c.traces[i] == Trace(cols[k], Series(f, cols[k], width, origin));
        SelectedIds(h, users, cols[k]);
      }
      forall u | u in users && !Absent(h, u) ensures exists i :: 0 <= i < |c.traces| && c.traces[i].uid == u {
        SelectedIds(h, users, u);
        var k :| 0 <= k < |cols| && cols[k] == u;
        TraceOfEach(f, width, origin, k);
      }
    } else {
      DistinctIdsSpec(f);
      assert DistinctIds(f) == [];
    }
  }

  /** The bucketed series of a selected player sums to its spread over the grid. */
  lemma SeriesTotal(h: seq<Sample>, users: seq<string>, width: int, origin: int, u: string)
    requires width > 0 && u in users && Selected(h, users) != []
    ensures var f := Selected(h, users);
      Sum(Series(f, u, width, origin)) == Spread(Fills(h, u, GridStart(f), GridLen(f)))
  {
    var f := Selected(h, users);
    var g0, n := GridStart(f), GridLen(f);
    BucketsPreserveSum(PlayerIncrements(f, u, g0, n), g0, width, origin);
    PlayerTelescope(f, u, g0, n);
    FillsSelected(h, users, u, g0, n);
  }

  lemma FillsSelected(h: seq<Sample>, users: seq<string>, u: string, g0: int, n: nat)
    requires u in users
    ensures Fills(Selected(h, users), u, g0, n) == Fills(h, u, g0, n)
  {
    var a, b := Fills(Selected(h, users), u, g0, n), Fills(h, u, g0, n);
    forall p | 0 <= p < n ensures a[p] == b[p] {
      FillSelected(h, users, u, g0 + Second * p);
    }
    assert a == b;
  }

  /** Each trace's total is the player's filled value at the last grid point
      minus its first defined filled value on the grid (telescoping through the
      buckets). */
  lemma ResampleTotals(h: seq<Sample>, users: seq<string>, width: int, origin: int)
    requires width > 0
    ensures var f := Selected(h, users); var c := Resample(h, users, width, origin);
      f != [] ==> forall i :: 0 <= i < |c.traces| ==>
        Total(c.traces[i]) == Spread(Fills(h, c.traces[i].uid, GridStart(f), GridLen(f)))
  {
    var f := Selected(h, users);
    var c := Resample(h, users, width, origin);
    if f != [] {
      var cols := DistinctIds(f);
      forall i | 0 <= i < |c.traces|
        ensures Total(c.traces[i]) == Spread(Fills(h, c.traces[i].uid, GridStart(f), GridLen(f)))
      {
        TraceOrigin(f, width, origin, c.traces[i]);
        var k :| 0 <= k < |cols| && c.traces[i] == Trace(cols[k], Series(f, cols[k], width, origin));
        SelectedIds(h, users, cols[k]);
        SeriesTotal(h, users, width, origin, cols[k]);
      }
    }
  }

  /** A selected player with a single sample is drawn as an all-zero series. */
  lemma SingleSampleZeroSeries(h: seq<Sample>, users: seq<string>, width: int, origin: int, i: int, j: int)
    requires width > 0
    requires 0 <= i < |Resample(h, users, width, origin).traces|
    requires 0 <= j < |h| && h[j].uid == Resample(h, users, width, origin).traces[i].uid
    requires forall k :: 0 <= k < |h| && h[k].uid == h[j].uid ==> k == j
    ensures forall b :: 0 <= b < |Resample(h, users, width, origin).traces[i].values| ==>
      Resample(h, users, width, origin).traces[i].values[b] == 0
  {
    var f := Selected(h, users);
    var c := Resample(h, users, width, origin);
    var un := Unsorted(f, width, origin);
    var cols := DistinctIds(f);
    SortByTotalSpec(un);
    assert c.traces[i] in multiset(un);
    var k :| 0 <= k < |un| && un[k] == c.traces[i];
    var u := cols[k];
    var g0, n := GridStart(f), GridLen(f);
    SelectedIds(h, users, u);
    SelectedSpec(h, users);
    // the one sample of u in h is also the one sample of u in f
    var jf :| 0 <= jf < |f| && f[jf].uid == u by {
      DistinctIdsSpec(f);
      assert OccursBy(f, u, |f|);
    }
    assert f[jf] in h;
    forall k' | 0 <= k' < |f| && f[k'].uid == u ensures k' == jf {
      assert f[k'] in h && f[jf] in h;
      var a :| 0 <= a < |h| && h[a] == f[k'];
      var b :| 0 <= b < |h| && h[b] == f[jf];
      assert a == j && b == j;
      SelectedDistinctPositions(h, users, k', jf);
    }
    SingleSampleFlat(f, u, g0, n, jf);
    BucketsOfZeros(PlayerIncrements(f, u, g0, n), g0, width, origin);
  }

  /** Two positions of the selection holding the same sample value come from
      positions of the history holding it; if the history has it only once the
      positions coincide. */
  lemma {:induction false} SelectedDistinctPositions(h: seq<Sample>, users: seq<string>, p: int, q: int)
    requires 0 <= p < |Selected(h, users)| && 0 <= q < |Selected(h, users)|
    requires Selected(h, users)[p] == Selected(h, users)[q]
    requires forall a, b :: 0 <= a < |h| && 0 <= b < |h| && h[a] == Selected(h, users)[p] && h[b] == Selected(h, users)[p] ==> a == b
    ensures p == q
  {
    var n := |h| - 1;
    var s := Selected(h[..n], users);
    var x := Selected(h, users)[p];
    SelectedSpec(h[..n], users);
    if h[n].uid in users && (p == |s| || q == |s|) {
      if p != q {
        assert false;
      }
    } else {
      assert p < |s| && q < |s|;
      assert s[p] == x && s[q] == x;
      SelectedDistinctPositions(h[..n], users, p, q);
    }
  }

  /** The dropdown options: every player of the history, in first-appearance
      order, with its display name. */
  function Options(h: seq<Sample>, names: map<string, string>): seq<(string, string)>
  {
    var ids := DistinctIds(h);
    seq(|ids|, k requires 0 <= k < |ids| => (ids[k], Label(names, ids[k])))
  }

  /** The update callback after ingest: an empty history yields nothing; with
      auto-add every player of the history is plotted, otherwise the user's
      selection; an empty selection yields no chart. */
  function Render(h: seq<Sample>, names: map<string, string>, autoAdd: bool, selected: seq<string>, width: int): View
    requires width > 0
  {
    if h == [] then View([], [], [], NoChart)
    else
      var users := if autoAdd then DistinctIds(h) else selected;
      if users == [] then View(h, Options(h, names), users, NoChart)
      else
        var f := Selected(h, users);
        var origin := if f == [] then 0 else DayStart(GridStart(f));
        View(h, Options(h, names), users, Resample(h, users, width, origin))
  }

  /** An empty history yields an empty history, no options, no selection and no chart. */
  lemma RenderEmptyHistory(names: map<string, string>, autoAdd: bool, selected: seq<string>, width: int)
    requires width > 0
    ensures Render([], names, autoAdd, selected, width) == View([], [], [], NoChart)
  {
  }

  /** With auto-add the plotted players are exactly the distinct ids of the
      history in first-appearance order, otherwise the user's selection; the
      options list every player of the history once with its display name. */
  lemma RenderSelection(h: seq<Sample>, names: map<string, string>, autoAdd: bool, selected: seq<string>, width: int)
    requires width > 0 && h != []
    ensures var v := Render(h, names, autoAdd, selected, width);
      && v.history == h
      && v.selection == (if autoAdd then DistinctIds(h) else selected)
      && |v.options| == |DistinctIds(h)|
      && (forall k :: 0 <= k < |v.options| ==> v.options[k] == (DistinctIds(h)[k], Label(names, DistinctIds(h)[k])))
      && (forall u :: u in v.selection <==> (if autoAdd then !Absent(h, u) else u in selected))
      && (forall i :: 0 <= i < |v.chart.traces| ==> v.chart.traces[i].uid in v.selection)
      && (autoAdd ==> forall u :: !Absent(h, u) ==> exists i :: 0 <= i < |v.chart.traces| && v.chart.traces[i].uid == u)
  {
    var v := Render(h, names, autoAdd, selected, width);
    var users := if autoAdd then DistinctIds(h) else selected;
    DistinctIdsSpec(h);
    forall u ensures OccursBy(h, u, |h|) <==> !Absent(h, u) {
      if !Absent(h, u) {
        var j :| 0 <= j < |h| && h[j].uid == u;
        assert OccursBy(h, u, |h|);
      }
    }
    if users != [] {
      var f := Selected(h, users);
      var origin := if f == [] then 0 else DayStart(GridStart(f));
      ResampleShape(h, users, width, origin);
    } else if autoAdd {
      assert h[0].uid in DistinctIds(h) by { assert OccursBy(h, h[0].uid, |h|); }
    }
  }

  /** With a valid registry (every player of the history registered) the
      options carry the registered names. */
  lemma OptionsUseRegistry(h: seq<Sample>, names: map<string, string>)
    requires forall j :: 0 <= j < |h| ==> h[j].uid in names
    ensures forall k :: 0 <= k < |Options(h, names)| ==>
      Options(h, names)[k].0 in names && Options(h, names)[k].1 == names[Options(h, names)[k].0]
  {
    DistinctIdsSpec(h);
    var ids := DistinctIds(h);
    forall k | 0 <= k < |ids| ensures ids[k] in names {
      assert OccursBy(h, ids[k], |h|);
    }
  }

  /** One player read at 0, 1, 2 and 3 seconds with cumulative damage 100,
      150, 150 and 220. */
  const ExampleRun: seq<Sample> :=
    [Sample(0, "P", 100), Sample(1000, "P", 150), Sample(2000, "P", 150), Sample(3000, "P", 220)]

  lemma ExampleRunGrid()
    ensures Selected(ExampleRun, ["P"]) == ExampleRun && DistinctIds(ExampleRun) == ["P"]
    ensures GridStart(ExampleRun) == 0 && GridLen(ExampleRun) == 4
  {
    var h := ExampleRun;
    var h1, h2, h3 := h[..1], h[..2], h[..3];
    assert h1[..0] == [] && h2[..1] == h1 && h3[..2] == h2;
    assert "P" in ["P"];
    assert Selected(h1, ["P"]) == h1;
    assert Selected(h2, ["P"]) == h2;
    assert Selected(h3, ["P"]) == h3;
    assert DistinctIds(h1) == ["P"];
    assert DistinctIds(h2) == ["P"];
    assert DistinctIds(h3) == ["P"];
    assert MinTime(h2) == 0 && MaxTime(h2) == 1000;
    assert MinTime(h3) == 0 && MaxTime(h3) == 2000;
  }

  lemma ExampleRunFillAt(j: int)
    requires 0 <= j < 4
    ensures FillAt(ExampleRun, "P", Second * j) == Some(ExampleRun[j].damage)
  {
    FillAtLatest(ExampleRun, "P", Second * j, j);
  }

  lemma ExampleRunFills()
    ensures Fills(ExampleRun, "P", 0, 4) == [Some(100), Some(150), Some(150), Some(220)]
  {
    ExampleRunFillAt(0);
    ExampleRunFillAt(1);
    ExampleRunFillAt(2);
    ExampleRunFillAt(3);
  }

  lemma ExampleRunBuckets()
    ensures Starts(0, 4, 2000, 0) == [0, 2000]
    ensures BucketSums([0, 50, 0, 70], 0, 2000, 0) == [50, 70]
  {
    var incs := [0, 50, 0, 70];
    assert BucketCount(0, 4, 2000, 0) == 2;
    assert GridBelow(0, 4, 0) == 0 && GridBelow(0, 4, 2000) == 2 && GridBelow(0, 4, 4000) == 4;
    assert incs[0..2] == [0, 50] && incs[2..4] == [0, 70];
    assert [0, 50][..1] == [0] && [0, 70][..1] == [0];
    assert Sum([0, 50]) == 50 && Sum([0, 70]) == 70;
  }

  /** In 2-second buckets the example run gives the increments 50 and 70. */
  lemma TwoSecondBuckets()
    ensures Resample(ExampleRun, ["P"], 2000, 0) == Chart([0, 2000], [Trace("P", [50, 70])])
  {
    ExampleRunGrid();
    ExampleRunFills();
    ExampleRunBuckets();
    assert PlayerIncrements(ExampleRun, "P", 0, 4) == [0, 50, 0, 70];
    assert Unsorted(ExampleRun, 2000, 0) == [Trace("P", [50, 70])];
  }

  /** With auto-add, the redraw of the example run aligns the buckets to the
      start of its day and draws the same chart. */
  lemma TwoSecondBucketsRendered(names: map<string, string>)
    ensures Render(ExampleRun, names, true, [], 2000).chart == Chart([0, 2000], [Trace("P", [50, 70])])
  {
    ExampleRunGrid();
    assert DayStart(0) == 0;
    TwoSecondBuckets();
  }
}
