/** The 1-second grid: forward-filled cumulative values per player, their
    first differences, and the telescoping of those differences. */
module Grid {
  import opened Samples

  /** Spacing of the upsampling grid, in milliseconds. */
  const Second: int := 1000

  /** The samples read at or before `g`, in history order. */
  function Before(h: seq<Sample>, g: int): seq<Sample>
  {
    if h == [] then []
    else Before(h[..|h| - 1], g) + (if h[|h| - 1].timestamp <= g then [h[|h| - 1]] else [])
  }

  /** Forward fill: the cumulative value of `uid` at grid point `g`, undefined
      before the player's first sample. */
  function FillAt(h: seq<Sample>, uid: string, g: int): Option<int>
  {
    LastDamage(Before(h, g), uid)
  }

  /** Position `j` holds the latest sample of `uid` read at or before `g`. */
  ghost predicate LatestBy(h: seq<Sample>, uid: string, g: int, j: int)
  {
    0 <= j < |h| && h[j].uid == uid && h[j].timestamp <= g &&
    forall k :: j < k < |h| ==> !(h[k].uid == uid && h[k].timestamp <= g)
  }

  /** No sample of `uid` was read at or before `g`. */
  ghost predicate NoneBy(h: seq<Sample>, uid: string, g: int)
  {
    forall j :: 0 <= j < |h| ==> !(h[j].uid == uid && h[j].timestamp <= g)
  }

  lemma FillAtUnfold(h: seq<Sample>, uid: string, g: int)
    requires h != []
    ensures FillAt(h, uid, g) ==
      if h[|h| - 1].uid == uid && h[|h| - 1].timestamp <= g then Some(h[|h| - 1].damage)
      else FillAt(h[..|h| - 1], uid, g)
  {
    var b := Before(h[..|h| - 1], g);
    if h[|h| - 1].timestamp <= g {
      assert Before(h, g) == b + [h[|h| - 1]];
      assert (b + [h[|h| - 1]])[..|b|] == b;
    } else {
      assert Before(h, g) == b;
    }
  }

  lemma {:induction false} FillAtNone(h: seq<Sample>, uid: string, g: int)
    ensures FillAt(h, uid, g).None? <==> NoneBy(h, uid, g)
  {
    if h != [] {
      var n := |h| - 1;
      var p := h[..n];
      FillAtUnfold(h, uid, g);
      FillAtNone(p, uid, g);
      assert forall j :: 0 <= j < n ==> h[j] == p[j];
    }
  }

  lemma {:induction false} FillAtLatest(h: seq<Sample>, uid: string, g: int, j: int)
    requires LatestBy(h, uid, g, j)
    ensures FillAt(h, uid, g) == Some(h[j].damage)
  {
    var n := |h| - 1;
    var p := h[..n];
    FillAtUnfold(h, uid, g);
    if j < n {
      assert LatestBy(p, uid, g, j);
      FillAtLatest(p, uid, g, j);
    }
  }

  /** The filled value at `g` is undefined exactly when the player has no
      sample at or before `g`, and otherwise it is the damage of the player's
      last sample at or before `g`. */
  lemma FillAtSpec(h: seq<Sample>, uid: string, g: int)
    ensures FillAt(h, uid, g).None? <==> NoneBy(h, uid, g)
    ensures forall j :: LatestBy(h, uid, g, j) ==> FillAt(h, uid, g) == Some(h[j].damage)
  {
    FillAtNone(h, uid, g);
    forall j | LatestBy(h, uid, g, j) ensures FillAt(h, uid, g) == Some(h[j].damage) {
      FillAtLatest(h, uid, g, j);
    }
  }

  /** Once defined, the filled value stays defined at every later grid point. */
  lemma FillMonotone(h: seq<Sample>, uid: string, g: int, g': int)
    requires g <= g' && FillAt(h, uid, g).Some?
    ensures FillAt(h, uid, g').Some?
  {
    FillAtSpec(h, uid, g);
    FillAtSpec(h, uid, g');
    var j :| 0 <= j < |h| && h[j].uid == uid && h[j].timestamp <= g;
    assert h[j].timestamp <= g';
  }

  /** The filled values of `uid` at the `n` grid points `g0`, `g0 + Second`, ... */
  function Fills(h: seq<Sample>, uid: string, g0: int, n: nat): (f: seq<Option<int>>)
    ensures |f| == n
  {
    seq(n, i requires 0 <= i < n => FillAt(h, uid, g0 + Second * i))
  }

  /** One first difference; undefined on either side counts as 0. */
  function Diff(before: Option<int>, after: Option<int>): int
  {
    if before.Some? && after.Some? then after.value - before.value else 0
  }

  /** First differences of a filled series, the first point having no
      predecessor; not clamped, so a falling counter gives a negative step. */
  function Increments(f: seq<Option<int>>): (r: seq<int>)
    ensures |r| == |f|
  {
    seq(|f|, i requires 0 <= i < |f| => if i == 0 then 0 else Diff(f[i - 1], f[i]))
  }

  function Sum(s: seq<int>): int
  {
    if s == [] then 0 else Sum(s[..|s| - 1]) + s[|s| - 1]
  }

  lemma {:induction false} SumAppend(a: seq<int>, b: seq<int>)
    ensures Sum(a + b) == Sum(a) + Sum(b)
  {
    if b == [] {
      assert a + b == a;
    } else {
      var n := |b| - 1;
      assert (a + b)[..|a + b| - 1] == a + b[..n];
      SumAppend(a, b[..n]);
    }
  }

  /** The sum of a prefix grows by the next element. */
  lemma SumPrefixStep(s: seq<int>, k: int)
    requires 0 < k <= |s|
    ensures Sum(s[..k]) == Sum(s[..k - 1]) + s[k - 1]
  {
    assert s[..k][..k - 1] == s[..k - 1];
  }

  /** A prefix sum splits at any point. */
  lemma SumSplit(s: seq<int>, lo: int, hi: int)
    requires 0 <= lo <= hi <= |s|
    ensures Sum(s[..hi]) == Sum(s[..lo]) + Sum(s[lo..hi])
  {
    assert s[..hi] == s[..lo] + s[lo..hi];
    SumAppend(s[..lo], s[lo..hi]);
  }

  /** A series of zeros sums to zero. */
  lemma {:induction false} SumZeros(s: seq<int>)
    requires forall i :: 0 <= i < |s| ==> s[i] == 0
    ensures Sum(s) == 0
  {
    if s != [] {
      var n := |s| - 1;
      assert forall i :: 0 <= i < n ==> s[..n][i] == s[i];
      SumZeros(s[..n]);
    }
  }

  /** Once a value is defined, every later one is. */
  ghost predicate UpwardClosed(f: seq<Option<int>>)
  {
    forall i, j :: 0 <= i <= j < |f| && f[i].Some? ==> f[j].Some?
  }

  /** The first defined value of a series. */
  function FirstDefined(f: seq<Option<int>>): Option<int>
  {
    if f == [] then None
    else if FirstDefined(f[..|f| - 1]).Some? then FirstDefined(f[..|f| - 1])
    else f[|f| - 1]
  }

  /** FirstDefined is the value at the earliest defined position, and is
      undefined only for a series with no defined value. */
  lemma {:induction false} FirstDefinedSpec(f: seq<Option<int>>)
    ensures FirstDefined(f).None? <==> forall i :: 0 <= i < |f| ==> f[i].None?
    ensures FirstDefined(f).Some? ==>
      exists i :: 0 <= i < |f| && f[i] == FirstDefined(f) && forall k :: 0 <= k < i ==> f[k].None?
  {
    if f != [] {
      var n := |f| - 1;
      var p := f[..n];
      FirstDefinedSpec(p);
      assert forall i :: 0 <= i < n ==> p[i] == f[i];
      if FirstDefined(p).Some? {
        var i :| 0 <= i < |p| && p[i] == FirstDefined(p) && forall k :: 0 <= k < i ==> p[k].None?;
        assert f[i] == FirstDefined(f);
      } else if f[n].Some? {
        assert f[n] == FirstDefined(f);
      }
    }
  }

  /** Last defined value minus first defined value (0 when nothing is defined). */
  function Spread(f: seq<Option<int>>): int
  {
    if |f| > 0 && f[|f| - 1].Some? && FirstDefined(f).Some?
    then f[|f| - 1].value - FirstDefined(f).value
    else 0
  }

  lemma IncrementsStep(f: seq<Option<int>>)
    requires |f| >= 2
    ensures Sum(Increments(f)) == Sum(Increments(f[..|f| - 1])) + Diff(f[|f| - 2], f[|f| - 1])
  {
    var n := |f| - 1;
    var inc := Increments(f);
    assert inc[..n] == Increments(f[..n]);
  }

  /** Extending an upward-closed series by one point adds its last difference
      to the spread. */
  lemma SpreadStep(f: seq<Option<int>>)
    requires |f| >= 2 && UpwardClosed(f)
    ensures Spread(f) == Spread(f[..|f| - 1]) + Diff(f[|f| - 2], f[|f| - 1])
  {
    var n := |f| - 1;
    var p := f[..n];
    FirstDefinedSpec(p);
    assert p[n - 1] == f[n - 1];
    if f[n].None? {
      assert f[n - 1].None?;
    } else if f[n - 1].None? {
      assert forall i :: 0 <= i < |p| ==> p[i].None?;
    } else {
      assert FirstDefined(p).Some?;
    }
  }

  /** Telescoping: the increments of an upward-closed filled series sum to its
      last value minus its first defined value. */
  lemma {:induction false} Telescope(f: seq<Option<int>>)
    requires UpwardClosed(f)
    ensures Sum(Increments(f)) == Spread(f)
  {
    if |f| == 1 {
      assert Increments(f) == [0];
      assert [0][..0] == [];
      assert FirstDefined(f) == f[0] by { assert f[..0] == []; }
    } else if |f| >= 2 {
      var p := f[..|f| - 1];
      assert UpwardClosed(p);
      Telescope(p);
      IncrementsStep(f);
      SpreadStep(f);
    }
  }

  /** The filled series of a player is upward closed. */
  lemma FillsUpwardClosed(h: seq<Sample>, uid: string, g0: int, n: nat)
    ensures UpwardClosed(Fills(h, uid, g0, n))
  {
    var f := Fills(h, uid, g0, n);
    forall i, j | 0 <= i <= j < n && f[i].Some? ensures f[j].Some? {
      FillMonotone(h, uid, g0 + Second * i, g0 + Second * j);
    }
  }

  /** Per-second increments of `uid` over the grid. */
  function PlayerIncrements(h: seq<Sample>, uid: string, g0: int, n: nat): (r: seq<int>)
    ensures |r| == n
  {
    Increments(Fills(h, uid, g0, n))
  }

  /** The increments of a player sum to its filled value at the last grid
      point minus its first defined filled value. */
  lemma PlayerTelescope(h: seq<Sample>, uid: string, g0: int, n: nat)
    ensures Sum(PlayerIncrements(h, uid, g0, n)) == Spread(Fills(h, uid, g0, n))
  {
    FillsUpwardClosed(h, uid, g0, n);
    Telescope(Fills(h, uid, g0, n));
  }

  /** The first grid point's increment is 0, and so is the increment at every
      grid point before the player's first sample. */
  lemma IncrementZeroBeforeFirst(h: seq<Sample>, uid: string, g0: int, n: nat, i: int)
    requires 0 <= i < n
    requires i == 0 || NoneBy(h, uid, g0 + Second * i)
    ensures PlayerIncrements(h, uid, g0, n)[i] == 0
  {
    FillAtSpec(h, uid, g0 + Second * i);
  }

  /** A player with a single sample gets only zero increments. */
  lemma SingleSampleFlat(h: seq<Sample>, uid: string, g0: int, n: nat, j: int)
    requires 0 <= j < |h| && h[j].uid == uid
    requires forall k :: 0 <= k < |h| && h[k].uid == uid ==> k == j
    ensures forall i :: 0 <= i < n ==> PlayerIncrements(h, uid, g0, n)[i] == 0
  {
    var f := Fills(h, uid, g0, n);
    forall i | 0 <= i < n ensures f[i].None? || f[i] == Some(h[j].damage) {
      var g := g0 + Second * i;
      FillAtSpec(h, uid, g);
      if f[i].Some? {
        assert LatestBy(h, uid, g, j);
      }
    }
  }
}
