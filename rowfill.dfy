/** The forward fill as the resampling code performs it: the selected samples
    are laid out as a table with one row per distinct read time and one column
    per player, and upsampling to the 1-second grid copies, for each grid
    point, the whole latest row at or before it, undefined cells included.
    Every read carries its own time, so a row defines only the player read at
    that moment, and a player whose row is not the latest one reads as
    undefined. */
module RowFill {
  import opened Samples
  import opened Grid
  import opened Plot

  /** The samples read at exactly time `t`: one row of the table. */
  function AtTime(h: seq<Sample>, t: int): seq<Sample>
  {
    if h == [] then []
    else AtTime(h[..|h| - 1], t) + (if h[|h| - 1].timestamp == t then [h[|h| - 1]] else [])
  }

  /** The cell of `uid` in the latest row at or before `g`. */
  function RowFillAt(h: seq<Sample>, uid: string, g: int): Option<int>
  {
    var b := Before(h, g);
    if b == [] then None else LastDamage(AtTime(b, MaxTime(b)), uid)
  }

  /** The row-filled values of `uid` at the `n` grid points from `g0`. */
  function RowFills(h: seq<Sample>, uid: string, g0: int, n: nat): (f: seq<Option<int>>)
    ensures |f| == n
  {
    seq(n, i requires 0 <= i < n => RowFillAt(h, uid, g0 + Second * i))
  }

  /** Two players read alternately: A at 0 s and 2 s, B at 0.1 s and 2.1 s. */
  const Mixed: seq<Sample> :=
    [Sample(0, "A", 100), Sample(100, "B", 5), Sample(2000, "A", 150), Sample(2100, "B", 7)]

  lemma MixedGrid()
    ensures GridStart(Mixed) == 0 && GridLen(Mixed) == 3
  {
    var h := Mixed;
    assert h[..3][..2] == h[..2] && h[..2][..1] == h[..1];
    assert MinTime(h[..2]) == 0 && MaxTime(h[..2]) == 100;
    assert MinTime(h[..3]) == 0 && MaxTime(h[..3]) == 2000;
  }

  lemma MixedBefore0()
    ensures Before(Mixed, 0) == Mixed[..1]
  {
    var h1, h2, h3 := Mixed[..1], Mixed[..2], Mixed[..3];
    assert h1[..0] == [] && h2[..1] == h1 && h3[..2] == h2 && Mixed[..3] == h3;
    assert Before(h1, 0) == h1;
    assert Before(h2, 0) == h1;
    assert Before(h3, 0) == h1;
  }

  lemma MixedBefore1000()
    ensures Before(Mixed, 1000) == Mixed[..2]
  {
    var h1, h2, h3 := Mixed[..1], Mixed[..2], Mixed[..3];
    assert h1[..0] == [] && h2[..1] == h1 && h3[..2] == h2 && Mixed[..3] == h3;
    assert Before(h1, 1000) == h1;
    assert Before(h2, 1000) == h2;
    assert Before(h3, 1000) == h2;
  }

  lemma MixedBefore2000()
    ensures Before(Mixed, 2000) == Mixed[..3]
  {
    var h1, h2, h3 := Mixed[..1], Mixed[..2], Mixed[..3];
    assert h1[..0] == [] && h2[..1] == h1 && h3[..2] == h2 && Mixed[..3] == h3;
    assert Before(h1, 2000) == h1;
    assert Before(h2, 2000) == h2;
    assert Before(h3, 2000) == h3;
  }

  lemma MixedRowFillAt0()
    ensures RowFillAt(Mixed, "A", 0) == Some(100)
  {
    MixedBefore0();
    var h1 := Mixed[..1];
    assert h1[..0] == [];
    assert AtTime(h1, 0) == h1;
  }

  lemma MixedRowFillAt1000()
    ensures RowFillAt(Mixed, "A", 1000) == None
  {
    MixedBefore1000();
    var h1, h2 := Mixed[..1], Mixed[..2];
    assert h1[..0] == [] && h2[..1] == h1;
    assert MaxTime(h2) == 100;
    assert AtTime(h1, 100) == [];
    assert AtTime(h2, 100) == [Mixed[1]];
  }

  lemma MixedRowFillAt2000()
    ensures RowFillAt(Mixed, "A", 2000) == Some(150)
  {
    MixedBefore2000();
    var h1, h2, h3 := Mixed[..1], Mixed[..2], Mixed[..3];
    assert h1[..0] == [] && h2[..1] == h1 && h3[..2] == h2;
    assert MaxTime(h2) == 100;
    assert MaxTime(h3) == 2000;
    assert AtTime(h1, 2000) == [];
    assert AtTime(h2, 2000) == [];
    assert AtTime(h3, 2000) == [Mixed[2]];
  }

  lemma MixedRowFills()
    ensures RowFills(Mixed, "A", 0, 3) == [Some(100), None, Some(150)]
  {
    MixedRowFillAt0();
    MixedRowFillAt1000();
    MixedRowFillAt2000();
  }

  lemma MixedFillAt(g: int, j: int)
    requires (g, j) == (0, 0) || (g, j) == (1000, 0) || (g, j) == (2000, 2)
    ensures FillAt(Mixed, "A", g) == Some(Mixed[j].damage)
  {
    FillAtLatest(Mixed, "A", g, j);
  }

  lemma MixedFills()
    ensures Fills(Mixed, "A", 0, 3) == [Some(100), Some(100), Some(150)]
  {
    MixedFillAt(0, 0);
    MixedFillAt(1000, 0);
    MixedFillAt(2000, 2);
  }

  lemma SumOfThree(a: int, b: int, c: int)
    ensures Sum([a, b, c]) == a + b + c
  {
    assert [a][..0] == [];
    assert Sum([a]) == a;
    assert [a, b][..1] == [a];
    assert Sum([a, b]) == a + b;
    assert [a, b, c][..2] == [a, b];
  }

  /** The as-written fill loses player A's 50 damage between its two reads,
      which the per-player fill keeps. */
  lemma RowFillsLoseIncrements()
    ensures GridStart(Mixed) == 0 && GridLen(Mixed) == 3
    ensures Sum(Increments(RowFills(Mixed, "A", 0, 3))) == 0
    ensures Sum(PlayerIncrements(Mixed, "A", 0, 3)) == 50
  {
    MixedGrid();
    MixedRowFills();
    MixedFills();
    assert Increments(RowFills(Mixed, "A", 0, 3)) == [0, 0, 0];
    assert PlayerIncrements(Mixed, "A", 0, 3) == [0, 0, 50];
    SumOfThree(0, 0, 0);
    SumOfThree(0, 0, 50);
  }

  lemma {:induction false} BeforeMembers(h: seq<Sample>, g: int)
    ensures forall j :: 0 <= j < |Before(h, g)| ==> Before(h, g)[j] in h && Before(h, g)[j].timestamp <= g
  {
    if h != [] {
      var n := |h| - 1;
      BeforeMembers(h[..n], g);
      var b := Before(h[..n], g);
      forall j | 0 <= j < |b| ensures b[j] in h {
        assert b[j] in h[..n];
      }
    }
  }

  lemma {:induction false} BeforeOrdered(h: seq<Sample>, g: int)
    requires TimeOrdered(h)
    ensures TimeOrdered(Before(h, g))
  {
    if h != [] {
      var n := |h| - 1;
      assert TimeOrdered(h[..n]);
      BeforeOrdered(h[..n], g);
      BeforeMembers(h[..n], g);
      var b := Before(h[..n], g);
      if h[n].timestamp <= g {
        var r := b + [h[n]];
        forall i, j | 0 <= i < j < |r| ensures r[i].timestamp <= r[j].timestamp {
          if j == |b| {
            assert r[i] == b[i] && b[i] in h[..n];
            var k :| 0 <= k < n && h[..n][k] == b[i];
            assert h[k] == b[i];
          } else {
            assert r[i] == b[i] && r[j] == b[j];
          }
        }
      }
    }
  }

  lemma {:induction false} MaxTimeOrdered(b: seq<Sample>)
    requires b != [] && TimeOrdered(b)
    ensures MaxTime(b) == b[|b| - 1].timestamp
  {
    if |b| > 1 {
      var n := |b| - 1;
      assert TimeOrdered(b[..n]);
      MaxTimeOrdered(b[..n]);
      assert b[..n][n - 1] == b[n - 1];
    }
  }

  /** With a single player and a time-ordered history the as-written fill is
      the per-player fill: the fault needs two players. */
  lemma RowFillAloneAgrees(h: seq<Sample>, uid: string, g: int)
    requires TimeOrdered(h)
    requires forall j :: 0 <= j < |h| ==> h[j].uid == uid
    ensures RowFillAt(h, uid, g) == FillAt(h, uid, g)
  {
    var b := Before(h, g);
    if b != [] {
      var n := |b| - 1;
      BeforeOrdered(h, g);
      BeforeMembers(h, g);
      MaxTimeOrdered(b);
      assert b[n] in h;
      assert b[n].uid == uid;
      var a := AtTime(b[..n], b[n].timestamp);
      assert AtTime(b, MaxTime(b)) == a + [b[n]];
    }
  }
}
