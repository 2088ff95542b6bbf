/** The damage history, the polled entries, the player-name registry and the
    lookups the dashboard performs over the history. */
module Samples {

  datatype Option<+T> = None | Some(value: T)

  /** One history record: when it was read (milliseconds since the Unix epoch),
      whose counter it is, and the cumulative damage read. */
  datatype Sample = Sample(timestamp: int, uid: string, damage: int)

  /** One entry of the polled `user` map: the player id and its
      `total_damage.total` figure, absent when either key is missing. */
  datatype Entry = Entry(uid: string, total: Option<int>)

  /** A missing total reads as 0. */
  function TotalOrZero(total: Option<int>): int
  {
    match total
    case Some(d) => d
    case None => 0
  }

  /** Damage carried by the most recent sample of `uid` (scanning from the end). */
  function LastDamage(h: seq<Sample>, uid: string): Option<int>
  {
    if h == [] then None
    else if h[|h| - 1].uid == uid then Some(h[|h| - 1].damage)
    else LastDamage(h[..|h| - 1], uid)
  }

  /** Position `j` holds the most recent sample of `uid`. */
  ghost predicate IsLatest(h: seq<Sample>, uid: string, j: int)
  {
    0 <= j < |h| && h[j].uid == uid && forall k :: j < k < |h| ==> h[k].uid != uid
  }

  /** The history has no sample of `uid`. */
  ghost predicate Absent(h: seq<Sample>, uid: string)
  {
    forall j :: 0 <= j < |h| ==> h[j].uid != uid
  }

  /** LastDamage finds nothing exactly when the player has no sample, and
      otherwise returns the damage of the player's latest sample. */
  lemma {:induction false} LastDamageSpec(h: seq<Sample>, uid: string)
    ensures LastDamage(h, uid).None? <==> Absent(h, uid)
    ensures LastDamage(h, uid).Some? ==>
      exists j :: IsLatest(h, uid, j) && h[j].damage == LastDamage(h, uid).value
  {
    if h != [] {
      var n := |h| - 1;
      var p := h[..n];
      if h[n].uid == uid {
        assert IsLatest(h, uid, n);
      } else {
        LastDamageSpec(p, uid);
        if LastDamage(p, uid).Some? {
          var j :| IsLatest(p, uid, j) && p[j].damage == LastDamage(p, uid).value;
          assert IsLatest(h, uid, j);
        } else {
          assert Absent(h, uid) by {
            forall j | 0 <= j < |h| ensures h[j].uid != uid {
              if j < n { assert h[j] == p[j]; }
            }
          }
        }
      }
    }
  }

  /** Samples of other players appended after `h` do not change the latest
      sample of `uid`. */
  lemma {:induction false} LastDamageSkip(h: seq<Sample>, c: seq<Sample>, uid: string)
    requires Absent(c, uid)
    ensures LastDamage(h + c, uid) == LastDamage(h, uid)
  {
    if c != [] {
      var n := |c| - 1;
      assert (h + c)[..|h + c| - 1] == h + c[..n];
      assert (h + c)[|h + c| - 1] == c[n];
      assert Absent(c[..n], uid) by {
        forall j | 0 <= j < n ensures c[..n][j].uid != uid {
          assert c[..n][j] == c[j];
        }
      }
      LastDamageSkip(h, c[..n], uid);
      assert c[n].uid != uid;
    } else {
      assert h + c == h;
    }
  }

  /** Player ids of the history, each once, in order of first appearance
      (the order of `unique()` over the `user_id` column). */
  function DistinctIds(h: seq<Sample>): seq<string>
  {
    if h == [] then []
    else
      var ids := DistinctIds(h[..|h| - 1]);
      if h[|h| - 1].uid in ids then ids else ids + [h[|h| - 1].uid]
  }

  /** `uid` has a sample among the first `p` of the history. */
  ghost predicate OccursBy(h: seq<Sample>, uid: string, p: int)
  {
    exists q :: 0 <= q < p && q < |h| && h[q].uid == uid
  }

  /** DistinctIds lists every player of the history exactly once, and a player
      is listed before another exactly when it appeared first. */
  lemma {:induction false} DistinctIdsSpec(h: seq<Sample>)
    ensures forall i, j :: 0 <= i < j < |DistinctIds(h)| ==> DistinctIds(h)[i] != DistinctIds(h)[j]
    ensures forall u :: u in DistinctIds(h) <==> OccursBy(h, u, |h|)
    ensures forall i, j, p :: 0 <= i < j < |DistinctIds(h)| && OccursBy(h, DistinctIds(h)[j], p) ==>
      OccursBy(h, DistinctIds(h)[i], p)
  {
    if h != [] {
      var n := |h| - 1;
      var h' := h[..n];
      var ids' := DistinctIds(h');
      DistinctIdsSpec(h');
      var ids := DistinctIds(h);
      forall u ensures OccursBy(h, u, |h|) <==> OccursBy(h', u, n) || u == h[n].uid {
        if OccursBy(h, u, |h|) {
          var q :| 0 <= q < |h| && q < |h| && h[q].uid == u;
          if q < n { assert h'[q] == h[q]; }
        }
        if OccursBy(h', u, n) {
          var q :| 0 <= q < n && q < |h'| && h'[q].uid == u;
          assert h[q] == h'[q];
        }
        if u == h[n].uid { assert h[n].uid == u; }
      }
      forall u, p | 0 <= p <= n ensures OccursBy(h, u, p) <==> OccursBy(h', u, p) {
        if OccursBy(h, u, p) {
          var q :| 0 <= q < p && q < |h| && h[q].uid == u;
          assert h'[q] == h[q];
        }
        if OccursBy(h', u, p) {
          var q :| 0 <= q < p && q < |h'| && h'[q].uid == u;
          assert h[q] == h'[q];
        }
      }
      forall i, j, p | 0 <= i < j < |ids| && OccursBy(h, ids[j], p)
        ensures OccursBy(h, ids[i], p)
      {
        if p > n {
          assert OccursBy(h, ids[i], |h|);
          var q :| 0 <= q < |h| && q < |h| && h[q].uid == ids[i];
          assert 0 <= q < p;
        } else if j < |ids'| {
          assert ids[j] == ids'[j] && ids[i] == ids'[i];
        } else {
          // ids[j] is the newcomer h[n].uid, which does not occur in h'
          assert false;
        }
      }
    }
  }

  /** The placeholder display name given to a player seen for the first time. */
  function Placeholder(uid: string): string
  {
    "玩家_" + uid
  }

  /** The registry as the process starts: the preset known players. */
  function SeedNames(): map<string, string>
  {
    map["114514" := "老玩家", "9226643" := "伊咪塔"]
  }

  /** Register `uid` under its placeholder name unless it is already known. */
  function Register(names: map<string, string>, uid: string): map<string, string>
  {
    if uid in names then names else names[uid := Placeholder(uid)]
  }

  /** The display name of `uid`: its registered name, else its placeholder. */
  function Label(names: map<string, string>, uid: string): string
  {
    if uid in names then names[uid] else Placeholder(uid)
  }

  /** The samples of the players in `users`, in history order. */
  function Selected(h: seq<Sample>, users: seq<string>): seq<Sample>
  {
    if h == [] then []
    else Selected(h[..|h| - 1], users) + (if h[|h| - 1].uid in users then [h[|h| - 1]] else [])
  }

  /** Selection keeps exactly the samples of the selected players, and for a
      selected player it keeps all of them, in order. */
  lemma {:induction false} SelectedSpec(h: seq<Sample>, users: seq<string>)
    ensures forall j :: 0 <= j < |Selected(h, users)| ==> Selected(h, users)[j].uid in users
    ensures forall j :: 0 <= j < |Selected(h, users)| ==> Selected(h, users)[j] in h
    ensures forall u :: u in users ==> LastDamage(Selected(h, users), u) == LastDamage(h, u)
    ensures forall j :: 0 <= j < |h| && h[j].uid in users ==> h[j] in Selected(h, users)
  {
    if h != [] {
      var n := |h| - 1;
      SelectedSpec(h[..n], users);
      var s := Selected(h[..n], users);
      var last := h[n];
      forall j | 0 <= j < |h| && h[j].uid in users ensures h[j] in Selected(h, users) {
        if j < n {
          assert h[..n][j] == h[j];
          assert h[j] in s;
        }
      }
      forall j | 0 <= j < |Selected(h, users)| ensures Selected(h, users)[j] in h {
        if j < |s| {
          assert s[j] in h[..n];
        }
      }
      forall u | u in users ensures LastDamage(Selected(h, users), u) == LastDamage(h, u) {
        assert LastDamage(s, u) == LastDamage(h[..n], u);
        if last.uid in users {
          assert Selected(h, users) == s + [last];
          assert (s + [last])[..|s|] == s;
        } else {
          assert Selected(h, users) == s;
        }
      }
    }
  }

  /** Selection keeps each selected player's own records in history order:
      picking one player out of the selection gives all of that player's
      records, in order. */
  lemma {:induction false} SelectedKeepsOrder(h: seq<Sample>, users: seq<string>, u: string)
    requires u in users
    ensures Selected(Selected(h, users), [u]) == Selected(h, [u])
  {
    if h != [] {
      var n := |h| - 1;
      var x := h[n];
      SelectedKeepsOrder(h[..n], users, u);
      var s := Selected(h[..n], users);
      assert Selected(h, [u]) == Selected(h[..n], [u]) + (if x.uid in [u] then [x] else []);
      if x.uid in users {
        assert Selected(h, users) == s + [x];
        assert (s + [x])[..|s|] == s;
        assert Selected(s + [x], [u]) == Selected(s, [u]) + (if x.uid in [u] then [x] else []);
      } else {
        assert Selected(h, users) == s;
        assert x.uid !in [u];
        assert Selected(h[..n], [u]) + [] == Selected(h[..n], [u]);
      }
    }
  }

  /** Every timestamp is at most `t`. */
  ghost predicate NotAfter(h: seq<Sample>, t: int)
  {
    forall j :: 0 <= j < |h| ==> h[j].timestamp <= t
  }

  /** Timestamps never decrease along the history. */
  ghost predicate TimeOrdered(h: seq<Sample>)
  {
    forall i, j :: 0 <= i < j < |h| ==> h[i].timestamp <= h[j].timestamp
  }
}
