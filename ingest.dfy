/** What one successful poll does to the history and to the name registry,
    as functions of the state before the poll, and what it promises. */
module Ingest {
  import opened Samples

  /** The polled entry carries the same damage as the player's latest sample. */
  predicate Unchanged(h: seq<Sample>, e: Entry)
  {
    LastDamage(h, e.uid) == Some(TotalOrZero(e.total))
  }

  /** One entry of the poll: append a sample unless the value is unchanged. */
  function IngestStep(h: seq<Sample>, e: Entry, now: int): seq<Sample>
  {
    if Unchanged(h, e) then h else h + [Sample(now, e.uid, TotalOrZero(e.total))]
  }

  /** The whole poll, entry by entry in the order of the polled map. */
  function IngestAll(h: seq<Sample>, poll: seq<Entry>, now: int): seq<Sample>
  {
    if poll == [] then h
    else IngestStep(IngestAll(h, poll[..|poll| - 1], now), poll[|poll| - 1], now)
  }

  /** Registering every polled id. */
  function RegisterAll(names: map<string, string>, poll: seq<Entry>): map<string, string>
  {
    if poll == [] then names
    else Register(RegisterAll(names, poll[..|poll| - 1]), poll[|poll| - 1].uid)
  }

  /** The keys of a polled map are distinct. */
  ghost predicate DistinctKeys(poll: seq<Entry>)
  {
    forall i, j :: 0 <= i < j < |poll| ==> poll[i].uid != poll[j].uid
  }

  /** `uid` is one of the polled ids. */
  ghost predicate Polled(poll: seq<Entry>, uid: string)
  {
    exists k :: 0 <= k < |poll| && poll[k].uid == uid
  }

  /** Reference definition: the samples of the entries whose value differs
      from the history as it stood before the poll, in poll order. */
  function Changed(h: seq<Sample>, poll: seq<Entry>, now: int): seq<Sample>
  {
    if poll == [] then []
    else
      var e := poll[|poll| - 1];
      Changed(h, poll[..|poll| - 1], now) +
        (if Unchanged(h, e) then [] else [Sample(now, e.uid, TotalOrZero(e.total))])
  }

  /** Number of samples of `uid`. */
  function CountOf(s: seq<Sample>, uid: string): nat
  {
    if s == [] then 0
    else CountOf(s[..|s| - 1], uid) + (if s[|s| - 1].uid == uid then 1 else 0)
  }

  lemma {:induction false} CountOfAppend(s: seq<Sample>, c: seq<Sample>, uid: string)
    ensures CountOf(s + c, uid) == CountOf(s, uid) + CountOf(c, uid)
  {
    if c == [] {
      assert s + c == s;
    } else {
      var n := |c| - 1;
      assert (s + c)[..|s + c| - 1] == s + c[..n];
      CountOfAppend(s, c[..n], uid);
    }
  }

  lemma {:induction false} CountOfAbsent(s: seq<Sample>, uid: string)
    requires Absent(s, uid)
    ensures CountOf(s, uid) == 0
  {
    if s != [] {
      var n := |s| - 1;
      assert Absent(s[..n], uid) by {
        forall j | 0 <= j < n ensures s[..n][j].uid != uid { assert s[..n][j] == s[j]; }
      }
      CountOfAbsent(s[..n], uid);
    }
  }

  /** Ingest only appends: the old history is a prefix of the new one, at most
      one sample is added per polled entry, and every added sample carries the
      poll time and the id and damage of a polled entry. */
  lemma {:induction false} IngestAllExtends(h: seq<Sample>, poll: seq<Entry>, now: int)
    ensures |h| <= |IngestAll(h, poll, now)| <= |h| + |poll|
    ensures IngestAll(h, poll, now)[..|h|] == h
    ensures forall j :: |h| <= j < |IngestAll(h, poll, now)| ==>
      var s := IngestAll(h, poll, now)[j];
      s.timestamp == now && exists k :: 0 <= k < |poll| && poll[k].uid == s.uid && TotalOrZero(poll[k].total) == s.damage
  {
    if poll != [] {
      var n := |poll| - 1;
      var p := poll[..n];
      IngestAllExtends(h, p, now);
      var r' := IngestAll(h, p, now);
      var r := IngestAll(h, poll, now);
      forall j | |h| <= j < |r|
        ensures r[j].timestamp == now
        ensures exists k :: 0 <= k < |poll| && poll[k].uid == r[j].uid && TotalOrZero(poll[k].total) == r[j].damage
      {
        if j < |r'| {
          assert r[j] == r'[j];
          var k :| 0 <= k < |p| && p[k].uid == r'[j].uid && TotalOrZero(p[k].total) == r'[j].damage;
          assert poll[k] == p[k];
        } else {
          assert r[j] == Sample(now, poll[n].uid, TotalOrZero(poll[n].total));
        }
      }
    }
  }

  /** A poll in which every value equals the player's latest sample appends nothing. */
  lemma {:induction false} UnchangedPollAppendsNothing(h: seq<Sample>, poll: seq<Entry>, now: int)
    requires forall k :: 0 <= k < |poll| ==> Unchanged(h, poll[k])
    ensures IngestAll(h, poll, now) == h
  {
    if poll != [] {
      var n := |poll| - 1;
      UnchangedPollAppendsNothing(h, poll[..n], now);
      assert Unchanged(h, poll[n]);
    }
  }

  /** In a polled map the last key does not occur before it. */
  lemma NewKey(poll: seq<Entry>)
    requires DistinctKeys(poll) && poll != []
    ensures !Polled(poll[..|poll| - 1], poll[|poll| - 1].uid)
  {
    var n := |poll| - 1;
    forall k | 0 <= k < n ensures poll[..n][k].uid != poll[n].uid { assert poll[..n][k] == poll[k]; }
  }

  /** Every sample of Changed comes from an entry of the poll. */
  lemma {:induction false} ChangedFromPoll(h: seq<Sample>, poll: seq<Entry>, now: int, uid: string)
    requires !Polled(poll, uid)
    ensures Absent(Changed(h, poll, now), uid)
  {
    if poll != [] {
      var n := |poll| - 1;
      assert !Polled(poll[..n], uid) by {
        forall k | 0 <= k < n ensures poll[..n][k].uid != uid { assert poll[..n][k] == poll[k]; }
      }
      ChangedFromPoll(h, poll[..n], now, uid);
      assert poll[n].uid != uid;
    }
  }

  /** With distinct keys (a polled map), the entries do not see each other's
      samples: the poll appends exactly the reference Changed samples. */
  lemma {:induction false} IngestAllIsChanged(h: seq<Sample>, poll: seq<Entry>, now: int)
    requires DistinctKeys(poll)
    ensures IngestAll(h, poll, now) == h + Changed(h, poll, now)
  {
    if poll == [] {
      assert h + [] == h;
    } else {
      var n := |poll| - 1;
      var p := poll[..n];
      var e := poll[n];
      assert DistinctKeys(p);
      IngestAllIsChanged(h, p, now);
      NewKey(poll);
      ChangedFromPoll(h, p, now, e.uid);
      var c := Changed(h, p, now);
      LastDamageSkip(h, c, e.uid);
      assert Unchanged(h + c, e) == Unchanged(h, e);
      var x := Sample(now, e.uid, TotalOrZero(e.total));
      assert IngestAll(h, poll, now) == IngestStep(h + c, e, now);
      assert Changed(h, poll, now) == c + (if Unchanged(h, e) then [] else [x]);
      if Unchanged(h, e) {
        assert c + [] == c;
      } else {
        assert (h + c) + [x] == h + (c + [x]);
      }
    }
  }

  /** Changed holds one sample, with the polled value, for each polled player
      whose value differs from the history, and none for any other player. */
  lemma {:induction false} ChangedCounts(h: seq<Sample>, poll: seq<Entry>, now: int, k: int)
    requires DistinctKeys(poll)
    requires 0 <= k < |poll|
    ensures CountOf(Changed(h, poll, now), poll[k].uid) == if Unchanged(h, poll[k]) then 0 else 1
    ensures !Unchanged(h, poll[k]) ==>
      LastDamage(Changed(h, poll, now), poll[k].uid) == Some(TotalOrZero(poll[k].total))
  {
    var n := |poll| - 1;
    var p := poll[..n];
    var e := poll[n];
    var c := Changed(h, p, now);
    var tail := if Unchanged(h, e) then [] else [Sample(now, e.uid, TotalOrZero(e.total))];
    assert Changed(h, poll, now) == c + tail;
    CountOfAppend(c, tail, poll[k].uid);
    assert DistinctKeys(p);
    if k == n {
      NewKey(poll);
      ChangedFromPoll(h, p, now, e.uid);
      CountOfAbsent(c, e.uid);
      if !Unchanged(h, e) {
        assert (c + tail)[..|c + tail| - 1] == c;
      }
    } else {
      assert poll[k] == p[k];
      ChangedCounts(h, p, now, k);
      assert e.uid != poll[k].uid;
      assert Absent(tail, poll[k].uid);
      LastDamageSkip(c, tail, poll[k].uid);
      assert CountOf(tail, poll[k].uid) == 0 by {
        CountOfAbsent(tail, poll[k].uid);
      }
    }
  }

  /** Ingest appends a sample for a polled player exactly when the player has no
      sample yet or its latest damage differs from the polled value, and then
      exactly one; it appends nothing for players not polled. */
  lemma IngestAppendsWhenChanged(h: seq<Sample>, poll: seq<Entry>, now: int, k: int)
    requires DistinctKeys(poll)
    requires 0 <= k < |poll|
    ensures CountOf(IngestAll(h, poll, now), poll[k].uid) ==
      CountOf(h, poll[k].uid) + (if LastDamage(h, poll[k].uid) == Some(TotalOrZero(poll[k].total)) then 0 else 1)
  {
    IngestAllIsChanged(h, poll, now);
    CountOfAppend(h, Changed(h, poll, now), poll[k].uid);
    ChangedCounts(h, poll, now, k);
  }

  /** Ingest appends no sample of a player that was not polled. */
  lemma IngestSkipsUnpolled(h: seq<Sample>, poll: seq<Entry>, now: int, uid: string)
    requires DistinctKeys(poll)
    requires !Polled(poll, uid)
    ensures CountOf(IngestAll(h, poll, now), uid) == CountOf(h, uid)
    ensures LastDamage(IngestAll(h, poll, now), uid) == LastDamage(h, uid)
  {
    IngestAllIsChanged(h, poll, now);
    CountOfAppend(h, Changed(h, poll, now), uid);
    ChangedFromPoll(h, poll, now, uid);
    CountOfAbsent(Changed(h, poll, now), uid);
    LastDamageSkip(h, Changed(h, poll, now), uid);
  }

  /** After ingest, the latest sample of every polled player carries the polled
      damage, a missing total read as 0. */
  lemma IngestLatest(h: seq<Sample>, poll: seq<Entry>, now: int, k: int)
    requires DistinctKeys(poll)
    requires 0 <= k < |poll|
    ensures LastDamage(IngestAll(h, poll, now), poll[k].uid) == Some(TotalOrZero(poll[k].total))
  {
    IngestAllIsChanged(h, poll, now);
    var c := Changed(h, poll, now);
    ChangedCounts(h, poll, now, k);
    if Unchanged(h, poll[k]) {
      CountOfAbsentConverse(c, poll[k].uid);
      LastDamageSkip(h, c, poll[k].uid);
    } else {
      LastDamageAfter(h, c, poll[k].uid);
    }
  }

  lemma {:induction false} CountOfAbsentConverse(s: seq<Sample>, uid: string)
    requires CountOf(s, uid) == 0
    ensures Absent(s, uid)
  {
    if s != [] {
      var n := |s| - 1;
      CountOfAbsentConverse(s[..n], uid);
      forall j | 0 <= j < |s| ensures s[j].uid != uid {
        if j < n { assert s[j] == s[..n][j]; }
      }
    }
  }

  /** A later sample of `uid` hides every earlier one. */
  lemma {:induction false} LastDamageAfter(h: seq<Sample>, c: seq<Sample>, uid: string)
    requires LastDamage(c, uid).Some?
    ensures LastDamage(h + c, uid) == LastDamage(c, uid)
  {
    var n := |c| - 1;
    assert (h + c)[..|h + c| - 1] == h + c[..n];
    assert (h + c)[|h + c| - 1] == c[n];
    if c[n].uid != uid {
      LastDamageAfter(h, c[..n], uid);
    }
  }

  /** Polling the same values again appends nothing. */
  lemma IngestIdempotent(h: seq<Sample>, poll: seq<Entry>, now: int, later: int)
    requires DistinctKeys(poll)
    ensures IngestAll(IngestAll(h, poll, now), poll, later) == IngestAll(h, poll, now)
  {
    var r := IngestAll(h, poll, now);
    forall k | 0 <= k < |poll| ensures Unchanged(r, poll[k]) {
      IngestLatest(h, poll, now, k);
    }
    UnchangedPollAppendsNothing(r, poll, later);
  }

  /** The registry only grows: existing names are kept, every polled id gets a
      name, and only polled ids are added, each under its placeholder. */
  lemma {:induction false} RegisterAllSpec(names: map<string, string>, poll: seq<Entry>)
    ensures names.Keys <= RegisterAll(names, poll).Keys
    ensures forall u :: u in names ==> RegisterAll(names, poll)[u] == names[u]
    ensures forall k :: 0 <= k < |poll| ==> poll[k].uid in RegisterAll(names, poll)
    ensures forall u :: u in RegisterAll(names, poll) && u !in names ==>
      Polled(poll, u) && RegisterAll(names, poll)[u] == Placeholder(u)
  {
    if poll != [] {
      var n := |poll| - 1;
      var p := poll[..n];
      RegisterAllSpec(names, p);
      forall k | 0 <= k < |poll| ensures poll[k].uid in RegisterAll(names, poll) {
        if k < n { assert poll[k] == p[k]; }
      }
      forall u | u in RegisterAll(names, poll) && u !in names
        ensures Polled(poll, u) && RegisterAll(names, poll)[u] == Placeholder(u)
      {
        if u in RegisterAll(names, p) {
          var k :| 0 <= k < |p| && p[k].uid == u;
          assert poll[k] == p[k];
        } else {
          assert poll[n].uid == u;
        }
      }
    }
  }

  /** When the clock does not run backwards, ingest keeps the history in time order. */
  lemma {:induction false} IngestKeepsTimeOrder(h: seq<Sample>, poll: seq<Entry>, now: int)
    requires TimeOrdered(h) && NotAfter(h, now)
    ensures TimeOrdered(IngestAll(h, poll, now)) && NotAfter(IngestAll(h, poll, now), now)
  {
    if poll != [] {
      var n := |poll| - 1;
      IngestKeepsTimeOrder(h, poll[..n], now);
    }
  }
}
