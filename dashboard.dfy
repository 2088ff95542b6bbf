/** The dashboard's state between refreshes — the stored damage history and
    the process-wide player-name registry — and the callbacks that change it. */
module Dashboard {
  import opened Samples
  import opened Ingest
  import opened Plot

  /** Latest damage of `uid`, scanning the history from its end. */
  method FindLastDamage(h: seq<Sample>, uid: string) returns (d: Option<int>)
    ensures d == LastDamage(h, uid)
    ensures d.None? <==> Absent(h, uid)
  {
    var i := |h|;
    assert h[..i] == h;
    while i > 0 && h[i - 1].uid != uid
      invariant 0 <= i <= |h|
      invariant LastDamage(h, uid) == LastDamage(h[..i], uid)
    {
      assert h[..i][..i - 1] == h[..i - 1];
      i := i - 1;
    }
    if i == 0 {
      assert h[..0] == [];
      d := None;
    } else {
      d := Some(h[i - 1].damage);
    }
    LastDamageSpec(h, uid);
  }

  /** After a poll, with auto-add every polled player is plotted. */
  lemma PolledPlayersPlotted(h: seq<Sample>, names: map<string, string>, poll: seq<Entry>, now: int,
                             selected: seq<string>, width: int, k: int)
    requires DistinctKeys(poll) && width > 0 && 0 <= k < |poll|
    ensures var v := Render(IngestAll(h, poll, now), names, true, selected, width);
      exists i :: 0 <= i < |v.chart.traces| && v.chart.traces[i].uid == poll[k].uid
  {
    var r := IngestAll(h, poll, now);
    IngestLatest(h, poll, now, k);
    LastDamageSpec(r, poll[k].uid);
    RenderSelection(r, names, true, selected, width);
  }

  class Session {
    var history: seq<Sample>
    var names: map<string, string>

    /** Every player of the history has a registered name. */
    ghost predicate Valid()
      reads this
    {
      forall j :: 0 <= j < |history| ==> history[j].uid in names
    }

    /** A fresh page: no history, and the registry holds the preset players. */
    constructor ()
      ensures history == [] && names == SeedNames()
      ensures Valid()
    {
      history := [];
      names := SeedNames();
    }

    /** One successful poll: for each polled player in turn, append a sample
        stamped `now` unless its total equals the player's latest damage, and
        register the player under its placeholder name if it is unknown. */
    method IngestPoll(poll: seq<Entry>, now: int)
      modifies this
      requires Valid()
      ensures Valid()
      ensures history == IngestAll(old(history), poll, now)
      ensures names == RegisterAll(old(names), poll)
    {
      var i := 0;
      while i < |poll|
        invariant 0 <= i <= |poll|
        invariant history == IngestAll(old(history), poll[..i], now)
        invariant names == RegisterAll(old(names), poll[..i])
        invariant Valid()
      {
        var e := poll[i];
        var last := FindLastDamage(history, e.uid);
        var current := TotalOrZero(e.total);
        if last != Some(current) {
          history := history + [Sample(now, e.uid, current)];
        }
        if e.uid !in names {
          names := names[e.uid := Placeholder(e.uid)];
        }
        assert poll[..i + 1][..i] == poll[..i];
        i := i + 1;
      }
      assert poll[..|poll|] == poll;
    }

    /** The refresh callback. `fetched` is the polled `user` map when the
        server answered, and None when there is no server address or the
        request failed, in which case the stored history is redrawn as it is.
        `width` is the bucket width in milliseconds. */
    method Update(fetched: Option<seq<Entry>>, now: int, autoAdd: bool, selected: seq<string>, width: int)
      returns (v: View)
      modifies this
      requires Valid() && width > 0
      ensures Valid()
      ensures history == (if fetched.Some? then IngestAll(old(history), fetched.value, now) else old(history))
      ensures names == (if fetched.Some? then RegisterAll(old(names), fetched.value) else old(names))
      ensures v == Render(history, names, autoAdd, selected, width)
      ensures forall k :: 0 <= k < |v.options| ==> v.options[k].0 in names && v.options[k].1 == names[v.options[k].0]
    {
      if fetched.Some? {
        IngestPoll(fetched.value, now);
      }
      v := Render(history, names, autoAdd, selected, width);
      OptionsUseRegistry(history, names);
    }

    /** The clear callback: the stored history is emptied; the registry is kept. */
    method Clear()
      modifies this
      requires Valid()
      ensures history == [] && names == old(names)
      ensures Valid()
    {
      history := [];
    }
  }
}
