/**
  The sample store of main.go: a map from sample ID to the latest sample with
  that ID. A single goroutine owns it and applies two transitions, in the
  order they reach it: a delivered sample is written under its ID, and a
  ticker event sweeps out every sample whose event time lies strictly before
  `now - expiry`. The channel and the mutex only serialise these
  transitions, so they are modelled as a sequence of events.
 */
module Store {
  import opened Lex
  import opened Identity
  import opened Translate

  type Store = map<Id, Sample>

  /** Write `s` under its ID; every other entry stays as it was. */
  function Insert(st: Store, s: Sample): (r: Store)
    ensures r.Keys == st.Keys + {s.id}
    ensures r[s.id] == s
    ensures forall k :: k in st && k != s.id ==> r[k] == st[k]
  {
    st[s.id := s]
  }

  /** Of two samples with the same ID, only the later one survives. */
  lemma InsertLastWriteWins(st: Store, a: Sample, b: Sample)
    requires a.id == b.id
    ensures Insert(Insert(st, a), b) == Insert(st, b)
  {
  }

  /** Samples with different IDs can be delivered in either order. */
  lemma InsertCommutes(st: Store, a: Sample, b: Sample)
    requires a.id != b.id
    ensures Insert(Insert(st, a), b) == Insert(Insert(st, b), a)
  {
  }

  /** The cutoff's `After` test of main.go: the sample's event time is strictly before `now - expiry`. */
  predicate Expired(s: Sample, now: int, expiry: int) {
    now - expiry > s.timestamp
  }

  /** Remove every expired sample. */
  function Sweep(st: Store, now: int, expiry: int): (r: Store)
    ensures forall k :: k in r ==> k in st && r[k] == st[k] && r[k].timestamp >= now - expiry
    ensures forall k :: k in st && st[k].timestamp >= now - expiry ==> k in r
  {
    map k | k in st && !Expired(st[k], now, expiry) :: st[k]
  }

  /**
    The boundary of the expiry window: a sample exactly at the cutoff is kept,
    one a nanosecond older is removed.
   */
  lemma SweepBoundary(st: Store, s: Sample, now: int, expiry: int)
    requires s.id in st && st[s.id] == s
    ensures s.timestamp == now - expiry ==> s.id in Sweep(st, now, expiry)
    ensures s.timestamp == now - expiry - 1 ==> s.id !in Sweep(st, now, expiry)
  {
  }

  /** Sweeping again at the same time removes nothing more. */
  lemma SweepIdempotent(st: Store, now: int, expiry: int)
    ensures Sweep(Sweep(st, now, expiry), now, expiry) == Sweep(st, now, expiry)
  {
  }

  /** A later sweep subsumes an earlier one. */
  lemma SweepLaterSubsumes(st: Store, now1: int, now2: int, expiry: int)
    requires now1 <= now2
    ensures Sweep(Sweep(st, now1, expiry), now2, expiry) == Sweep(st, now2, expiry)
  {
  }

  /**
    The sweep looks at event time only: a sample delivered with an event time
    already older than the cutoff is gone after the next sweep, as if it had
    never been delivered (apart from the entry it replaced).
   */
  lemma SweepDropsStaleDelivery(st: Store, s: Sample, now: int, expiry: int)
    requires Expired(s, now, expiry)
    ensures Sweep(Insert(st, s), now, expiry) == Sweep(st, now, expiry) - {s.id}
  {
  }

  /** What reaches the store's goroutine: a sample on the channel, or a ticker event. */
  datatype Event = Deliver(s: Sample) | Tick(now: int)

  /** One transition: a delivery adds or replaces only its own entry, a tick leaves nothing stale. */
  function Step(st: Store, ev: Event, expiry: int): (r: Store)
    ensures forall k :: k in r ==> k in st || (ev.Deliver? && k == ev.s.id)
    ensures ev.Deliver? ==> ev.s.id in r && r[ev.s.id] == ev.s
    ensures ev.Tick? ==> forall k :: k in r ==> r[k].timestamp >= ev.now - expiry
  {
    match ev
    case Deliver(s) => Insert(st, s)
    case Tick(now) => Sweep(st, now, expiry)
  }

  /** The store after the goroutine has handled `evs` in order. */
  function Run(st: Store, evs: seq<Event>, expiry: int): Store
    decreases |evs|
  {
    if evs == [] then st else Run(Step(st, evs[0], expiry), evs[1..], expiry)
  }

  /** Handling two runs of events one after the other is handling their concatenation. */
  lemma {:induction false} RunAppend(st: Store, a: seq<Event>, b: seq<Event>, expiry: int)
    ensures Run(st, a + b, expiry) == Run(Run(st, a, expiry), b, expiry)
    decreases |a|
  {
    if a == [] {
      assert a + b == b;
    } else {
      assert (a + b)[0] == a[0];
      assert (a + b)[1..] == a[1..] + b;
      RunAppend(Step(st, a[0], expiry), a[1..], b, expiry);
    }
  }

  /** Every entry sits under its own ID and was produced by the translation. */
  ghost predicate Consistent(st: Store) {
    forall k :: k in st ==> st[k].id == k && WellFormed(st[k])
  }

  ghost predicate DeliversWellFormed(evs: seq<Event>) {
    forall i :: 0 <= i < |evs| && evs[i].Deliver? ==> WellFormed(evs[i].s)
  }

  /** Handling any sequence of events keeps the store consistent. */
  lemma {:induction false} RunConsistent(st: Store, evs: seq<Event>, expiry: int)
    requires Consistent(st) && DeliversWellFormed(evs)
    ensures Consistent(Run(st, evs, expiry))
    decreases |evs|
  {
    if evs != [] {
      var next := Step(st, evs[0], expiry);
      assert Consistent(next);
      assert DeliversWellFormed(evs[1..]) by {
        forall i | 0 <= i < |evs[1..]| && evs[1..][i].Deliver?
          ensures WellFormed(evs[1..][i].s)
        {
          assert evs[1..][i] == evs[i + 1];
        }
      }
      RunConsistent(next, evs[1..], expiry);
    }
  }

  /** Right after a tick no stored sample is older than the cutoff. */
  lemma {:induction false} RunEndingInTickIsFresh(st: Store, evs: seq<Event>, now: int, expiry: int)
    ensures forall k :: k in Run(st, evs + [Tick(now)], expiry) ==>
      Run(st, evs + [Tick(now)], expiry)[k].timestamp >= now - expiry
    decreases |evs|
  {
    if evs != [] {
      assert (evs + [Tick(now)])[1..] == evs[1..] + [Tick(now)];
      RunEndingInTickIsFresh(Step(st, evs[0], expiry), evs[1..], now, expiry);
    }
  }

  /**
    A consistent store holds at most one sample per series: two entries with
    the same unsanitised name and label map are the same entry.
   */
  lemma {:induction false} OneSamplePerSeries(st: Store, k1: Id, k2: Id)
    requires Consistent(st)
    requires k1 in st && k2 in st
    requires st[k1].id[0] == st[k2].id[0] && st[k1].labels == st[k2].labels
    ensures k1 == k2
  {
    WellFormedIdentity(st[k1], st[k2]);
  }

  /** Deliver a batch of samples in order. */
  function InsertAll(st: Store, ss: seq<Sample>): Store
    decreases |ss|
  {
    if ss == [] then st else InsertAll(Insert(st, ss[0]), ss[1..])
  }

  /** Delivering only samples is the same as inserting them one after the other. */
  lemma {:induction false} RunDeliveries(st: Store, ss: seq<Sample>, expiry: int)
    ensures Run(st, seq(|ss|, i requires 0 <= i < |ss| => Deliver(ss[i])), expiry) == InsertAll(st, ss)
    decreases |ss|
  {
    if ss != [] {
      var evs := seq(|ss|, i requires 0 <= i < |ss| => Deliver(ss[i]));
      assert evs[1..] == seq(|ss[1..]|, i requires 0 <= i < |ss[1..]| => Deliver(ss[1..][i]));
      RunDeliveries(Insert(st, ss[0]), ss[1..], expiry);
    }
  }

  /**
    A batch whose samples have pairwise different IDs is stored completely;
    entries under other IDs are left alone.
   */
  lemma {:induction false} InsertAllDistinct(st: Store, ss: seq<Sample>)
    requires forall a, b :: 0 <= a < b < |ss| ==> ss[a].id != ss[b].id
    ensures forall j :: 0 <= j < |ss| ==> ss[j].id in InsertAll(st, ss) && InsertAll(st, ss)[ss[j].id] == ss[j]
    ensures forall k :: k in st && (forall j :: 0 <= j < |ss| ==> ss[j].id != k) ==>
      k in InsertAll(st, ss) && InsertAll(st, ss)[k] == st[k]
    decreases |ss|
  {
    if ss != [] {
      var next := Insert(st, ss[0]);
      InsertAllDistinct(next, ss[1..]);
      forall j | 0 <= j < |ss|
        ensures ss[j].id in InsertAll(st, ss) && InsertAll(st, ss)[ss[j].id] == ss[j]
      {
        if j > 0 {
          assert ss[1..][j - 1] == ss[j];
        } else {
          forall m | 0 <= m < |ss[1..]|
            ensures ss[1..][m].id != ss[0].id
          {
            assert ss[1..][m] == ss[m + 1];
          }
        }
      }
      forall k | k in st && (forall j :: 0 <= j < |ss| ==> ss[j].id != k)
        ensures k in InsertAll(st, ss) && InsertAll(st, ss)[k] == st[k]
      {
        assert ss[0].id != k;
        forall m | 0 <= m < |ss[1..]|
          ensures ss[1..][m].id != k
        {
          assert ss[1..][m] == ss[m + 1];
        }
      }
    }
  }
}
