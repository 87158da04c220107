/**
  The scrape path of main.go (`Collect`): emit the liveness gauge, copy the
  store's entries, then emit one untyped metric per copied sample that is not
  older than `now - expiry`. The store itself is not changed. The copy is
  taken here from one store value `st`, that is, as an atomic snapshot.
 */
module Collect {
  import opened Lex
  import opened Identity
  import opened Translate
  import opened Store

  /** What a scrape emits: the liveness gauge, or one untyped metric per sample. */
  datatype Metric =
    | LastPush(at: int)
    | Untyped(name: string, labels: map<string, string>, value: real)

  function Exposed(s: Sample): Metric {
    Untyped(s.name, s.labels, s.value)
  }

  /** `m` exposes a stored sample that is not older than the cutoff. */
  ghost predicate ExposesFresh(st: Store, now: int, expiry: int, m: Metric) {
    exists k :: k in st && st[k].timestamp >= now - expiry && m == Exposed(st[k])
  }

  /**
    `metrics` lists, one for one and in the order of `kept`, the metrics of
    the entries `kept` enumerates: exactly the entries the sweep would keep.
   */
  ghost predicate ListsKept(st: Store, now: int, expiry: int, metrics: seq<Metric>, kept: seq<Id>) {
    && Enumerates(kept, Sweep(st, now, expiry).Keys)
    && |kept| == |metrics|
    && forall j :: 0 <= j < |kept| ==> kept[j] in st && metrics[j] == Exposed(st[kept[j]])
  }

  /**
    `metrics` lists the metrics of the unexpired entries one for one: each
    such entry contributes exactly one element, so a metric that two entries
    expose alike appears twice.
   */
  ghost predicate ExposesExactly(st: Store, now: int, expiry: int, metrics: seq<Metric>) {
    exists kept: seq<Id> :: ListsKept(st, now, expiry, metrics, kept)
  }

  /**
    One scrape. `snapshot` lists the store's IDs in the order iterating over
    the map produced them; `lastPush` is the gauge's current value.
   */
  method Collect(st: Store, snapshot: seq<Id>, lastPush: int, now: int, expiry: int) returns (out: seq<Metric>)
    requires Enumerates(snapshot, st.Keys)
    ensures |out| == 1 + |Sweep(st, now, expiry)|
    ensures out[0] == LastPush(lastPush)
    ensures forall i :: 1 <= i < |out| ==> ExposesFresh(st, now, expiry, out[i])
    ensures forall k :: k in st && st[k].timestamp >= now - expiry ==> Exposed(st[k]) in out[1..]
    ensures ExposesExactly(st, now, expiry, out[1..])
  {
    out := [LastPush(lastPush)];
    ghost var kept: seq<Id> := [];
    var i := 0;
    while i < |snapshot|
      invariant 0 <= i <= |snapshot|
      invariant |out| == 1 + |kept|
      invariant out[0] == LastPush(lastPush)
      invariant forall j :: 0 <= j < |kept| ==>
        kept[j] in st && st[kept[j]].timestamp >= now - expiry && out[j + 1] == Exposed(st[kept[j]])
      invariant Distinct(kept)
      invariant forall k :: k in kept <==> k in snapshot[..i] && st[k].timestamp >= now - expiry
    {
      var id := snapshot[i];
      var sample := st[id];
      if !Expired(sample, now, expiry) {
        out := out + [Exposed(sample)];
        kept := kept + [id];
      }
      assert snapshot[..i + 1] == snapshot[..i] + [id];
      i := i + 1;
    }
    assert snapshot[..i] == snapshot;
    assert forall k :: k in kept <==> k in Sweep(st, now, expiry).Keys;
    assert forall j :: 0 <= j < |kept| ==> kept[j] in st && out[1..][j] == Exposed(st[kept[j]]);
    assert ListsKept(st, now, expiry, out[1..], kept);
    ExactlyMeansFresh(st, now, expiry, out[1..]);
    forall j | 1 <= j < |out|
      ensures ExposesFresh(st, now, expiry, out[j])
    {
      assert out[j] == out[1..][j - 1];
    }
  }

  /**
    A one-for-one listing of the unexpired entries has as many elements as
    the sweep keeps, lists only unexpired entries' metrics, and misses none.
   */
  lemma ExactlyMeansFresh(st: Store, now: int, expiry: int, metrics: seq<Metric>)
    requires ExposesExactly(st, now, expiry, metrics)
    ensures |metrics| == |Sweep(st, now, expiry)|
    ensures forall i :: 0 <= i < |metrics| ==> ExposesFresh(st, now, expiry, metrics[i])
    ensures forall k :: k in st && st[k].timestamp >= now - expiry ==> Exposed(st[k]) in metrics
  {
    var kept: seq<Id> :| ListsKept(st, now, expiry, metrics, kept);
    DistinctCardinality(kept, Sweep(st, now, expiry).Keys);
    KeptAreFresh(st, now, expiry, metrics, kept);
    FreshAreKept(st, now, expiry, metrics, kept);
  }

  lemma KeptAreFresh(st: Store, now: int, expiry: int, metrics: seq<Metric>, kept: seq<Id>)
    requires ListsKept(st, now, expiry, metrics, kept)
    ensures forall i :: 0 <= i < |metrics| ==> ExposesFresh(st, now, expiry, metrics[i])
  {
    var live := Sweep(st, now, expiry);
    forall i | 0 <= i < |metrics|
      ensures ExposesFresh(st, now, expiry, metrics[i])
    {
      assert kept[i] in live;
    }
  }

  lemma FreshAreKept(st: Store, now: int, expiry: int, metrics: seq<Metric>, kept: seq<Id>)
    requires ListsKept(st, now, expiry, metrics, kept)
    ensures forall k :: k in st && st[k].timestamp >= now - expiry ==> Exposed(st[k]) in metrics
  {
    var live := Sweep(st, now, expiry);
    forall k | k in st && st[k].timestamp >= now - expiry
      ensures Exposed(st[k]) in metrics
    {
      assert k in live;
      var j :| 0 <= j < |kept| && kept[j] == k;
      assert metrics[j] == Exposed(st[k]);
    }
  }
}
