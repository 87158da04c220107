/**
  The sample ID. main.go builds a parts list holding the derived (not yet
  sanitised) metric name followed by each label name and its value, label
  names in ascending order, and uses the quoted rendering of that list as the
  key of the sample store. Quoting is injective, so the list itself stands for
  the ID here.
 */
module Identity {
  import opened Lex

  type Id = seq<string>

  /** Label names interleaved with their values: `[k1, v1, k2, v2, ...]`. */
  function Pairs(names: seq<string>, labels: map<string, string>): (r: seq<string>)
    requires forall i :: 0 <= i < |names| ==> names[i] in labels
    ensures |r| == 2 * |names|
  {
    if names == [] then [] else [names[0], labels[names[0]]] + Pairs(names[1..], labels)
  }

  /**
    The ID of a sample named `name` with label map `labels`. `labelNames`
    lists the keys of `labels` in the order in which iterating over the map
    produced them; they are sorted before use.
   */
  function Fingerprint(name: string, labels: map<string, string>, labelNames: seq<string>): (id: Id)
    requires Enumerates(labelNames, labels.Keys)
    ensures |id| == 2 * |labels| + 1
    ensures id[0] == name
  {
    DistinctCardinality(labelNames, labels.Keys);
    var sorted := Sort(labelNames);
    assert |sorted| == |multiset(sorted)| == |multiset(labelNames)| == |labelNames|;
    SortKeepsElements(labelNames);
    [name] + Pairs(sorted, labels)
  }

  /**
    Rebuild a label map from interleaved names and values; an earlier pair wins
    over a later one, and an unpaired trailing name is ignored.
   */
  function PairsToMap(parts: seq<string>): map<string, string>
  {
    if |parts| < 2 then map[] else PairsToMap(parts[2..])[parts[0] := parts[1]]
  }

  /** Read the name and the label map back out of an ID. */
  function Decode(id: Id): (string, map<string, string>)
    requires |id| > 0
  {
    (id[0], PairsToMap(id[1..]))
  }

  lemma {:induction false} PairsToMapOfPairs(names: seq<string>, labels: map<string, string>)
    requires Distinct(names)
    requires forall i :: 0 <= i < |names| ==> names[i] in labels
    ensures PairsToMap(Pairs(names, labels)) == map k | k in names :: labels[k]
  {
    if names != [] {
      var p := Pairs(names, labels);
      assert p[2..] == Pairs(names[1..], labels);
      PairsToMapOfPairs(names[1..], labels);
      var m := PairsToMap(p);
      var want := map k | k in names :: labels[k];
      assert m.Keys == want.Keys by {
        forall k ensures k in m <==> k in names {
          assert k in names <==> k == names[0] || k in names[1..];
        }
      }
      forall k | k in m
        ensures m[k] == want[k]
      {
        if k != names[0] {
          assert k in names[1..];
        }
      }
    }
  }

  /** Decoding an ID gives back exactly the name and label map it was built from. */
  lemma FingerprintRoundTrip(name: string, labels: map<string, string>, labelNames: seq<string>)
    requires Enumerates(labelNames, labels.Keys)
    ensures Decode(Fingerprint(name, labels, labelNames)) == (name, labels)
  {
    var sorted := Sort(labelNames);
    SortDistinct(labelNames);
    SortKeepsElements(labelNames);
    PairsToMapOfPairs(sorted, labels);
    RestrictToAllKeys(sorted, labels);
    var id := Fingerprint(name, labels, labelNames);
    assert id[1..] == Pairs(sorted, labels);
  }

  lemma RestrictToAllKeys(names: seq<string>, labels: map<string, string>)
    requires forall k :: k in names <==> k in labels
    ensures (map k | k in names :: labels[k]) == labels
  {
  }

  /** The ID does not depend on the order in which the label map was iterated. */
  lemma FingerprintIgnoresOrder(name: string, labels: map<string, string>, names1: seq<string>, names2: seq<string>)
    requires Enumerates(names1, labels.Keys) && Enumerates(names2, labels.Keys)
    ensures Fingerprint(name, labels, names1) == Fingerprint(name, labels, names2)
  {
    SameElementsSameMultiset(names1, names2);
    SortIgnoresOrder(names1, names2);
  }

  /** Two duplicate-free sequences with the same elements are permutations of each other. */
  lemma SameElementsSameMultiset(a: seq<string>, b: seq<string>)
    requires Distinct(a) && Distinct(b)
    requires forall x :: x in a <==> x in b
    ensures multiset(a) == multiset(b)
  {
    forall x
      ensures multiset(a)[x] == multiset(b)[x]
    {
      DistinctCount(a, x);
      DistinctCount(b, x);
      if x in a {
        assert x in multiset(a) && x in multiset(b);
      } else {
        assert x !in multiset(a) && x !in multiset(b);
      }
    }
  }

  /**
    Two samples share an ID exactly when they share the derived name and the
    label map: the ID is a faithful key for the series.
   */
  lemma FingerprintIdentifiesSeries(
    name1: string, labels1: map<string, string>, names1: seq<string>,
    name2: string, labels2: map<string, string>, names2: seq<string>)
    requires Enumerates(names1, labels1.Keys) && Enumerates(names2, labels2.Keys)
    ensures Fingerprint(name1, labels1, names1) == Fingerprint(name2, labels2, names2)
        <==> name1 == name2 && labels1 == labels2
  {
    FingerprintRoundTrip(name1, labels1, names1);
    FingerprintRoundTrip(name2, labels2, names2);
    if name1 == name2 && labels1 == labels2 {
      FingerprintIgnoresOrder(name1, labels1, names1, names2);
    }
  }
}
