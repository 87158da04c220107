/**
  Point-to-sample translation: the loop of the write handler in main.go that
  turns every decoded line-protocol point into one sample per numeric or
  boolean field.

  The parser returns fields and tags as Go maps, which are iterated in an
  unspecified order. Here a point carries them as sequences in the order the
  iteration visits them; the lemmas below show which results do not depend
  on that order.
 */
module Translate {
  import opened Names
  import opened Lex
  import opened Identity

  /** A decoded field value; `Other` stands for every type the exporter skips (strings, ...). */
  datatype FieldValue = Float(f: real) | Int(i: int) | Bool(b: bool) | Other

  /** One decoded point; `time` is its own event time in nanoseconds. */
  datatype Point = Point(
    measurement: string,
    tags: seq<(string, string)>,
    fields: seq<(string, FieldValue)>,
    time: int)

  /** A sample as kept in the store and exposed on scrape. */
  datatype Sample = Sample(id: Id, name: string, labels: map<string, string>, value: real, timestamp: int)

  datatype Option<T> = None | Some(value: T)

  /** The value a field contributes, or `None` when the field is skipped. */
  function Coerce(v: FieldValue): Option<real> {
    match v
    case Float(f) => Some(f)
    case Int(i) => Some(i as real)
    case Bool(b) => Some(if b then 1.0 else 0.0)
    case Other => None
  }

  /** Exactly the values that are neither floats, integers nor booleans are skipped. */
  lemma CoerceSkipsOnlyOther(v: FieldValue)
    ensures Coerce(v).None? <==> v.Other?
    ensures Coerce(v).Some? && v.Bool? ==> (Coerce(v).value == 1.0 <==> v.b)
  {
  }

  /** The metric name before sanitisation: the measurement alone for the field `value`. */
  function MetricName(measurement: string, field: string): string {
    if field == "value" then measurement else measurement + "_" + field
  }

  /**
    A derived name starts with the measurement; for any field other than
    `value`, an underscore and the field key follow it.
   */
  lemma MetricNameParts(measurement: string, field: string)
    ensures var r := MetricName(measurement, field);
      && |r| >= |measurement| && r[..|measurement|] == measurement
      && (field == "value" <==> |r| == |measurement|)
      && (field != "value" ==> r[|measurement|] == '_' && r[|measurement| + 1..] == field)
  {
  }

  /** Different fields of one measurement never share a metric name. */
  lemma MetricNameInjective(measurement: string, field1: string, field2: string)
    requires field1 != field2
    ensures MetricName(measurement, field1) != MetricName(measurement, field2)
  {
    var n1, n2 := MetricName(measurement, field1), MetricName(measurement, field2);
    if field1 == "value" {
      assert |n1| < |n2|;
    } else if field2 == "value" {
      assert |n2| < |n1|;
    } else {
      assert n1[|measurement| + 1..] == field1;
      assert n2[|measurement| + 1..] == field2;
    }
  }

  /**
    The label map of a sample: every tag key sanitised, every tag value kept
    verbatim. When two keys sanitise to the same label, the tag visited last
    wins.
   */
  function Labels(tags: seq<(string, string)>): map<string, string> {
    if tags == [] then map[]
    else
      var last := tags[|tags| - 1];
      Labels(tags[..|tags| - 1])[Sanitize(last.0) := last.1]
  }

  /** Some tag key sanitises to `l`. */
  ghost predicate HasTag(tags: seq<(string, string)>, l: string) {
    exists i :: 0 <= i < |tags| && Sanitize(tags[i].0) == l
  }

  /** Some tag whose key sanitises to `l` has the value `v`. */
  ghost predicate TagValue(tags: seq<(string, string)>, l: string, v: string) {
    exists i :: 0 <= i < |tags| && Sanitize(tags[i].0) == l && tags[i].1 == v
  }

  /** The label names are exactly the sanitised tag keys. */
  lemma {:induction false} LabelsKeys(tags: seq<(string, string)>)
    ensures forall l :: l in Labels(tags) <==> HasTag(tags, l)
  {
    if tags != [] {
      var init := tags[..|tags| - 1];
      LabelsKeys(init);
      forall l
        ensures l in Labels(tags) <==> HasTag(tags, l)
      {
        if l in Labels(init) {
          var i :| 0 <= i < |init| && Sanitize(init[i].0) == l;
          assert tags[i] == init[i];
        }
        if HasTag(tags, l) {
          var i :| 0 <= i < |tags| && Sanitize(tags[i].0) == l;
          if i < |tags| - 1 {
            assert init[i] == tags[i];
          }
        }
      }
    }
  }

  /** Every label value is the verbatim value of a tag whose key sanitises to that label. */
  lemma {:induction false} LabelsValues(tags: seq<(string, string)>)
    ensures forall l :: l in Labels(tags) ==> TagValue(tags, l, Labels(tags)[l])
  {
    if tags != [] {
      var init := tags[..|tags| - 1];
      var last := tags[|tags| - 1];
      LabelsValues(init);
      forall l | l in Labels(tags)
        ensures TagValue(tags, l, Labels(tags)[l])
      {
        if l != Sanitize(last.0) {
          assert l in Labels(init) && Labels(tags)[l] == Labels(init)[l];
          assert TagValue(init, l, Labels(init)[l]);
          var i :| 0 <= i < |init| && Sanitize(init[i].0) == l && init[i].1 == Labels(init)[l];
          assert tags[i] == init[i];
        } else {
          assert Sanitize(tags[|tags| - 1].0) == l;
        }
      }
    }
  }

  /** No tag after position `i` has a key that sanitises like the key at `i`. */
  ghost predicate LastWithLabel(tags: seq<(string, string)>, i: int)
    requires 0 <= i < |tags|
  {
    forall j :: i < j < |tags| ==> Sanitize(tags[j].0) != Sanitize(tags[i].0)
  }

  /** The last tag whose key sanitises to a label decides that label's value. */
  lemma {:induction false} LabelsLastWins(tags: seq<(string, string)>)
    ensures forall i :: 0 <= i < |tags| && LastWithLabel(tags, i) ==>
      Sanitize(tags[i].0) in Labels(tags) && Labels(tags)[Sanitize(tags[i].0)] == tags[i].1
  {
    if tags != [] {
      var init := tags[..|tags| - 1];
      LabelsLastWins(init);
      forall i | 0 <= i < |tags| && LastWithLabel(tags, i)
        ensures Sanitize(tags[i].0) in Labels(tags) && Labels(tags)[Sanitize(tags[i].0)] == tags[i].1
      {
        if i < |tags| - 1 {
          assert Sanitize(tags[|tags| - 1].0) != Sanitize(tags[i].0);
          assert init[i] == tags[i];
          assert LastWithLabel(init, i) by {
            forall j | i < j < |init|
              ensures Sanitize(init[j].0) != Sanitize(init[i].0)
            {
              assert init[j] == tags[j];
            }
          }
        }
      }
    }
  }

  /** A point never has more labels than tags. */
  lemma {:induction false} LabelsSize(tags: seq<(string, string)>)
    ensures |Labels(tags)| <= |tags|
  {
    if tags != [] {
      var init := tags[..|tags| - 1];
      LabelsSize(init);
      var last := tags[|tags| - 1];
      var m := Labels(init);
      if Sanitize(last.0) in m {
        assert m[Sanitize(last.0) := last.1].Keys == m.Keys;
      } else {
        assert m[Sanitize(last.0) := last.1].Keys == m.Keys + {Sanitize(last.0)};
      }
    }
  }

  /** No two tag keys sanitise to the same label. */
  ghost predicate NoLabelClash(tags: seq<(string, string)>) {
    forall i, j :: 0 <= i < j < |tags| ==> Sanitize(tags[i].0) != Sanitize(tags[j].0)
  }

  /**
    When no two tag keys sanitise alike, the label map depends only on the
    set of tags, not on the order the tag map was iterated in.
   */
  lemma LabelsIgnoreOrder(tags1: seq<(string, string)>, tags2: seq<(string, string)>)
    requires NoLabelClash(tags1) && NoLabelClash(tags2)
    requires forall t :: t in tags1 <==> t in tags2
    ensures Labels(tags1) == Labels(tags2)
  {
    LabelsKeys(tags1);
    LabelsKeys(tags2);
    forall l
      ensures HasTag(tags1, l) ==> HasTag(tags2, l)
      ensures HasTag(tags2, l) ==> HasTag(tags1, l)
    {
      SameTagsSameKey(tags1, tags2, l);
      SameTagsSameKey(tags2, tags1, l);
    }
    forall l | l in Labels(tags1)
      ensures Labels(tags1)[l] == Labels(tags2)[l]
    {
      SameTagsSameValue(tags1, tags2, l);
    }
  }

  lemma SameTagsSameKey(tags1: seq<(string, string)>, tags2: seq<(string, string)>, l: string)
    requires forall t :: t in tags1 ==> t in tags2
    ensures HasTag(tags1, l) ==> HasTag(tags2, l)
  {
    if HasTag(tags1, l) {
      var i :| 0 <= i < |tags1| && Sanitize(tags1[i].0) == l;
      assert tags1[i] in tags2;
      var j :| 0 <= j < |tags2| && tags2[j] == tags1[i];
      assert Sanitize(tags2[j].0) == l;
    }
  }

  lemma SameTagsSameValue(tags1: seq<(string, string)>, tags2: seq<(string, string)>, l: string)
    requires NoLabelClash(tags1) && NoLabelClash(tags2)
    requires forall t :: t in tags1 <==> t in tags2
    requires l in Labels(tags1) && l in Labels(tags2)
    ensures Labels(tags1)[l] == Labels(tags2)[l]
  {
    LabelsKeys(tags1);
    LabelsLastWins(tags1);
    LabelsLastWins(tags2);
    var i :| 0 <= i < |tags1| && Sanitize(tags1[i].0) == l;
    assert tags1[i] in tags2;
    var j :| 0 <= j < |tags2| && tags2[j] == tags1[i];
    assert LastWithLabel(tags1, i);
    assert LastWithLabel(tags2, j);
  }

  /** The sanitised tag keys, one per distinct label: an order Go's map iteration might produce. */
  function LabelNames(tags: seq<(string, string)>): (r: seq<string>)
    ensures Enumerates(r, Labels(tags).Keys)
  {
    var keys := seq(|tags|, i requires 0 <= i < |tags| => Sanitize(tags[i].0));
    LabelsKeys(tags);
    assert forall l :: l in keys <==> l in Labels(tags) by {
      forall l ensures l in keys <==> l in Labels(tags) {
        if l in keys {
          var i :| 0 <= i < |keys| && keys[i] == l;
          assert Sanitize(tags[i].0) == l;
          assert HasTag(tags, l);
        }
        if l in Labels(tags) {
          var i :| 0 <= i < |tags| && Sanitize(tags[i].0) == l;
          assert keys[i] == l;
        }
      }
    }
    Dedup(keys)
  }

  /** The sample a point yields for one field with the coerced value `value`. */
  function SampleFor(p: Point, field: string, value: real): Sample {
    var raw := MetricName(p.measurement, field);
    var labels := Labels(p.tags);
    Sample(Fingerprint(raw, labels, LabelNames(p.tags)), Sanitize(raw), labels, value, p.time)
  }

  /**
    The fields that yield a sample, each with its coerced value, in field
    order; every other field is skipped.
   */
  function Coercible(fields: seq<(string, FieldValue)>): (r: seq<(string, real)>)
    ensures |r| <= |fields|
  {
    if fields == [] then []
    else
      var rest := Coercible(fields[1..]);
      match Coerce(fields[0].1)
      case None => rest
      case Some(v) => [(fields[0].0, v)] + rest
  }

  /** One sample per field whose value can be coerced, in field order. */
  function TranslateFields(p: Point, fields: seq<(string, FieldValue)>): (r: seq<Sample>)
    ensures |r| <= |fields|
  {
    var c := Coercible(fields);
    seq(|c|, i requires 0 <= i < |c| => SampleFor(p, c[i].0, c[i].1))
  }

  function TranslatePoint(p: Point): seq<Sample> {
    TranslateFields(p, p.fields)
  }

  /** The samples of a whole batch, point after point. */
  function TranslatePoints(points: seq<Point>): seq<Sample> {
    if points == [] then [] else TranslatePoint(points[0]) + TranslatePoints(points[1..])
  }

  /** Sample `s` is produced by some point of the batch. */
  ghost predicate InSomePoint(points: seq<Point>, s: Sample) {
    exists i :: 0 <= i < |points| && s in TranslatePoint(points[i])
  }

  /** A batch yields exactly the samples of its points. */
  lemma {:induction false} TranslatePointsExactly(points: seq<Point>)
    ensures forall s :: s in TranslatePoints(points) <==> InSomePoint(points, s)
  {
    if points != [] {
      TranslatePointsExactly(points[1..]);
      forall s
        ensures s in TranslatePoints(points) <==> InSomePoint(points, s)
      {
        if InSomePoint(points[1..], s) {
          var i :| 0 <= i < |points[1..]| && s in TranslatePoint(points[1..][i]);
          assert s in TranslatePoint(points[i + 1]);
        }
        if InSomePoint(points, s) {
          var i :| 0 <= i < |points| && s in TranslatePoint(points[i]);
          if i > 0 {
            assert points[1..][i - 1] == points[i];
            assert InSomePoint(points[1..], s);
          }
        }
      }
    }
  }

  /**
    What the sample of `field` looks like: the sanitised derived name, the
    point's label map and event time, the coerced value, and an ID of
    `2 * |labels| + 1` parts that decodes to the unsanitised derived name and
    the label map.
   */
  ghost predicate IsSampleOf(p: Point, field: string, value: real, s: Sample) {
    var raw := MetricName(p.measurement, field);
    && s.name == Sanitize(raw)
    && s.labels == Labels(p.tags)
    && s.value == value
    && s.timestamp == p.time
    && |s.id| == 2 * |s.labels| + 1
    && Decode(s.id) == (raw, s.labels)
  }

  lemma SampleForIsSampleOf(p: Point, field: string, value: real)
    ensures IsSampleOf(p, field, value, SampleFor(p, field, value))
  {
    FingerprintRoundTrip(MetricName(p.measurement, field), Labels(p.tags), LabelNames(p.tags));
  }

  /**
    The tag map is iterated afresh for every field. Unless two tag keys
    sanitise alike, any other visiting order of the same tags yields the same
    sample.
   */
  lemma {:induction false} SampleForTagOrder(p: Point, tags: seq<(string, string)>, field: string, value: real)
    requires NoLabelClash(p.tags)
    requires multiset(tags) == multiset(p.tags)
    ensures SampleFor(p.(tags := tags), field, value) == SampleFor(p, field, value)
  {
    PermutationNoClash(p.tags, tags);
    forall t
      ensures t in tags <==> t in p.tags
    {
      assert t in tags <==> t in multiset(tags);
      assert t in p.tags <==> t in multiset(p.tags);
    }
    LabelsIgnoreOrder(tags, p.tags);
    var raw := MetricName(p.measurement, field);
    FingerprintIgnoresOrder(raw, Labels(p.tags), LabelNames(tags), LabelNames(p.tags));
  }

  /** Rearranging clash-free tags keeps them clash-free. */
  lemma PermutationNoClash(a: seq<(string, string)>, b: seq<(string, string)>)
    requires NoLabelClash(a)
    requires multiset(a) == multiset(b)
    ensures NoLabelClash(b)
  {
    PermutationDistinct(a, b);
    forall i, j | 0 <= i < j < |b|
      ensures Sanitize(b[i].0) != Sanitize(b[j].0)
    {
      assert b[i] in multiset(a) && b[j] in multiset(a);
      var i' :| 0 <= i' < |a| && a[i'] == b[i];
      var j' :| 0 <= j' < |a| && a[j'] == b[j];
      assert i' != j';
      if i' < j' {
        assert Sanitize(a[i'].0) != Sanitize(a[j'].0);
      } else {
        assert Sanitize(a[j'].0) != Sanitize(a[i'].0);
      }
    }
  }

  /** Sample `s` is the one produced for the field at position `i`. */
  ghost predicate FromField(p: Point, fields: seq<(string, FieldValue)>, i: int, s: Sample) {
    0 <= i < |fields| && Coerce(fields[i].1).Some? && s == SampleFor(p, fields[i].0, Coerce(fields[i].1).value)
  }

  /** Sample `s` is the one produced for some field of `fields`. */
  ghost predicate FromSomeField(p: Point, fields: seq<(string, FieldValue)>, s: Sample) {
    exists i :: FromField(p, fields, i, s)
  }

  /** Field `i` is coercible, and `e` holds its key and coerced value. */
  ghost predicate Picks(fields: seq<(string, FieldValue)>, i: int, e: (string, real)) {
    0 <= i < |fields| && fields[i].0 == e.0 && Coerce(fields[i].1) == Some(e.1)
  }

  /** Every selected entry is the key and coerced value of some field. */
  lemma {:induction false} CoercibleSound(fields: seq<(string, FieldValue)>, j: int)
    requires 0 <= j < |Coercible(fields)|
    ensures exists i :: Picks(fields, i, Coercible(fields)[j])
  {
    var c := Coercible(fields);
    var rest := Coercible(fields[1..]);
    var k := if Coerce(fields[0].1).Some? then j - 1 else j;
    if k < 0 {
      assert Picks(fields, 0, c[j]);
    } else {
      assert c[j] == rest[k];
      CoercibleSound(fields[1..], k);
      var i :| Picks(fields[1..], i, rest[k]);
      assert fields[1..][i] == fields[i + 1];
      assert Picks(fields, i + 1, c[j]);
    }
  }

  /** Every coercible field is selected with its coerced value. */
  lemma {:induction false} CoercibleComplete(fields: seq<(string, FieldValue)>, i: int)
    requires 0 <= i < |fields| && Coerce(fields[i].1).Some?
    ensures (fields[i].0, Coerce(fields[i].1).value) in Coercible(fields)
  {
    if i > 0 {
      assert fields[1..][i - 1] == fields[i];
      CoercibleComplete(fields[1..], i - 1);
    }
  }

  /** Field keys of a point are unique, as they are keys of a map. */
  ghost predicate DistinctFieldKeys(fields: seq<(string, FieldValue)>) {
    forall i, j :: 0 <= i < j < |fields| ==> fields[i].0 != fields[j].0
  }

  /** With unique field keys, the selected entries have unique keys too. */
  lemma {:induction false} CoercibleKeysDistinct(fields: seq<(string, FieldValue)>)
    requires DistinctFieldKeys(fields)
    ensures forall a, b :: 0 <= a < b < |Coercible(fields)| ==> Coercible(fields)[a].0 != Coercible(fields)[b].0
  {
    if fields != [] {
      var c := Coercible(fields);
      var rest := Coercible(fields[1..]);
      assert DistinctFieldKeys(fields[1..]) by {
        forall i, j | 0 <= i < j < |fields[1..]|
          ensures fields[1..][i].0 != fields[1..][j].0
        {
          assert fields[1..][i] == fields[i + 1] && fields[1..][j] == fields[j + 1];
        }
      }
      CoercibleKeysDistinct(fields[1..]);
      if Coerce(fields[0].1).Some? {
        forall b | 0 <= b < |rest|
          ensures rest[b].0 != fields[0].0
        {
          CoercibleSound(fields[1..], b);
          var i :| Picks(fields[1..], i, rest[b]);
          assert fields[1..][i] == fields[i + 1];
        }
        forall a, b | 0 <= a < b < |c|
          ensures c[a].0 != c[b].0
        {
          assert c[b] == rest[b - 1];
          if a > 0 {
            assert c[a] == rest[a - 1];
          }
        }
      } else {
        assert c == rest;
      }
    }
  }

  /** Every sample produced comes from some field whose value can be coerced. */
  lemma TranslateSound(p: Point, fields: seq<(string, FieldValue)>)
    ensures forall j :: 0 <= j < |TranslateFields(p, fields)| ==> FromSomeField(p, fields, TranslateFields(p, fields)[j])
  {
    var c := Coercible(fields);
    forall j | 0 <= j < |TranslateFields(p, fields)|
      ensures FromSomeField(p, fields, TranslateFields(p, fields)[j])
    {
      CoercibleSound(fields, j);
      var i :| Picks(fields, i, c[j]);
      assert FromField(p, fields, i, TranslateFields(p, fields)[j]);
    }
  }

  /** Every field whose value can be coerced yields its sample. */
  lemma TranslateComplete(p: Point, fields: seq<(string, FieldValue)>)
    ensures forall i, s :: FromField(p, fields, i, s) ==> s in TranslateFields(p, fields)
  {
    var c := Coercible(fields);
    forall i, s | FromField(p, fields, i, s)
      ensures s in TranslateFields(p, fields)
    {
      CoercibleComplete(fields, i);
      var k :| 0 <= k < |c| && c[k] == (fields[i].0, Coerce(fields[i].1).value);
      assert TranslateFields(p, fields)[k] == s;
    }
  }

  /**
    A point's samples are exactly one per field whose value is a float, an
    integer or a boolean; every other field is skipped.
   */
  lemma TranslatePointExactly(p: Point)
    ensures forall s :: s in TranslatePoint(p) <==> FromSomeField(p, p.fields, s)
  {
    TranslateSound(p, p.fields);
    TranslateComplete(p, p.fields);
  }

  /**
    The samples of one point all have different IDs, so none of them
    overwrites another in the store.
   */
  lemma TranslateIdsDistinct(p: Point, fields: seq<(string, FieldValue)>)
    requires DistinctFieldKeys(fields)
    ensures forall a, b :: 0 <= a < b < |TranslateFields(p, fields)| ==>
      TranslateFields(p, fields)[a].id != TranslateFields(p, fields)[b].id
  {
    var c := Coercible(fields);
    var r := TranslateFields(p, fields);
    CoercibleKeysDistinct(fields);
    forall a, b | 0 <= a < b < |r|
      ensures r[a].id != r[b].id
    {
      SampleForIsSampleOf(p, c[a].0, c[a].1);
      SampleForIsSampleOf(p, c[b].0, c[b].1);
      MetricNameInjective(p.measurement, c[a].0, c[b].0);
    }
  }

  /**
    Invariant of every sample the translation produces: clean name and label
    names, and an ID that is the fingerprint of the unsanitised name the
    sample name was sanitised from.
   */
  ghost predicate WellFormed(s: Sample) {
    && |s.id| > 0
    && IsClean(s.name)
    && Sanitize(s.id[0]) == s.name
    && (forall l :: l in s.labels ==> IsClean(l))
    && exists names :: Enumerates(names, s.labels.Keys) && s.id == Fingerprint(s.id[0], s.labels, names)
  }

  /** Two well-formed samples share an ID exactly when they come from the same unsanitised name and labels. */
  lemma WellFormedIdentity(a: Sample, b: Sample)
    requires WellFormed(a) && WellFormed(b)
    ensures a.id == b.id <==> a.id[0] == b.id[0] && a.labels == b.labels
  {
    var na :| Enumerates(na, a.labels.Keys) && a.id == Fingerprint(a.id[0], a.labels, na);
    var nb :| Enumerates(nb, b.labels.Keys) && b.id == Fingerprint(b.id[0], b.labels, nb);
    FingerprintIdentifiesSeries(a.id[0], a.labels, na, b.id[0], b.labels, nb);
  }

  lemma SampleForWellFormed(p: Point, field: string, value: real)
    ensures WellFormed(SampleFor(p, field, value))
  {
    var s := SampleFor(p, field, value);
    LabelsKeys(p.tags);
    assert forall l :: l in s.labels ==> IsClean(l);
    assert Enumerates(LabelNames(p.tags), s.labels.Keys);
  }

  /** Everything the translation produces is well formed. */
  lemma TranslateWellFormed(p: Point)
    ensures forall s :: s in TranslatePoint(p) ==> WellFormed(s)
  {
    TranslatePointExactly(p);
    forall s | s in TranslatePoint(p)
      ensures WellFormed(s)
    {
      var i :| FromField(p, p.fields, i, s);
      SampleForWellFormed(p, p.fields[i].0, s.value);
    }
  }
}
