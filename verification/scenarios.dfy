/**
  Concrete cases of the translation and the store, written as lemmas over
  fixed points.
 */
module Scenarios {
  import opened Names
  import opened Identity
  import opened Translate
  import opened Store

  /** How a single field's value becomes a sample value, for every kind of field. */
  lemma OneFieldCoercion(m: string, tags: seq<(string, string)>, f: string, v: FieldValue, t: int)
    ensures var r := TranslatePoint(Point(m, tags, [(f, v)], t));
      && (v.Other? ==> r == [])
      && (v.Float? ==> |r| == 1 && r[0].value == v.f)
      && (v.Int? ==> |r| == 1 && r[0].value == v.i as real)
      && (v.Bool? ==> |r| == 1 && r[0].value == (if v.b then 1.0 else 0.0))
  {
  }

  /** The tag set `host=a` yields the label map `{host: "a"}` and the ID suffix `["host", "a"]`. */
  lemma HostLabel(tags: seq<(string, string)>)
    requires tags == [("host", "a")]
    ensures Labels(tags) == map["host" := "a"]
    ensures forall name :: Fingerprint(name, Labels(tags), LabelNames(tags)) == [name, "host", "a"]
  {
    SanitizeFixesExactlyClean("host");
    assert tags[..0] == [];
    var keys := seq(|tags|, i requires 0 <= i < |tags| => Sanitize(tags[i].0));
    assert keys == ["host"];
    assert Lex.Dedup(keys[1..]) == [];
    assert LabelNames(tags) == ["host"];
    assert Lex.Sort(["host"][1..]) == [];
    assert Lex.Sort(["host"]) == ["host"];
    assert Pairs(["host"], map["host" := "a"]) == ["host", "a"];
  }

  /** `cpu,host=a value=42 1000000000`: one sample `cpu{host="a"}` = 42 at one second. */
  lemma ValueFieldScenario()
    ensures var p := Point("cpu", [("host", "a")], [("value", Float(42.0))], 1000000000);
      TranslatePoint(p) == [Sample(["cpu", "host", "a"], "cpu", map["host" := "a"], 42.0, 1000000000)]
  {
    var p := Point("cpu", [("host", "a")], [("value", Float(42.0))], 1000000000);
    SanitizeFixesExactlyClean("cpu");
    SanitizeFixesExactlyClean("host");
    HostLabel(p.tags);
  }

  /** A clean derived name with the tag set `host=a`. */
  lemma HostSample(p: Point, field: string, value: real)
    requires p.tags == [("host", "a")]
    requires IsClean(MetricName(p.measurement, field))
    ensures var raw := MetricName(p.measurement, field);
      SampleFor(p, field, value) == Sample([raw, "host", "a"], raw, map["host" := "a"], value, p.time)
  {
    SanitizeFixesExactlyClean(MetricName(p.measurement, field));
    HostLabel(p.tags);
  }

  /** A point with two float fields yields their two samples, in field order. */
  lemma TwoFloatFields(p: Point, f1: string, v1: real, f2: string, v2: real)
    requires p.fields == [(f1, Float(v1)), (f2, Float(v2))]
    ensures TranslatePoint(p) == [SampleFor(p, f1, v1), SampleFor(p, f2, v2)]
  {
    var tail := p.fields[1..];
    assert tail == [(f2, Float(v2))] && tail[1..] == [];
    assert Coercible(tail) == [(f2, v2)];
    assert Coercible(p.fields) == [(f1, v1), (f2, v2)];
  }

  /** `cpu,host=a idle=10,used=5 1000000000`: samples `cpu_idle` = 10 and `cpu_used` = 5. */
  lemma FieldSuffixScenario(p: Point)
    requires p == Point("cpu", [("host", "a")], [("idle", Float(10.0)), ("used", Float(5.0))], 1000000000)
    ensures TranslatePoint(p) == [
      Sample(["cpu_idle", "host", "a"], "cpu_idle", map["host" := "a"], 10.0, 1000000000),
      Sample(["cpu_used", "host", "a"], "cpu_used", map["host" := "a"], 5.0, 1000000000)]
  {
    TwoFloatFields(p, "idle", 10.0, "used", 5.0);
    assert MetricName(p.measurement, "idle") == "cpu_idle";
    HostSample(p, "idle", 10.0);
    assert MetricName(p.measurement, "used") == "cpu_used";
    HostSample(p, "used", 5.0);
  }

  /** Measurement `my.metric` with tag key `host-name` becomes `my_metric{host_name=...}`. */
  lemma SanitizationScenario()
    ensures var s := TranslatePoint(Point("my.metric", [("host-name", "x")], [("value", Int(1))], 0));
      |s| == 1 && s[0].name == "my_metric" && s[0].labels == map["host_name" := "x"]
  {
    assert Sanitize("my.metric") == "my_metric";
    assert Sanitize("host-name") == "host_name";
  }

  /**
    The ID is taken from the derived name before sanitisation, so two
    measurements that sanitise alike give two store entries that expose the
    same metric name with the same labels.
   */
  lemma SanitisedNamesCanCollide()
    ensures var a := TranslatePoint(Point("my.metric", [], [("value", Float(1.0))], 0));
      var b := TranslatePoint(Point("my-metric", [], [("value", Float(2.0))], 0));
      && |a| == 1 && |b| == 1
      && a[0].name == b[0].name && a[0].labels == b[0].labels
      && a[0].id != b[0].id
      && |Insert(Insert(map[], a[0]), b[0])| == 2
  {
    assert Sanitize("my.metric") == "my_metric";
    assert Sanitize("my-metric") == "my_metric";
    var a := TranslatePoint(Point("my.metric", [], [("value", Float(1.0))], 0));
    var b := TranslatePoint(Point("my-metric", [], [("value", Float(2.0))], 0));
    assert a[0].id[0] == "my.metric" && b[0].id[0] == "my-metric";
    assert "my.metric"[2] != "my-metric"[2];
    var st := Insert(Insert(map[], a[0]), b[0]);
    assert st.Keys == {a[0].id, b[0].id};
  }
}
