/**
  The write endpoint of main.go (`influxDBPost`) reduced to its decisions:
  the liveness gauge is set on arrival, a body that cannot be read gives
  500, a payload the line-protocol parser rejects gives 400, and otherwise
  every decoded point is translated, its samples are handed to the store and
  the reply is 204 with an empty body. The parser is a foreign library and
  enters as a function parameter.
 */
module Write {
  import opened Translate
  import opened Store

  /** The outcome of reading the request body. */
  datatype Body = Unreadable(err: string) | Readable(payload: string)

  /** The outcome of the line-protocol parser. */
  datatype Parsed = Malformed(err: string) | Points(points: seq<Point>)

  /** Payload, timestamp given to points that carry none, precision -> parse result. */
  type Parser = (string, int, string) -> Parsed

  datatype Reply = Reply(status: int, message: string, samples: seq<Sample>)

  const DefaultPrecision := "ns"

  /** The `precision` request parameter, defaulting to nanoseconds when absent or empty. */
  function Precision(param: string): string {
    if param != "" then param else DefaultPrecision
  }

  /**
    Decide one write request with request parameter `precision`; `parsedAt`
    is the clock reading handed to the parser as the default timestamp.
   */
  function Write(parsedAt: int, body: Body, precision: string, parse: Parser): (r: Reply)
    ensures r.status == 500 || r.status == 400 || r.status == 204
    ensures r.status == 500 <==> body.Unreadable?
    ensures r.status == 400 <==> body.Readable? && parse(body.payload, parsedAt, Precision(precision)).Malformed?
    ensures r.status != 204 ==> r.samples == []
    ensures r.status == 204 ==> r.message == "" && r.samples == TranslatePoints(parse(body.payload, parsedAt, Precision(precision)).points)
  {
    match body
    case Unreadable(err) => Reply(500, "error reading body: " + err, [])
    case Readable(payload) =>
      match parse(payload, parsedAt, Precision(precision))
      case Malformed(err) => Reply(400, "error parsing request: " + err, [])
      case Points(points) => Reply(204, "", TranslatePoints(points))
  }

  /** The exporter's state: the sample store and the liveness gauge (arrival time of the last write). */
  datatype Exporter = Exporter(store: Store, lastPush: int)

  /**
    One write request arriving at `arrival`, parsed with the later clock
    reading `parsedAt`; its samples reach the store before any other event.
   */
  function Serve(e: Exporter, arrival: int, parsedAt: int, body: Body, precision: string, parse: Parser): (r: (Exporter, Reply))
    ensures r.0.lastPush == arrival
  {
    var reply := Write(parsedAt, body, precision, parse);
    (Exporter(InsertAll(e.store, reply.samples), arrival), reply)
  }

  /** A request that fails still moves the liveness gauge but leaves the store untouched. */
  lemma FailedWriteKeepsStore(e: Exporter, arrival: int, parsedAt: int, body: Body, precision: string, parse: Parser)
    ensures var (e', reply) := Serve(e, arrival, parsedAt, body, precision, parse);
      reply.status != 204 ==> e'.store == e.store && e'.lastPush == arrival
  {
  }

  /**
    A successful write of a single point stores every sample of that point,
    since their IDs are pairwise different; entries of other series stay.
   */
  lemma WriteStoresWholePoint(e: Exporter, arrival: int, parsedAt: int, body: Body, precision: string, parse: Parser, p: Point)
    requires body.Readable? && parse(body.payload, parsedAt, Precision(precision)) == Points([p])
    requires DistinctFieldKeys(p.fields)
    ensures var (e', reply) := Serve(e, arrival, parsedAt, body, precision, parse);
      && reply.status == 204
      && (forall s :: s in TranslatePoint(p) ==> s.id in e'.store && e'.store[s.id] == s)
  {
    var ss := TranslatePoint(p);
    assert TranslatePoints([p]) == ss;
    TranslateIdsDistinct(p, p.fields);
    InsertAllDistinct(e.store, ss);
  }

  /** Whatever the request, a consistent store stays consistent. */
  lemma ServeConsistent(e: Exporter, arrival: int, parsedAt: int, body: Body, precision: string, parse: Parser)
    requires Consistent(e.store)
    ensures Consistent(Serve(e, arrival, parsedAt, body, precision, parse).0.store)
  {
    var reply := Write(parsedAt, body, precision, parse);
    if reply.status == 204 {
      var points := parse(body.payload, parsedAt, Precision(precision)).points;
      TranslatePointsWellFormed(points);
      InsertAllConsistent(e.store, reply.samples);
    }
  }

  lemma {:induction false} TranslatePointsWellFormed(points: seq<Point>)
    ensures forall s :: s in TranslatePoints(points) ==> WellFormed(s)
    decreases |points|
  {
    if points != [] {
      TranslateWellFormed(points[0]);
      TranslatePointsWellFormed(points[1..]);
    }
  }

  lemma {:induction false} InsertAllConsistent(st: Store, ss: seq<Sample>)
    requires Consistent(st)
    requires forall s :: s in ss ==> WellFormed(s)
    ensures Consistent(InsertAll(st, ss))
    decreases |ss|
  {
    if ss != [] {
      assert ss[0] in ss;
      assert forall s :: s in ss[1..] ==> s in ss;
      InsertAllConsistent(Insert(st, ss[0]), ss[1..]);
    }
  }
}
