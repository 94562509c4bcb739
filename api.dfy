/**
 * The HTTP layer of the backend: the JSON sanitiser every response goes
 * through, the price comparison, the pagination query parameters and the
 * mapping of the table operations to status codes.
 */
module Api {
  import opened Wrappers
  import opened Text
  import opened LaptopTable
  import Ranking

  // ---------------------------------------------------------------------
  // JSON values
  // ---------------------------------------------------------------------

  /** A floating-point value: a finite number, an infinity or NaN. */
  datatype Float = Finite(value: real) | PosInf | NegInf | NaN

  /** A value handed to the sanitiser: JSON's own kinds, plus the numpy integer and
      floating scalars that pandas rows carry. A dict is its entries in order. */
  datatype Json =
    | JNull
    | JBool(b: bool)
    | JInt(i: int)
    | JNpInt(i: int)
    | JFloat(f: Float)
    | JNpFloat(f: Float)
    | JStr(s: string)
    | JList(items: seq<Json>)
    | JDict(entries: seq<(string, Json)>)

  /** A value JSON can encode as it is: no numpy scalar and no non-finite float, at any depth. */
  predicate Clean(j: Json)
  {
    match j
    case JNpInt(_) => false
    case JNpFloat(_) => false
    case JFloat(f) => f.Finite?
    case JList(xs) => forall i :: 0 <= i < |xs| ==> Clean(xs[i])
    case JDict(es) => forall i :: 0 <= i < |es| ==> Clean(es[i].1)
    case _ => true
  }

  /** The keys of a dict's entries, in order. */
  function EntryKeys(es: seq<(string, Json)>): seq<string>
  {
    seq(|es|, i requires 0 <= i < |es| => es[i].0)
  }

  /** json_sanitize: numpy scalars become plain ones, non-finite floats become null,
      lists and dicts are sanitised element by element; anything else is kept. */
  function Sanitize(j: Json): (r: Json)
    ensures r.JNull? <==> j.JNull? || ((j.JFloat? || j.JNpFloat?) && !j.f.Finite?)
    ensures (j.JFloat? || j.JNpFloat?) && j.f.Finite? ==> r == JFloat(j.f)
    ensures j.JNpInt? ==> r == JInt(j.i)
    ensures j.JBool? || j.JInt? || j.JStr? ==> r == j
    ensures j.JList? ==> r.JList? && |r.items| == |j.items|
    ensures j.JDict? ==> r.JDict? && EntryKeys(r.entries) == EntryKeys(j.entries)
  {
    match j
    case JNull => JNull
    case JNpFloat(f) => if f.Finite? then JFloat(f) else JNull
    case JNpInt(i) => JInt(i)
    case JFloat(f) => if f.Finite? then j else JNull
    case JDict(es) => JDict(seq(|es|, i requires 0 <= i < |es| => (es[i].0, Sanitize(es[i].1))))
    case JList(xs) => JList(seq(|xs|, i requires 0 <= i < |xs| => Sanitize(xs[i])))
    case _ => j
  }

  /** The sanitised value is clean. */
  lemma {:induction false} SanitizeMakesClean(j: Json)
    ensures Clean(Sanitize(j))
  {
    match j
    case JList(xs) =>
      forall i | 0 <= i < |xs| ensures Clean(Sanitize(j).items[i]) {
        SanitizeMakesClean(xs[i]);
      }
    case JDict(es) =>
      forall i | 0 <= i < |es| ensures Clean(Sanitize(j).entries[i].1) {
        SanitizeMakesClean(es[i].1);
      }
    case _ =>
  }

  /** A clean value comes back unchanged. */
  lemma {:induction false} SanitizeKeepsClean(j: Json)
    requires Clean(j)
    ensures Sanitize(j) == j
  {
    match j
    case JList(xs) =>
      forall i | 0 <= i < |xs| ensures Sanitize(xs[i]) == xs[i] {
        SanitizeKeepsClean(xs[i]);
      }
      assert Sanitize(j).items == xs;
    case JDict(es) =>
      forall i | 0 <= i < |es| ensures Sanitize(es[i].1) == es[i].1 {
        SanitizeKeepsClean(es[i].1);
      }
      assert Sanitize(j).entries == es;
    case _ =>
  }

  /** Sanitising twice is sanitising once. */
  lemma SanitizeIdempotent(j: Json)
    ensures Sanitize(Sanitize(j)) == Sanitize(j)
  {
    SanitizeMakesClean(j);
    SanitizeKeepsClean(Sanitize(j));
  }

  // ---------------------------------------------------------------------
  // Price comparison
  // ---------------------------------------------------------------------

  /** IEEE subtraction, without rounding or overflow of finite values. */
  function Sub(x: Float, y: Float): Float
  {
    match (x, y)
    case (NaN, _) => NaN
    case (_, NaN) => NaN
    case (PosInf, PosInf) => NaN
    case (NegInf, NegInf) => NaN
    case (PosInf, _) => PosInf
    case (NegInf, _) => NegInf
    case (_, PosInf) => NegInf
    case (_, NegInf) => PosInf
    case (Finite(a), Finite(b)) => Finite(a - b)
  }

  function Abs(x: Float): Float
  {
    match x
    case Finite(v) => Finite(if v < 0.0 then -v else v)
    case NaN => NaN
    case _ => PosInf
  }

  /** `abs(a - b)`: finite exactly when both prices are, then their distance. */
  function PriceDiff(a: Float, b: Float): (d: Float)
    ensures d.Finite? <==> a.Finite? && b.Finite?
    ensures d.Finite? ==> d.value >= 0.0 && (d.value == a.value - b.value || d.value == b.value - a.value)
  {
    Abs(Sub(a, b))
  }

  /** The difference does not depend on which laptop is "a", for every pair of values. */
  lemma PriceDiffSymmetric(a: Float, b: Float)
    ensures PriceDiff(a, b) == PriceDiff(b, a)
  {
  }

  function PriceJson(p: Float): Json
  {
    JDict([("predicted_price", JFloat(p))])
  }

  /** The body compare answers with, for the two predicted prices. */
  function CompareBody(a: Float, b: Float): (body: Json)
    ensures Clean(body)
  {
    SanitizeMakesClean(JDict([("a", PriceJson(a)), ("b", PriceJson(b)), ("diff", JFloat(PriceDiff(a, b)))]));
    Sanitize(JDict([("a", PriceJson(a)), ("b", PriceJson(b)), ("diff", JFloat(PriceDiff(a, b)))]))
  }

  /** The body holds a, b and diff; diff is the prices' distance when both are finite and
      null otherwise, and a non-finite price is reported as null. */
  lemma CompareBodyFields(a: Float, b: Float)
    ensures var body := CompareBody(a, b);
      body.JDict? && EntryKeys(body.entries) == ["a", "b", "diff"]
      && body.entries[2].1 == (if a.Finite? && b.Finite? then JFloat(PriceDiff(a, b)) else JNull)
      && body.entries[0].1 == JDict([("predicted_price", if a.Finite? then JFloat(a) else JNull)])
  {
    var body := CompareBody(a, b);
    assert body.entries[0].1 == Sanitize(PriceJson(a));
    assert Sanitize(PriceJson(a)).entries[0].1 == Sanitize(JFloat(a));
  }

  /** Swapping the two laptops leaves the reported difference as it is. */
  lemma CompareDiffSymmetric(a: Float, b: Float)
    ensures CompareBody(a, b).entries[2] == CompareBody(b, a).entries[2]
  {
    CompareBodyFields(a, b);
    CompareBodyFields(b, a);
    PriceDiffSymmetric(a, b);
  }

  /** 18,000,000 against 20,500,000 is reported as 2,500,000, not as a negative number. */
  lemma CompareReportsDistance()
    ensures CompareBody(Finite(18000000.0), Finite(20500000.0)).entries[2].1 == JFloat(Finite(2500000.0))
  {
    CompareBodyFields(Finite(18000000.0), Finite(20500000.0));
  }

  // ---------------------------------------------------------------------
  // Pagination parameters
  // ---------------------------------------------------------------------

  /** `int(request.args.get(name, default))`: the default when the parameter is absent. */
  function ParseArg(arg: Option<string>, default: int): Option<int>
  {
    match arg
    case None => Some(default)
    case Some(s) => ParseInt(s)
  }

  /** The limit and offset list_laptops uses: both parsed, or 50 and 0 together when
      either fails to parse. */
  function Pagination(limitArg: Option<string>, offsetArg: Option<string>): (r: (int, int))
    ensures ParseArg(limitArg, 50).None? || ParseArg(offsetArg, 0).None? ==> r == (50, 0)
    ensures ParseArg(limitArg, 50).Some? && ParseArg(offsetArg, 0).Some? ==>
      r == (ParseArg(limitArg, 50).value, ParseArg(offsetArg, 0).value)
  {
    match (ParseArg(limitArg, 50), ParseArg(offsetArg, 0))
    case (Some(l), Some(o)) => (l, o)
    case _ => (50, 0)
  }

  /** Parameters written as decimal integers are read back as those integers. */
  lemma PaginationReadsIntegers(limit: int, offset: int)
    ensures Pagination(Some(IntToString(limit)), Some(IntToString(offset))) == (limit, offset)
  {
    ParseIntRoundTrip(limit);
    ParseIntRoundTrip(offset);
  }

  /** Absent parameters mean 50 and 0. */
  lemma PaginationDefaults()
    ensures Pagination(None, None) == (50, 0)
  {
  }

  // ---------------------------------------------------------------------
  // Rows as JSON
  // ---------------------------------------------------------------------

  function IntJson(n: int, numpy: bool): Json
  {
    if numpy then JNpInt(n) else JInt(n)
  }

  /** A row as a dict: with numpy scalars when it comes out of the table, plain values
      when create_laptop builds it. */
  function LaptopJson(row: Laptop, numpy: bool): Json
  {
    JDict([("id", IntJson(row.id, numpy)), ("name", JStr(row.name)), ("brand", JStr(row.brand)),
           ("cpu", JStr(row.cpu)), ("ram_gb", IntJson(row.ramGb, numpy)),
           ("storage_gb", IntJson(row.storageGb, numpy)), ("gpu", JStr(row.gpu)),
           ("color_gamut", IntJson(row.colorGamut, numpy)),
           ("price", if numpy then JNpFloat(Finite(row.price)) else JFloat(Finite(row.price)))])
  }

  /** A row read from the table sanitises to the same dict as the plain one. */
  lemma SanitizedRowIsPlain(row: Laptop)
    ensures Sanitize(LaptopJson(row, true)) == LaptopJson(row, false)
    ensures Clean(LaptopJson(row, false))
  {
    var r := Sanitize(LaptopJson(row, true));
    assert r.entries == LaptopJson(row, false).entries;
  }

  function RecommendationJson(r: Ranking.Recommendation): Json
  {
    JDict([("id", JInt(r.id)), ("name", JStr(r.name)), ("brand", JStr(r.brand)), ("cpu", JStr(r.cpu)),
           ("ram_gb", JInt(r.ramGb)), ("storage_gb", JInt(r.storageGb)), ("gpu", JStr(r.gpu)),
           ("color_gamut", JInt(r.colorGamut)), ("price", JFloat(Finite(r.price))),
           ("trend_score", JFloat(Finite(r.trendScore))),
           ("predicted_price", JFloat(Finite(r.predictedPrice))), ("score", JFloat(Finite(r.score)))])
  }

  /** The recommendations hold only plain, finite values, so sanitising leaves them as they are. */
  lemma RecommendBodyUnchanged(top: seq<Ranking.Recommendation>)
    ensures var body := JList(seq(|top|, i requires 0 <= i < |top| => RecommendationJson(top[i])));
      Sanitize(body) == body
  {
    var body := JList(seq(|top|, i requires 0 <= i < |top| => RecommendationJson(top[i])));
    assert Clean(body) by {
      forall i | 0 <= i < |top| ensures Clean(body.items[i]) {
        assert body.items[i] == RecommendationJson(top[i]);
      }
    }
    SanitizeKeepsClean(body);
  }

  // ---------------------------------------------------------------------
  // Endpoints
  // ---------------------------------------------------------------------

  datatype Response = Response(status: int, body: Json)

  const NotFound: Response := Response(404, JDict([("error", JStr("Not found"))]))

  /** GET /api/laptops: the sanitised page for the parsed limit and offset, always 200. */
  method ListEndpoint(store: LaptopStore, limitArg: Option<string>, offsetArg: Option<string>)
    returns (resp: Response)
    modifies store
    ensures store.rows == RepairIds(old(store.rows))
    ensures resp.status == 200
    ensures var (limit, offset) := Pagination(limitArg, offsetArg);
      var page := Page(store.rows, limit, offset);
      resp.body == JList(seq(|page|, i requires 0 <= i < |page| => LaptopJson(page[i], false)))
  {
    var (limit, offset) := Pagination(limitArg, offsetArg);
    var page := store.ListLaptops(limit, offset);
    var items := seq(|page|, i requires 0 <= i < |page| => LaptopJson(page[i], true));
    var body := Sanitize(JList(items));
    forall i | 0 <= i < |page| ensures body.items[i] == LaptopJson(page[i], false) {
      SanitizedRowIsPlain(page[i]);
    }
    resp := Response(200, body);
  }

  /** GET /api/laptops/<id>: 404 exactly when no row has the id, else the row. */
  method GetEndpoint(store: LaptopStore, itemId: int) returns (resp: Response)
    modifies store
    ensures store.rows == RepairIds(old(store.rows))
    ensures resp.status == 404 <==> Lookup(store.rows, itemId).None?
    ensures resp.status == 404 ==> resp == NotFound
    ensures resp.status != 404 ==> resp == Response(200, LaptopJson(Lookup(store.rows, itemId).value, false))
  {
    var item := store.GetLaptop(itemId);
    if item.None? {
      return NotFound;
    }
    SanitizedRowIsPlain(item.value);
    resp := Response(200, Sanitize(LaptopJson(item.value, true)));
  }

  /** POST /api/laptops: always 201 with the new row, appended to the repaired table. */
  method CreateEndpoint(store: LaptopStore, data: LaptopInput) returns (resp: Response)
    modifies store
    ensures |store.rows| == |RepairIds(old(store.rows))| + 1
    ensures var row := store.rows[|store.rows| - 1];
      store.rows == RepairIds(old(store.rows)) + [NewRow(data, row.id)]
      && row.id >= 1 && (forall i :: 0 <= i < |store.rows| - 1 ==> store.rows[i].id < row.id)
      && resp == Response(201, LaptopJson(row, false))
    ensures store.rows[|store.rows| - 1].id ==
      if RepairIds(old(store.rows)) == [] then 1 else MaxId(RepairIds(old(store.rows))) + 1
  {
    var row := store.CreateLaptop(data);
    SanitizedRowIsPlain(row);
    SanitizeKeepsClean(LaptopJson(row, false));
    resp := Response(201, Sanitize(LaptopJson(row, false)));
  }

  /** PUT/PATCH /api/laptops/<id>: 404 exactly when no row has the id, else the updated row. */
  method UpdateEndpoint(store: LaptopStore, itemId: int, data: LaptopInput) returns (resp: Response)
    modifies store
    ensures resp.status == 404 <==> FindFirst(RepairIds(old(store.rows)), itemId).None?
    ensures resp.status == 404 ==> resp == NotFound && store.rows == RepairIds(old(store.rows))
    ensures resp.status != 404 ==>
      var k := FindFirst(RepairIds(old(store.rows)), itemId).value;
      store.rows == RepairIds(old(store.rows))[k := Patched(RepairIds(old(store.rows))[k], data)]
      && resp == Response(200, LaptopJson(store.rows[k], false))
  {
    var item := store.UpdateLaptop(itemId, data);
    if item.None? {
      return NotFound;
    }
    SanitizedRowIsPlain(item.value);
    resp := Response(200, Sanitize(LaptopJson(item.value, true)));
  }

  /** DELETE /api/laptops/<id>: 404 exactly when no row had the id, else {"ok": true}. */
  method DeleteEndpoint(store: LaptopStore, itemId: int) returns (resp: Response)
    modifies store
    ensures store.rows == WithoutId(RepairIds(old(store.rows)), itemId)
    ensures resp.status == 404 <==> forall i :: 0 <= i < |RepairIds(old(store.rows))| ==>
                                      RepairIds(old(store.rows))[i].id != itemId
    ensures resp.status == 404 ==> resp == NotFound
    ensures resp.status != 404 ==> resp == Response(200, JDict([("ok", JBool(true))]))
  {
    var removed := store.DeleteLaptop(itemId);
    if !removed {
      return NotFound;
    }
    resp := Response(200, JDict([("ok", JBool(true))]));
  }
}
