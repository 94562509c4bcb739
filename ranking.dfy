/**
 * The backend's recommendation ranking: per-criterion scores against the
 * requested profile, their weighted sum, the per-row signature and id, and the
 * ten best rows in descending score order.
 */
module Ranking {
  import opened Wrappers
  import opened Text
  import opened Numbers
  import opened LaptopTable
  import RecommendationForm

  /** The profile a recommendation request carries; a field absent from the body is None. */
  datatype RecommendRequest = RecommendRequest(
    brand: Option<string>,
    cpu: Option<string>,
    ramGb: Option<int>,
    storageGb: Option<int>,
    gpu: Option<string>,
    colorGamut: Option<int>,
    budget: Option<int>,
    weights: Option<map<string, real>>)

  /** The preferences recommend scores against, absent numbers replaced by their defaults. */
  datatype Prefs = Prefs(
    brand: Option<string>,
    cpu: Option<string>,
    ramGb: int,
    storageGb: int,
    gpu: Option<string>,
    colorGamut: int,
    budget: int)

  function PrefsOf(req: RecommendRequest): Prefs
  {
    Prefs(req.brand, req.cpu, req.ramGb.GetOr(16), req.storageGb.GetOr(512), req.gpu,
          req.colorGamut.GetOr(100), req.budget.GetOr(15000000))
  }

  /** One ranked candidate as the endpoint returns it. */
  datatype Recommendation = Recommendation(
    id: int,
    name: string,
    brand: string,
    cpu: string,
    ramGb: int,
    storageGb: int,
    gpu: string,
    colorGamut: int,
    price: real,
    trendScore: real,
    predictedPrice: real,
    score: real)

  // ---------------------------------------------------------------------
  // Weights
  // ---------------------------------------------------------------------

  /** The weights used when the request carries none; each per-key default the code
      writes is the same literal. */
  const DefaultWeights: map<string, real> :=
    map["brand" := 0.04, "cpu" := 0.30, "ram" := 0.22, "storage" := 0.10,
        "gpu" := 0.20, "color_gamut" := 0.08, "price" := 0.06]

  /** The backend's default weights are the ones the form sends. */
  lemma DefaultWeightsMatchClient()
    ensures DefaultWeights == RecommendationForm.ClientWeights
  {
  }

  function WeightsOf(req: RecommendRequest): map<string, real>
  {
    req.weights.GetOr(DefaultWeights)
  }

  /** `weights.get(key, default)`. */
  function Weight(ws: map<string, real>, key: string): real
    requires key in DefaultWeights
  {
    if key in ws then ws[key] else DefaultWeights[key]
  }

  function WeightSum(ws: map<string, real>): real
  {
    Weight(ws, "brand") + Weight(ws, "cpu") + Weight(ws, "gpu") + Weight(ws, "ram")
    + Weight(ws, "storage") + Weight(ws, "color_gamut") + Weight(ws, "price")
  }

  predicate NonNegativeWeights(ws: map<string, real>)
  {
    forall key :: key in DefaultWeights ==> Weight(ws, key) >= 0.0
  }

  // ---------------------------------------------------------------------
  // Per-criterion scores
  // ---------------------------------------------------------------------

  /** cat_score: 1 exactly when both values are present and equal, else 0. */
  function CatScore(a: Option<string>, b: Option<string>): (s: real)
    ensures s == 0.0 || s == 1.0
    ensures s == 1.0 <==> a.Some? && b.Some? && a.value == b.value
  {
    if a.Some? && b.Some? && a.value == b.value then 1.0 else 0.0
  }

  /** rel_score: how close `v` is to a positive target, 1 - |v - t| / t floored at 0;
      0 for a target that is not positive. */
  function RelScore(v: real, target: int): (s: real)
    ensures 0.0 <= s <= 1.0
    ensures s == 1.0 <==> target > 0 && v == target as real
    ensures target <= 0 ==> s == 0.0
  {
    if target <= 0 then 0.0
    else
      var t := target as real;
      var d := if v >= t then v - t else t - v;
      assert d / t >= 0.0;
      assert d / t == 0.0 <==> d == 0.0;
      var raw := 1.0 - d / t;
      if 0.0 >= raw then 0.0 else raw
  }

  /** Far enough from the target (at or below zero, or at least twice it), the score is 0. */
  lemma RelScoreVanishesFarAway(v: real, target: int)
    requires target > 0 && (v <= 0.0 || v >= 2.0 * target as real)
    ensures RelScore(v, target) == 0.0
  {
    var t := target as real;
    var d := if v >= t then v - t else t - v;
    assert d >= t;
    assert d / t >= 1.0;
  }

  lemma ProductNonNegative(a: real, b: real)
    requires a >= 0.0 && b >= 0.0
    ensures a * b >= 0.0
  {
  }

  /** A fraction of a non-negative amount lies between 0 and the amount. */
  lemma FractionBounds(c: real, w: real)
    ensures 0.0 <= c <= 1.0 && w >= 0.0 ==> 0.0 <= c * w <= w
  {
    if 0.0 <= c <= 1.0 && w >= 0.0 {
      ProductNonNegative(c, w);
      ProductNonNegative(1.0 - c, w);
      assert (1.0 - c) * w == w - c * w;
    }
  }

  /** One criterion's contribution: its score times its weight. */
  function Weighted(c: real, ws: map<string, real>, key: string): (r: real)
    requires key in DefaultWeights
    ensures 0.0 <= c <= 1.0 && Weight(ws, key) >= 0.0 ==> 0.0 <= r <= Weight(ws, key)
  {
    var w := Weight(ws, key);
    FractionBounds(c, w);
    c * w
  }

  /** The weighted sum of the seven criterion scores for one row. With non-negative weights
      it lies between 0 and the sum of the weights. */
  function Score(row: Laptop, pred: real, p: Prefs, ws: map<string, real>): (s: real)
    ensures NonNegativeWeights(ws) ==> 0.0 <= s <= WeightSum(ws)
  {
    assert NonNegativeWeights(ws) ==>
      Weight(ws, "brand") >= 0.0 && Weight(ws, "cpu") >= 0.0 && Weight(ws, "gpu") >= 0.0
      && Weight(ws, "ram") >= 0.0 && Weight(ws, "storage") >= 0.0
      && Weight(ws, "color_gamut") >= 0.0 && Weight(ws, "price") >= 0.0;
    Weighted(CatScore(Some(row.brand), p.brand), ws, "brand")
    + Weighted(CatScore(Some(row.cpu), p.cpu), ws, "cpu")
    + Weighted(CatScore(Some(row.gpu), p.gpu), ws, "gpu")
    + Weighted(RelScore(row.ramGb as real, p.ramGb), ws, "ram")
    + Weighted(RelScore(row.storageGb as real, p.storageGb), ws, "storage")
    + Weighted(RelScore(row.colorGamut as real, p.colorGamut), ws, "color_gamut")
    + Weighted(RelScore(pred, p.budget), ws, "price")
  }

  /** The default weights are non-negative and sum to 1, so a default-weighted score
      lies in [0, 1]. */
  lemma DefaultScoreWithinUnit(row: Laptop, pred: real, p: Prefs)
    ensures 0.0 <= Score(row, pred, p, DefaultWeights) <= 1.0
  {
    assert NonNegativeWeights(DefaultWeights);
    assert WeightSum(DefaultWeights) == 1.0;
  }

  /** A row that matches every preference exactly, with a prediction equal to the budget,
      scores the full sum of the weights. */
  lemma PerfectMatchScoresWeightSum(row: Laptop, pred: real, p: Prefs, ws: map<string, real>)
    requires p.brand == Some(row.brand) && p.cpu == Some(row.cpu) && p.gpu == Some(row.gpu)
    requires p.ramGb == row.ramGb > 0 && p.storageGb == row.storageGb > 0
    requires p.colorGamut == row.colorGamut > 0 && p.budget > 0 && pred == p.budget as real
    ensures Score(row, pred, p, ws) == WeightSum(ws)
  {
  }

  /** trend: half the budget closeness plus half a random draw from [0.3, 0.9]. */
  function Trend(pred: real, budget: int, draw: real): (t: real)
    ensures 0.5 * draw <= t <= 0.5 * draw + 0.5
  {
    0.5 * RelScore(pred, budget) + 0.5 * draw
  }

  /** A trend lies in [0.15, 0.95], so the form's progress bar shows it unclamped. */
  lemma TrendWithinBar(pred: real, budget: int, draw: real)
    requires 0.3 <= draw <= 0.9
    ensures 0.15 <= Trend(pred, budget, draw) <= 0.95
    ensures RecommendationForm.TrendProgress(Trend(pred, budget, draw)) == Trend(pred, budget, draw) * 100.0
  {
  }

  // ---------------------------------------------------------------------
  // Signature and id
  // ---------------------------------------------------------------------

  /** The stored name when it is not blank, else "brand cpu"; stripped either way. */
  function ServerSafeName(row: Laptop): (s: string)
    ensures Strip(s) == s
  {
    var raw := if Strip(row.name) != "" then row.name else row.brand + " " + row.cpu;
    StripByIdempotent(raw, PyWhitespace);
    Strip(raw)
  }

  /** name|gpu|ram|storage|round(price). */
  function ServerSignature(row: Laptop): (s: string)
    ensures LastField(s, '|') == IntToString(PyRound(row.price))
  {
    RecommendationForm.IntToStringHasNoSeparator(PyRound(row.price));
    JoinLastField([ServerSafeName(row), row.gpu, IntToString(row.ramGb), IntToString(row.storageGb),
                   IntToString(PyRound(row.price))], '|');
    Join([ServerSafeName(row), row.gpu, IntToString(row.ramGb), IntToString(row.storageGb),
          IntToString(PyRound(row.price))], '|')
  }

  /** `abs(hash(sig))`, the hash being an opaque function of the signature. */
  function IdOf(row: Laptop, hash: string -> int): (id: nat)
    ensures id == hash(ServerSignature(row)) || id == -hash(ServerSignature(row))
  {
    var h := hash(ServerSignature(row));
    if h < 0 then -h else h
  }

  /** Rows with the same signature get the same id. */
  lemma SameSignatureSameId(a: Laptop, b: Laptop, hash: string -> int)
    requires ServerSignature(a) == ServerSignature(b)
    ensures IdOf(a, hash) == IdOf(b, hash)
  {
  }

  // ---------------------------------------------------------------------
  // Ranking
  // ---------------------------------------------------------------------

  /** The record built for one row. */
  function Candidate(row: Laptop, pred: real, draw: real, p: Prefs, ws: map<string, real>,
                     hash: string -> int): Recommendation
  {
    Recommendation(IdOf(row, hash), ServerSafeName(row), row.brand, row.cpu, row.ramGb,
                   row.storageGb, row.gpu, row.colorGamut, row.price,
                   Trend(pred, p.budget, draw), pred, Score(row, pred, p, ws))
  }

  /** The model's prediction for row `i`, or its listed price when prediction failed. */
  function PredictionAt(table: seq<Laptop>, predictions: Option<seq<real>>, i: nat): real
    requires i < |table|
    requires predictions.Some? ==> |predictions.value| == |table|
  {
    if predictions.Some? then predictions.value[i] else table[i].price
  }

  /** The record built for row `i`. */
  function CandidateAt(table: seq<Laptop>, predictions: Option<seq<real>>, draws: seq<real>,
                       p: Prefs, ws: map<string, real>, hash: string -> int, i: nat): Recommendation
    requires predictions.Some? ==> |predictions.value| == |table|
    requires |draws| == |table| && i < |table|
  {
    Candidate(table[i], PredictionAt(table, predictions, i), draws[i], p, ws, hash)
  }

  /** The records of the first `n` rows, in table order. */
  function CandidatesUpTo(table: seq<Laptop>, predictions: Option<seq<real>>, draws: seq<real>,
                          p: Prefs, ws: map<string, real>, hash: string -> int, n: nat): (cs: seq<Recommendation>)
    requires predictions.Some? ==> |predictions.value| == |table|
    requires |draws| == |table| && n <= |table|
    ensures |cs| == n
  {
    if n == 0 then []
    else CandidatesUpTo(table, predictions, draws, p, ws, hash, n - 1)
         + [CandidateAt(table, predictions, draws, p, ws, hash, n - 1)]
  }

  /** Every row's record, in table order. */
  function Candidates(table: seq<Laptop>, predictions: Option<seq<real>>, draws: seq<real>,
                      p: Prefs, ws: map<string, real>, hash: string -> int): seq<Recommendation>
    requires predictions.Some? ==> |predictions.value| == |table|
    requires |draws| == |table|
  {
    CandidatesUpTo(table, predictions, draws, p, ws, hash, |table|)
  }

  predicate ByScoreDescending(s: seq<Recommendation>)
  {
    forall i, j :: 0 <= i < j < |s| ==> s[i].score >= s[j].score
  }

  function InsertByScore(x: Recommendation, s: seq<Recommendation>): seq<Recommendation>
  {
    if s == [] then [x]
    else if x.score >= s[0].score then [x] + s
    else [s[0]] + InsertByScore(x, s[1..])
  }

  /** Putting an element in front of a sorted list that it may precede keeps it sorted. */
  lemma ByScoreDescendingCons(x: Recommendation, s: seq<Recommendation>)
    requires ByScoreDescending(s) && (s == [] || x.score >= s[0].score)
    ensures ByScoreDescending([x] + s)
  {
    var r := [x] + s;
    forall i, j | 0 <= i < j < |r| ensures r[i].score >= r[j].score {
      assert r[j] == s[j - 1];
      if i > 0 { assert r[i] == s[i - 1]; }
    }
  }

  /** Inserting adds exactly the one element. */
  lemma {:induction false} InsertByScorePermutes(x: Recommendation, s: seq<Recommendation>)
    ensures |InsertByScore(x, s)| == |s| + 1
    ensures multiset(InsertByScore(x, s)) == multiset(s) + multiset{x}
  {
    if s != [] && !(x.score >= s[0].score) {
      InsertByScorePermutes(x, s[1..]);
      assert s == [s[0]] + s[1..];
    }
  }

  /** Inserting into a sorted list keeps it sorted; the new head is `x` or the old head. */
  lemma {:induction false} InsertByScoreSorted(x: Recommendation, s: seq<Recommendation>)
    requires ByScoreDescending(s)
    ensures ByScoreDescending(InsertByScore(x, s))
    ensures InsertByScore(x, s)[0] == x || (s != [] && InsertByScore(x, s)[0] == s[0])
  {
    if s == [] {
    } else if x.score >= s[0].score {
      ByScoreDescendingCons(x, s);
    } else {
      var tail := s[1..];
      assert ByScoreDescending(tail) by {
        forall i, j | 0 <= i < j < |tail| ensures tail[i].score >= tail[j].score {
          assert tail[i] == s[i + 1] && tail[j] == s[j + 1];
        }
      }
      InsertByScoreSorted(x, tail);
      InsertByScorePermutes(x, tail);
      var rest := InsertByScore(x, tail);
      assert s[0].score >= rest[0].score by {
        if rest[0] != x { assert rest[0] == s[1]; }
      }
      ByScoreDescendingCons(s[0], rest);
    }
  }

  /** `results.sort(key=score, reverse=True)`: the records by descending score, by insertion. */
  function SortByScore(s: seq<Recommendation>): seq<Recommendation>
  {
    if s == [] then [] else InsertByScore(s[0], SortByScore(s[1..]))
  }

  /** Sorting keeps every one of the records, as often as it occurs. */
  lemma {:induction false} SortByScorePermutes(s: seq<Recommendation>)
    ensures |SortByScore(s)| == |s|
    ensures multiset(SortByScore(s)) == multiset(s)
  {
    if s != [] {
      SortByScorePermutes(s[1..]);
      InsertByScorePermutes(s[0], SortByScore(s[1..]));
      assert s == [s[0]] + s[1..];
      assert multiset(s) == multiset(s[1..]) + multiset{s[0]};
    }
  }

  /** Sorting puts the records in order. */
  lemma {:induction false} SortByScoreOrdered(s: seq<Recommendation>)
    ensures ByScoreDescending(SortByScore(s))
  {
    if s != [] {
      SortByScoreOrdered(s[1..]);
      InsertByScoreSorted(s[0], SortByScore(s[1..]));
    }
  }

  /** Sorting yields a descending permutation of the records. */
  lemma SortByScoreSorts(s: seq<Recommendation>)
    ensures |SortByScore(s)| == |s|
    ensures ByScoreDescending(SortByScore(s))
    ensures multiset(SortByScore(s)) == multiset(s)
  {
    SortByScorePermutes(s);
    SortByScoreOrdered(s);
  }


  /** The loop that builds one record per row, in table order. */
  method ScoreRows(table: seq<Laptop>, predictions: Option<seq<real>>, draws: seq<real>,
                   p: Prefs, ws: map<string, real>, hash: string -> int) returns (results: seq<Recommendation>)
    requires predictions.Some? ==> |predictions.value| == |table|
    requires |draws| == |table|
    ensures results == Candidates(table, predictions, draws, p, ws, hash)
  {
    results := [];
    for i := 0 to |table|
      invariant results == CandidatesUpTo(table, predictions, draws, p, ws, hash, i)
    {
      results := results + [CandidateAt(table, predictions, draws, p, ws, hash, i)];
    }
  }

  /** recommend: score every row, sort by descending score, keep the first ten. The model's
      predictions (None when predicting failed), the random draws and the hash are inputs. */
  method Recommend(table: seq<Laptop>, req: RecommendRequest, predictions: Option<seq<real>>,
                   draws: seq<real>, hash: string -> int) returns (top: seq<Recommendation>)
    requires predictions.Some? ==> |predictions.value| == |table|
    requires |draws| == |table|
    ensures |top| == if |table| < 10 then |table| else 10
    ensures ByScoreDescending(top)
    ensures multiset(top) <= multiset(Candidates(table, predictions, draws, PrefsOf(req), WeightsOf(req), hash))
    ensures forall c, k ::
              (c in multiset(Candidates(table, predictions, draws, PrefsOf(req), WeightsOf(req), hash)) - multiset(top)
               && 0 <= k < |top|) ==> c.score <= top[k].score
  {
    var results := ScoreRows(table, predictions, draws, PrefsOf(req), WeightsOf(req), hash);
    var m := if |results| < 10 then |results| else 10;
    TopOfRanked(results, m);
    var ranked := SortByScore(results);
    top := ranked[..m];
  }

  /** The first `m` records after sorting are in descending order, are drawn from the
      records, and score at least as high as every record left out. */
  lemma TopOfRanked(cs: seq<Recommendation>, m: nat)
    requires m <= |cs|
    ensures |SortByScore(cs)| == |cs|
    ensures ByScoreDescending(SortByScore(cs)[..m])
    ensures multiset(SortByScore(cs)[..m]) <= multiset(cs)
    ensures forall c, k :: (c in multiset(cs) - multiset(SortByScore(cs)[..m]) && 0 <= k < m) ==>
              c.score <= SortByScore(cs)[..m][k].score
  {
    var ranked := SortByScore(cs);
    SortByScoreSorts(cs);
    TopDominatesRest(ranked, m);
    assert forall k :: 0 <= k < m ==> ranked[..m][k] == ranked[k];
  }

  /** In a descending sequence, whatever is cut off after the first `m` scores no higher
      than anything kept. */
  lemma TopDominatesRest(s: seq<Recommendation>, m: nat)
    requires ByScoreDescending(s) && m <= |s|
    ensures multiset(s[..m]) <= multiset(s)
    ensures forall c, k :: (c in multiset(s) - multiset(s[..m]) && 0 <= k < m) ==> c.score <= s[k].score
  {
    assert s == s[..m] + s[m..];
    assert multiset(s) == multiset(s[..m]) + multiset(s[m..]);
    forall c, k | c in multiset(s) - multiset(s[..m]) && 0 <= k < m ensures c.score <= s[k].score {
      assert c in multiset(s[m..]);
      var j :| 0 <= j < |s[m..]| && s[m..][j] == c;
      assert s[m + j] == c;
    }
  }
}
