/**
 * How the recommendation form shapes the candidate list the backend returns:
 * the identity signature of a record, the order-preserving first-occurrence
 * deduplicator, the display key of each rendered record, the trend progress
 * value and the weight profile sent with every request.
 */
module RecommendationForm {
  import opened Wrappers
  import opened Text
  import opened Numbers

  /** A record identifier as the server sends it: a string or a whole number. */
  datatype RecId = TextId(text: string) | NumId(num: int)

  /** One candidate laptop as received. A field that is absent, null or (for the
      price) not a number is None. */
  datatype LaptopRec = LaptopRec(
    id: Option<RecId>,
    name: Option<string>,
    brand: string,
    cpu: string,
    ramGb: Option<int>,
    storageGb: Option<int>,
    gpu: Option<string>,
    colorGamut: int,
    price: Option<real>,
    trendScore: real,
    predictedPrice: Option<real>)

  /** The separator between the fields of a signature or a key. */
  const Sep: char := '|'

  // ---------------------------------------------------------------------
  // Weight profile
  // ---------------------------------------------------------------------

  /** The weights the form attaches to every recommendation request. */
  const ClientWeights: map<string, real> :=
    map["brand" := 0.04, "cpu" := 0.3, "ram" := 0.22, "storage" := 0.1,
        "gpu" := 0.2, "color_gamut" := 0.08, "price" := 0.06]

  /** Seven named criteria, none negative, summing to one. */
  lemma ClientWeightsWellFormed()
    ensures ClientWeights.Keys == {"brand", "cpu", "ram", "storage", "gpu", "color_gamut", "price"}
    ensures forall k :: k in ClientWeights ==> ClientWeights[k] >= 0.0
    ensures ClientWeights["brand"] + ClientWeights["cpu"] + ClientWeights["ram"]
          + ClientWeights["storage"] + ClientWeights["gpu"] + ClientWeights["color_gamut"]
          + ClientWeights["price"] == 1.0
  {
  }

  // ---------------------------------------------------------------------
  // Signature
  // ---------------------------------------------------------------------

  /** The trimmed name when it is not blank, else "brand cpu" trimmed as a whole. */
  function SafeName(r: LaptopRec): (s: string)
    ensures Trim(s) == s
  {
    var raw := if r.name.Some? && Trim(r.name.value) != "" then r.name.value else r.brand + " " + r.cpu;
    StripByIdempotent(raw, JsWhitespace);
    Trim(raw)
  }

  /** The trimmed GPU, or "" when there is none. */
  function GpuField(r: LaptopRec): string
  {
    match r.gpu
    case Some(g) => Trim(g)
    case None => ""
  }

  /** `String(x ?? "")` for a numeric field. */
  function OptIntField(x: Option<int>): string
  {
    match x
    case Some(n) => IntToString(n)
    case None => ""
  }

  /** `String(Math.round(Number(price) || 0))`: a missing or NaN price counts as 0. */
  function PriceField(r: LaptopRec): string
  {
    IntToString(JsRound(r.price.GetOr(0.0)))
  }

  function SignatureFields(r: LaptopRec): seq<string>
  {
    [SafeName(r), GpuField(r), OptIntField(r.ramGb), OptIntField(r.storageGb), PriceField(r)]
  }

  /** The identity of a candidate: name, GPU, RAM, storage and rounded price joined by '|'. */
  function Signature(r: LaptopRec): (s: string)
    ensures LastField(s, Sep) == PriceField(r)
  {
    IntToStringHasNoSeparator(JsRound(r.price.GetOr(0.0)));
    JoinLastField(SignatureFields(r), Sep);
    Join(SignatureFields(r), Sep)
  }

  lemma IntToStringHasNoSeparator(i: int)
    ensures Sep !in IntToString(i)
  {
    var s := IntToString(i);
    assert forall k :: 0 <= k < |s| ==> s[k] != Sep;
  }

  lemma NatToStringHasNoSeparator(n: nat)
    ensures Sep !in NatToString(n)
  {
    var s := NatToString(n);
    assert forall k :: 0 <= k < |s| ==> s[k] != Sep;
  }

  /** No resolved field other than the name and the GPU can hold a '|'. */
  lemma SignatureFieldsSeparatorFree(r: LaptopRec)
    requires Sep !in SafeName(r) && Sep !in GpuField(r)
    ensures forall i :: 0 <= i < |SignatureFields(r)| ==> Sep !in SignatureFields(r)[i]
  {
    if r.ramGb.Some? { IntToStringHasNoSeparator(r.ramGb.value); }
    if r.storageGb.Some? { IntToStringHasNoSeparator(r.storageGb.value); }
    IntToStringHasNoSeparator(JsRound(r.price.GetOr(0.0)));
  }

  /** The signature ignores the identifier, the trend, the predicted price and the gamut. */
  lemma SignatureIgnoresOtherFields(r: LaptopRec, id: Option<RecId>, trend: real, predicted: Option<real>, gamut: int)
    ensures Signature(r.(id := id, trendScore := trend, predictedPrice := predicted, colorGamut := gamut)) == Signature(r)
  {
  }

  /** Prices that round to the same integer give the same signature. */
  lemma SignatureSeesOnlyRoundedPrice(r: LaptopRec, p: real, q: real)
    requires JsRound(p) == JsRound(q)
    ensures Signature(r.(price := Some(p))) == Signature(r.(price := Some(q)))
  {
  }

  /** When neither name nor GPU holds a '|', equal signatures mean equal resolved fields. */
  lemma SignatureDeterminesFields(r1: LaptopRec, r2: LaptopRec)
    requires Sep !in SafeName(r1) && Sep !in GpuField(r1)
    requires Sep !in SafeName(r2) && Sep !in GpuField(r2)
    ensures Signature(r1) == Signature(r2) <==> SignatureFields(r1) == SignatureFields(r2)
  {
    if Signature(r1) == Signature(r2) {
      SignatureFieldsSeparatorFree(r1);
      SignatureFieldsSeparatorFree(r2);
      JoinInjective(SignatureFields(r1), SignatureFields(r2), Sep);
    }
  }

  // ---------------------------------------------------------------------
  // Deduplication
  //
  // The definitions and lemmas below take the signature function as a
  // parameter `sig`; the form applies them to Signature.
  // ---------------------------------------------------------------------

  /** The signatures occurring in `s`. */
  function Sigs(s: seq<LaptopRec>, sig: LaptopRec -> string): set<string>
  {
    set i | 0 <= i < |s| :: sig(s[i])
  }

  /** No two records of `s` share a signature. */
  predicate DistinctSignatures(s: seq<LaptopRec>, sig: LaptopRec -> string)
  {
    forall i, j :: 0 <= i < j < |s| ==> sig(s[i]) != sig(s[j])
  }

  /** `s[i]` is the first record of `s` with its signature. */
  predicate IsFirstOccurrence(s: seq<LaptopRec>, i: nat, sig: LaptopRec -> string)
    requires i < |s|
  {
    forall j :: 0 <= j < i ==> sig(s[j]) != sig(s[i])
  }

  /** The deduplicated list: each record kept when its signature has not been kept before. */
  function Deduped(rs: seq<LaptopRec>, sig: LaptopRec -> string): seq<LaptopRec>
  {
    if rs == [] then []
    else
      var kept := Deduped(rs[..|rs| - 1], sig);
      var r := rs[|rs| - 1];
      if sig(r) in Sigs(kept, sig) then kept else kept + [r]
  }

  lemma SigsSnoc(s: seq<LaptopRec>, r: LaptopRec, sig: LaptopRec -> string)
    ensures Sigs(s + [r], sig) == Sigs(s, sig) + {sig(r)}
  {
    var t := s + [r];
    forall x | x in Sigs(t, sig) ensures x in Sigs(s, sig) + {sig(r)} {
      var i :| 0 <= i < |t| && sig(t[i]) == x;
      if i < |s| { assert t[i] == s[i]; }
    }
    forall x | x in Sigs(s, sig) + {sig(r)} ensures x in Sigs(t, sig) {
      if x == sig(r) {
        assert t[|s|] == r;
      } else {
        var i :| 0 <= i < |s| && sig(s[i]) == x;
        assert t[i] == s[i];
      }
    }
  }

  /** The output is never longer than the input. */
  lemma {:induction false} DedupedNoLonger(rs: seq<LaptopRec>, sig: LaptopRec -> string)
    ensures |Deduped(rs, sig)| <= |rs|
  {
    if rs != [] {
      DedupedNoLonger(rs[..|rs| - 1], sig);
    }
  }

  /** No two kept records share a signature. */
  lemma {:induction false} DedupedDistinct(rs: seq<LaptopRec>, sig: LaptopRec -> string)
    ensures DistinctSignatures(Deduped(rs, sig), sig)
  {
    if rs != [] {
      var kept := Deduped(rs[..|rs| - 1], sig);
      var r := rs[|rs| - 1];
      DedupedDistinct(rs[..|rs| - 1], sig);
      if sig(r) !in Sigs(kept, sig) {
        var out := kept + [r];
        forall i, j | 0 <= i < j < |out| ensures sig(out[i]) != sig(out[j]) {
          if j == |kept| {
            assert sig(out[i]) in Sigs(kept, sig) by { assert out[i] == kept[i]; }
          }
        }
      }
    }
  }

  /** Every signature of the input survives, and no other. */
  lemma {:induction false} DedupedKeepsEverySignature(rs: seq<LaptopRec>, sig: LaptopRec -> string)
    ensures Sigs(Deduped(rs, sig), sig) == Sigs(rs, sig)
  {
    if rs != [] {
      var init := rs[..|rs| - 1];
      var kept := Deduped(init, sig);
      var r := rs[|rs| - 1];
      DedupedKeepsEverySignature(init, sig);
      assert rs == init + [r];
      SigsSnoc(init, r, sig);
      if sig(r) !in Sigs(kept, sig) {
        SigsSnoc(kept, r, sig);
      }
    }
  }

  /** Whether `s[i]` is a first occurrence does not depend on what follows it. */
  lemma FirstOccurrenceInPrefix(s: seq<LaptopRec>, n: nat, sig: LaptopRec -> string)
    requires n <= |s|
    ensures forall i :: 0 <= i < n ==> (IsFirstOccurrence(s[..n], i, sig) <==> IsFirstOccurrence(s, i, sig))
  {
    forall i | 0 <= i < n ensures IsFirstOccurrence(s[..n], i, sig) <==> IsFirstOccurrence(s, i, sig) {
      assert forall j :: 0 <= j <= i ==> s[..n][j] == s[j];
    }
  }

  /** The positions of the first occurrences of each signature, in increasing order. */
  function FirstOccurrences(rs: seq<LaptopRec>, sig: LaptopRec -> string): (ix: seq<nat>)
    ensures forall k :: 0 <= k < |ix| ==> ix[k] < |rs|
    ensures forall k, l :: 0 <= k < l < |ix| ==> ix[k] < ix[l]
  {
    if rs == [] then []
    else
      var n := |rs| - 1;
      var prev := FirstOccurrences(rs[..n], sig);
      if IsFirstOccurrence(rs, n, sig) then prev + [n] else prev
  }

  /** A position is listed exactly when it holds the first record with its signature. */
  lemma {:induction false} FirstOccurrencesComplete(rs: seq<LaptopRec>, sig: LaptopRec -> string)
    ensures forall i :: 0 <= i < |rs| ==> (i in FirstOccurrences(rs, sig) <==> IsFirstOccurrence(rs, i, sig))
  {
    if rs != [] {
      var n := |rs| - 1;
      var prev := FirstOccurrences(rs[..n], sig);
      FirstOccurrencesComplete(rs[..n], sig);
      FirstOccurrenceInPrefix(rs, n, sig);
      assert n !in prev;
    }
  }

  /** The last record is a first occurrence exactly when its signature is new. */
  lemma LastIsFirstOccurrence(rs: seq<LaptopRec>, sig: LaptopRec -> string)
    requires rs != []
    ensures IsFirstOccurrence(rs, |rs| - 1, sig) <==> sig(rs[|rs| - 1]) !in Sigs(rs[..|rs| - 1], sig)
  {
    var n := |rs| - 1;
    if sig(rs[n]) in Sigs(rs[..n], sig) {
      var j :| 0 <= j < n && sig(rs[..n][j]) == sig(rs[n]);
      assert rs[..n][j] == rs[j];
    } else {
      forall j | 0 <= j < n ensures sig(rs[j]) != sig(rs[n]) {
        assert rs[..n][j] == rs[j];
      }
    }
  }

  /** The output is the input's first occurrences, in input order: a subsequence that keeps
      the first record of each signature and drops every later one, whatever its id or trend. */
  lemma {:induction false} DedupedSelectsFirstOccurrences(rs: seq<LaptopRec>, sig: LaptopRec -> string)
    ensures |Deduped(rs, sig)| == |FirstOccurrences(rs, sig)|
    ensures forall k :: 0 <= k < |Deduped(rs, sig)| ==> Deduped(rs, sig)[k] == rs[FirstOccurrences(rs, sig)[k]]
  {
    if rs != [] {
      var n := |rs| - 1;
      var init := rs[..n];
      DedupedSelectsFirstOccurrences(init, sig);
      DedupedKeepsEverySignature(init, sig);
      LastIsFirstOccurrence(rs, sig);
      var kept := Deduped(init, sig);
      var prev := FirstOccurrences(init, sig);
      assert forall k :: 0 <= k < |prev| ==> rs[prev[k]] == init[prev[k]];
    }
  }

  /** A list whose signatures are already distinct is left as it is. */
  lemma {:induction false} DedupedKeepsDistinct(s: seq<LaptopRec>, sig: LaptopRec -> string)
    requires DistinctSignatures(s, sig)
    ensures Deduped(s, sig) == s
  {
    if s != [] {
      var n := |s| - 1;
      var init := s[..n];
      assert DistinctSignatures(init, sig) by {
        forall i, j | 0 <= i < j < n ensures sig(init[i]) != sig(init[j]) {
          assert init[i] == s[i] && init[j] == s[j];
        }
      }
      DedupedKeepsDistinct(init, sig);
      LastIsFirstOccurrence(s, sig);
      assert IsFirstOccurrence(s, n, sig);
      assert s == init + [s[n]];
    }
  }

  /** Deduplicating twice is deduplicating once. */
  lemma DedupedIdempotent(rs: seq<LaptopRec>, sig: LaptopRec -> string)
    ensures Deduped(Deduped(rs, sig), sig) == Deduped(rs, sig)
  {
    DedupedDistinct(rs, sig);
    DedupedKeepsDistinct(Deduped(rs, sig), sig);
  }

  /** The memoised deduplication of the current results: null stays null; otherwise one pass
      over the records with a set of the signatures seen so far. */
  method Dedup(results: Option<seq<LaptopRec>>) returns (out: Option<seq<LaptopRec>>)
    ensures results.None? <==> out.None?
    ensures results.Some? ==> out.value == Deduped(results.value, Signature)
    ensures results.Some? ==> |out.value| <= |results.value| && DistinctSignatures(out.value, Signature)
  {
    if results.None? {
      return None;
    }
    var rs := results.value;
    var seen: set<string> := {};
    var acc: seq<LaptopRec> := [];
    for i := 0 to |rs|
      invariant acc == Deduped(rs[..i], Signature)
      invariant seen == Sigs(acc, Signature)
    {
      var r := rs[i];
      assert rs[..i + 1][..i] == rs[..i];
      var sig := Signature(r);
      if sig !in seen {
        SigsSnoc(acc, r, Signature);
        seen := seen + {sig};
        acc := acc + [r];
      }
    }
    assert rs[..|rs|] == rs;
    DedupedNoLonger(rs, Signature);
    DedupedDistinct(rs, Signature);
    return Some(acc);
  }

  // ---------------------------------------------------------------------
  // Display keys
  // ---------------------------------------------------------------------

  /** `String(id)`. */
  function IdText(id: RecId): string
  {
    match id
    case TextId(t) => t
    case NumId(n) => IntToString(n)
  }

  /** The key of the record rendered at position `idx`: "rec|<id>" when it has an id,
      else "rec" and the signature fields and the position joined by '|'. */
  function MakeKey(r: LaptopRec, idx: nat): (k: string)
    ensures |k| >= 4 && k[..4] == "rec|"
  {
    if r.id.Some? then "rec|" + IdText(r.id.value)
    else
      var tail := SignatureFields(r) + [NatToString(idx)];
      assert ["rec"] + SignatureFields(r) + [NatToString(idx)] == ["rec"] + tail;
      JoinCons("rec", tail, Sep);
      Join(["rec"] + SignatureFields(r) + [NatToString(idx)], Sep)
  }

  /** The keys of a rendered list, position by position. */
  function Keys(rs: seq<LaptopRec>): (keys: seq<string>)
    ensures |keys| == |rs|
  {
    seq(|rs|, i requires 0 <= i < |rs| => MakeKey(rs[i], i))
  }

  /** With an id, the key is "rec|" and the id, wherever the record is rendered. */
  lemma KeyFromIdIgnoresPosition(r: LaptopRec, i: nat, j: nat)
    requires r.id.Some?
    ensures MakeKey(r, i) == MakeKey(r, j) == "rec|" + IdText(r.id.value)
  {
  }

  /** Without an id, the text after the key's last '|' is the position in decimal. */
  lemma KeyWithoutIdEndsWithPosition(r: LaptopRec, idx: nat)
    requires r.id.None?
    ensures LastField(MakeKey(r, idx), Sep) == NatToString(idx)
  {
    NatToStringHasNoSeparator(idx);
    var parts := ["rec"] + SignatureFields(r) + [NatToString(idx)];
    JoinLastField(parts, Sep);
  }

  /** Two records without ids rendered at different positions get different keys,
      even when every other field matches. */
  lemma KeysWithoutIdDiffer(r1: LaptopRec, i: nat, r2: LaptopRec, j: nat)
    requires r1.id.None? && r2.id.None? && i != j
    ensures MakeKey(r1, i) != MakeKey(r2, j)
  {
    KeyWithoutIdEndsWithPosition(r1, i);
    KeyWithoutIdEndsWithPosition(r2, j);
    NatToStringDistinct(i, j);
  }

  /** After "rec|", a key built from an id is the id's text. */
  lemma IdKeyAfterPrefix(r: LaptopRec, i: nat)
    requires r.id.Some?
    ensures |MakeKey(r, i)| >= 4 && MakeKey(r, i)[4..] == IdText(r.id.value)
  {
  }

  /** After "rec|", a key built without an id still holds a '|'. */
  lemma FieldKeyAfterPrefix(r: LaptopRec, j: nat)
    requires r.id.None?
    ensures |MakeKey(r, j)| >= 4 && Sep in MakeKey(r, j)[4..]
  {
    var tail := SignatureFields(r) + [NatToString(j)];
    assert ["rec"] + SignatureFields(r) + [NatToString(j)] == ["rec"] + tail;
    JoinCons("rec", tail, Sep);
    var rest := Join(tail, Sep);
    var front := Join(tail[..|tail| - 1], Sep);
    assert rest == front + [Sep] + tail[|tail| - 1];
    assert rest[|front|] == Sep;
    assert MakeKey(r, j) == "rec|" + rest;
    assert MakeKey(r, j)[4..] == rest;
  }

  /** A key built from an id holding no '|' never equals a key built without an id. */
  lemma IdKeyDiffersFromFieldKey(r1: LaptopRec, i: nat, r2: LaptopRec, j: nat)
    requires r1.id.Some? && Sep !in IdText(r1.id.value) && r2.id.None?
    ensures MakeKey(r1, i) != MakeKey(r2, j)
  {
    IdKeyAfterPrefix(r1, i);
    FieldKeyAfterPrefix(r2, j);
  }

  /** The keys of a rendered list are pairwise distinct, provided the ids present are
      pairwise distinct as text and hold no '|'. */
  lemma KeysDistinct(rs: seq<LaptopRec>)
    requires forall i :: 0 <= i < |rs| && rs[i].id.Some? ==> Sep !in IdText(rs[i].id.value)
    requires forall i, j :: 0 <= i < j < |rs| && rs[i].id.Some? && rs[j].id.Some? ==>
               IdText(rs[i].id.value) != IdText(rs[j].id.value)
    ensures forall i, j :: 0 <= i < j < |rs| ==> Keys(rs)[i] != Keys(rs)[j]
  {
    forall i, j | 0 <= i < j < |rs| ensures Keys(rs)[i] != Keys(rs)[j] {
      var a, b := rs[i], rs[j];
      if a.id.Some? && b.id.Some? {
        IdKeyAfterPrefix(a, i);
        IdKeyAfterPrefix(b, j);
      } else if a.id.Some? {
        IdKeyDiffersFromFieldKey(a, i, b, j);
      } else if b.id.Some? {
        IdKeyDiffersFromFieldKey(b, j, a, i);
      } else {
        KeysWithoutIdDiffer(a, i, b, j);
      }
    }
  }

  // ---------------------------------------------------------------------
  // Trend progress
  // ---------------------------------------------------------------------

  /** `Math.max(0, Math.min(100, trend_score * 100))`: the trend as a percentage, clamped. */
  function TrendProgress(trendScore: real): (v: real)
    ensures 0.0 <= v <= 100.0
    ensures 0.0 <= trendScore <= 1.0 ==> v == trendScore * 100.0
    ensures trendScore > 1.0 ==> v == 100.0
    ensures trendScore < 0.0 ==> v == 0.0
  {
    var scaled := trendScore * 100.0;
    var capped := if 100.0 < scaled then 100.0 else scaled;
    if 0.0 > capped then 0.0 else capped
  }
}
