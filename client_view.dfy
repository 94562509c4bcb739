/**
 * What the recommendation form receives from the backend's ranking, and
 * whether the display keys it renders for those records are distinct. The
 * server's id is a hash of a signature that rounds the price with Python's
 * round(); the form deduplicates by a signature that rounds with Math.round
 * and keys a record with an id by that id alone.
 */
module ClientView {
  import opened Wrappers
  import opened Text
  import opened Numbers
  import opened LaptopTable
  import opened RecommendationForm
  import Ranking

  /** A recommendation as the form receives it: the id is a JSON number and every field is present. */
  function ToClient(c: Ranking.Recommendation): LaptopRec
  {
    LaptopRec(Some(NumId(c.id)), Some(c.name), c.brand, c.cpu, Some(c.ramGb), Some(c.storageGb),
              Some(c.gpu), c.colorGamut, Some(c.price), c.trendScore, Some(c.predictedPrice))
  }

  // ---------------------------------------------------------------------
  // As written: one id, two signatures
  // ---------------------------------------------------------------------

  /** 15000000.5 is a half: Python's round() takes it to the even 15000000, Math.round up to
      15000001; 15000000.0 is 15000000 for both. */
  lemma HalfRoundsApart()
    ensures PyRound(15000000.5) == 15000000 && PyRound(15000000.0) == 15000000
    ensures JsRound(15000000.5) == 15000001 && JsRound(15000000.0) == 15000000
  {
    assert (15000000.5).Floor == 15000000;
    assert (15000001.0).Floor == 15000001;
  }

  /** Rows that differ only in prices Python rounds alike get the same id from the server. */
  lemma SamePyRoundSameId(a: Laptop, b: Laptop, hash: string -> int)
    requires b == a.(price := b.price) && PyRound(a.price) == PyRound(b.price)
    ensures Ranking.IdOf(a, hash) == Ranking.IdOf(b, hash)
  {
    assert Ranking.ServerSignature(a) == Ranking.ServerSignature(b);
  }

  /** Records whose prices Math.round differently have different signatures in the form. */
  lemma RoundedPricesSeparateSignatures(r1: LaptopRec, r2: LaptopRec)
    requires r1.price.Some? && r2.price.Some? && JsRound(r1.price.value) != JsRound(r2.price.value)
    ensures Signature(r1) != Signature(r2)
  {
    IntToStringDistinct(JsRound(r1.price.value), JsRound(r2.price.value));
  }

  /** The form sees a candidate's id as a number and its price as the row's price. */
  lemma ClientIdAndPrice(row: Laptop, pred: real, draw: real, p: Ranking.Prefs,
                         ws: map<string, real>, hash: string -> int)
    ensures var c := ToClient(Ranking.Candidate(row, pred, draw, p, ws, hash));
      c.id == Some(NumId(Ranking.IdOf(row, hash))) && c.price == Some(row.price)
  {
  }

  /** Two records with one id whose prices Math.round apart both survive deduplication and
      are rendered under one key. */
  lemma OneIdTwoSignaturesClash(ca: LaptopRec, cb: LaptopRec)
    requires ca.id.Some? && ca.id == cb.id
    requires ca.price.Some? && cb.price.Some? && JsRound(ca.price.value) != JsRound(cb.price.value)
    ensures Deduped([ca, cb], Signature) == [ca, cb] && Keys([ca, cb])[0] == Keys([ca, cb])[1]
  {
    var rs := [ca, cb];
    assert DistinctSignatures(rs, Signature) by {
      RoundedPricesSeparateSignatures(ca, cb);
    }
    assert Deduped(rs, Signature) == rs by {
      DedupedKeepsDistinct(rs, Signature);
    }
    assert Keys(rs)[0] == Keys(rs)[1] by {
      assert Keys(rs)[0] == MakeKey(ca, 0) && Keys(rs)[1] == MakeKey(cb, 1);
    }
  }

  /** As written: two rows that differ only in a price of 15000000.5 against 15000000.0 get one
      id from the server but two signatures in the form. Deduplication keeps both records, and
      both are rendered under the same key. */
  lemma SameIdDistinctSignatures(a: Laptop, predA: real, predB: real, drawA: real, drawB: real,
                                 p: Ranking.Prefs, ws: map<string, real>, hash: string -> int)
    requires a.price == 15000000.5
    ensures var b := a.(price := 15000000.0);
      var rs := [ToClient(Ranking.Candidate(a, predA, drawA, p, ws, hash)),
                 ToClient(Ranking.Candidate(b, predB, drawB, p, ws, hash))];
      Deduped(rs, Signature) == rs && Keys(rs)[0] == Keys(rs)[1]
  {
    var b := a.(price := 15000000.0);
    HalfRoundsApart();
    SamePyRoundSameId(a, b, hash);
    ClientIdAndPrice(a, predA, drawA, p, ws, hash);
    ClientIdAndPrice(b, predB, drawB, p, ws, hash);
    OneIdTwoSignaturesClash(ToClient(Ranking.Candidate(a, predA, drawA, p, ws, hash)),
                            ToClient(Ranking.Candidate(b, predB, drawB, p, ws, hash)));
  }

  // ---------------------------------------------------------------------
  // Corrected: the server rounds as the form does
  // ---------------------------------------------------------------------

  /** `abs(hash(sig))`. */
  function IdFromSignature(sig: string, hash: string -> int): nat
  {
    var h := hash(sig);
    if h < 0 then -h else h
  }

  /** Different signatures get different ids. */
  ghost predicate IdsInjective(hash: string -> int)
  {
    forall s, t :: IdFromSignature(s, hash) == IdFromSignature(t, hash) ==> s == t
  }

  /** The server's signature with the price rounded as the form rounds it. */
  function ServerSignatureJs(row: Laptop): string
  {
    Join([Ranking.ServerSafeName(row), row.gpu, IntToString(row.ramGb), IntToString(row.storageGb),
          IntToString(JsRound(row.price))], Sep)
  }

  /** The record the corrected server builds for a row: its id hashes the corrected signature. */
  function CorrectedCandidate(row: Laptop, pred: real, draw: real, p: Ranking.Prefs,
                              ws: map<string, real>, hash: string -> int): Ranking.Recommendation
  {
    Ranking.Candidate(row, pred, draw, p, ws, hash).(id := IdFromSignature(ServerSignatureJs(row), hash))
  }

  /** A row whose resolved name and GPU hold no '|' and whose resolved name is not blank. */
  predicate PlainRow(row: Laptop)
  {
    Sep !in Ranking.ServerSafeName(row) && Sep !in row.gpu && Trim(Ranking.ServerSafeName(row)) != ""
  }

  /** Equal corrected signatures of two plain rows come from equal resolved names, GPUs,
      RAM and storage sizes and rounded prices. */
  lemma JsSignatureDeterminesFields(a: Laptop, b: Laptop)
    requires PlainRow(a) && PlainRow(b) && ServerSignatureJs(a) == ServerSignatureJs(b)
    ensures Ranking.ServerSafeName(a) == Ranking.ServerSafeName(b) && a.gpu == b.gpu
    ensures a.ramGb == b.ramGb && a.storageGb == b.storageGb && JsRound(a.price) == JsRound(b.price)
  {
    var fa := [Ranking.ServerSafeName(a), a.gpu, IntToString(a.ramGb), IntToString(a.storageGb),
               IntToString(JsRound(a.price))];
    var fb := [Ranking.ServerSafeName(b), b.gpu, IntToString(b.ramGb), IntToString(b.storageGb),
               IntToString(JsRound(b.price))];
    IntToStringHasNoSeparator(a.ramGb);
    IntToStringHasNoSeparator(a.storageGb);
    IntToStringHasNoSeparator(JsRound(a.price));
    IntToStringHasNoSeparator(b.ramGb);
    IntToStringHasNoSeparator(b.storageGb);
    IntToStringHasNoSeparator(JsRound(b.price));
    JoinInjective(fa, fb, Sep);
    assert fa[2] == fb[2] && fa[3] == fb[3] && fa[4] == fb[4];
    if a.ramGb != b.ramGb { IntToStringDistinct(a.ramGb, b.ramGb); }
    if a.storageGb != b.storageGb { IntToStringDistinct(a.storageGb, b.storageGb); }
    if JsRound(a.price) != JsRound(b.price) { IntToStringDistinct(JsRound(a.price), JsRound(b.price)); }
  }

  /** The form sees a corrected candidate's id as a number and its signature fields as the row's. */
  lemma CorrectedClientFields(row: Laptop, pred: real, draw: real, p: Ranking.Prefs,
                              ws: map<string, real>, hash: string -> int)
    ensures var c := ToClient(CorrectedCandidate(row, pred, draw, p, ws, hash));
      c.id == Some(NumId(IdFromSignature(ServerSignatureJs(row), hash)))
      && c.name == Some(Ranking.ServerSafeName(row)) && c.gpu == Some(row.gpu)
      && c.ramGb == Some(row.ramGb) && c.storageGb == Some(row.storageGb) && c.price == Some(row.price)
      && c.brand == row.brand && c.cpu == row.cpu
  {
  }

  /** With the corrected signature and an injective hash, two plain rows that get one id
      have one signature in the form. */
  lemma CorrectedIdFollowsSignature(a: Laptop, predA: real, drawA: real, b: Laptop, predB: real, drawB: real,
                                    p: Ranking.Prefs, ws: map<string, real>, hash: string -> int)
    requires IdsInjective(hash) && PlainRow(a) && PlainRow(b)
    requires CorrectedCandidate(a, predA, drawA, p, ws, hash).id == CorrectedCandidate(b, predB, drawB, p, ws, hash).id
    ensures Signature(ToClient(CorrectedCandidate(a, predA, drawA, p, ws, hash)))
         == Signature(ToClient(CorrectedCandidate(b, predB, drawB, p, ws, hash)))
  {
    var ra := ToClient(CorrectedCandidate(a, predA, drawA, p, ws, hash));
    var rb := ToClient(CorrectedCandidate(b, predB, drawB, p, ws, hash));
    CorrectedClientFields(a, predA, drawA, p, ws, hash);
    CorrectedClientFields(b, predB, drawB, p, ws, hash);
    assert ServerSignatureJs(a) == ServerSignatureJs(b);
    JsSignatureDeterminesFields(a, b);
    assert SignatureFields(ra) == SignatureFields(rb);
  }

  /** In the form: when records carrying one id always carry one signature, and no id holds
      a '|', the keys of the deduplicated list are pairwise distinct. */
  lemma DedupedKeysDistinct(rs: seq<LaptopRec>)
    requires forall i :: 0 <= i < |rs| && rs[i].id.Some? ==> Sep !in IdText(rs[i].id.value)
    requires forall i, j ::
               (0 <= i < |rs| && 0 <= j < |rs| && rs[i].id.Some? && rs[j].id.Some?
                && IdText(rs[i].id.value) == IdText(rs[j].id.value))
               ==> Signature(rs[i]) == Signature(rs[j])
    ensures var d := Deduped(rs, Signature);
      forall i, j :: 0 <= i < j < |d| ==> Keys(d)[i] != Keys(d)[j]
  {
    var d := Deduped(rs, Signature);
    var ix := FirstOccurrences(rs, Signature);
    DedupedSelectsFirstOccurrences(rs, Signature);
    DedupedDistinct(rs, Signature);
    forall i | 0 <= i < |d| && d[i].id.Some? ensures Sep !in IdText(d[i].id.value) {
      assert d[i] == rs[ix[i]];
    }
    forall i, j | 0 <= i < j < |d| && d[i].id.Some? && d[j].id.Some?
      ensures IdText(d[i].id.value) != IdText(d[j].id.value)
    {
      assert d[i] == rs[ix[i]] && d[j] == rs[ix[j]];
      assert Signature(d[i]) != Signature(d[j]);
    }
    KeysDistinct(d);
  }

  /** Decimal forms of naturals are equal only for equal numbers. */
  lemma NatTextInjective(m: nat, n: nat)
    requires IntToString(m) == IntToString(n)
    ensures m == n
  {
    if m != n { IntToStringDistinct(m, n); }
  }

  /** The id-text form of the previous lemma: two plain rows whose corrected records show
      one id text have one signature in the form. */
  lemma CorrectedIdTextFollowsSignature(a: Laptop, predA: real, drawA: real, b: Laptop, predB: real,
                                        drawB: real, p: Ranking.Prefs, ws: map<string, real>,
                                        hash: string -> int)
    requires IdsInjective(hash) && PlainRow(a) && PlainRow(b)
    requires var ra := ToClient(CorrectedCandidate(a, predA, drawA, p, ws, hash));
      var rb := ToClient(CorrectedCandidate(b, predB, drawB, p, ws, hash));
      ra.id.Some? && rb.id.Some? && IdText(ra.id.value) == IdText(rb.id.value)
    ensures Signature(ToClient(CorrectedCandidate(a, predA, drawA, p, ws, hash)))
         == Signature(ToClient(CorrectedCandidate(b, predB, drawB, p, ws, hash)))
  {
    CorrectedClientFields(a, predA, drawA, p, ws, hash);
    CorrectedClientFields(b, predB, drawB, p, ws, hash);
    NatTextInjective(IdFromSignature(ServerSignatureJs(a), hash), IdFromSignature(ServerSignatureJs(b), hash));
    CorrectedIdFollowsSignature(a, predA, drawA, b, predB, drawB, p, ws, hash);
  }

  /** The records the form receives from the corrected server, row by row. */
  function CorrectedRecords(rows: seq<Laptop>, preds: seq<real>, draws: seq<real>,
                            p: Ranking.Prefs, ws: map<string, real>, hash: string -> int): seq<LaptopRec>
    requires |preds| == |rows| && |draws| == |rows|
  {
    seq(|rows|, i requires 0 <= i < |rows| => ToClient(CorrectedCandidate(rows[i], preds[i], draws[i], p, ws, hash)))
  }

  /** Corrected: when the server rounds as the form does, the hash is injective and every row
      is plain, the keys the form renders for the deduplicated records are pairwise distinct. */
  lemma CorrectedKeysDistinct(rows: seq<Laptop>, preds: seq<real>, draws: seq<real>,
                              p: Ranking.Prefs, ws: map<string, real>, hash: string -> int)
    requires |preds| == |rows| && |draws| == |rows|
    requires IdsInjective(hash)
    requires forall i :: 0 <= i < |rows| ==> PlainRow(rows[i])
    ensures var d := Deduped(CorrectedRecords(rows, preds, draws, p, ws, hash), Signature);
      forall i, j :: 0 <= i < j < |d| ==> Keys(d)[i] != Keys(d)[j]
  {
    var rs := CorrectedRecords(rows, preds, draws, p, ws, hash);
    forall i | 0 <= i < |rs| && rs[i].id.Some? ensures Sep !in IdText(rs[i].id.value) {
      IntToStringHasNoSeparator(rs[i].id.value.num);
    }
    forall i, j | 0 <= i < |rs| && 0 <= j < |rs| && rs[i].id.Some? && rs[j].id.Some?
                  && IdText(rs[i].id.value) == IdText(rs[j].id.value)
      ensures Signature(rs[i]) == Signature(rs[j])
    {
      assert rs[i] == ToClient(CorrectedCandidate(rows[i], preds[i], draws[i], p, ws, hash));
      assert rs[j] == ToClient(CorrectedCandidate(rows[j], preds[j], draws[j], p, ws, hash));
      CorrectedIdTextFollowsSignature(rows[i], preds[i], draws[i], rows[j], preds[j], draws[j], p, ws, hash);
    }
    DedupedKeysDistinct(rs);
  }
}
