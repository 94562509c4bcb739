# Laptop recommender: a verified model of its result-shaping core

The system is a laptop recommendation web application.

**Browser side.** A Next.js form sends a buyer's preferences and a fixed weight profile to a Flask service. It then shapes the returned candidates for display:
- it deduplicates them by a signature (resolved name, GPU, RAM, storage, rounded price);
- it derives a display key for each kept record;
- it clamps each record's trend to a progress-bar percentage.

**Server side.** The Flask service holds a pandas table of laptops. It:
- ranks the table's rows against the preferences (seven weighted criteria, a trend value, a hash-based id, then the top ten by score);
- serves create / read / update / delete on the table, repairing invalid ids first;
- reports the distance between two predicted prices;
- sanitises every response for JSON.

The model has eight modules:

- `Wrappers`: `Option`.
- `Text`: the two whitespace sets, which differ:
  - JavaScript's `trim` removes U+FEFF;
  - Python's `strip` removes U+001C–U+001F and U+0085.

  It also has trimming, `join`, decimal formatting and Python's `int(str)`.
- `Numbers`: JavaScript's `Math.round` (halves go up) and Python's `round` (halves go to even).
- `RecommendationForm`: the client.
  - `Dedup` is a method with a loop and a seen-set. It is proved against the specification function `Deduped`.
  - Its keys are proved pairwise distinct.
- `LaptopTable`: the table as the class `LaptopStore`. Its `rows` field is reassigned by the CRUD methods.
  - The id repair is modelled twice. `RepairIdsAsWritten` starts the new ids at the code's `int(max or 0) + 1`. `RepairIds` starts them at `max(max, 0) + 1`.
  - The store and every endpoint run `RepairIds`, the corrected repair (see "## Findings"). Where the two differ is listed under "## Left out".
- `Ranking`: `recommend`.
  - `ScoreRows` is the scoring loop, proved against `Candidates`.
  - `Recommend` sorts and keeps ten. It is proved to return a descending selection that dominates everything it drops.
- `Api`: `json_sanitize`, `compare`, the pagination parsing of the list endpoint, and the five CRUD endpoints as methods over a `LaptopStore`.
- `ClientView`: the recommendations as the form receives them, and whether the keys it renders for them are distinct. The server's id rounds the price with Python's `round`; the form's signature rounds with `Math.round`.

Outside inputs are parameters, never computed:
- The trained model's predictions are a parameter of type `Option<seq<real>>`; `None` means prediction raised.
- The draws of `random.uniform(0.3, 0.9)` are a sequence of reals.
- Python's `hash` on strings is a function of type `string -> int`.

Two points where the code is easy to misread:
- **The comparison.** `backend/app.py:58` reports `abs(a - b)`, so `Api.PriceDiff` is a distance and never negative. `Api.CompareReportsDistance`: 18,000,000 against 20,500,000 reports 2,500,000.
- **Rounding.** The client rounds with `Math.round` and the server with Python's `round`. They differ at halves (`Numbers.RoundingsDifferAtHalves`). The server's signature is modelled with `PyRound`, the client's with `JsRound`.

## Model

| member | source | states |
|---|---|---|
| Text.StripLeftSuffix | components/recommendation-form.tsx:124 | left trimming leaves a suffix starting with a non-whitespace character and removes only whitespace |
| Text.StripRightPrefix | components/recommendation-form.tsx:124 | right trimming leaves a prefix ending with a non-whitespace character and removes only whitespace |
| Text.StripByTrims | backend/model.py:225 | a stripped string is no longer than the original and has no whitespace at either end; it is empty exactly when the original is all whitespace |
| Text.StripByKeepsTrimmed | backend/model.py:297-302 | a string without surrounding whitespace is left unchanged by strip |
| Text.StripByIdempotent | backend/model.py:322 | stripping twice is stripping once |
| Text.LastField | components/recommendation-form.tsx:146-154 | the text after the last separator holds no separator and is a suffix of the input |
| Text.LastFieldAfterSeparator | components/recommendation-form.tsx:146-154 | the last field of `x + "\|" + y` is y when y holds no separator |
| Text.JoinLastField | components/recommendation-form.tsx:146-154 | the last field of a join is its last part |
| Text.JoinInjective | components/recommendation-form.tsx:125-131 | joins of separator-free fields with "\|" are equal only when the fields are equal |
| Text.JoinCons | components/recommendation-form.tsx:146-154 | joining a head onto a non-empty join puts exactly one separator between them |
| Text.DigitChar | components/recommendation-form.tsx:128-130 | a digit value below 10 becomes a decimal digit character |
| Text.NatToString | components/recommendation-form.tsx:128-130 | `String(n)` for a natural number is a non-empty run of decimal digits |
| Text.IntToString | backend/model.py:229 | `str(i)` is a non-empty run of digits, possibly with a leading minus, and ends in a digit |
| Text.NatToStringRoundTrip | backend/app.py:72-73 | reading back the decimal digits of n gives n |
| Text.NatToStringDistinct | components/recommendation-form.tsx:153 | different positions have different decimal forms |
| Text.IntToStringDistinct | backend/model.py:229 | different integers have different decimal forms |
| Text.SignOrDigitNotWhitespace | backend/app.py:72-73 | neither a minus sign nor a digit is whitespace to Python's `int()` |
| Text.ParseIntRoundTrip | backend/app.py:72-73 | Python's `int(str(n)) == n` for every integer n |
| Text.ParseInt | backend/app.py:72-73 | a parse succeeds exactly on stripped text of an optional sign and at least one digit (leading zeros allowed), and then gives the digits' value, negated after a minus |
| Numbers.JsRound | components/recommendation-form.tsx:130 | `Math.round(x)` is the nearest integer, halves rounded up |
| Numbers.PyRound | backend/model.py:229 | `round(x)` is the nearest integer, halves rounded to the even neighbour |
| Numbers.RoundingsAgreeOffHalves | backend/model.py:229 | away from halves the client's and the server's rounding agree |
| Numbers.RoundingsDifferAtHalves | components/recommendation-form.tsx:130 | at 2.5 the client rounds to 3 and the server to 2 |
| RecommendationForm.ClientWeightsWellFormed | components/recommendation-form.tsx:46-54 | the weights name exactly the seven criteria, none is negative, and they sum to 1 |
| RecommendationForm.IntToStringHasNoSeparator | components/recommendation-form.tsx:128-129 | a formatted integer holds no "\|" |
| RecommendationForm.NatToStringHasNoSeparator | components/recommendation-form.tsx:153 | a formatted position holds no "\|" |
| RecommendationForm.SignatureFieldsSeparatorFree | components/recommendation-form.tsx:125-131 | when name and GPU hold no "\|", no signature field does |
| RecommendationForm.SignatureIgnoresOtherFields | components/recommendation-form.tsx:125-131 | the signature is unaffected by id, trend, predicted price and gamut |
| RecommendationForm.SignatureSeesOnlyRoundedPrice | components/recommendation-form.tsx:130 | prices that round to the same integer give the same signature |
| RecommendationForm.SignatureDeterminesFields | components/recommendation-form.tsx:125-131 | for separator-free names and GPUs, signatures are equal exactly when the five resolved fields are |
| RecommendationForm.SafeName | components/recommendation-form.tsx:124 | the resolved name is already trimmed |
| RecommendationForm.Signature | components/recommendation-form.tsx:125-131 | the text after the signature's last "\|" is the price rounded by `Math.round` |
| RecommendationForm.SigsSnoc | components/recommendation-form.tsx:132-135 | appending a record adds exactly its signature to the signature set |
| RecommendationForm.DedupedNoLonger | components/recommendation-form.tsx:119-138 | deduplication never lengthens the list |
| RecommendationForm.DedupedDistinct | components/recommendation-form.tsx:119-138 | no two kept records share a signature |
| RecommendationForm.DedupedKeepsEverySignature | components/recommendation-form.tsx:119-138 | the kept records carry exactly the input's signatures |
| RecommendationForm.FirstOccurrenceInPrefix | components/recommendation-form.tsx:121-136 | whether a record is first with its signature depends only on the records before it |
| RecommendationForm.FirstOccurrences | components/recommendation-form.tsx:121-136 | the first-occurrence positions are valid indices in increasing order |
| RecommendationForm.FirstOccurrencesComplete | components/recommendation-form.tsx:121-136 | a position is listed exactly when it holds the first record with its signature |
| RecommendationForm.LastIsFirstOccurrence | components/recommendation-form.tsx:132-135 | the last record is kept exactly when its signature is new |
| RecommendationForm.DedupedSelectsFirstOccurrences | components/recommendation-form.tsx:119-138 | the output is the first occurrences, in input order, with nothing reordered |
| RecommendationForm.DedupedKeepsDistinct | components/recommendation-form.tsx:119-138 | a list with distinct signatures is left unchanged |
| RecommendationForm.DedupedIdempotent | components/recommendation-form.tsx:119-138 | deduplicating twice is deduplicating once |
| RecommendationForm.Dedup | components/recommendation-form.tsx:119-138 | null stays null; otherwise the one-pass loop returns `Deduped` of the input, no longer than it and with distinct signatures |
| RecommendationForm.Keys | components/recommendation-form.tsx:141-155 | a rendered list has one key per record |
| RecommendationForm.MakeKey | components/recommendation-form.tsx:141-155 | every key starts with "rec\|" |
| RecommendationForm.KeyFromIdIgnoresPosition | components/recommendation-form.tsx:143-145 | with an id the key is "rec\|" plus the id, whatever the position |
| RecommendationForm.KeyWithoutIdEndsWithPosition | components/recommendation-form.tsx:146-154 | without an id the key's last field is the position |
| RecommendationForm.KeysWithoutIdDiffer | components/recommendation-form.tsx:146-154 | id-less records at different positions get different keys |
| RecommendationForm.IdKeyAfterPrefix | components/recommendation-form.tsx:143-145 | after "rec\|", an id key is the id's text |
| RecommendationForm.FieldKeyAfterPrefix | components/recommendation-form.tsx:146-154 | after "rec\|", a field key still holds a "\|" |
| RecommendationForm.IdKeyDiffersFromFieldKey | components/recommendation-form.tsx:141-155 | an id key with no "\|" in the id never equals a field key |
| RecommendationForm.KeysDistinct | components/recommendation-form.tsx:141-155 | keys of a rendered list are pairwise distinct when ids hold no "\|" and present ids differ |
| RecommendationForm.TrendProgress | components/recommendation-form.tsx:341-342 | the progress value lies in [0, 100]: the trend × 100 inside the range, clamped outside it |
| LaptopTable.MaxId | backend/model.py:88 | the largest id bounds every id and is attained by some row |
| LaptopTable.Renumbered | backend/model.py:89-91 | renumbering keeps the number of rows |
| LaptopTable.RepairIds | backend/model.py:254-263 | (corrected start) repair keeps the number of rows; the lemmas below state the ids |
| LaptopTable.RepairIdsAsWritten | backend/model.py:254-263 | as written, repair keeps the number of rows |
| LaptopTable.NonPositiveCountStep | backend/model.py:89-90 | the count of ids to repair grows by one exactly at an id ≤ 0 |
| LaptopTable.NonPositiveCountGrows | backend/model.py:91 | a row to repair has fewer rows to repair before it than any later position |
| LaptopTable.RenumberedAt | backend/model.py:89-91 | the k-th row keeps its id if positive, else gets start plus the number of earlier rows to repair |
| LaptopTable.RepairIdsKeepsRows | backend/model.py:254-263 | (corrected start) repair keeps every row, every field but the id, and every positive id |
| LaptopTable.RepairedIdsAboveOldIds | backend/model.py:254-263 | (corrected start) repaired ids lie above every old id and increase in row order |
| LaptopTable.RepairIdsAllPositive | backend/model.py:254-263 | (corrected start) after repair every id is positive |
| LaptopTable.RepairIdsIdempotent | backend/model.py:254-263 | (corrected start) repairing a repaired table changes nothing |
| LaptopTable.RepairAsWrittenAgreesWhenMaxNotNegative | backend/model.py:260 | when the largest id is ≥ 0 the code's start and the corrected start agree |
| LaptopTable.RepairAsWrittenNotIdempotent | backend/model.py:260 | as written, [-1] is repaired to [0] and then to [1] |
| LaptopTable.RepairAsWrittenLeavesNonPositive | backend/model.py:87-91 | as written, a table whose only id is −5 is repaired to −4, still not positive |
| LaptopTable.RepairAsWrittenAllPositive | backend/model.py:254-263 | as written, every id is positive after repair when the largest id is ≥ 0 |
| LaptopTable.FindFirst | backend/model.py:314-317 | the first index with the id, or None exactly when no row has it |
| LaptopTable.SortedByIdCons | backend/model.py:280 | a row no larger than the head of a sorted table can be put in front of it |
| LaptopTable.InsertByIdPermutes | backend/model.py:280 | inserting adds exactly the one row |
| LaptopTable.InsertByIdSorted | backend/model.py:280 | inserting into a sorted table keeps it sorted |
| LaptopTable.SortByIdPermutes | backend/model.py:280 | sorting by id keeps every row, as often as it occurs |
| LaptopTable.SortByIdOrdered | backend/model.py:280 | sorting by id yields ascending ids |
| LaptopTable.SortByIdSorts | backend/model.py:280 | `sort_values("id")` is an ascending permutation |
| LaptopTable.SliceBound | backend/model.py:280 | a normalised slice bound lies within the length |
| LaptopTable.PageContents | backend/model.py:278-281 | for non-negative limit and offset the page is the sorted rows from offset, at most limit of them |
| LaptopTable.PageBoundedAndSorted | backend/model.py:278-281 | a page is never longer than a non-negative limit and is in ascending id order |
| LaptopTable.Page | backend/model.py:280 | a page is no longer than the table and holds only rows of the table |
| LaptopTable.NewRowName | backend/model.py:297 | the new name is the stripped name when that is not blank; an absent or blank name gives "brand cpu" stripped |
| LaptopTable.NewRowNullName | backend/model.py:297 | a null name is stored as "None" |
| LaptopTable.NewRowDefaults | backend/model.py:295-305 | absent numbers default to 16, 512, 100 and 0.0, and the id is the one given |
| LaptopTable.NewRow | backend/model.py:292-305 | the row has the id given, and its name, brand, CPU and GPU are stored stripped |
| LaptopTable.PatchedFields | backend/model.py:319-332 | update keeps the id, writes exactly the supplied fields (strings stripped) and resets a blank, "nan" or "None" name to "brand cpu" |
| LaptopTable.Patched | backend/model.py:319-332 | update keeps the id, and leaves a blank name only when "brand cpu" is blank too |
| LaptopTable.WithoutIdFilters | backend/model.py:339-344 | delete keeps exactly the rows with another id, and keeps the length exactly when no row had the id |
| LaptopTable.WithoutIdKeepsOrder | backend/model.py:341 | deletion works row by row, so the remaining rows keep their order |
| LaptopTable.WithoutId | backend/model.py:342 | no remaining row has the id, and the table never grows |
| LaptopTable.LaptopStore.constructor | backend/model.py:82-91 | the store starts with the loaded rows, their ids repaired (corrected start) |
| LaptopTable.LaptopStore.EnsureIdColumn | backend/model.py:254-263 | (corrected start) the loop leaves the rows equal to `RepairIds` of the old rows |
| LaptopTable.LaptopStore.NextId | backend/model.py:265-267 | the id is 1 for an empty table, else the largest id + 1, above every id |
| LaptopTable.LaptopStore.ListLaptops | backend/model.py:278-281 | the result is the page of the repaired table: sorted, at most limit rows |
| LaptopTable.LaptopStore.GetLaptop | backend/model.py:284-289 | the first row with the id, or None |
| LaptopTable.LaptopStore.CreateLaptop | backend/model.py:292-309 | one row is appended, built from the body; its id is the repaired table's largest id + 1, or 1 for an empty table, above every other |
| LaptopTable.LaptopStore.UpdateLaptop | backend/model.py:312-336 | no match leaves the repaired table and returns None; otherwise only the first matching row is replaced by its patch |
| LaptopTable.LaptopStore.DeleteLaptop | backend/model.py:339-348 | rows with the id are removed; false exactly when there were none |
| Ranking.DefaultWeightsMatchClient | backend/model.py:172 | the server's default weights equal the form's |
| Ranking.CatScore | backend/model.py:183-184 | the result is 0 or 1, and 1 exactly when both values are present and equal |
| Ranking.RelScore | backend/model.py:186-193 | the result is in [0, 1] and is 1 exactly at a positive target; a target ≤ 0 gives 0 |
| Ranking.RelScoreVanishesFarAway | backend/model.py:186-193 | at or below 0, or at twice the target or more, the score is 0 |
| Ranking.Weighted | backend/model.py:196-202 | a score in [0, 1] times a non-negative weight lies between 0 and the weight |
| Ranking.Score | backend/model.py:196-205 | with non-negative weights the total of the seven weighted scores lies between 0 and the sum of the weights |
| Ranking.DefaultScoreWithinUnit | backend/model.py:172 | with the default weights the total lies in [0, 1] |
| Ranking.PerfectMatchScoresWeightSum | backend/model.py:196-205 | a row matching every preference scores the full weight sum |
| Ranking.TrendWithinBar | backend/model.py:206 | a trend lies in [0.15, 0.95], so the form's bar shows it unclamped |
| Ranking.Trend | backend/model.py:206 | a trend is half the draw plus a budget term between 0 and 0.5 |
| Ranking.SameSignatureSameId | backend/model.py:229-230 | rows with the same signature get the same id |
| Ranking.ServerSafeName | backend/model.py:225 | the resolved name is already stripped |
| Ranking.ServerSignature | backend/model.py:229 | the text after the signature's last "\|" is `str(round(price))`, rounded half to even |
| Ranking.IdOf | backend/model.py:229-230 | the id is the signature's hash or its negation, and never negative |
| Ranking.CandidatesUpTo | backend/model.py:196-246 | the first n rows give n records |
| Ranking.ByScoreDescendingCons | backend/model.py:248 | a record scoring at least the head of a descending list can be put in front of it |
| Ranking.InsertByScorePermutes | backend/model.py:248 | inserting adds exactly the one record |
| Ranking.InsertByScoreSorted | backend/model.py:248 | inserting into a descending list keeps it descending |
| Ranking.SortByScorePermutes | backend/model.py:248 | sorting keeps every record, as often as it occurs |
| Ranking.SortByScoreOrdered | backend/model.py:248 | sorting yields descending scores |
| Ranking.SortByScoreSorts | backend/model.py:248 | the sort is a descending permutation |
| Ranking.ScoreRows | backend/model.py:196-246 | the loop builds one record per row, in table order, as `Candidates` defines |
| Ranking.Recommend | backend/model.py:162-249 | the result has min(rows, 10) records, in descending score, drawn from the candidates, and every dropped candidate scores no higher than any kept one |
| Ranking.TopOfRanked | backend/model.py:248-249 | the first m sorted records are descending, drawn from the input, and dominate the rest |
| Ranking.TopDominatesRest | backend/model.py:249 | in a descending list, what the cut drops scores no higher than what it keeps |
| Api.Sanitize | backend/app.py:15-30 | null exactly for null or a non-finite float; finite floats and numpy ints become plain values; lists keep their length and dicts their keys |
| Api.SanitizeMakesClean | backend/app.py:15-30 | the sanitised value holds no numpy scalar and no non-finite float at any depth |
| Api.SanitizeKeepsClean | backend/app.py:15-30 | a clean value comes back unchanged |
| Api.SanitizeIdempotent | backend/app.py:15-30 | sanitising twice is sanitising once |
| Api.PriceDiff | backend/app.py:58 | finite exactly when both prices are, and then the non-negative distance between them |
| Api.PriceDiffSymmetric | backend/app.py:58 | the difference does not depend on the order of the two prices |
| Api.CompareBodyFields | backend/app.py:50-59 | the body holds a, b and diff; a non-finite price or diff becomes null |
| Api.CompareBody | backend/app.py:50-59 | the body is clean JSON: no NaN, no infinity and no numpy scalar at any depth |
| Api.CompareDiffSymmetric | backend/app.py:50-59 | swapping the laptops leaves the reported diff unchanged |
| Api.CompareReportsDistance | backend/app.py:58 | 18,000,000 against 20,500,000 reports 2,500,000 |
| Api.Pagination | backend/app.py:71-75 | if either parameter fails to parse, both fall back to (50, 0); otherwise the parsed pair |
| Api.PaginationReadsIntegers | backend/app.py:71-73 | parameters written as decimal integers are read as those integers |
| Api.PaginationDefaults | backend/app.py:71-73 | absent parameters mean limit 50 and offset 0 |
| Api.SanitizedRowIsPlain | backend/app.py:77 | a table row with numpy scalars sanitises to the plain row, which is clean |
| Api.RecommendBodyUnchanged | backend/app.py:44-48 | the recommendations are clean, so sanitising leaves them unchanged |
| Api.ListEndpoint | backend/app.py:64-77 | always 200 with the page for the parsed limit and offset |
| Api.GetEndpoint | backend/app.py:80-85 | 404 exactly when no row has the id, else 200 with the row |
| Api.CreateEndpoint | backend/app.py:88-105 | always 201; the table becomes the repaired table plus `NewRow(data, id)`, whose id is the repaired table's largest id + 1 (or 1 when it is empty), and the body is that row |
| Api.UpdateEndpoint | backend/app.py:108-114 | 404 exactly when no row has the id, leaving the repaired table; else the first matching row of the repaired table is replaced by its patch, nothing else changes, and 200 answers with that row |
| Api.DeleteEndpoint | backend/app.py:117-122 | 404 exactly when no row had the id, else 200 `{"ok": true}`; the rows with the id are gone |
| ClientView.HalfRoundsApart | backend/model.py:229 | 15000000.5 rounds to 15000000 in Python and to 15000001 in JavaScript; 15000000.0 rounds to 15000000 in both |
| ClientView.SamePyRoundSameId | backend/model.py:225-230 | rows that differ only in prices Python rounds alike get the same id |
| ClientView.RoundedPricesSeparateSignatures | components/recommendation-form.tsx:125-131 | records whose prices `Math.round` apart have different signatures |
| ClientView.ClientIdAndPrice | backend/model.py:232-241 | the form receives a candidate's id as a number and its price as the row's price |
| ClientView.OneIdTwoSignaturesClash | components/recommendation-form.tsx:119-155 | two records with one id and prices `Math.round` apart both survive deduplication and get the same key |
| ClientView.SameIdDistinctSignatures | backend/model.py:229 | as written, rows priced 15000000.5 and 15000000.0 but otherwise equal both reach the form and are rendered under one key |
| ClientView.JsSignatureDeterminesFields | backend/model.py:229 | for plain rows, equal signatures rounded as the form rounds come from equal name, GPU, RAM, storage and rounded price |
| ClientView.CorrectedClientFields | backend/model.py:232-241 | the form receives a corrected record's id and signature fields as the row's |
| ClientView.CorrectedIdFollowsSignature | backend/model.py:229-230 | corrected: with an injective hash, plain rows with one id have one signature in the form |
| ClientView.CorrectedIdTextFollowsSignature | components/recommendation-form.tsx:143-145 | corrected: plain rows whose ids have one text have one signature in the form |
| ClientView.NatTextInjective | components/recommendation-form.tsx:143-145 | two natural numbers with the same decimal form are equal |
| ClientView.DedupedKeysDistinct | components/recommendation-form.tsx:119-155 | when one id text always means one signature and no id holds "\|", the keys of the deduplicated list are pairwise distinct |
| ClientView.CorrectedKeysDistinct | components/recommendation-form.tsx:296-299 | corrected: when the server rounds as the form does, the keys rendered for the deduplicated records are pairwise distinct |

## Left out

- Model training, fitting and scoring, `predict_price`, and the `/api/metrics` and `/api/predict` endpoints: the model's predictions enter `Recommend` as a parameter (`None` when prediction raised, falling back to listed prices).
- `_save_csv` and the load-time CSV reading: file I/O. The constructor takes the table as loaded.
- `random.uniform` and Python's string `hash`: randomness and a salted hash are parameters (`draws`, `hash`).
- The React rendering, `onRecommend` and `onPredict` (network fetches and state setters), and the compare form's presentation.
- `sstr`, `sint` and `sfloat` on NaN cells, and `pd.isna`: table cells are modelled as never missing. A name that is not a string is therefore not modelled.
- `int()` of non-ASCII digits, digit-group underscores, and non-string arguments. Python's `int()` is modelled for strings of ASCII digits with an optional sign and surrounding whitespace.
- `str()` and `int()` of non-string JSON values in create and update bodies: text fields are strings, null or absent; numeric fields are integers or absent.
- The branch of `_ensure_id_column` that inserts a missing id column: the table always has an id column.
- ClientView.ToClient and RecommendationForm.IdText: a recommendation id is an exact integer in the model. The server's `abs(hash(sig))` goes up to 2^63, and the browser reads JSON numbers as doubles, so ids above 2^53 are rounded there. `String(r.id)` in `makeKey` may then differ from the server's decimal text, and two distinct ids may become one number. `IdsInjective` idealises Python's salted 64-bit string hash as injective on signatures; the corrected half of the `backend/model.py:229` finding assumes it.
- Floating point: prices, scores and weights are reals, so rounding and overflow of doubles are not modelled. Only infinities and NaN are modelled, in `Api`.
- A `weights` payload of JSON null: `WeightsOf` treats the payload's weights as a map or as absent.
- Ranking.SortByScore: the stability of Python's `list.sort` for equal scores is not stated. `Recommend` promises order, selection and dominance, not the tie order.
- LaptopTable.SortById: the model sorts stably, so rows with equal ids keep their table order in `Page`, `ListLaptops` and `ListEndpoint`. pandas' default quicksort is not stable, so when ids repeat it may order those rows differently.
- LaptopTable.LaptopStore.EnsureIdColumn: runs the corrected start `max(max, 0) + 1`, not the code's `int(max or 0) + 1`. The two differ only when every id is below 1 and the largest is negative. For ids [−1] the code gives id 0, so `GET /api/laptops/0` answers 200; the model gives id 1 and answers 404. For ids [−1, −2], a create ends with ids [2, 1, 3] in the code and [1, 2, 3] in the model. Every store method and endpoint inherits this difference. `RepairIdsAsWritten` models the code's start.
- LaptopTable.RepairIdsAllPositive: positivity after repair is stated for the corrected start. The code has it only when the largest id is ≥ 0 (`RepairAsWrittenAllPositive`); with all ids negative it can leave ids ≤ 0 (`RepairAsWrittenLeavesNonPositive`).
- LaptopTable.LaptopStore.constructor: the load-time repair at `backend/model.py:87-91` is applied with the corrected start, as `EnsureIdColumn` is. The earlier load steps are not modelled: reading the CSV, coercing its columns, and rounding loaded prices at `backend/model.py:80`.
- LaptopTable.LaptopStore.UpdateLaptop: the pandas index label of the first matching row is modelled by that row's position. The code uses the label only to address that same row, so the effect on the table is the same.

## Findings

| source | as written | input that shows it | evidently intended | confidence | as-written member | corrected member |
|---|---|---|---|---|---|---|
| backend/model.py:260 | `start = int(max or 0) + 1` starts the new ids at max + 1 even when every id is negative | a table whose only id is −1: the repair gives it id 0, still invalid, and the next call gives it 1 | start at `max(max, 0) + 1`, so that every repaired id is positive and a second repair changes nothing | medium, not executed | LaptopTable.RepairAsWrittenNotIdempotent | LaptopTable.RepairIdsIdempotent |
| backend/model.py:229 | the server's id hashes a signature whose price is rounded with `round()` (half to even), while the form deduplicates by a signature rounded with `Math.round` (`components/recommendation-form.tsx:130`) and keys a record with an id by the id alone (`components/recommendation-form.tsx:143-145`) | two rows equal but for prices 15000000.5 and 15000000.0 (`create_laptop` stores the price unrounded, `backend/model.py:304`): both get one id, both survive deduplication, and both are rendered under the key "rec\|<id>" | one key per rendered record (`components/recommendation-form.tsx:141`): the server rounds as the form does | medium, not executed | ClientView.SameIdDistinctSignatures | ClientView.CorrectedKeysDistinct |
