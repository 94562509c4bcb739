/**
 * The backend's in-memory laptop table and its create, read, update and
 * delete operations: the id repair run before each of them, the next free id,
 * the id-ordered page, the first-match lookup, the append, the in-place patch
 * of one row and the filtering delete.
 */
module LaptopTable {
  import opened Wrappers
  import opened Text

  /** One row of the table. */
  datatype Laptop = Laptop(
    id: int,
    name: string,
    brand: string,
    cpu: string,
    ramGb: int,
    storageGb: int,
    gpu: string,
    colorGamut: int,
    price: real)

  /** A text field of a request body: absent, JSON null, or a string. */
  datatype TextArg = Absent | Null | Str(value: string)

  /** A request body for create or update. A numeric field is None when it is absent
      (on update also when it is null). */
  datatype LaptopInput = LaptopInput(
    name: TextArg,
    brand: TextArg,
    cpu: TextArg,
    ramGb: Option<int>,
    storageGb: Option<int>,
    gpu: TextArg,
    colorGamut: Option<int>,
    price: Option<real>)

  /** Python's `str(data.get(key, default))`: a null is written "None". */
  function ArgText(a: TextArg, default: string): string
  {
    match a
    case Absent => default
    case Null => "None"
    case Str(s) => s
  }

  // ---------------------------------------------------------------------
  // Id repair
  // ---------------------------------------------------------------------

  /** The largest id in a non-empty table. */
  function MaxId(rows: seq<Laptop>): (m: int)
    requires rows != []
    ensures forall i :: 0 <= i < |rows| ==> rows[i].id <= m
    ensures exists i :: 0 <= i < |rows| && rows[i].id == m
  {
    if |rows| == 1 then rows[0].id
    else
      var m := MaxId(rows[..|rows| - 1]);
      var last := rows[|rows| - 1].id;
      if last > m then last else m
  }

  /** Some row has an id that is zero or negative (an unparseable id reads as 0). */
  predicate NeedsRepair(rows: seq<Laptop>)
  {
    exists i :: 0 <= i < |rows| && rows[i].id <= 0
  }

  /** How many rows have an id that is zero or negative. */
  function NonPositiveCount(rows: seq<Laptop>): nat
  {
    if rows == [] then 0
    else NonPositiveCount(rows[..|rows| - 1]) + (if rows[|rows| - 1].id <= 0 then 1 else 0)
  }

  /** The rows with each id <= 0 replaced, in row order, by start, start + 1, ... */
  function Renumbered(rows: seq<Laptop>, start: int): (out: seq<Laptop>)
    ensures |out| == |rows|
  {
    if rows == [] then []
    else
      var init := rows[..|rows| - 1];
      var last := rows[|rows| - 1];
      Renumbered(init, start) + [if last.id <= 0 then last.(id := start + NonPositiveCount(init)) else last]
  }

  /** The first repaired id: one above the largest id, and at least 1. */
  function RepairStart(rows: seq<Laptop>): int
    requires rows != []
  {
    (if MaxId(rows) > 0 then MaxId(rows) else 0) + 1
  }

  /** The table after _ensure_id_column. */
  function RepairIds(rows: seq<Laptop>): (r: seq<Laptop>)
    ensures |r| == |rows|
  {
    if NeedsRepair(rows) then Renumbered(rows, RepairStart(rows)) else rows
  }

  /** The repair as the code writes it: `int(max or 0) + 1` is max + 1 for every non-zero max,
      negative ones included. */
  function RepairIdsAsWritten(rows: seq<Laptop>): (r: seq<Laptop>)
    ensures |r| == |rows|
  {
    if NeedsRepair(rows) then Renumbered(rows, MaxId(rows) + 1) else rows
  }

  lemma NonPositiveCountStep(rows: seq<Laptop>, k: nat)
    requires k < |rows|
    ensures NonPositiveCount(rows[..k + 1]) == NonPositiveCount(rows[..k]) + (if rows[k].id <= 0 then 1 else 0)
  {
    assert rows[..k + 1][..k] == rows[..k];
  }

  /** A row before a repaired row has fewer repaired rows before it. */
  lemma {:induction false} NonPositiveCountGrows(rows: seq<Laptop>, k: nat, l: nat)
    requires k < l <= |rows| && rows[k].id <= 0
    ensures NonPositiveCount(rows[..k]) < NonPositiveCount(rows[..l])
  {
    NonPositiveCountStep(rows, k);
    if l > k + 1 {
      NonPositiveCountGrows(rows, k, l - 1);
      NonPositiveCountStep(rows, l - 1);
    }
  }

  /** What renumbering does to one row. */
  lemma {:induction false} RenumberedAt(rows: seq<Laptop>, start: int, k: nat)
    requires k < |rows|
    ensures Renumbered(rows, start)[k] ==
      if rows[k].id <= 0 then rows[k].(id := start + NonPositiveCount(rows[..k])) else rows[k]
  {
    var n := |rows| - 1;
    if k < n {
      RenumberedAt(rows[..n], start, k);
      assert rows[..n][..k] == rows[..k];
    }
  }

  /** Repair keeps every row and every field but the id, and every positive id. */
  lemma RepairIdsKeepsRows(rows: seq<Laptop>)
    ensures |RepairIds(rows)| == |rows|
    ensures forall k :: 0 <= k < |rows| ==> RepairIds(rows)[k] == rows[k].(id := RepairIds(rows)[k].id)
    ensures forall k :: 0 <= k < |rows| && rows[k].id > 0 ==> RepairIds(rows)[k] == rows[k]
  {
    if NeedsRepair(rows) {
      forall k | 0 <= k < |rows| ensures RepairIds(rows)[k] == rows[k].(id := RepairIds(rows)[k].id) {
        RenumberedAt(rows, RepairStart(rows), k);
      }
      forall k | 0 <= k < |rows| && rows[k].id > 0 ensures RepairIds(rows)[k] == rows[k] {
        RenumberedAt(rows, RepairStart(rows), k);
      }
    }
  }

  /** Each repaired id lies above every id the table had, and repaired ids increase in row order. */
  lemma RepairedIdsAboveOldIds(rows: seq<Laptop>)
    ensures forall k, j :: 0 <= k < |rows| && 0 <= j < |rows| && rows[k].id <= 0 ==> RepairIds(rows)[k].id > rows[j].id
    ensures forall k, l :: 0 <= k < l < |rows| && rows[k].id <= 0 && rows[l].id <= 0 ==>
              RepairIds(rows)[k].id < RepairIds(rows)[l].id
  {
    if NeedsRepair(rows) {
      var start := RepairStart(rows);
      forall k, j | 0 <= k < |rows| && 0 <= j < |rows| && rows[k].id <= 0 ensures RepairIds(rows)[k].id > rows[j].id {
        RenumberedAt(rows, start, k);
      }
      forall k, l | 0 <= k < l < |rows| && rows[k].id <= 0 && rows[l].id <= 0
        ensures RepairIds(rows)[k].id < RepairIds(rows)[l].id
      {
        RenumberedAt(rows, start, k);
        RenumberedAt(rows, start, l);
        NonPositiveCountGrows(rows, k, l);
      }
    }
  }

  /** After repair every id is positive. */
  lemma RepairIdsAllPositive(rows: seq<Laptop>)
    ensures forall k :: 0 <= k < |RepairIds(rows)| ==> RepairIds(rows)[k].id > 0
  {
    RepairIdsKeepsRows(rows);
    if NeedsRepair(rows) {
      forall k | 0 <= k < |rows| ensures RepairIds(rows)[k].id > 0 {
        RenumberedAt(rows, RepairStart(rows), k);
      }
    }
  }

  /** Repairing a repaired table changes nothing. */
  lemma RepairIdsIdempotent(rows: seq<Laptop>)
    ensures RepairIds(RepairIds(rows)) == RepairIds(rows)
  {
    RepairIdsAllPositive(rows);
  }

  /** When the largest id is not negative, the code's start and the intended one agree. */
  lemma RepairAsWrittenAgreesWhenMaxNotNegative(rows: seq<Laptop>)
    requires rows != [] && MaxId(rows) >= 0
    ensures RepairIdsAsWritten(rows) == RepairIds(rows)
  {
  }

  /** When every id is negative the code's repair is not a repair: [-1] becomes [0], which a
      second call turns into [1], so ids change from one request to the next. */
  lemma RepairAsWrittenNotIdempotent(row: Laptop)
    requires row.id == -1
    ensures RepairIdsAsWritten([row]) == [row.(id := 0)]
    ensures RepairIdsAsWritten(RepairIdsAsWritten([row])) == [row.(id := 1)]
  {
    assert [row][0].id <= 0;
    assert NeedsRepair([row]);
    assert [row][..0] == [];
    var once := [row.(id := 0)];
    assert once[0].id <= 0;
    assert NeedsRepair(once) && once[..0] == [];
  }

  /** When every id is negative the code's repair can leave an id that is not positive:
      [-5] becomes [-4]. */
  lemma RepairAsWrittenLeavesNonPositive(row: Laptop)
    requires row.id == -5
    ensures RepairIdsAsWritten([row]) == [row.(id := -4)]
  {
    assert [row][0].id <= 0;
    assert NeedsRepair([row]);
    assert [row][..0] == [];
  }

  /** The code's repair makes every id positive when the largest id is not negative. */
  lemma RepairAsWrittenAllPositive(rows: seq<Laptop>)
    requires rows != [] && MaxId(rows) >= 0
    ensures forall k :: 0 <= k < |RepairIdsAsWritten(rows)| ==> RepairIdsAsWritten(rows)[k].id > 0
  {
    RepairAsWrittenAgreesWhenMaxNotNegative(rows);
    RepairIdsAllPositive(rows);
  }

  // ---------------------------------------------------------------------
  // Queries
  // ---------------------------------------------------------------------

  /** The position of the first row with id `id`, if any. */
  function FindFirst(rows: seq<Laptop>, id: int): (r: Option<nat>)
    ensures r.Some? ==> r.value < |rows| && rows[r.value].id == id
    ensures r.Some? ==> forall j :: 0 <= j < r.value ==> rows[j].id != id
    ensures r.None? <==> forall j :: 0 <= j < |rows| ==> rows[j].id != id
  {
    if rows == [] then None
    else if rows[0].id == id then Some(0)
    else
      match FindFirst(rows[1..], id)
      case None => None
      case Some(k) => Some(k + 1)
  }

  /** The first row with id `id`, if any. */
  function Lookup(rows: seq<Laptop>, id: int): Option<Laptop>
  {
    match FindFirst(rows, id)
    case None => None
    case Some(k) => Some(rows[k])
  }

  predicate SortedById(s: seq<Laptop>)
  {
    forall i, j :: 0 <= i < j < |s| ==> s[i].id <= s[j].id
  }

  function InsertById(x: Laptop, s: seq<Laptop>): seq<Laptop>
  {
    if s == [] then [x]
    else if x.id <= s[0].id then [x] + s
    else [s[0]] + InsertById(x, s[1..])
  }

  /** Putting a row in front of a sorted table that it may precede keeps it sorted. */
  lemma SortedByIdCons(x: Laptop, s: seq<Laptop>)
    requires SortedById(s) && (s == [] || x.id <= s[0].id)
    ensures SortedById([x] + s)
  {
    var r := [x] + s;
    forall i, j | 0 <= i < j < |r| ensures r[i].id <= r[j].id {
      assert r[j] == s[j - 1];
      if i > 0 { assert r[i] == s[i - 1]; }
    }
  }

  /** Inserting adds exactly the one element. */
  lemma {:induction false} InsertByIdPermutes(x: Laptop, s: seq<Laptop>)
    ensures |InsertById(x, s)| == |s| + 1
    ensures multiset(InsertById(x, s)) == multiset(s) + multiset{x}
  {
    if s != [] && !(x.id <= s[0].id) {
      InsertByIdPermutes(x, s[1..]);
      assert s == [s[0]] + s[1..];
    }
  }

  /** Inserting into a sorted list keeps it sorted; the new head is `x` or the old head. */
  lemma {:induction false} InsertByIdSorted(x: Laptop, s: seq<Laptop>)
    requires SortedById(s)
    ensures SortedById(InsertById(x, s))
    ensures InsertById(x, s)[0] == x || (s != [] && InsertById(x, s)[0] == s[0])
  {
    if s == [] {
    } else if x.id <= s[0].id {
      SortedByIdCons(x, s);
    } else {
      var tail := s[1..];
      assert SortedById(tail) by {
        forall i, j | 0 <= i < j < |tail| ensures tail[i].id <= tail[j].id {
          assert tail[i] == s[i + 1] && tail[j] == s[j + 1];
        }
      }
      InsertByIdSorted(x, tail);
      InsertByIdPermutes(x, tail);
      var rest := InsertById(x, tail);
      assert s[0].id <= rest[0].id by {
        if rest[0] != x { assert rest[0] == s[1]; }
      }
      SortedByIdCons(s[0], rest);
    }
  }

  /** `sort_values("id")`: the table by ascending id, by insertion. */
  function SortById(s: seq<Laptop>): seq<Laptop>
  {
    if s == [] then [] else InsertById(s[0], SortById(s[1..]))
  }

  /** Sorting keeps every one of the rows, as often as it occurs. */
  lemma {:induction false} SortByIdPermutes(s: seq<Laptop>)
    ensures |SortById(s)| == |s|
    ensures multiset(SortById(s)) == multiset(s)
  {
    if s != [] {
      SortByIdPermutes(s[1..]);
      InsertByIdPermutes(s[0], SortById(s[1..]));
      assert s == [s[0]] + s[1..];
      assert multiset(s) == multiset(s[1..]) + multiset{s[0]};
    }
  }

  /** Sorting puts the rows in order. */
  lemma {:induction false} SortByIdOrdered(s: seq<Laptop>)
    ensures SortedById(SortById(s))
  {
    if s != [] {
      SortByIdOrdered(s[1..]);
      InsertByIdSorted(s[0], SortById(s[1..]));
    }
  }

  /** Sorting yields an ascending permutation of the table. */
  lemma SortByIdSorts(s: seq<Laptop>)
    ensures |SortById(s)| == |s|
    ensures SortedById(SortById(s))
    ensures multiset(SortById(s)) == multiset(s)
  {
    SortByIdPermutes(s);
    SortByIdOrdered(s);
  }


  /** Python's normalisation of a slice bound against a length `n`. */
  function SliceBound(x: int, n: nat): (k: nat)
    ensures k <= n
  {
    if x < 0 then (if x + n < 0 then 0 else x + n)
    else if x > n then n
    else x
  }

  /** Python's `s[lo:hi]`: negative bounds count from the end, bounds are clamped. */
  function PySlice<T>(s: seq<T>, lo: int, hi: int): (r: seq<T>)
    ensures |r| <= |s| && forall x :: x in r ==> x in s
  {
    var a := SliceBound(lo, |s|);
    var b := SliceBound(hi, |s|);
    if a < b then s[a..b] else []
  }

  /** `df.sort_values("id").iloc[offset:offset+limit]`. */
  function Page(rows: seq<Laptop>, limit: int, offset: int): (page: seq<Laptop>)
    ensures |page| <= |rows|
    ensures forall x :: x in page ==> x in rows
  {
    SortByIdSorts(rows);
    var s := SortById(rows);
    assert forall x :: x in s ==> x in multiset(s);
    PySlice(s, offset, offset + limit)
  }

  /** For a non-negative limit and offset, the page holds the rows at sorted positions
      offset, offset + 1, ..., at most `limit` of them. */
  lemma PageContents(rows: seq<Laptop>, limit: int, offset: int)
    requires limit >= 0 && offset >= 0
    ensures var n := |rows|;
      |Page(rows, limit, offset)| == (if offset >= n then 0 else if limit < n - offset then limit else n - offset)
    ensures forall k :: 0 <= k < |Page(rows, limit, offset)| ==> Page(rows, limit, offset)[k] == SortById(rows)[offset + k]
  {
    SortByIdSorts(rows);
  }

  /** A page is never longer than a non-negative limit, and is in ascending id order. */
  lemma PageBoundedAndSorted(rows: seq<Laptop>, limit: int, offset: int)
    ensures limit >= 0 ==> |Page(rows, limit, offset)| <= limit
    ensures SortedById(Page(rows, limit, offset))
  {
    var s := SortById(rows);
    SortByIdSorts(rows);
    var a, b := SliceBound(offset, |s|), SliceBound(offset + limit, |s|);
    if a < b {
      assert forall i :: 0 <= i < b - a ==> s[a..b][i] == s[a + i];
    }
  }

  // ---------------------------------------------------------------------
  // Rows built from request bodies
  // ---------------------------------------------------------------------

  /** The row create_laptop appends. */
  function NewRow(data: LaptopInput, id: int): (row: Laptop)
    ensures row.id == id
    ensures Strip(row.name) == row.name && Strip(row.brand) == row.brand
    ensures Strip(row.cpu) == row.cpu && Strip(row.gpu) == row.gpu
  {
    StripByIdempotent(ArgText(data.name, ""), PyWhitespace);
    StripByIdempotent(ArgText(data.brand, "") + " " + ArgText(data.cpu, ""), PyWhitespace);
    StripByIdempotent(ArgText(data.brand, ""), PyWhitespace);
    StripByIdempotent(ArgText(data.cpu, ""), PyWhitespace);
    StripByIdempotent(ArgText(data.gpu, "Integrated"), PyWhitespace);
    var name := Strip(ArgText(data.name, ""));
    Laptop(
      id,
      if name != "" then name else Strip(ArgText(data.brand, "") + " " + ArgText(data.cpu, "")),
      Strip(ArgText(data.brand, "")),
      Strip(ArgText(data.cpu, "")),
      data.ramGb.GetOr(16),
      data.storageGb.GetOr(512),
      Strip(ArgText(data.gpu, "Integrated")),
      data.colorGamut.GetOr(100),
      data.price.GetOr(0.0))
  }

  /** A new row's name is the stripped name, or "brand cpu" stripped when that is blank. */
  lemma NewRowName(data: LaptopInput, id: int)
    ensures data.name.Str? && Strip(data.name.value) != "" ==> NewRow(data, id).name == Strip(data.name.value)
    ensures data.name.Absent? || (data.name.Str? && Strip(data.name.value) == "") ==>
              NewRow(data, id).name == Strip(ArgText(data.brand, "") + " " + ArgText(data.cpu, ""))
  {
    StripByKeepsTrimmed("", PyWhitespace);
  }

  /** A null name is written "None" and kept, as str(None) is. */
  lemma NewRowNullName(data: LaptopInput, id: int)
    requires data.name.Null?
    ensures NewRow(data, id).name == "None"
  {
    StripByKeepsTrimmed("None", PyWhitespace);
  }

  /** Absent numbers take the defaults 16 GB, 512 GB, 100 % and 0. */
  lemma NewRowDefaults(data: LaptopInput, id: int)
    requires data.ramGb.None? && data.storageGb.None? && data.colorGamut.None? && data.price.None?
    ensures NewRow(data, id).id == id
    ensures NewRow(data, id).ramGb == 16 && NewRow(data, id).storageGb == 512
    ensures NewRow(data, id).colorGamut == 100 && NewRow(data, id).price == 0.0
  {
  }

  /** A supplied string field, stripped; anything else keeps the old value. */
  function SetText(current: string, a: TextArg): string
  {
    match a
    case Str(s) => Strip(s)
    case _ => current
  }

  /** A name that update_laptop replaces by "brand cpu". */
  predicate IsPlaceholderName(nm: string)
  {
    nm == "" || nm == "nan" || nm == "None"
  }

  /** The row update_laptop leaves: the supplied fields written, then the name fallback. */
  function Patched(row: Laptop, data: LaptopInput): (p: Laptop)
    ensures p.id == row.id
    ensures Strip(p.name) == "" ==> Strip(p.brand + " " + p.cpu) == ""
  {
    var r := row.(
      name := SetText(row.name, data.name),
      brand := SetText(row.brand, data.brand),
      cpu := SetText(row.cpu, data.cpu),
      gpu := SetText(row.gpu, data.gpu),
      ramGb := data.ramGb.GetOr(row.ramGb),
      storageGb := data.storageGb.GetOr(row.storageGb),
      colorGamut := data.colorGamut.GetOr(row.colorGamut),
      price := data.price.GetOr(row.price));
    StripByIdempotent(r.brand + " " + r.cpu, PyWhitespace);
    if IsPlaceholderName(Strip(r.name)) then r.(name := Strip(r.brand + " " + r.cpu)) else r
  }

  /** Patching keeps the id, writes exactly the supplied fields and resets a placeholder name. */
  lemma PatchedFields(row: Laptop, data: LaptopInput)
    ensures Patched(row, data).id == row.id
    ensures data.brand.Str? ==> Patched(row, data).brand == Strip(data.brand.value)
    ensures !data.brand.Str? ==> Patched(row, data).brand == row.brand
    ensures data.cpu.Str? ==> Patched(row, data).cpu == Strip(data.cpu.value)
    ensures !data.cpu.Str? ==> Patched(row, data).cpu == row.cpu
    ensures data.gpu.Str? ==> Patched(row, data).gpu == Strip(data.gpu.value)
    ensures !data.gpu.Str? ==> Patched(row, data).gpu == row.gpu
    ensures Patched(row, data).ramGb == (if data.ramGb.Some? then data.ramGb.value else row.ramGb)
    ensures Patched(row, data).storageGb == (if data.storageGb.Some? then data.storageGb.value else row.storageGb)
    ensures Patched(row, data).colorGamut == (if data.colorGamut.Some? then data.colorGamut.value else row.colorGamut)
    ensures Patched(row, data).price == (if data.price.Some? then data.price.value else row.price)
    ensures var nm := if data.name.Str? then Strip(data.name.value) else row.name;
      Patched(row, data).name ==
        if IsPlaceholderName(Strip(nm)) then Strip(Patched(row, data).brand + " " + Patched(row, data).cpu) else nm
  {
  }

  /** The table without the rows whose id is `id`. */
  function WithoutId(rows: seq<Laptop>, id: int): (r: seq<Laptop>)
    ensures |r| <= |rows|
    ensures forall k :: 0 <= k < |r| ==> r[k].id != id
  {
    if rows == [] then []
    else if rows[0].id == id then WithoutId(rows[1..], id)
    else [rows[0]] + WithoutId(rows[1..], id)
  }

  /** Deleting keeps exactly the rows with another id, and shortens the table exactly
      when some row has the id. */
  lemma {:induction false} WithoutIdFilters(rows: seq<Laptop>, id: int)
    ensures |WithoutId(rows, id)| <= |rows|
    ensures forall r :: r in WithoutId(rows, id) <==> r in rows && r.id != id
    ensures |WithoutId(rows, id)| == |rows| <==> forall i :: 0 <= i < |rows| ==> rows[i].id != id
  {
    if rows != [] {
      WithoutIdFilters(rows[1..], id);
      assert forall r :: r in rows <==> r == rows[0] || r in rows[1..];
      if rows[0].id != id {
        forall i | 0 <= i < |rows| && rows[i].id == id ensures |WithoutId(rows[1..], id)| < |rows[1..]| {
          assert rows[1..][i - 1] == rows[i];
        }
      }
    }
  }

  /** Deleting works row by row, so the remaining rows keep their order. */
  lemma {:induction false} WithoutIdKeepsOrder(a: seq<Laptop>, b: seq<Laptop>, id: int)
    ensures WithoutId(a + b, id) == WithoutId(a, id) + WithoutId(b, id)
  {
    if a != [] {
      assert (a + b)[1..] == a[1..] + b;
      WithoutIdKeepsOrder(a[1..], b, id);
    } else {
      assert a + b == b;
    }
  }

  // ---------------------------------------------------------------------
  // The table
  // ---------------------------------------------------------------------

  /** The laptop table of the prediction service, updated in place by the CRUD endpoints.
      Saving the CSV and retraining the model after a change are left out. */
  class LaptopStore {
    var rows: seq<Laptop>

    /** The table as loaded, with the load-time id repair applied. */
    constructor (initial: seq<Laptop>)
      ensures rows == RepairIds(initial)
    {
      rows := initial;
      new;
      EnsureIdColumn();
    }

    /** _ensure_id_column: ids <= 0 are replaced, in row order, by consecutive ids above
        every existing one. */
    method EnsureIdColumn()
      modifies this
      ensures rows == RepairIds(old(rows))
    {
      if exists i :: 0 <= i < |rows| && rows[i].id <= 0 {
        var orig := rows;
        var start := RepairStart(orig);
        var next := start;
        var out: seq<Laptop> := [];
        for i := 0 to |orig|
          invariant out == Renumbered(orig[..i], start)
          invariant next == start + NonPositiveCount(orig[..i])
        {
          assert orig[..i + 1][..i] == orig[..i];
          NonPositiveCountStep(orig, i);
          var row := orig[i];
          if row.id <= 0 {
            row := row.(id := next);
            next := next + 1;
          }
          out := out + [row];
        }
        assert orig[..|orig|] == orig;
        rows := out;
      }
    }

    /** _next_id: one above the largest id, or 1 for an empty table. */
    method NextId() returns (id: int)
      modifies this
      ensures rows == RepairIds(old(rows))
      ensures id == if rows == [] then 1 else MaxId(rows) + 1
      ensures id >= 1 && forall i :: 0 <= i < |rows| ==> rows[i].id < id
    {
      EnsureIdColumn();
      RepairIdsAllPositive(old(rows));
      if |rows| > 0 {
        id := MaxId(rows) + 1;
      } else {
        id := 1;
      }
    }

    /** list_laptops: at most `limit` rows from position `offset` of the id order. */
    method ListLaptops(limit: int, offset: int) returns (page: seq<Laptop>)
      modifies this
      ensures rows == RepairIds(old(rows))
      ensures page == Page(rows, limit, offset)
      ensures SortedById(page) && (limit >= 0 ==> |page| <= limit)
    {
      EnsureIdColumn();
      page := PySlice(SortById(rows), offset, offset + limit);
      PageBoundedAndSorted(rows, limit, offset);
    }

    /** get_laptop: the first row with the id, or None. */
    method GetLaptop(itemId: int) returns (item: Option<Laptop>)
      modifies this
      ensures rows == RepairIds(old(rows))
      ensures item == Lookup(rows, itemId)
    {
      EnsureIdColumn();
      var k := FindFirst(rows, itemId);
      if k.None? {
        return None;
      }
      item := Some(rows[k.value]);
    }

    /** create_laptop: appends one row with a fresh id and returns it. */
    method CreateLaptop(data: LaptopInput) returns (row: Laptop)
      modifies this
      ensures rows == RepairIds(old(rows)) + [row]
      ensures row == NewRow(data, row.id)
      ensures row.id >= 1 && forall i :: 0 <= i < |rows| - 1 ==> rows[i].id < row.id
      ensures row.id == if RepairIds(old(rows)) == [] then 1 else MaxId(RepairIds(old(rows))) + 1
    {
      EnsureIdColumn();
      var newId := NextId();
      RepairIdsIdempotent(old(rows));
      row := NewRow(data, newId);
      rows := rows + [row];
    }

    /** update_laptop: patches the first row with the id; None and no change when there is none. */
    method UpdateLaptop(itemId: int, data: LaptopInput) returns (item: Option<Laptop>)
      modifies this
      ensures FindFirst(RepairIds(old(rows)), itemId).None? ==>
                item.None? && rows == RepairIds(old(rows))
      ensures FindFirst(RepairIds(old(rows)), itemId).Some? ==>
                var k := FindFirst(RepairIds(old(rows)), itemId).value;
                rows == RepairIds(old(rows))[k := Patched(RepairIds(old(rows))[k], data)] &&
                item == Some(rows[k])
    {
      EnsureIdColumn();
      var k := FindFirst(rows, itemId);
      if k.None? {
        return None;
      }
      var i := k.value;
      rows := rows[i := Patched(rows[i], data)];
      item := Some(rows[i]);
    }

    /** delete_laptop: removes every row with the id; false when there was none. */
    method DeleteLaptop(itemId: int) returns (removed: bool)
      modifies this
      ensures rows == WithoutId(RepairIds(old(rows)), itemId)
      ensures !removed <==> forall i :: 0 <= i < |RepairIds(old(rows))| ==> RepairIds(old(rows))[i].id != itemId
    {
      EnsureIdColumn();
      var before := |rows|;
      WithoutIdFilters(rows, itemId);
      rows := WithoutId(rows, itemId);
      removed := |rows| != before;
    }
  }
}
