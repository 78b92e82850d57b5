/** The scoreboard page (src/components/Leaderboard.js): each fetched
    record's cell list is folded into a column map, projected onto a row,
    and the rows are sorted in place by their stored `total`, highest
    first, then numbered from 1. */
module Leaderboard {
  import opened Wrappers
  import opened Cells
  import TypingSession
  import PlayerForm

  // ----- The cell fold (lines 38-41) -----

  /** `cells.reduce((acc, cell) => { acc[cell.columnId] = cell.value; ... }, {})`:
      the cells are written into the map in list order. */
  function CellMap(cells: seq<Cell>): map<string, Value>
  {
    if cells == [] then map[]
    else CellMap(cells[..|cells| - 1])[cells[|cells| - 1].columnId := cells[|cells| - 1].value]
  }

  /** The accumulating `reduce`, the map updated one cell at a time. */
  method FoldCells(cells: seq<Cell>) returns (acc: map<string, Value>)
    ensures acc == CellMap(cells)
  {
    acc := map[];
    var i := 0;
    while i < |cells|
      invariant 0 <= i <= |cells|
      invariant acc == CellMap(cells[..i])
    {
      assert cells[..i + 1][..i] == cells[..i];
      acc := acc[cells[i].columnId := cells[i].value];
      i := i + 1;
    }
    assert cells[..|cells|] == cells;
  }

  /** The map holds exactly the column ids that occur in the list. */
  lemma {:induction false} CellMapKeys(cells: seq<Cell>, id: string)
    ensures id in CellMap(cells) <==> exists i :: 0 <= i < |cells| && cells[i].columnId == id
  {
    if cells != [] {
      var init := cells[..|cells| - 1];
      CellMapKeys(init, id);
      if id in CellMap(init) {
        var i :| 0 <= i < |init| && init[i].columnId == id;
        assert cells[i].columnId == id;
      }
      if exists i :: 0 <= i < |cells| && cells[i].columnId == id {
        var i :| 0 <= i < |cells| && cells[i].columnId == id;
        if i < |init| {
          assert init[i].columnId == id;
        }
      }
    }
  }

  /** Last write wins: an id maps to the value of the last cell carrying it. */
  lemma {:induction false} CellMapLastWins(cells: seq<Cell>, i: int)
    requires 0 <= i < |cells|
    requires forall j :: i < j < |cells| ==> cells[j].columnId != cells[i].columnId
    ensures cells[i].columnId in CellMap(cells)
    ensures CellMap(cells)[cells[i].columnId] == cells[i].value
  {
    if i < |cells| - 1 {
      var init := cells[..|cells| - 1];
      assert init[i] == cells[i];
      CellMapLastWins(init, i);
    }
  }

  /** With distinct ids every cell survives the fold unchanged. */
  lemma DistinctCellMap(cells: seq<Cell>)
    requires DistinctIds(cells)
    ensures forall i :: 0 <= i < |cells| ==>
              cells[i].columnId in CellMap(cells) && CellMap(cells)[cells[i].columnId] == cells[i].value
  {
    forall i | 0 <= i < |cells|
      ensures cells[i].columnId in CellMap(cells) && CellMap(cells)[cells[i].columnId] == cells[i].value
    {
      CellMapLastWins(cells, i);
    }
  }

  // ----- The projection (lines 43-51) -----

  /** A scoreboard row. A missing column reads as `undefined` (`None`),
      and so does a number `parseFloat`/`parseInt` cannot read (`NaN`). */
  datatype Row = Row(
    firstName: Option<Value>, lastName: Option<Value>,
    cps: Option<real>, accuracy: Option<real>, time: Option<real>,
    numofchars: Option<int>, total: Option<real>)

  /** `cells[key]`. */
  function Lookup(m: map<string, Value>, key: string): Option<Value> {
    if key in m then Some(m[key]) else None
  }

  /** `parseFloat(v)`: a number is read back as itself; `undefined` is
      `NaN`. Text values are read as `NaN` as well. */
  function ParseFloat(v: Option<Value>): Option<real> {
    match v
    case Some(Num(n)) => Some(n)
    case _ => None
  }

  /** `parseInt(v)`: a number loses its fraction, rounding toward zero. */
  function ParseInt(v: Option<Value>): (r: Option<int>)
    ensures v.Some? && v.value.Num? ==> r.Some? && -1.0 < v.value.n - r.value as real < 1.0
    ensures v.Some? && v.value.Num? && v.value.n >= 0.0 ==> 0.0 <= v.value.n - r.value as real
    ensures v.Some? && v.value.Num? && v.value.n <= 0.0 ==> v.value.n - r.value as real <= 0.0
  {
    match v
    case Some(Num(n)) => Some(if n >= 0.0 then n.Floor else -((-n).Floor))
    case _ => None
  }

  /** An integer survives `parseInt` unchanged. */
  lemma ParseIntOfInteger(k: int)
    ensures ParseInt(Some(Num(k as real))) == Some(k)
  {
  }

  /** The row a record's cell map gives (the object literal of lines 43-51). */
  function Project(m: map<string, Value>): Row {
    Row(Lookup(m, "firstName"), Lookup(m, "lastName"),
        ParseFloat(Lookup(m, "cps")), ParseFloat(Lookup(m, "accuracy")),
        ParseFloat(Lookup(m, "time")), ParseInt(Lookup(m, "numofchars")),
        ParseFloat(Lookup(m, "total")))
  }

  /** The total is taken from the stored `total` cell alone: writing any
      other column, the score inputs included, leaves it as it was. */
  lemma TotalFromItsOwnCell(m: map<string, Value>, key: string, v: Value)
    requires key != "total"
    ensures Project(m[key := v]).total == Project(m).total
  {
  }

  /** The stored total, read as a number, is the row's total. */
  lemma TotalIsStored(m: map<string, Value>, t: real)
    requires "total" in m && m["total"] == Num(t)
    ensures Project(m).total == Some(t)
  {
  }

  /** `data.map(record => ...)`: one row per fetched record, in fetch order. */
  function Transform(records: seq<seq<Cell>>): (rows: seq<Row>)
    ensures |rows| == |records|
    ensures forall i :: 0 <= i < |records| ==> rows[i] == Project(CellMap(records[i]))
  {
    if records == [] then []
    else [Project(CellMap(records[0]))] + Transform(records[1..])
  }

  // ----- The sort (line 55) -----

  /** Every row has a numeric total (the comparator is only modelled on
      numbers). */
  predicate Scored(rows: seq<Row>) {
    forall i :: 0 <= i < |rows| ==> rows[i].total.Some?
  }

  function Key(r: Row): real
    requires r.total.Some?
  {
    r.total.value
  }

  /** Totals never increase from first to last. */
  predicate Descending(rows: seq<Row>)
    requires Scored(rows)
  {
    forall i, j :: 0 <= i < j < |rows| ==> Key(rows[i]) >= Key(rows[j])
  }

  /** Places `x` behind every row of `t`, from the back, that has a smaller
      total: the insertion step of a stable descending sort. */
  function InsertDesc(t: seq<Row>, x: Row): (r: seq<Row>)
    requires Scored(t) && x.total.Some?
    ensures |r| == |t| + 1 && Scored(r)
  {
    if t == [] || Key(t[|t| - 1]) >= Key(x) then t + [x]
    else InsertDesc(t[..|t| - 1], x) + [t[|t| - 1]]
  }

  /** `rows.sort((a, b) => b.total - a.total)` as a function: a stable
      insertion sort, highest total first. */
  function SortByTotal(s: seq<Row>): (r: seq<Row>)
    requires Scored(s)
    ensures |r| == |s| && Scored(r)
  {
    if s == [] then []
    else InsertDesc(SortByTotal(s[..|s| - 1]), s[|s| - 1])
  }

  /** Inserting `x` at position `j` of `t`, when the rows before `j` do not
      rank below `x` and the rows from `j` on all do. */
  lemma {:induction false} InsertAt(t: seq<Row>, x: Row, j: int)
    requires Scored(t) && x.total.Some?
    requires 0 <= j <= |t|
    requires j == 0 || Key(t[j - 1]) >= Key(x)
    requires forall k :: j <= k < |t| ==> Key(t[k]) < Key(x)
    ensures InsertDesc(t, x) == t[..j] + [x] + t[j..]
    decreases |t| - j
  {
    if j < |t| {
      var init := t[..|t| - 1];
      assert init[..j] == t[..j];
      if j > 0 {
        assert init[j - 1] == t[j - 1];
      }
      InsertAt(init, x, j);
      assert t[j..] == init[j..] + [t[|t| - 1]];
    } else {
      assert t[..j] == t;
    }
  }

  lemma {:induction false} InsertPermutes(t: seq<Row>, x: Row)
    requires Scored(t) && x.total.Some?
    ensures multiset(InsertDesc(t, x)) == multiset(t) + multiset{x}
  {
    if t != [] && Key(t[|t| - 1]) < Key(x) {
      var init := t[..|t| - 1];
      InsertPermutes(init, x);
      assert t == init + [t[|t| - 1]];
    }
  }

  /** The sort is a permutation of its input. */
  lemma {:induction false} SortPermutes(s: seq<Row>)
    requires Scored(s)
    ensures multiset(SortByTotal(s)) == multiset(s)
  {
    if s != [] {
      var init := s[..|s| - 1];
      SortPermutes(init);
      InsertPermutes(SortByTotal(init), s[|s| - 1]);
      assert s == init + [s[|s| - 1]];
    }
  }

  lemma {:induction false} InsertKeepsDescending(t: seq<Row>, x: Row)
    requires Scored(t) && x.total.Some? && Descending(t)
    ensures Descending(InsertDesc(t, x))
  {
    if t != [] && Key(t[|t| - 1]) < Key(x) {
      var init := t[..|t| - 1];
      InsertKeepsDescending(init, x);
      InsertPermutes(init, x);
      var r := InsertDesc(init, x);
      forall i | 0 <= i < |r| ensures Key(r[i]) >= Key(t[|t| - 1]) {
        assert r[i] in multiset(r);
        if r[i] != x {
          assert r[i] in multiset(init);
          var k :| 0 <= k < |init| && init[k] == r[i];
          assert t[k] == init[k];
        }
      }
    }
  }

  /** After the sort the totals never increase from first to last. */
  lemma {:induction false} SortIsDescending(s: seq<Row>)
    requires Scored(s)
    ensures Descending(SortByTotal(s))
  {
    if s != [] {
      SortIsDescending(s[..|s| - 1]);
      InsertKeepsDescending(SortByTotal(s[..|s| - 1]), s[|s| - 1]);
    }
  }

  /** The rows of `s` whose total is `k`, in their order in `s`. */
  function WithTotal(s: seq<Row>, k: real): seq<Row> {
    if s == [] then []
    else WithTotal(s[..|s| - 1], k) + (if s[|s| - 1].total == Some(k) then [s[|s| - 1]] else [])
  }

  lemma {:induction false} WithTotalAppend(a: seq<Row>, b: seq<Row>, k: real)
    ensures WithTotal(a + b, k) == WithTotal(a, k) + WithTotal(b, k)
    decreases |b|
  {
    if b != [] {
      var init := b[..|b| - 1];
      assert (a + b)[..|a + b| - 1] == a + init;
      WithTotalAppend(a, init, k);
    } else {
      assert a + b == a;
    }
  }

  lemma {:induction false} WithTotalNone(s: seq<Row>, k: real)
    requires forall i :: 0 <= i < |s| ==> s[i].total != Some(k)
    ensures WithTotal(s, k) == []
  {
    if s != [] {
      WithTotalNone(s[..|s| - 1], k);
    }
  }

  lemma InsertStable(t: seq<Row>, x: Row, k: real)
    requires Scored(t) && x.total.Some?
    ensures WithTotal(InsertDesc(t, x), k) == WithTotal(t, k) + WithTotal([x], k)
  {
    var j := InsertPoint(t, x);
    InsertAt(t, x, j);
    assert t == t[..j] + t[j..];
    WithTotalAppend(t[..j], t[j..], k);
    WithTotalAppend(t[..j] + [x], t[j..], k);
    WithTotalAppend(t[..j], [x], k);
    if x.total == Some(k) {
      WithTotalNone(t[j..], k);
    } else {
      assert WithTotal([x], k) == [] by {
        assert [x][..0] == [];
      }
    }
  }

  /** Where `InsertDesc` puts `x`. */
  lemma {:induction false} InsertPoint(t: seq<Row>, x: Row) returns (j: int)
    requires Scored(t) && x.total.Some?
    ensures 0 <= j <= |t|
    ensures j == 0 || Key(t[j - 1]) >= Key(x)
    ensures forall k :: j <= k < |t| ==> Key(t[k]) < Key(x)
  {
    j := |t|;
    while j > 0 && Key(t[j - 1]) < Key(x)
      invariant 0 <= j <= |t|
      invariant forall k :: j <= k < |t| ==> Key(t[k]) < Key(x)
    {
      j := j - 1;
    }
  }

  /** Stability: rows with the same total keep their fetch order. */
  lemma {:induction false} SortIsStable(s: seq<Row>, k: real)
    requires Scored(s)
    ensures WithTotal(SortByTotal(s), k) == WithTotal(s, k)
  {
    if s != [] {
      var init, last := s[..|s| - 1], s[|s| - 1];
      SortIsStable(init, k);
      InsertStable(SortByTotal(init), last, k);
      assert [last][..0] == [];
    }
  }

  /** One insertion step in place: `a[i]` moves down past the rows of
      strictly smaller total in the sorted prefix `a[..i]`, which shift up
      by one. */
  method InsertInPlace(a: array<Row>, i: int)
    requires 0 <= i < a.Length && Scored(a[..i]) && a[i].total.Some?
    modifies a
    ensures a[..i + 1] == InsertDesc(old(a[..i]), old(a[i]))
    ensures a[i + 1..] == old(a[i + 1..])
  {
    var x := a[i];
    ghost var t := a[..i];
    var j := i;
    while j > 0 && Key(a[j - 1]) < Key(x)
      invariant 0 <= j <= i
      invariant a[..j] == t[..j]
      invariant a[j + 1..i + 1] == t[j..]
      invariant a[i + 1..] == old(a[i + 1..])
      invariant forall k :: j <= k < i ==> Key(t[k]) < Key(x)
    {
      a[j] := a[j - 1];
      j := j - 1;
    }
    a[j] := x;
    InsertAt(t, x, j);
    assert a[..i + 1] == t[..j] + [x] + t[j..];
  }

  /** The in-place sort: an insertion sort that shifts a row only past rows
      of strictly smaller total. */
  method SortByTotalInPlace(a: array<Row>)
    requires Scored(a[..])
    modifies a
    ensures a[..] == SortByTotal(old(a[..]))
  {
    ghost var orig := a[..];
    var i := 0;
    while i < a.Length
      invariant 0 <= i <= a.Length
      invariant a[..i] == SortByTotal(orig[..i])
      invariant a[i..] == orig[i..]
    {
      assert orig[..i + 1][..i] == orig[..i];
      assert a[i] == orig[i];
      InsertInPlace(a, i);
      i := i + 1;
    }
    assert orig[..a.Length] == orig;
  }

  // ----- Ranking (lines 115-117) -----

  datatype RankedRow = RankedRow(rank: nat, row: Row)

  /** The displayed table: the row at index `i` is shown with rank `i + 1`. */
  function Ranked(rows: seq<Row>): (r: seq<RankedRow>)
    ensures |r| == |rows|
    ensures forall i :: 0 <= i < |r| ==> r[i].row == rows[i]
  {
    seq(|rows|, i requires 0 <= i < |rows| => RankedRow(i + 1, rows[i]))
  }

  /** The ranks run from 1 to n, strictly increasing down the table, so
      each of 1..n is shown exactly once. */
  lemma RanksAreOneToN(rows: seq<Row>)
    ensures forall i :: 0 <= i < |rows| ==> 1 <= Ranked(rows)[i].rank <= |rows|
    ensures forall i, j :: 0 <= i < j < |rows| ==> Ranked(rows)[i].rank < Ranked(rows)[j].rank
    ensures |rows| > 0 ==> Ranked(rows)[0].rank == 1 && Ranked(rows)[|rows| - 1].rank == |rows|
  {
  }

  // ----- Decoding, end to end -----

  /** The table the page shows: the records projected in fetch order, then
      sorted in place. */
  method LoadResults(records: seq<seq<Cell>>) returns (results: array<Row>)
    requires Scored(Transform(records))
    ensures fresh(results)
    ensures results[..] == SortByTotal(Transform(records))
  {
    var rows := Transform(records);
    results := new Row[|rows|](i requires 0 <= i < |rows| => rows[i]);
    assert results[..] == rows;
    SortByTotalInPlace(results);
  }

  /** The column ids of the record posted after a game. */
  const SubmittedIds: set<string> :=
    {"firstName", "lastName", "email", "jobTitle", "companyName",
     "cps", "accuracy", "time", "numofchars"}

  /** Folding the posted record gives a map with exactly its nine column
      ids, each carrying the value that was posted under it. */
  lemma SubmissionFolds(user: PlayerForm.Form, cpsTenths: int, accuracy: int,
                        elapsedMs: int, numofchars: nat)
    ensures var cells := TypingSession.ResultCells(user, cpsTenths, accuracy, elapsedMs, numofchars);
            var m := CellMap(cells);
            && m.Keys == SubmittedIds
            && (forall i :: 0 <= i < |cells| ==> m[cells[i].columnId] == cells[i].value)
  {
    var cells := TypingSession.ResultCells(user, cpsTenths, accuracy, elapsedMs, numofchars);
    var m := CellMap(cells);
    DistinctCellMap(cells);
    assert forall i :: 0 <= i < |cells| ==> cells[i].columnId in SubmittedIds;
    forall id | id in m ensures id in SubmittedIds {
      CellMapKeys(cells, id);
    }
    assert cells[0].columnId == "firstName" && cells[1].columnId == "lastName";
    assert cells[2].columnId == "email" && cells[3].columnId == "jobTitle";
    assert cells[4].columnId == "companyName" && cells[5].columnId == "cps";
    assert cells[6].columnId == "accuracy" && cells[7].columnId == "time";
    assert cells[8].columnId == "numofchars";
  }

  /** The record posted after a game reads back, once folded and
      projected, as the submitted values; it carries no total. */
  lemma SubmissionReadsBack(user: PlayerForm.Form, cpsTenths: int, accuracy: int,
                            elapsedMs: int, numofchars: nat)
    ensures Project(CellMap(TypingSession.ResultCells(user, cpsTenths, accuracy, elapsedMs, numofchars)))
            == Row(Some(Str(user.firstName)), Some(Str(user.lastName)),
                   Some(cpsTenths as real / 10.0), Some(accuracy as real),
                   Some(elapsedMs as real / 1000.0), Some(numofchars), None)
  {
    var cells := TypingSession.ResultCells(user, cpsTenths, accuracy, elapsedMs, numofchars);
    var m := CellMap(cells);
    SubmissionFolds(user, cpsTenths, accuracy, elapsedMs, numofchars);
    ParseIntOfInteger(numofchars);
    assert m["firstName"] == cells[0].value && m["lastName"] == cells[1].value;
    assert m["cps"] == cells[5].value && m["accuracy"] == cells[6].value;
    assert m["time"] == cells[7].value && m["numofchars"] == cells[8].value;
  }
}
