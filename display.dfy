/**
 * The dataset table: the header built from the variable names of the groups,
 * the shortened text of each value, and the table of all rows with the header
 * repeated every 50 rows, alternating row classes and a trailing error cell.
 */
module Display {
  import opened JsStrings
  import opened JsValues
  import opened Groups

  // ---------------------------------------------------------------------------
  // getDatasetShorten
  // ---------------------------------------------------------------------------

  /** The shorter of `x.toPrecision(4)` and `'' + x`; on a tie the full text. */
  function ShortNumber(fmt: NumberFormat, x: Double): (r: string)
    ensures r == fmt.precision4(x) || r == fmt.show(x)
    ensures |r| <= |fmt.show(x)| && |r| <= |fmt.precision4(x)|
    ensures |fmt.precision4(x)| < |fmt.show(x)| <==> r != fmt.show(x)
  {
    if |fmt.precision4(x)| < |fmt.show(x)| then fmt.precision4(x) else fmt.show(x)
  }

  /** A number, shortened, with its full text as the tooltip. */
  function NumberSpan(fmt: NumberFormat, x: Double): string {
    "<span title=\"" + fmt.show(x) + "\">" + ShortNumber(fmt, x) + "</span>"
  }

  /**
   * One element of an array value: a string is shown as it is, a number as a
   * span; any other element has no `toPrecision` and the call throws.
   */
  function ItemText(fmt: NumberFormat, v: Value): Result<string> {
    match v
    case Str(s) => Ok(s)
    case Num(x) => Ok(NumberSpan(fmt, x))
    case _ => TypeError
  }

  /** The texts of the elements of an array value, or the TypeError of the first one that has none. */
  function ItemsText(fmt: NumberFormat, items: seq<Value>): (r: Result<seq<string>>)
    ensures r.Ok? <==> forall k :: 0 <= k < |items| ==> ItemText(fmt, items[k]).Ok?
    ensures r.Ok? ==> |r.value| == |items| && forall k :: 0 <= k < |items| ==> r.value[k] == ItemText(fmt, items[k]).value
  {
    if items == [] then Ok([])
    else match ItemsText(fmt, items[..|items| - 1])
      case TypeError => TypeError
      case Ok(front) =>
        match ItemText(fmt, items[|items| - 1])
        case TypeError => TypeError
        case Ok(t) => Ok(front + [t])
  }

  /** What `getDatasetShorten(elem)` returns, or the TypeError it raises. */
  function ShortenOf(fmt: NumberFormat, elem: Value): Result<string> {
    match elem
    case Arr(items) =>
      (match ItemsText(fmt, items)
       case TypeError => TypeError
       case Ok(texts) => Ok(Join(", ", texts)))
    case Str(s) => Ok("<span title=\"" + s + "\">" + s + "</span>")
    case Num(x) => Ok(NumberSpan(fmt, x))
    case _ => TypeError
  }

  /** `getDatasetShorten(elem)` (editing.js:484-506). */
  method Shorten(fmt: NumberFormat, elem: Value) returns (r: Result<string>)
    ensures r == ShortenOf(fmt, elem)
  {
    if elem.Arr? {
      var parts: seq<string> := [];
      for k := 0 to |elem.items|
        invariant ItemsText(fmt, elem.items[..k]) == Ok(parts)
      {
        assert elem.items[..k + 1][..k] == elem.items[..k];
        var item := elem.items[k];
        if item.Str? {
          parts := parts + [item.s];
        } else if item.Num? {
          parts := parts + [NumberSpan(fmt, item.x)];
        } else {
          ItemsTextThrows(fmt, elem.items, k);
          return TypeError;
        }
      }
      assert elem.items[..|elem.items|] == elem.items;
      return Ok(Join(", ", parts));
    } else if elem.Str? {
      return Ok("<span title=\"" + elem.s + "\">" + elem.s + "</span>");
    } else if elem.Num? {
      return Ok(NumberSpan(fmt, elem.x));
    } else {
      return TypeError;
    }
  }

  lemma ItemsTextThrows(fmt: NumberFormat, items: seq<Value>, k: nat)
    requires k < |items| && ItemText(fmt, items[k]).TypeError?
    ensures ItemsText(fmt, items).TypeError?
  {
  }

  /** An array of strings is shown as the strings themselves, separated by `, `. */
  lemma ShortenStrings(fmt: NumberFormat, ss: seq<string>)
    ensures ShortenOf(fmt, Arr(seq(|ss|, k requires 0 <= k < |ss| => Str(ss[k])))) == Ok(Join(", ", ss))
  {
    var items := seq(|ss|, k requires 0 <= k < |ss| => Str(ss[k]));
    assert forall k :: 0 <= k < |items| ==> ItemText(fmt, items[k]) == Ok(ss[k]);
    assert ItemsText(fmt, items).value == ss;
  }

  /** A null or undefined value, or an array holding one, cannot be shortened. */
  lemma ShortenMissing(fmt: NumberFormat, elem: Value, k: nat)
    requires elem.Null? || elem.Undefined? || (elem.Arr? && k < |elem.items| && (elem.items[k].Null? || elem.items[k].Undefined?))
    ensures ShortenOf(fmt, elem).TypeError?
  {
  }

  // ---------------------------------------------------------------------------
  // The cells of one row
  // ---------------------------------------------------------------------------

  /** One data cell; a value that cannot be shortened leaves the cell empty. */
  function Cell(fmt: NumberFormat, v: Value): string {
    "<td>" + (match ShortenOf(fmt, v) case Ok(t) => t case TypeError => "") + "</td>"
  }

  function CellsOf(fmt: NumberFormat, vs: seq<Value>): string {
    if vs == [] then "" else CellsOf(fmt, vs[..|vs| - 1]) + Cell(fmt, vs[|vs| - 1])
  }

  /** The cells of the taken groups, group after group. */
  function TakenCells(fmt: NumberFormat, taken: seq<Aligned>): string {
    if taken == [] then "" else TakenCells(fmt, taken[..|taken| - 1]) + CellsOf(fmt, taken[|taken| - 1].values)
  }

  lemma TakenCellsStep(fmt: NumberFormat, taken: seq<Aligned>, grp: Aligned)
    ensures TakenCells(fmt, taken + [grp]) == TakenCells(fmt, taken) + CellsOf(fmt, grp.values)
  {
    assert (taken + [grp])[..|taken|] == taken;
  }

  /** The cells of one row, or the TypeError raised while they are produced. */
  function RowCells(check: NullCheck, fmt: NumberFormat, names: Names, row: Row, groups: seq<string>): Result<string> {
    var w := Walk(check, names, Some(row), groups);
    if w.status == Threw then TypeError else Ok(TakenCells(fmt, w.taken))
  }

  /** One `<td>` per value, in order. */
  method RenderCells(fmt: NumberFormat, row: string, vs: seq<Value>) returns (r: string)
    ensures r == row + CellsOf(fmt, vs)
  {
    r := row;
    for j := 0 to |vs|
      invariant r == row + CellsOf(fmt, vs[..j])
    {
      var t := Shorten(fmt, vs[j]);
      var cell := "<td>" + (if t.Ok? then t.value else "") + "</td>";
      assert cell == Cell(fmt, vs[j]);
      CellsStep(fmt, vs, j);
      r := r + cell;
    }
    assert vs[..|vs|] == vs;
  }

  lemma CellsStep(fmt: NumberFormat, vs: seq<Value>, j: nat)
    requires j < |vs|
    ensures CellsOf(fmt, vs[..j + 1]) == CellsOf(fmt, vs[..j]) + Cell(fmt, vs[j])
  {
    assert vs[..j + 1][..j] == vs[..j];
  }

  /** The loop over the groups of one row (editing.js:454-471). */
  method RenderRow(check: NullCheck, fmt: NumberFormat, names: Names, row: Row, groups: seq<string>)
    returns (r: Result<string>)
    ensures r == RowCells(check, fmt, names, row, groups)
  {
    var cells := "";
    ghost var taken: seq<Aligned> := [];
    var i := 0;
    while i < |groups|
      invariant 0 <= i <= |groups|
      invariant Walk(check, names, Some(row), groups[..i]) == Walked(taken, Going)
      invariant cells == TakenCells(fmt, taken)
    {
      ghost var a := Classify(check, names, Some(row), groups[i]);
      var n := Get(names, groups[i]);
      if EntryIsNull(check, n) {
        WalkStep(check, names, Some(row), groups, i);
        i := i + 1;
        continue;
      }
      var subset := Get(row, groups[i]);
      if EntryIsNull(check, subset) {
        WalkHaltsAt(check, names, Some(row), groups, i);
        return Ok(cells);
      }
      if subset.Absent? || n.Absent? {
        WalkHaltsAt(check, names, Some(row), groups, i);
        return TypeError;
      }
      if |subset.value| != |n.value| {
        WalkHaltsAt(check, names, Some(row), groups, i);
        return Ok(cells);
      }
      assert a == Take(Group(n.value, subset.value));
      WalkStep(check, names, Some(row), groups, i);
      TakenCellsStep(fmt, taken, Group(n.value, subset.value));
      cells := RenderCells(fmt, cells, subset.value);
      taken := taken + [Group(n.value, subset.value)];
      i := i + 1;
    }
    assert groups[..i] == groups;
    r := Ok(cells);
  }

  /** A group whose data is null or too short or too long ends the row: later groups add no cells. */
  lemma RowStopsAt(check: NullCheck, fmt: NumberFormat, names: Names, row: Row, before: seq<string>, g: string, after: seq<string>)
    requires Walk(check, names, Some(row), before).status == Going
    requires Classify(check, names, Some(row), g) == Stop
    ensures RowCells(check, fmt, names, row, before + [g] + after) == RowCells(check, fmt, names, row, before)
  {
    StopKeepsEarlier(check, names, Some(row), before, g, after);
  }

  // ---------------------------------------------------------------------------
  // getDatasetDisplayHeader
  // ---------------------------------------------------------------------------

  function HeaderCells(ns: seq<string>): seq<string> {
    seq(|ns|, i requires 0 <= i < |ns| => "<th>" + ns[i] + "</th>")
  }

  /**
   * The header part of one group, or the TypeError of mapping over an absent
   * entry; the filter on `!!value` drops both null and the empty string.
   */
  function GroupHeader(check: NullCheck, e: Entry<seq<string>>): Result<Option<string>> {
    if EntryIsNull(check, e) then Ok(None)
    else if e.Absent? then TypeError
    else Ok(Some(Join("\n", HeaderCells(e.value))))
  }

  /** The header parts that survive the filter, in group order. */
  function HeaderParts(check: NullCheck, names: Names, groups: seq<string>): Result<seq<string>> {
    if groups == [] then Ok([])
    else match HeaderParts(check, names, groups[..|groups| - 1])
      case TypeError => TypeError
      case Ok(front) =>
        match GroupHeader(check, Get(names, groups[|groups| - 1]))
        case TypeError => TypeError
        case Ok(p) => if p.Some? && p.value != "" then Ok(front + [p.value]) else Ok(front)
  }

  /** `getDatasetDisplayHeader(names, groupNames)` (editing.js:433-441). */
  function HeaderOf(check: NullCheck, names: Names, groups: seq<string>): Result<string> {
    match HeaderParts(check, names, groups)
    case TypeError => TypeError
    case Ok(parts) => Ok(Join("\n", parts))
  }

  /** The `<th>` cells of all the groups whose names are not null, in group order. */
  function AllHeaderCells(check: NullCheck, names: Names, groups: seq<string>): seq<string> {
    if groups == [] then []
    else
      var e := Get(names, groups[|groups| - 1]);
      AllHeaderCells(check, names, groups[..|groups| - 1])
        + (if e.Present? then HeaderCells(e.value) else [])
  }

  lemma HeaderCellsNonEmpty(ns: seq<string>)
    ensures forall i :: 0 <= i < |HeaderCells(ns)| ==> HeaderCells(ns)[i] != []
    ensures Join("\n", HeaderCells(ns)) == [] <==> ns == []
  {
    JoinNonEmpty("\n", HeaderCells(ns));
  }

  /**
   * The header is the `<th>` cell of every variable of every listed group,
   * one per line: joining per group and then joining the groups' non-empty
   * parts is the same as joining all the cells at once.
   */
  lemma {:induction false} HeaderIsAllCells(check: NullCheck, names: Names, groups: seq<string>)
    requires HeaderOf(check, names, groups).Ok?
    ensures HeaderOf(check, names, groups) == Ok(Join("\n", AllHeaderCells(check, names, groups)))
    ensures HeaderParts(check, names, groups).value == [] <==> AllHeaderCells(check, names, groups) == []
  {
    if groups != [] {
      var front := groups[..|groups| - 1];
      var e := Get(names, groups[|groups| - 1]);
      HeaderIsAllCells(check, names, front);
      var parts := HeaderParts(check, names, front).value;
      var cells := AllHeaderCells(check, names, front);
      if e.Present? {
        var hc := HeaderCells(e.value);
        HeaderCellsNonEmpty(e.value);
        assert AllHeaderCells(check, names, groups) == cells + hc;
        assert GroupHeader(check, e) == Ok(Some(Join("\n", hc)));
        if hc != [] && cells != [] {
          JoinAppend("\n", parts, [Join("\n", hc)]);
          JoinAppend("\n", cells, hc);
        } else if hc != [] {
          assert parts == [];
          assert [] + [Join("\n", hc)] == [Join("\n", hc)];
          assert cells + hc == hc;
        } else {
          assert cells + hc == cells;
        }
      } else {
        assert cells + [] == cells;
      }
    }
  }

  /** The header is built only from groups whose names are listed; under `=== null` an absent one makes it throw. */
  lemma HeaderThrowsOnAbsentGroup(names: Names, before: seq<string>, g: string, after: seq<string>)
    requires g !in names
    ensures HeaderOf(StrictNull, names, before + [g] + after).TypeError?
    ensures HeaderOf(LooseNull, names, before + [g] + after).Ok?
  {
    HeaderPartsThrowFrom(names, before, g, after);
    LooseHeaderNeverThrows(names, before + [g] + after);
  }

  lemma {:induction false} HeaderPartsThrowFrom(names: Names, before: seq<string>, g: string, after: seq<string>)
    requires g !in names
    ensures HeaderParts(StrictNull, names, before + [g] + after).TypeError?
  {
    if after == [] {
      assert (before + [g] + after)[..|before|] == before;
    } else {
      var front := after[..|after| - 1];
      assert (before + [g] + after)[..|before + [g] + after| - 1] == before + [g] + front;
      HeaderPartsThrowFrom(names, before, g, front);
    }
  }

  lemma {:induction false} LooseHeaderNeverThrows(names: Names, groups: seq<string>)
    ensures HeaderParts(LooseNull, names, groups).Ok?
    ensures HeaderOf(LooseNull, names, groups).Ok?
  {
    if groups != [] {
      LooseHeaderNeverThrows(names, groups[..|groups| - 1]);
    }
  }

  // ---------------------------------------------------------------------------
  // getDatasetDisplay
  // ---------------------------------------------------------------------------

  const TableOpen: string := "<table border=\"1\" width=\"100%\" cellpadding=\"3\">"

  /** The header line as it is repeated: the header cells, then the same cells wrapped in a row. */
  function RepeatedHeader(h: string): string {
    h + "<tr>" + h + "</tr>"
  }

  /** The trailing cell of row `k`: an empty error adds none, a missing one reads `undefined`. */
  function ErrorCell(errors: seq<string>, k: nat): (r: string)
    ensures r != "" <==> k >= |errors| || errors[k] != ""
  {
    if k < |errors| then (if errors[k] != "" then "<td>" + errors[k] + "</td>" else "")
    else "<td>undefined</td>"
  }

  /** The `<tr>` of row `k`, striped by its parity, with the row's cells and its error cell. */
  function RowLine(k: nat, cells: string, errors: seq<string>): string {
    "<tr class=\"r" + Decimal(k % 2) + "\">" + cells + ErrorCell(errors, k) + "</tr>"
  }

  /** Row `k` of the table, preceded by the header when `k` is a multiple of 50. */
  function Piece(k: nat, header: string, cells: string, errors: seq<string>): string {
    (if k % 50 == 0 then header else "") + RowLine(k, cells, errors)
  }

  /** The outcome of every row of the table, in order. */
  function RowResults(check: NullCheck, fmt: NumberFormat, names: Names, lists: seq<Row>, groups: seq<string>)
    : (r: seq<Result<string>>)
    ensures |r| == |lists|
    ensures forall k :: 0 <= k < |lists| ==> r[k] == RowCells(check, fmt, names, lists[k], groups)
  {
    seq(|lists|, k requires 0 <= k < |lists| => RowCells(check, fmt, names, lists[k], groups))
  }

  /** The first `n` rows of the table, given the outcome of each row. */
  function RowsOf(header: string, errors: seq<string>, rows: seq<Result<string>>, n: nat): Result<string>
    requires n <= |rows|
  {
    if n == 0 then Ok("")
    else match RowsOf(header, errors, rows, n - 1)
      case TypeError => TypeError
      case Ok(s) =>
        match rows[n - 1]
        case TypeError => TypeError
        case Ok(cells) => Ok(s + Piece(n - 1, header, cells, errors))
  }

  /** What `getDatasetDisplay(names, lists, errors, groupnames)` returns, or the TypeError it raises. */
  function DatasetDisplayOf(check: NullCheck, fmt: NumberFormat, names: Names, lists: seq<Row>, errors: seq<string>,
                            groups: seq<string>): Result<string> {
    match HeaderOf(check, names, groups)
    case TypeError => TypeError
    case Ok(h) =>
      match RowsOf(RepeatedHeader(h), errors, RowResults(check, fmt, names, lists, groups), |lists|)
      case TypeError => TypeError
      case Ok(s) => Ok(TableOpen + s + "</table>")
  }

  /** `getDatasetDisplay(names, lists, errors, groupnames)` (editing.js:444-481). */
  method RenderDatasetDisplay(check: NullCheck, fmt: NumberFormat, names: Names, lists: seq<Row>, errors: seq<string>,
                              groups: seq<string>) returns (r: Result<string>)
    ensures r == DatasetDisplayOf(check, fmt, names, lists, errors, groups)
  {
    var h := HeaderOf(check, names, groups);
    if h.TypeError? {
      return TypeError;
    }
    var header := h.value + "<tr>" + h.value + "</tr>";
    ghost var rows := RowResults(check, fmt, names, lists, groups);
    var s := "";
    for count := 0 to |lists|
      invariant RowsOf(header, errors, rows, count) == Ok(s)
    {
      var row := RenderRow(check, fmt, names, lists[count], groups);
      assert row == rows[count];
      if row.TypeError? {
        RowThrowsTable(header, errors, rows, count);
        return TypeError;
      }
      var line := RenderLine(count, header, row.value, errors);
      s := s + line;
    }
    r := Ok(TableOpen + s + "</table>");
  }

  /** One table row with the header before it where it is repeated (editing.js:450-452, 473-477). */
  method RenderLine(count: nat, header: string, cells: string, errors: seq<string>) returns (line: string)
    ensures line == Piece(count, header, cells, errors)
  {
    var lead := "";
    if count % 50 == 0 {
      lead := header;
    }
    var error := "";
    if count >= |errors| || errors[count] != "" {
      error := "<td>" + (if count < |errors| then errors[count] else "undefined") + "</td>";
    }
    assert error == ErrorCell(errors, count);
    var tr := "<tr class=\"r" + Decimal(count % 2) + "\">" + cells + error + "</tr>";
    line := lead + tr;
  }

  /** Once a row throws, the whole table does. */
  lemma {:induction false} RowsThrow(header: string, errors: seq<string>, rows: seq<Result<string>>, k: nat, n: nat)
    requires k <= n <= |rows| && RowsOf(header, errors, rows, k).TypeError?
    ensures RowsOf(header, errors, rows, n).TypeError?
  {
    if k < n {
      RowsThrow(header, errors, rows, k, n - 1);
    }
  }

  /** A row that throws makes the whole table throw. */
  lemma RowThrowsTable(header: string, errors: seq<string>, rows: seq<Result<string>>, k: nat)
    requires k < |rows| && rows[k].TypeError?
    ensures RowsOf(header, errors, rows, |rows|).TypeError?
  {
    if RowsOf(header, errors, rows, k).Ok? {
      RowsThrow(header, errors, rows, k + 1, |rows|);
    } else {
      RowsThrow(header, errors, rows, k, |rows|);
    }
  }

  /** The cells of a row that does not throw. */
  function RowText(row: Result<string>): string {
    match row
    case Ok(cells) => cells
    case TypeError => ""
  }

  /** Row `k` of the table, for every `k` below `n`. */
  function TablePieces(header: string, errors: seq<string>, rows: seq<Result<string>>, n: nat): (r: seq<string>)
    requires n <= |rows|
    ensures |r| == n
  {
    seq(n, k requires 0 <= k < n => Piece(k, header, RowText(rows[k]), errors))
  }

  /** The first `n` rows are produced exactly when none of them throws. */
  lemma {:induction false} RowsOkIff(header: string, errors: seq<string>, rows: seq<Result<string>>, n: nat)
    requires n <= |rows|
    ensures RowsOf(header, errors, rows, n).Ok? <==> forall k :: 0 <= k < n ==> rows[k].Ok?
  {
    if n > 0 {
      RowsOkIff(header, errors, rows, n - 1);
      var front := RowsOf(header, errors, rows, n - 1);
      if front.TypeError? {
        assert RowsOf(header, errors, rows, n).TypeError?;
        var k :| 0 <= k < n - 1 && rows[k].TypeError?;
      } else if rows[n - 1].TypeError? {
        assert RowsOf(header, errors, rows, n).TypeError?;
      } else {
        assert RowsOf(header, errors, rows, n).Ok?;
        assert forall k :: 0 <= k < n - 1 ==> rows[k].Ok?;
        forall k | 0 <= k < n ensures rows[k].Ok? {
          if k == n - 1 {
            assert rows[n - 1].Ok?;
          }
        }
      }
    }
  }

  /** A produced table of `n` rows extends the one of `n - 1` rows by row `n - 1`. */
  lemma RowsStep(header: string, errors: seq<string>, rows: seq<Result<string>>, n: nat)
    requires 0 < n <= |rows| && RowsOf(header, errors, rows, n).Ok?
    ensures RowsOf(header, errors, rows, n - 1).Ok? && rows[n - 1].Ok?
    ensures RowsOf(header, errors, rows, n).value
         == RowsOf(header, errors, rows, n - 1).value + Piece(n - 1, header, RowText(rows[n - 1]), errors)
  {
  }

  lemma PiecesAppend(header: string, errors: seq<string>, rows: seq<Result<string>>, n: nat)
    requires 0 < n <= |rows|
    ensures TablePieces(header, errors, rows, n)
         == TablePieces(header, errors, rows, n - 1) + [Piece(n - 1, header, RowText(rows[n - 1]), errors)]
  {
    var a := TablePieces(header, errors, rows, n);
    var front := TablePieces(header, errors, rows, n - 1);
    var b := front + [Piece(n - 1, header, RowText(rows[n - 1]), errors)];
    forall i | 0 <= i < n ensures a[i] == b[i] {
      if i < n - 1 {
        assert b[i] == front[i];
      }
    }
  }

  /** The rows, once produced, are the pieces of the table one after the other. */
  lemma {:induction false} RowsArePieces(header: string, errors: seq<string>, rows: seq<Result<string>>, n: nat)
    requires n <= |rows| && RowsOf(header, errors, rows, n).Ok?
    ensures RowsOf(header, errors, rows, n).value == Concat(TablePieces(header, errors, rows, n))
  {
    if n > 0 {
      RowsStep(header, errors, rows, n);
      RowsArePieces(header, errors, rows, n - 1);
      var front := TablePieces(header, errors, rows, n - 1);
      var last := Piece(n - 1, header, RowText(rows[n - 1]), errors);
      PiecesAppend(header, errors, rows, n);
      ConcatAppend(front, [last]);
      assert Concat([last]) == last + Concat([]);
      assert RowsOf(header, errors, rows, n).value == Concat(front) + last;
    }
  }

  /**
   * The table is produced exactly when the header and every row are; it is
   * then one `<table>` holding, for each entry of the list, its row (with the
   * repeated header before rows 0, 50, 100, ...), in order.
   */
  lemma DisplayShape(check: NullCheck, fmt: NumberFormat, names: Names, lists: seq<Row>, errors: seq<string>, groups: seq<string>)
    ensures DatasetDisplayOf(check, fmt, names, lists, errors, groups).Ok? <==>
              HeaderOf(check, names, groups).Ok? && forall k :: 0 <= k < |lists| ==> RowCells(check, fmt, names, lists[k], groups).Ok?
    ensures DatasetDisplayOf(check, fmt, names, lists, errors, groups).Ok? ==>
              DatasetDisplayOf(check, fmt, names, lists, errors, groups).value
                == TableOpen
                   + Concat(TablePieces(RepeatedHeader(HeaderOf(check, names, groups).value), errors,
                                        RowResults(check, fmt, names, lists, groups), |lists|))
                   + "</table>"
  {
    if HeaderOf(check, names, groups).Ok? {
      var header := RepeatedHeader(HeaderOf(check, names, groups).value);
      var rows := RowResults(check, fmt, names, lists, groups);
      RowsOkIff(header, errors, rows, |lists|);
      if RowsOf(header, errors, rows, |lists|).Ok? {
        RowsArePieces(header, errors, rows, |lists|);
      }
    }
  }

  /** Every header cell opens with `<th>`. */
  lemma {:induction false} HeaderCellsOpen(check: NullCheck, names: Names, groups: seq<string>)
    ensures forall i :: 0 <= i < |AllHeaderCells(check, names, groups)| ==> "<th>" <= AllHeaderCells(check, names, groups)[i]
  {
    if groups != [] {
      var front := groups[..|groups| - 1];
      var e := Get(names, groups[|groups| - 1]);
      HeaderCellsOpen(check, names, front);
      var cells := AllHeaderCells(check, names, front);
      var more := if e.Present? then HeaderCells(e.value) else [];
      assert AllHeaderCells(check, names, groups) == cells + more;
      forall i | 0 <= i < |more| ensures "<th>" <= more[i] {
        assert more[i] == "<th>" + e.value[i] + "</th>";
      }
    }
  }

  /** The header text is empty or opens with a `<th>` cell. */
  lemma HeaderOpens(check: NullCheck, names: Names, groups: seq<string>)
    requires HeaderOf(check, names, groups).Ok?
    ensures var h := HeaderOf(check, names, groups).value;
            h == "" || (|h| >= 4 && h[..4] == "<th>")
  {
    HeaderIsAllCells(check, names, groups);
    var cells := AllHeaderCells(check, names, groups);
    if cells != [] {
      HeaderCellsOpen(check, names, groups);
      var h := Join("\n", cells);
      assert cells[0] <= h;
      assert "<th>" <= cells[0];
    }
  }

  /** A data row opens with `<tr c`. */
  lemma RowLineOpens(k: nat, cells: string, errors: seq<string>)
    ensures |RowLine(k, cells, errors)| >= 4 && RowLine(k, cells, errors)[..4] == "<tr "
  {
  }

  /** Row `k` starts with the repeated header exactly when `k` is a multiple of 50. */
  lemma PieceLead(k: nat, h: string, cells: string, errors: seq<string>)
    requires h == "" || (|h| >= 4 && h[..4] == "<th>")
    ensures RepeatedHeader(h) <= Piece(k, RepeatedHeader(h), cells, errors) <==> k % 50 == 0
  {
    var header := RepeatedHeader(h);
    var line := RowLine(k, cells, errors);
    if k % 50 != 0 {
      RowLineOpens(k, cells, errors);
      assert Piece(k, header, cells, errors) == line;
      if h == "" {
        assert header == "<tr></tr>";
        assert header[3] != line[3];
      } else {
        assert header[2] == h[2];
        assert header[2] != line[2];
      }
    }
  }

  /**
   * The repeated header stands before row `k` of the table exactly when `k`
   * is a multiple of 50: the header begins with `<th>` (or is `<tr></tr>`
   * when no group is shown), and neither begins a data row `<tr class="r`.
   */
  lemma HeaderEveryFiftyRows(check: NullCheck, names: Names, groups: seq<string>, errors: seq<string>,
                             rows: seq<Result<string>>, n: nat, k: nat)
    requires HeaderOf(check, names, groups).Ok?
    requires k < n <= |rows|
    ensures var header := RepeatedHeader(HeaderOf(check, names, groups).value);
            header <= TablePieces(header, errors, rows, n)[k] <==> k % 50 == 0
  {
    var h := HeaderOf(check, names, groups).value;
    HeaderOpens(check, names, groups);
    PieceLead(k, h, RowText(rows[k]), errors);
  }

  /** With the loose test (`== null`) the table never throws, whatever groups the rows omit. */
  lemma LooseDisplayNeverThrows(fmt: NumberFormat, names: Names, lists: seq<Row>, errors: seq<string>, groups: seq<string>)
    ensures DatasetDisplayOf(LooseNull, fmt, names, lists, errors, groups).Ok?
  {
    LooseHeaderNeverThrows(names, groups);
    var rows := RowResults(LooseNull, fmt, names, lists, groups);
    forall k | 0 <= k < |lists| ensures rows[k].Ok? {
      LooseWalkNeverThrows(names, lists[k], groups);
    }
    RowsOkIff(RepeatedHeader(HeaderOf(LooseNull, names, groups).value), errors, rows, |lists|);
  }

  /**
   * As written (`=== null`), a row that omits a group whose names are listed
   * makes the whole table throw once the row's walk reaches that group.
   */
  lemma StrictDisplayThrowsOnOmittedGroup(fmt: NumberFormat, names: Names, lists: seq<Row>, errors: seq<string>,
                                          k: nat, before: seq<string>, g: string, after: seq<string>)
    requires k < |lists| && Get(names, g).Present? && g !in lists[k]
    requires Walk(StrictNull, names, Some(lists[k]), before).status == Going
    ensures DatasetDisplayOf(StrictNull, fmt, names, lists, errors, before + [g] + after).TypeError?
    ensures DatasetDisplayOf(LooseNull, fmt, names, lists, errors, before + [g] + after).Ok?
  {
    var groups := before + [g] + after;
    StrictWalkThrowsOnOmittedGroup(names, lists[k], before, g, after);
    var rows := RowResults(StrictNull, fmt, names, lists, groups);
    assert rows[k].TypeError?;
    if HeaderOf(StrictNull, names, groups).Ok? {
      RowThrowsTable(RepeatedHeader(HeaderOf(StrictNull, names, groups).value), errors, rows, k);
    }
    LooseDisplayNeverThrows(fmt, names, lists, errors, groups);
  }

  // ---------------------------------------------------------------------------
  // updateDataset
  // ---------------------------------------------------------------------------

  /** The largest length a JavaScript array can have (2^32 - 1). */
  const MaxArrayLength: nat := 0xFFFF_FFFF

  /** The names shown: a copy of the dataset's names with `leading` set to the `#` heading. */
  function ViewNames(names: Names): Names {
    names["leading" := Present(["#"])]
  }

  /** The rows shown, as written: copies of the dataset's rows, the last one given its index as `leading`. */
  function LastRowNumbered(lists: seq<Row>): seq<Row>
    requires 0 < |lists| <= MaxArrayLength
  {
    lists[|lists| - 1 := lists[|lists| - 1]["leading" := Present([Num((|lists| - 1) as real)])]]
  }

  /**
   * What `updateDataset()` puts on the page, or the TypeError it raises: with
   * no dataset, `lists[-1]` is undefined and setting its `leading` throws.
   */
  function DatasetViewOf(check: NullCheck, fmt: NumberFormat, names: Names, lists: seq<Row>, errors: seq<string>,
                         groups: seq<string>): Result<string>
    requires |lists| <= MaxArrayLength
  {
    if lists == [] then TypeError
    else DatasetDisplayOf(check, fmt, ViewNames(names), LastRowNumbered(lists), errors, groups)
  }

  /** `updateDataset()` (editing.js:334-348), with the dataset as parameters and the table as result. */
  method UpdateDataset(check: NullCheck, fmt: NumberFormat, names: Names, lists: seq<Row>, errors: seq<string>)
    returns (groups: seq<string>, r: Result<string>)
    requires |lists| <= MaxArrayLength
    ensures IsGroupOrder(groups)
    ensures r == DatasetViewOf(check, fmt, names, lists, errors, groups)
    ensures lists == [] ==> r == TypeError
  {
    groups := GroupNames();
    var shown := names["leading" := Present(["#"])];
    if |lists| == 0 {
      return groups, TypeError;
    }
    var finalItem := |lists| - 1;
    var rows := lists[finalItem := lists[finalItem]["leading" := Present([Num(finalItem as real)])]];
    r := RenderDatasetDisplay(check, fmt, shown, rows, errors, groups);
  }

  /**
   * As written, only the last row is given its `leading` cell, while the names
   * give `leading` a heading. An earlier row that does not bring its own
   * `leading` makes the whole table throw under `=== null`; under `== null`
   * that row shows no cell at all.
   */
  lemma OnlyLastRowNumbered(fmt: NumberFormat, names: Names, lists: seq<Row>, errors: seq<string>, groups: seq<string>,
                            k: nat)
    requires IsGroupOrder(groups) && |lists| <= MaxArrayLength
    requires k < |lists| - 1 && "leading" !in lists[k]
    ensures DatasetViewOf(StrictNull, fmt, names, lists, errors, groups).TypeError?
    ensures RowCells(LooseNull, fmt, ViewNames(names), LastRowNumbered(lists)[k], groups) == Ok("")
  {
    var rows := LastRowNumbered(lists);
    assert rows[k] == lists[k];
    assert groups == [] + ["leading"] + groups[1..];
    StrictDisplayThrowsOnOmittedGroup(fmt, ViewNames(names), rows, errors, k, [], "leading", groups[1..]);
    assert Classify(LooseNull, ViewNames(names), Some(rows[k]), groups[0]) == Stop;
    assert groups[..0] == [];
    WalkHaltsAt(LooseNull, ViewNames(names), Some(rows[k]), groups, 0);
  }

  /** Every row given its own index as its `leading` cell. */
  function NumberedRows(lists: seq<Row>): (rows: seq<Row>)
    requires |lists| <= MaxArrayLength
  {
    seq(|lists|, k requires 0 <= k < |lists| => lists[k]["leading" := Present([Num(k as real)])])
  }

  /** The table with every row numbered. */
  function NumberedDatasetViewOf(check: NullCheck, fmt: NumberFormat, names: Names, lists: seq<Row>, errors: seq<string>,
                                 groups: seq<string>): Result<string>
    requires |lists| <= MaxArrayLength
  {
    DatasetDisplayOf(check, fmt, ViewNames(names), NumberedRows(lists), errors, groups)
  }

  /**
   * With every row numbered, each row opens with its index under the `#`
   * heading and goes on to the remaining groups, under either null test; the
   * last row is the one the code as written already numbers.
   */
  lemma EveryRowNumbered(check: NullCheck, names: Names, lists: seq<Row>, groups: seq<string>, k: nat)
    requires IsGroupOrder(groups) && |lists| <= MaxArrayLength && k < |lists|
    ensures Walk(check, ViewNames(names), Some(NumberedRows(lists)[k]), groups[..1])
         == Walked([Group(["#"], [Num(k as real)])], Going)
    ensures k == |lists| - 1 ==> LastRowNumbered(lists)[k] == NumberedRows(lists)[k]
  {
    WalkStep(check, ViewNames(names), Some(NumberedRows(lists)[k]), groups, 0);
    assert groups[..0] == [];
  }
}
