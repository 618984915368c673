/**
 * The statistics table of the dataset: for every variable of every group, the
 * smallest and the largest value over all instantiated datasets, laid out as
 * two rows (`min` and `max`) of the dataset table.
 */
module Statistics {
  import opened JsStrings
  import opened JsValues
  import opened Groups
  import opened Display

  // ---------------------------------------------------------------------------
  // getStatistics, restricted to N, min and max
  // ---------------------------------------------------------------------------

  /**
   * ToNumber applied to a string, which parses decimal, hexadecimal and other
   * numeric literals; None is NaN. This parsing is not modelled.
   */
  type StringToNumber = string -> Option<Double>

  /**
   * The number `isNaN` and `Math.min` see in a value (ToNumber): undefined is
   * NaN, null is 0, a string is parsed, and an array is first turned into
   * its text.
   */
  function NumberOf(toNumber: StringToNumber, fmt: NumberFormat, v: Value): Option<Double> {
    match v
    case Undefined => None
    case Null => Some(0.0)
    case Num(x) => Some(x)
    case Str(s) => toNumber(s)
    case Arr(_) => toNumber(ValueText(v, fmt))
  }

  /** The numbers among the data, in order. */
  function Numbers(toNumber: StringToNumber, fmt: NumberFormat, data: seq<Value>): seq<Double> {
    if data == [] then []
    else
      Numbers(toNumber, fmt, data[..|data| - 1])
        + (match NumberOf(toNumber, fmt, data[|data| - 1]) case Some(x) => [x] case None => [])
  }

  /** A number is among `Numbers(data)` exactly when some datum converts to it. */
  lemma {:induction false} NumbersMembers(toNumber: StringToNumber, fmt: NumberFormat, data: seq<Value>)
    ensures forall i :: 0 <= i < |data| && NumberOf(toNumber, fmt, data[i]).Some? ==>
              NumberOf(toNumber, fmt, data[i]).value in Numbers(toNumber, fmt, data)
    ensures forall x :: x in Numbers(toNumber, fmt, data) ==>
              exists i :: 0 <= i < |data| && NumberOf(toNumber, fmt, data[i]) == Some(x)
  {
    if data != [] {
      var front := data[..|data| - 1];
      NumbersMembers(toNumber, fmt, front);
      forall x | x in Numbers(toNumber, fmt, data)
        ensures exists i :: 0 <= i < |data| && NumberOf(toNumber, fmt, data[i]) == Some(x)
      {
        if x in Numbers(toNumber, fmt, front) {
          var i :| 0 <= i < |front| && NumberOf(toNumber, fmt, front[i]) == Some(x);
          assert data[i] == front[i];
        } else {
          assert NumberOf(toNumber, fmt, data[|data| - 1]) == Some(x);
        }
      }
      forall i | 0 <= i < |data| && NumberOf(toNumber, fmt, data[i]).Some?
        ensures NumberOf(toNumber, fmt, data[i]).value in Numbers(toNumber, fmt, data)
      {
        if i < |front| {
          assert data[i] == front[i];
        }
      }
    }
  }

  /** The smallest of a non-empty list of numbers. */
  function SeqMin(xs: seq<Double>): (r: Double)
    requires xs != []
    ensures r in xs && forall i :: 0 <= i < |xs| ==> r <= xs[i]
  {
    if |xs| == 1 then xs[0]
    else
      var m := SeqMin(xs[..|xs| - 1]);
      assert forall i :: 0 <= i < |xs| - 1 ==> xs[..|xs| - 1][i] == xs[i];
      if xs[|xs| - 1] < m then xs[|xs| - 1] else m
  }

  /** The largest of a non-empty list of numbers. */
  function SeqMax(xs: seq<Double>): (r: Double)
    requires xs != []
    ensures r in xs && forall i :: 0 <= i < |xs| ==> xs[i] <= r
  {
    if |xs| == 1 then xs[0]
    else
      var m := SeqMax(xs[..|xs| - 1]);
      assert forall i :: 0 <= i < |xs| - 1 ==> xs[..|xs| - 1][i] == xs[i];
      if xs[|xs| - 1] > m then xs[|xs| - 1] else m
  }

  lemma NumbersStep(toNumber: StringToNumber, fmt: NumberFormat, data: seq<Value>, i: nat)
    requires i < |data|
    ensures Numbers(toNumber, fmt, data[..i + 1])
         == Numbers(toNumber, fmt, data[..i])
            + (match NumberOf(toNumber, fmt, data[i]) case Some(x) => [x] case None => [])
  {
    assert data[..i + 1][..i] == data[..i];
  }

  lemma SeqMinSnoc(xs: seq<Double>, x: Double)
    ensures SeqMin(xs + [x]) == if xs == [] || x < SeqMin(xs) then x else SeqMin(xs)
  {
    if xs != [] {
      assert (xs + [x])[..|xs|] == xs;
    }
  }

  lemma SeqMaxSnoc(xs: seq<Double>, x: Double)
    ensures SeqMax(xs + [x]) == if xs == [] || x > SeqMax(xs) then x else SeqMax(xs)
  {
    if xs != [] {
      assert (xs + [x])[..|xs|] == xs;
    }
  }

  /** The record `getStatistics` returns, without mean and SD; `NoNumbers` is `{}`. */
  datatype Summary = NoNumbers | Summary(count: nat, min: Double, max: Double)

  function StatisticsOf(toNumber: StringToNumber, fmt: NumberFormat, data: seq<Value>): Summary {
    var xs := Numbers(toNumber, fmt, data);
    if xs == [] then NoNumbers else Summary(|xs|, SeqMin(xs), SeqMax(xs))
  }

  /** `getStatistics(data)` (editing.js:406-431), its N, min and max. */
  method GetStatistics(toNumber: StringToNumber, fmt: NumberFormat, data: seq<Value>) returns (st: Summary)
    ensures st == StatisticsOf(toNumber, fmt, data)
  {
    var minimum: Double := MaxValue;
    var maximum: Double := -MaxValue;
    var n := 0;
    for i := 0 to |data|
      invariant n == |Numbers(toNumber, fmt, data[..i])|
      invariant n == 0 ==> minimum == MaxValue && maximum == -MaxValue
      invariant n > 0 ==> minimum == SeqMin(Numbers(toNumber, fmt, data[..i]))
      invariant n > 0 ==> maximum == SeqMax(Numbers(toNumber, fmt, data[..i]))
    {
      var x := NumberOf(toNumber, fmt, data[i]);
      NumbersStep(toNumber, fmt, data, i);
      ghost var xs := Numbers(toNumber, fmt, data[..i]);
      if x.Some? {
        assert Numbers(toNumber, fmt, data[..i + 1]) == xs + [x.value];
        SeqMinSnoc(xs, x.value);
        SeqMaxSnoc(xs, x.value);
        minimum := if x.value < minimum then x.value else minimum;
        maximum := if x.value > maximum then x.value else maximum;
        n := n + 1;
        assert minimum == SeqMin(xs + [x.value]);
      } else {
        assert Numbers(toNumber, fmt, data[..i + 1]) == xs;
      }
    }
    assert data[..|data|] == data;
    if n == 0 {
      return NoNumbers;
    }
    return Summary(n, minimum, maximum);
  }

  /**
   * The record is empty exactly when no datum is a number; otherwise N counts
   * the numbers, and min and max are numbers of the data that bound all the
   * others.
   */
  lemma StatisticsMeaning(toNumber: StringToNumber, fmt: NumberFormat, data: seq<Value>)
    ensures StatisticsOf(toNumber, fmt, data).NoNumbers? <==>
              forall i :: 0 <= i < |data| ==> NumberOf(toNumber, fmt, data[i]).None?
    ensures StatisticsOf(toNumber, fmt, data).Summary? ==>
              var st := StatisticsOf(toNumber, fmt, data);
              && st.min <= st.max
              && st.count == |Numbers(toNumber, fmt, data)|
              && (forall i :: 0 <= i < |data| && NumberOf(toNumber, fmt, data[i]).Some? ==>
                    st.min <= NumberOf(toNumber, fmt, data[i]).value <= st.max)
              && (exists i :: 0 <= i < |data| && NumberOf(toNumber, fmt, data[i]) == Some(st.min))
              && (exists i :: 0 <= i < |data| && NumberOf(toNumber, fmt, data[i]) == Some(st.max))
  {
    NumbersMembers(toNumber, fmt, data);
    var xs := Numbers(toNumber, fmt, data);
    if xs != [] {
      var x0 := xs[0];
      assert x0 in xs;
      var st := StatisticsOf(toNumber, fmt, data);
      forall i | 0 <= i < |data| && NumberOf(toNumber, fmt, data[i]).Some?
        ensures st.min <= NumberOf(toNumber, fmt, data[i]).value <= st.max
      {
        var x := NumberOf(toNumber, fmt, data[i]).value;
        assert x in xs;
        var j :| 0 <= j < |xs| && xs[j] == x;
      }
    }
  }

  /** Data that are not numbers do not change the record. */
  lemma NonNumbersIgnored(toNumber: StringToNumber, fmt: NumberFormat, data: seq<Value>, v: Value)
    requires NumberOf(toNumber, fmt, v).None?
    ensures StatisticsOf(toNumber, fmt, data + [v]) == StatisticsOf(toNumber, fmt, data)
  {
    assert (data + [v])[..|data|] == data;
    var xs := Numbers(toNumber, fmt, data);
    assert Numbers(toNumber, fmt, data + [v]) == xs + [];
    assert xs + [] == xs;
  }

  // ---------------------------------------------------------------------------
  // updateStatistics: the two rows of the table
  // ---------------------------------------------------------------------------

  /**
   * The data of variable `j` of group `g` over all datasets: a dataset whose
   * data for the group is null or missing contributes nothing (the TypeError
   * is caught), one whose data is too short contributes undefined.
   */
  function ColumnData(lists: seq<Row>, g: string, j: nat): seq<Value> {
    if lists == [] then []
    else
      ColumnData(lists[..|lists| - 1], g, j)
        + (match Get(lists[|lists| - 1], g)
           case Present(vs) => [if j < |vs| then vs[j] else Undefined]
           case _ => [])
  }

  /** The inner loop over the datasets (editing.js:377-385). */
  method CollectColumn(lists: seq<Row>, g: string, j: nat) returns (data: seq<Value>)
    ensures data == ColumnData(lists, g, j)
  {
    data := [];
    for count := 0 to |lists|
      invariant data == ColumnData(lists[..count], g, j)
    {
      assert lists[..count + 1][..count] == lists[..count];
      var subset := Get(lists[count], g);
      if subset.Present? {
        data := data + [if j < |subset.value| then subset.value[j] else Undefined];
      }
    }
    assert lists[..|lists|] == lists;
  }

  /** The two quantities shown, in their order. */
  datatype Quantity = Minimum | Maximum

  const Quantities: seq<Quantity> := [Minimum, Maximum]

  function QuantityName(q: Quantity): string {
    match q
    case Minimum => "min"
    case Maximum => "max"
  }

  /** `stat[z][quantities[k]]`: a record without numbers has no such property. */
  function QuantityValue(st: Summary, q: Quantity): Value {
    match st
    case NoNumbers => Undefined
    case Summary(_, lo, hi) => Num(if q == Minimum then lo else hi)
  }

  /** The statistics of the first `width` variables of group `g`. */
  predicate IsGroupStatistics(toNumber: StringToNumber, fmt: NumberFormat, lists: seq<Row>, g: string,
                              width: nat, stat: seq<Summary>) {
    |stat| == width && forall z :: 0 <= z < width ==> stat[z] == StatisticsOf(toNumber, fmt, ColumnData(lists, g, z))
  }

  function QuantityRow(stat: seq<Summary>, q: Quantity): (r: seq<Value>)
    ensures |r| == |stat|
  {
    seq(|stat|, z requires 0 <= z < |stat| => QuantityValue(stat[z], q))
  }

  /** The rows after one more group: its min and max arrays are stored under its name. */
  function AddGroup(rows: seq<Row>, g: string, stat: seq<Summary>): (r: seq<Row>)
    requires |rows| == |Quantities|
    ensures |r| == |Quantities|
  {
    seq(|rows|, k requires 0 <= k < |rows| => rows[k][g := Present(QuantityRow(stat, Quantities[k]))])
  }

  function GroupStatistics(toNumber: StringToNumber, fmt: NumberFormat, lists: seq<Row>, g: string, width: nat): (r: seq<Summary>)
    ensures IsGroupStatistics(toNumber, fmt, lists, g, width, r)
  {
    seq(width, z requires 0 <= z < width => StatisticsOf(toNumber, fmt, ColumnData(lists, g, z)))
  }

  /** The min and max rows after the given groups, or the TypeError of a group whose names are missing. */
  function StatRows(check: NullCheck, toNumber: StringToNumber, fmt: NumberFormat, names: Names, lists: seq<Row>,
                    groups: seq<string>): (r: Result<seq<Row>>)
    ensures r.Ok? ==> |r.value| == |Quantities|
  {
    if groups == [] then Ok([map[], map[]])
    else match StatRows(check, toNumber, fmt, names, lists, groups[..|groups| - 1])
      case TypeError => TypeError
      case Ok(rows) =>
        var g := groups[|groups| - 1];
        var n := Get(names, g);
        if EntryIsNull(check, n) then Ok(rows)
        else if n.Absent? then TypeError
        else Ok(AddGroup(rows, g, GroupStatistics(toNumber, fmt, lists, g, |n.value|)))
  }

  /** The rows with their leading cell naming the quantity. */
  function WithLeading(rows: seq<Row>): seq<Row>
    requires |rows| == |Quantities|
  {
    seq(|rows|, k requires 0 <= k < |rows| => rows[k]["leading" := Present([Str(QuantityName(Quantities[k]))])])
  }

  /** The names shown: an empty heading over the leading column unless the dataset names one. */
  function StatNames(names: Names): Names {
    map["leading" := Present([""])] + names
  }

  /** What `updateStatistics` puts in the statistics display, or the TypeError it raises. */
  function StatisticsDisplayOf(check: NullCheck, toNumber: StringToNumber, fmt: NumberFormat, names: Names, lists: seq<Row>,
                               groups: seq<string>): Result<string> {
    match StatRows(check, toNumber, fmt, names, lists, groups)
    case TypeError => TypeError
    case Ok(rows) => DatasetDisplayOf(check, fmt, StatNames(names), WithLeading(rows), ["", ""], groups)
  }

  /** The loop over the variables of one group (editing.js:375-388). */
  method ColumnStatistics(toNumber: StringToNumber, fmt: NumberFormat, lists: seq<Row>, g: string, width: nat)
    returns (stat: seq<Summary>)
    ensures IsGroupStatistics(toNumber, fmt, lists, g, width, stat)
  {
    stat := [];
    for j := 0 to width
      invariant IsGroupStatistics(toNumber, fmt, lists, g, j, stat)
    {
      var data := CollectColumn(lists, g, j);
      var st := GetStatistics(toNumber, fmt, data);
      ghost var before := stat;
      stat := stat + [st];
      forall z | 0 <= z < j + 1 ensures stat[z] == StatisticsOf(toNumber, fmt, ColumnData(lists, g, z)) {
        if z < j {
          assert stat[z] == before[z];
        }
      }
    }
  }

  /** The loop that stores one group's min and max arrays (editing.js:389-394). */
  method StoreGroup(rows: seq<Row>, g: string, stat: seq<Summary>) returns (r: seq<Row>)
    requires |rows| == |Quantities|
    ensures r == AddGroup(rows, g, stat)
  {
    r := rows;
    for k := 0 to |Quantities|
      invariant |r| == |Quantities|
      invariant forall k' :: 0 <= k' < k ==> r[k'] == rows[k'][g := Present(QuantityRow(stat, Quantities[k']))]
      invariant forall k' :: k <= k' < |Quantities| ==> r[k'] == rows[k']
    {
      var column: seq<Value> := [];
      for z := 0 to |stat|
        invariant column == QuantityRow(stat[..z], Quantities[k])
      {
        assert stat[..z + 1][..z] == stat[..z];
        column := column + [QuantityValue(stat[z], Quantities[k])];
      }
      assert stat[..|stat|] == stat;
      r := r[k := r[k][g := Present(column)]];
    }
  }

  /** `updateStatistics()` (editing.js:351-403), with the display's text as its result. */
  method UpdateStatistics(check: NullCheck, toNumber: StringToNumber, fmt: NumberFormat, names: Names, lists: seq<Row>)
    returns (groups: seq<string>, r: Result<string>)
    ensures IsGroupOrder(groups)
    ensures r == StatisticsDisplayOf(check, toNumber, fmt, names, lists, groups)
  {
    var groupnames := GroupNames();
    groups := groupnames;
    var shown := map["leading" := Present([""])] + names;
    var rows: seq<Row> := [map[], map[]];
    for i := 0 to |groupnames|
      invariant StatRows(check, toNumber, fmt, names, lists, groupnames[..i]) == Ok(rows)
    {
      assert groupnames[..i + 1][..i] == groupnames[..i];
      var n := Get(names, groupnames[i]);
      if EntryIsNull(check, n) {
        continue;
      }
      if n.Absent? {
        StatRowsThrow(check, toNumber, fmt, names, lists, groupnames, i + 1);
        return groups, TypeError;
      }
      var stat := ColumnStatistics(toNumber, fmt, lists, groupnames[i], |n.value|);
      assert stat == GroupStatistics(toNumber, fmt, lists, groupnames[i], |n.value|);
      rows := StoreGroup(rows, groupnames[i], stat);
    }
    assert groupnames[..|groupnames|] == groupnames;
    var errors: seq<string> := [];
    var shownRows: seq<Row> := [];
    for k := 0 to |Quantities|
      invariant |shownRows| == k && |errors| == k
      invariant forall k' :: 0 <= k' < k ==> errors[k'] == "" && shownRows[k'] == WithLeading(rows)[k']
    {
      shownRows := shownRows + [rows[k]["leading" := Present([Str(QuantityName(Quantities[k]))])]];
      errors := errors + [""];
    }
    assert shownRows == WithLeading(rows);
    assert errors == ["", ""];
    r := RenderDatasetDisplay(check, fmt, shown, shownRows, errors, groupnames);
  }

  /** Once a group's names are missing, the rows are never produced. */
  lemma {:induction false} StatRowsThrow(check: NullCheck, toNumber: StringToNumber, fmt: NumberFormat, names: Names,
                                         lists: seq<Row>, groups: seq<string>, k: nat)
    requires k <= |groups| && StatRows(check, toNumber, fmt, names, lists, groups[..k]).TypeError?
    ensures StatRows(check, toNumber, fmt, names, lists, groups).TypeError?
    decreases |groups| - k
  {
    if k < |groups| {
      assert groups[..k + 1][..k] == groups[..k];
      StatRowsThrow(check, toNumber, fmt, names, lists, groups, k + 1);
    } else {
      assert groups[..k] == groups;
    }
  }

  /**
   * As written (`=== null`), a listed group that the names do not hold at all
   * reaches `n.length` and makes the whole statistics table throw.
   */
  lemma {:induction false} AbsentGroupThrows(toNumber: StringToNumber, fmt: NumberFormat, names: Names, lists: seq<Row>,
                                           groups: seq<string>, i: nat)
    requires i < |groups| && groups[i] !in names
    ensures StatRows(StrictNull, toNumber, fmt, names, lists, groups).TypeError?
    ensures StatisticsDisplayOf(StrictNull, toNumber, fmt, names, lists, groups).TypeError?
  {
    if StatRows(StrictNull, toNumber, fmt, names, lists, groups[..i]).TypeError? {
      StatRowsThrow(StrictNull, toNumber, fmt, names, lists, groups, i);
    } else {
      assert groups[..i + 1][..i] == groups[..i];
      StatRowsThrow(StrictNull, toNumber, fmt, names, lists, groups, i + 1);
    }
  }

  /** With the loose test (`== null`) an absent group is skipped like a null one, and the table never throws. */
  lemma {:induction false} LooseStatisticsNeverThrow(toNumber: StringToNumber, fmt: NumberFormat, names: Names,
                                                     lists: seq<Row>, groups: seq<string>)
    ensures StatRows(LooseNull, toNumber, fmt, names, lists, groups).Ok?
    ensures StatisticsDisplayOf(LooseNull, toNumber, fmt, names, lists, groups).Ok?
  {
    if groups != [] {
      LooseStatisticsNeverThrow(toNumber, fmt, names, lists, groups[..|groups| - 1]);
    }
    var rows := StatRows(LooseNull, toNumber, fmt, names, lists, groups).value;
    LooseDisplayNeverThrows(fmt, StatNames(names), WithLeading(rows), ["", ""], groups);
  }

  /**
   * The first group walked is `leading`, which only the copy shown on screen
   * is given: as written, unless the dataset's own names hold `leading`, the
   * statistics table always throws.
   */
  lemma StatisticsNeedLeading(toNumber: StringToNumber, fmt: NumberFormat, names: Names, lists: seq<Row>,
                              groups: seq<string>)
    requires IsGroupOrder(groups) && "leading" !in names
    ensures StatisticsDisplayOf(StrictNull, toNumber, fmt, names, lists, groups).TypeError?
  {
    AbsentGroupThrows(toNumber, fmt, names, lists, groups, 0);
  }

  /**
   * Every listed group whose names are given gets, in both rows, one value per
   * name: the min (or max) of that variable's column, or undefined when the
   * column holds no number. So no group other than `leading` cuts a row of the
   * statistics table short; `StatLeadingAligned` says when `leading` does.
   */
  lemma {:induction false} StatRowsAligned(check: NullCheck, toNumber: StringToNumber, fmt: NumberFormat, names: Names,
                                           lists: seq<Row>, groups: seq<string>, g: string, k: nat)
    requires StatRows(check, toNumber, fmt, names, lists, groups).Ok? && k < |Quantities|
    requires g in groups && Get(names, g).Present? && !EntryIsNull(check, Get(names, g))
    ensures var row := StatRows(check, toNumber, fmt, names, lists, groups).value[k];
            && g in row && row[g].Present?
            && |row[g].value| == |Get(names, g).value|
            && forall z :: 0 <= z < |row[g].value| ==>
                 row[g].value[z] == QuantityValue(StatisticsOf(toNumber, fmt, ColumnData(lists, g, z)), Quantities[k])
  {
    var front := groups[..|groups| - 1];
    var last := groups[|groups| - 1];
    assert groups == front + [last];
    if last != g {
      StatRowsAligned(check, toNumber, fmt, names, lists, front, g, k);
    }
  }

  /**
   * Each statistics row has one leading cell, the quantity's name. The names
   * shown give the leading column one heading, and so line up with the rows,
   * exactly when the dataset's own names have no `leading` or a one-entry one:
   * the copy loop lets the dataset's `leading` replace the empty heading.
   */
  lemma StatLeadingAligned(names: Names, rows: seq<Row>, k: nat)
    requires |rows| == |Quantities| && k < |rows|
    ensures WithLeading(rows)[k]["leading"] == Present([Str(QuantityName(Quantities[k]))])
    ensures (Get(StatNames(names), "leading").Present? && |Get(StatNames(names), "leading").value| == 1)
        <==> ("leading" !in names || (names["leading"].Present? && |names["leading"].value| == 1))
  {
    assert "leading" in StatNames(names);
  }
}
