/**
 * The monthly matrix export of db.py: the records of a month pivoted to one
 * row per (specialist, activity, unit) and one column per day of the month,
 * each cell holding the status of the first record of that row on that day.
 * The workbook is modelled as its cell values; fonts, fills, borders, widths
 * and the xlsx encoding are not.
 */
module Matrix {
  import opened Wrappers
  import opened Seqs
  import opened Text
  import opened Calendar
  import opened Store

  datatype Cell = Text(text: string) | Number(n: int)

  /** The sheet "Matriz": either the one-cell placeholder or the titled matrix from row 3 down. */
  datatype Sheet =
    | Placeholder(message: string)
    | Grid(title: string, header: seq<Cell>, body: seq<seq<Cell>>)

  const NoDataMessage := "Sin datos para el rango seleccionado"
  const LabelHeaders := [Text("Especialista"), Text("Actividad"), Text("Unidad de medida")]

  /** The pivot index of one record. */
  datatype Key = Key(specialist: string, activity: string, unit: string)

  function KeyOf(a: Activity): Key {
    Key(a.specialist, a.activity, a.unit)
  }

  /** Tuple order on the pivot index, the order pandas sorts the groups in. */
  predicate KeyLt(a: Key, b: Key) {
    || StrLt(a.specialist, b.specialist)
    || (a.specialist == b.specialist
        && (StrLt(a.activity, b.activity) || (a.activity == b.activity && StrLt(a.unit, b.unit))))
  }

  lemma KeyLtIsStrictTotalOrder()
    ensures IsStrictTotalOrder(KeyLt)
  {
    StrLtIsStrictTotalOrder();
  }

  /** The pivot's rows: each distinct key of the queried records once, ascending. */
  function GroupKeys(q: seq<Activity>): (r: seq<Key>)
    ensures StrictlySorted(r, KeyLt)
    ensures forall k :: k in r <==> exists i :: 0 <= i < |q| && KeyOf(q[i]) == k
  {
    KeyLtIsStrictTotalOrder();
    var keys := seq(|q|, i requires 0 <= i < |q| => KeyOf(q[i]));
    assert forall i :: 0 <= i < |q| ==> keys[i] == KeyOf(q[i]);
    SortedDistinct(keys, KeyLt)
  }

  predicate OnCell(a: Activity, k: Key, day: int) {
    KeyOf(a) == k && a.scheduledDate.day == day
  }

  /** The position of the first queried record in row `k` on `day` (what `aggfunc="first"` picks), or -1. */
  function FirstOnCell(q: seq<Activity>, k: Key, day: int): (i: int)
    ensures -1 <= i < |q|
    ensures i >= 0 ==> OnCell(q[i], k, day) && forall j :: 0 <= j < i ==> !OnCell(q[j], k, day)
    ensures i < 0 ==> forall j :: 0 <= j < |q| ==> !OnCell(q[j], k, day)
  {
    if q == [] then -1
    else if OnCell(q[0], k, day) then 0
    else
      var i := FirstOnCell(q[1..], k, day);
      assert forall j :: 1 <= j < |q| ==> q[j] == q[1..][j - 1];
      if i < 0 then -1 else i + 1
  }

  /** A day cell of the pivot: the first status, or the fill value "" when the row has no record that day. */
  function DayCell(q: seq<Activity>, k: Key, day: int): Cell {
    var i := FirstOnCell(q, k, day);
    if i < 0 then Text("") else Text(q[i].status)
  }

  function BodyRow(q: seq<Activity>, k: Key, maxDay: nat): (r: seq<Cell>)
    ensures |r| == 3 + maxDay
    ensures r[..3] == [Text(k.specialist), Text(k.activity), Text(k.unit)]
    ensures forall d :: 1 <= d <= maxDay ==> r[2 + d] == DayCell(q, k, d)
  {
    [Text(k.specialist), Text(k.activity), Text(k.unit)] + seq(maxDay, j requires 0 <= j < maxDay => DayCell(q, k, j + 1))
  }

  function Title(monthFirst: Date): string {
    "Matriz mensual: " + ZeroPad(NatToString(if monthFirst.year < 0 then 0 else monthFirst.year), 4)
      + "-" + ZeroPad(NatToString(if monthFirst.month < 0 then 0 else monthFirst.month), 2)
  }

  function HeaderRow(maxDay: nat): (r: seq<Cell>)
    ensures |r| == 3 + maxDay
    ensures r[..3] == LabelHeaders
    ensures forall d :: 1 <= d <= maxDay ==> r[2 + d] == Number(d)
  {
    LabelHeaders + seq(maxDay, j requires 0 <= j < maxDay => Number(j + 1))
  }

  /**
   * `export_month_matrix_xlsx_bytes` with each day cell read from the pivot
   * column of that day: the placeholder exactly when the month has no
   * records; otherwise one body row per distinct key, in key order, every
   * row as wide as the header (three labels and `monthLast.day` days).
   */
  function ExportMonthMatrix(rows: seq<Activity>, monthFirst: Date, monthLast: Date, specialist: Option<string>): (s: Sheet)
    requires Valid(monthFirst) && Valid(monthLast)
    ensures var q := QueryRange(rows, monthFirst, monthLast, specialist);
      && (s.Placeholder? <==> q == [])
      && (s.Placeholder? ==> s.message == NoDataMessage)
      && (s.Grid? ==>
            && s.title == Title(monthFirst)
            && s.header == HeaderRow(monthLast.day)
            && |s.header| == 3 + monthLast.day
            && |s.body| == |GroupKeys(q)|
            && (forall i :: 0 <= i < |s.body| ==> |s.body[i]| == |s.header|)
            && (forall i, j :: 0 <= i < j < |s.body| ==> KeyLt(RowKey(s.body[i]), RowKey(s.body[j])))
            && (forall i :: 0 <= i < |s.body| ==> RowKey(s.body[i]) == GroupKeys(q)[i]))
  {
    var q := QueryRange(rows, monthFirst, monthLast, specialist);
    if q == [] then Placeholder(NoDataMessage)
    else
      var keys := GroupKeys(q);
      var body := Body(q, keys, monthLast.day);
      forall i | 0 <= i < |body|
        ensures RowKey(body[i]) == keys[i]
      {
        RowKeyOfBodyRow(q, keys[i], monthLast.day);
      }
      Grid(Title(monthFirst), HeaderRow(monthLast.day), body)
  }

  lemma RowKeyOfBodyRow(q: seq<Activity>, k: Key, maxDay: nat)
    ensures RowKey(BodyRow(q, k, maxDay)) == k
  {
    var row := BodyRow(q, k, maxDay);
    assert row[..3] == [Text(k.specialist), Text(k.activity), Text(k.unit)];
    assert row[0] == Text(k.specialist) && row[1] == Text(k.activity) && row[2] == Text(k.unit);
  }

  /** The cell of a queried record's key and day holds the status of the first record on that cell. */
  lemma DayCellOfRecord(q: seq<Activity>, x: Activity)
    requires x in q
    ensures FirstOnCell(q, KeyOf(x), x.scheduledDate.day) >= 0
    ensures DayCell(q, KeyOf(x), x.scheduledDate.day) == Text(q[FirstOnCell(q, KeyOf(x), x.scheduledDate.day)].status)
  {
    var n :| 0 <= n < |q| && q[n] == x;
    assert OnCell(q[n], KeyOf(x), x.scheduledDate.day);
  }

  /**
   * Every record of `q` whose key labels a row appears in that row, on its
   * day, as the first record of that cell.
   */
  lemma BodyCovers(q: seq<Activity>, keys: seq<Key>, x: Activity, maxDay: nat) returns (i: int)
    requires x in q && KeyOf(x) in keys && 1 <= x.scheduledDate.day <= maxDay
    ensures 0 <= i < |keys| && i < |Body(q, keys, maxDay)|
    ensures RowKey(Body(q, keys, maxDay)[i]) == KeyOf(x)
    ensures Body(q, keys, maxDay)[i][2 + x.scheduledDate.day] == Text(q[FirstOnCell(q, KeyOf(x), x.scheduledDate.day)].status)
  {
    var k, d := KeyOf(x), x.scheduledDate.day;
    i :| 0 <= i < |keys| && keys[i] == k;
    var row := BodyRow(q, k, maxDay);
    assert Body(q, keys, maxDay)[i] == row;
    RowKeyOfBodyRow(q, k, maxDay);
    assert row[2 + d] == DayCell(q, k, d);
    DayCellOfRecord(q, x);
  }

  /** A non-empty day cell shows the status of a record with that key on that day. */
  lemma DayCellSource(q: seq<Activity>, k: Key, d: int)
    ensures DayCell(q, k, d) != Text("") ==>
      exists x :: x in q && KeyOf(x) == k && x.scheduledDate.day == d && DayCell(q, k, d) == Text(x.status)
  {
    var n := FirstOnCell(q, k, d);
    if n >= 0 {
      assert q[n] in q;
    }
  }

  /** A non-empty cell of the body shows the status of a record of `q` with the row's key on that day. */
  lemma BodyCellSource(q: seq<Activity>, i: int, d: int, maxDay: nat)
    requires 0 <= i < |GroupKeys(q)| && 1 <= d <= maxDay
    ensures var row := Body(q, GroupKeys(q), maxDay)[i];
      row[2 + d] != Text("") ==>
        exists x :: x in q && KeyOf(x) == RowKey(row) && x.scheduledDate.day == d && row[2 + d] == Text(x.status)
  {
    var k := GroupKeys(q)[i];
    var row := BodyRow(q, k, maxDay);
    assert Body(q, GroupKeys(q), maxDay)[i] == row;
    RowKeyOfBodyRow(q, k, maxDay);
    assert row[2 + d] == DayCell(q, k, d);
    DayCellSource(q, k, d);
  }

  /** The data rows below the header, one per key. */
  function Body(q: seq<Activity>, keys: seq<Key>, maxDay: nat): (r: seq<seq<Cell>>)
    ensures |r| == |keys|
    ensures forall i :: 0 <= i < |r| ==> r[i] == BodyRow(q, keys[i], maxDay)
  {
    seq(|keys|, i requires 0 <= i < |keys| => BodyRow(q, keys[i], maxDay))
  }

  /** The key a body row is labelled with. */
  function RowKey(row: seq<Cell>): Key {
    if |row| >= 3 && row[0].Text? && row[1].Text? && row[2].Text?
    then Key(row[0].text, row[1].text, row[2].text)
    else Key("", "", "")
  }

  predicate SameMonth(a: Date, b: Date) {
    a.year == b.year && a.month == b.month
  }

  /**
   * Every record of the month is in the matrix: the row of its key exists,
   * and the cell of its day holds the status of the first record of that row
   * and day in query order.
   */
  lemma ExportCoversEveryRecord(rows: seq<Activity>, monthFirst: Date, monthLast: Date, specialist: Option<string>, x: Activity)
    requires Valid(monthFirst) && Valid(monthLast) && SameMonth(monthFirst, monthLast)
    requires x in rows && InQuery(x, monthFirst, monthLast, specialist)
    ensures var s, q := ExportMonthMatrix(rows, monthFirst, monthLast, specialist), QueryRange(rows, monthFirst, monthLast, specialist);
      && s.Grid?
      && exists i :: 0 <= i < |s.body| && RowKey(s.body[i]) == KeyOf(x)
           && 1 <= x.scheduledDate.day <= monthLast.day
           && s.body[i][2 + x.scheduledDate.day] == Text(q[FirstOnCell(q, KeyOf(x), x.scheduledDate.day)].status)
  {
    var q := QueryRange(rows, monthFirst, monthLast, specialist);
    assert x in q;
    var keys := GroupKeys(q);
    assert KeyOf(x) in keys by {
      var n :| 0 <= n < |q| && q[n] == x;
    }
    var i := BodyCovers(q, keys, x, monthLast.day);
  }

  /** A day cell is empty unless some record of its row falls on that day (or that record's status is empty). */
  lemma ExportEmptyCells(rows: seq<Activity>, monthFirst: Date, monthLast: Date, specialist: Option<string>, i: int, d: int)
    requires Valid(monthFirst) && Valid(monthLast)
    requires ExportMonthMatrix(rows, monthFirst, monthLast, specialist).Grid?
    requires 0 <= i < |ExportMonthMatrix(rows, monthFirst, monthLast, specialist).body| && 1 <= d <= monthLast.day
    ensures var s, q := ExportMonthMatrix(rows, monthFirst, monthLast, specialist), QueryRange(rows, monthFirst, monthLast, specialist);
      s.body[i][2 + d] != Text("") ==>
        exists x :: x in rows && InQuery(x, monthFirst, monthLast, specialist)
                     && KeyOf(x) == RowKey(s.body[i]) && x.scheduledDate.day == d && s.body[i][2 + d] == Text(x.status)
  {
    var s := ExportMonthMatrix(rows, monthFirst, monthLast, specialist);
    var q := QueryRange(rows, monthFirst, monthLast, specialist);
    assert s.body == Body(q, GroupKeys(q), monthLast.day);
    BodyCellSource(q, i, d, monthLast.day);
    if s.body[i][2 + d] != Text("") {
      var x :| x in q && KeyOf(x) == RowKey(s.body[i]) && x.scheduledDate.day == d && s.body[i][2 + d] == Text(x.status);
      assert x in rows && InQuery(x, monthFirst, monthLast, specialist);
    }
  }

  // ---------- the day cells as db.py:218-220 writes them ----------

  /**
   * The export as written: `getattr(row, str(d), "")` looks for an attribute
   * named "1", "2", ... on a namedtuple whose integer day columns were
   * renamed to positional names, so every day cell gets the default "".
   */
  function ExportMonthMatrixAsWritten(rows: seq<Activity>, monthFirst: Date, monthLast: Date, specialist: Option<string>): (s: Sheet)
    requires Valid(monthFirst) && Valid(monthLast)
    ensures var t := ExportMonthMatrix(rows, monthFirst, monthLast, specialist);
      && (s.Placeholder? <==> t.Placeholder?)
      && (s.Grid? ==>
            && s.title == t.title && s.header == t.header && |s.body| == |t.body|
            && (forall i :: 0 <= i < |s.body| ==>
                  && |s.body[i]| == |t.body[i]| && s.body[i][..3] == t.body[i][..3]
                  && (forall j :: 3 <= j < |s.body[i]| ==> s.body[i][j] == Text(""))))
  {
    match ExportMonthMatrix(rows, monthFirst, monthLast, specialist)
    case Placeholder(m) => Placeholder(m)
    case Grid(t, h, b) =>
      Grid(t, h, seq(|b|, i requires 0 <= i < |b| => b[i][..3] + seq(|b[i]| - 3, j => Text(""))))
  }

  lemma QuerySingle(a: Activity, first: Date, last: Date)
    requires InQuery(a, first, last, None)
    ensures QueryRange([a], first, last, None) == [a]
  {
    var q := QueryRange([a], first, last, None);
    assert a in q;
    assert multiset(q) == multiset(Filter([a], x => InQuery(x, first, last, None)));
    assert |q| == 1;
  }

  lemma GroupKeysSingle(a: Activity)
    ensures GroupKeys([a]) == [KeyOf(a)]
  {
    var keys := GroupKeys([a]);
    assert KeyOf(a) in keys;
    if |keys| > 1 {
      assert keys[0] in keys && keys[1] in keys;
      KeyLtIsStrictTotalOrder();
      assert false;
    }
  }

  /** The export of a single record of the month: one body row. */
  lemma ExportSingle(a: Activity, first: Date, last: Date)
    requires Valid(first) && Valid(last) && InQuery(a, first, last, None)
    ensures ExportMonthMatrix([a], first, last, None) == Grid(Title(first), HeaderRow(last.day), [BodyRow([a], KeyOf(a), last.day)])
  {
    QuerySingle(a, first, last);
    GroupKeysSingle(a);
  }

  /**
   * A month holding one record with a non-empty status (for instance "\U{2713}"
   * on 2024-03-02): the written export leaves that record's day cell empty,
   * the intended one shows the status.
   */
  lemma ExportAsWrittenLosesStatus(a: Activity, first: Date, last: Date)
    requires Valid(first) && Valid(last) && InQuery(a, first, last, None)
    requires 1 <= a.scheduledDate.day <= last.day && a.status != ""
    ensures ExportMonthMatrixAsWritten([a], first, last, None).body[0][2 + a.scheduledDate.day] == Text("")
    ensures ExportMonthMatrix([a], first, last, None).body[0][2 + a.scheduledDate.day] == Text(a.status)
  {
    ExportSingle(a, first, last);
    assert DayCell([a], KeyOf(a), a.scheduledDate.day) == Text(a.status);
  }
}
