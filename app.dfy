/**
 * The logic of app.py around the record store: month bounds, the admin
 * code check, the expansion of a date range into scheduled days, the
 * registration form's validation and record building, the detection of
 * edits in the status grid, and the per-specialist dashboard counts.
 * Widgets, secrets and environment lookups become parameters.
 */
module App {
  import opened Wrappers
  import opened Seqs
  import opened Text
  import opened Calendar
  import opened Store

  // ---------- month_bounds (app.py:20-28) ----------

  /**
   * The first and last day of the month of `anyDay`. `None` for December
   * 9999, where `date(first.year + 1, 1, 1)` raises ValueError.
   */
  function MonthBounds(anyDay: Date): (r: Option<(Date, Date)>)
    requires Valid(anyDay)
    ensures r.None? <==> anyDay.year == MaxYear && anyDay.month == 12
    ensures r.Some? ==>
      var (first, last) := r.value;
      && Valid(first) && Valid(last)
      && first == Date(anyDay.year, anyDay.month, 1)
      && last == Date(anyDay.year, anyDay.month, DaysInMonth(anyDay.year, anyDay.month))
  {
    var first := anyDay.(day := 1);
    if first.month == 12 && first.year + 1 > MaxYear then None
    else
      var nextFirst := if first.month == 12 then Date(first.year + 1, 1, 1) else Date(first.year, first.month + 1, 1);
      Some((first, Pred(nextFirst)))
  }

  /** A date lies between the bounds exactly when it is in the same month, and the bounds are a whole month of consecutive days. */
  lemma MonthBoundsSpanMonth(anyDay: Date, d: Date)
    requires Valid(anyDay) && Valid(d) && MonthBounds(anyDay).Some?
    ensures var (first, last) := MonthBounds(anyDay).value;
      && (DateLe(first, d) && DateLe(d, last) <==> d.year == anyDay.year && d.month == anyDay.month)
      && Ordinal(last) - Ordinal(first) + 1 == DaysInMonth(anyDay.year, anyDay.month)
  {
    var (first, last) := MonthBounds(anyDay).value;
    assert first.day == 1 && last.day == DaysInMonth(anyDay.year, anyDay.month);
  }

  // ---------- verify_admin and the role gate (app.py:37-54) ----------

  /** `get_admin_code() or os.getenv("ADMIN_CODE")`: the secrets value unless it is missing or empty. */
  function ConfiguredSecret(secretsValue: Option<string>, envValue: Option<string>): (r: Option<string>)
    ensures r.Some? ==> r.value != ""
    ensures secretsValue.Some? && secretsValue.value != "" ==> r == secretsValue
    ensures (secretsValue.None? || secretsValue.value == "") && envValue.Some? && envValue.value != "" ==> r == envValue
    ensures r.None? <==> (secretsValue.None? || secretsValue.value == "") && (envValue.None? || envValue.value == "")
  {
    if secretsValue.Some? && secretsValue.value != "" then secretsValue
    else if envValue.Some? && envValue.value != "" then envValue
    else None
  }

  /** `verify_admin`: never true without a configured secret, otherwise true exactly for the secret. */
  function VerifyAdmin(code: string, secretsValue: Option<string>, envValue: Option<string>): (r: bool)
    ensures ConfiguredSecret(secretsValue, envValue).None? ==> !r
    ensures ConfiguredSecret(secretsValue, envValue).Some? ==> (r <==> code == ConfiguredSecret(secretsValue, envValue).value)
    ensures r ==> code != ""
  {
    var secret := ConfiguredSecret(secretsValue, envValue);
    secret.Some? && code == secret.value
  }

  const AdminRole := "Administrador"

  /** The sidebar gate: only the admin role with a non-empty code that, stripped, matches the secret. */
  function IsAdmin(role: string, code: string, secretsValue: Option<string>, envValue: Option<string>): (r: bool)
    ensures r <==> role == AdminRole && code != "" && VerifyAdmin(Strip(code), secretsValue, envValue)
    ensures r ==> !AllSpace(code)
  {
    if role == AdminRole then (if code != "" then VerifyAdmin(Strip(code), secretsValue, envValue) else false)
    else false
  }

  // ---------- date-range expansion (app.py:111-120) ----------

  const DayNames := ["Lun", "Mar", "Mié", "Jue", "Vie", "Sáb", "Dom"]

  function DayName(d: Date): string
    requires Valid(d)
  {
    DayNames[Weekday(d)]
  }

  /** Whether the expansion emits `d`: its day name is selected (all seven when none is) and weekends are included or it is a weekday. */
  predicate Emit(d: Date, days: seq<string>, includeWeekend: bool)
    requires Valid(d)
  {
    && (includeWeekend || (DayName(d) != "Sáb" && DayName(d) != "Dom"))
    && (days == [] || DayName(d) in days)
  }

  /** Emitted days are never Saturday or Sunday unless weekends are included. */
  lemma EmitWeekend(d: Date, days: seq<string>)
    requires Valid(d) && Emit(d, days, false)
    ensures Weekday(d) < 5
  {
  }

  /**
   * `out` lists, ascending, exactly the emitted dates whose ordinal lies in
   * [lo, hi): what the walk has produced once it reaches ordinal `hi`.
   */
  ghost predicate Expanded(out: seq<Date>, lo: int, hi: int, days: seq<string>, includeWeekend: bool) {
    && (forall d :: d in out ==> Valid(d) && lo <= Ordinal(d) < hi && Emit(d, days, includeWeekend))
    && (forall d :: Valid(d) && lo <= Ordinal(d) < hi && Emit(d, days, includeWeekend) ==> d in out)
    && (forall i, j :: 0 <= i < j < |out| ==> Valid(out[i]) && Valid(out[j]) && Ordinal(out[i]) < Ordinal(out[j]))
  }

  /** One step of the walk: looking at `cur` extends the covered ordinals by one. */
  lemma ExpandStep(out: seq<Date>, lo: int, cur: Date, days: seq<string>, includeWeekend: bool)
    requires Valid(cur) && lo <= Ordinal(cur) && Expanded(out, lo, Ordinal(cur), days, includeWeekend)
    ensures Expanded(out + (if Emit(cur, days, includeWeekend) then [cur] else []), lo, Ordinal(cur) + 1, days, includeWeekend)
  {
    forall d | Valid(d) && Ordinal(d) == Ordinal(cur)
      ensures d == cur
    {
      OrdinalOrder(d, cur);
    }
    var next := out + (if Emit(cur, days, includeWeekend) then [cur] else []);
    assert forall d :: d in next ==> d in out || d == cur;
  }

  /** The finished walk, restated with date comparisons. */
  lemma ExpandedInDateTerms(out: seq<Date>, start: Date, end: Date, days: seq<string>, includeWeekend: bool)
    requires Valid(start) && Valid(end) && Expanded(out, Ordinal(start), Ordinal(end) + 1, days, includeWeekend)
    ensures forall i, j :: 0 <= i < j < |out| ==> DateLt(out[i], out[j])
    ensures forall d :: d in out ==> Valid(d) && DateLe(start, d) && DateLe(d, end) && Emit(d, days, includeWeekend)
    ensures forall d :: Valid(d) && DateLe(start, d) && DateLe(d, end) && Emit(d, days, includeWeekend) ==> d in out
  {
    forall d | Valid(d)
      ensures DateLe(start, d) <==> Ordinal(start) <= Ordinal(d)
      ensures DateLe(d, end) <==> Ordinal(d) <= Ordinal(end)
    {
      OrdinalOrder(start, d);
      OrdinalOrder(d, end);
    }
    forall i, j | 0 <= i < j < |out|
      ensures DateLt(out[i], out[j])
    {
      OrdinalOrder(out[i], out[j]);
    }
  }

  /**
   * The date list of the "Rango" mode: empty when start > end; otherwise,
   * ascending and without repeats, exactly the dates of [start, end] that
   * `Emit` admits. `None` when the walk steps past 9999-12-31 (OverflowError).
   */
  method ExpandRange(start: Date, end: Date, days: seq<string>, includeWeekend: bool) returns (r: Option<seq<Date>>)
    requires Valid(start) && Valid(end)
    ensures r.None? <==> DateLe(start, end) && end == MaxDate
    ensures r.Some? && DateLt(end, start) ==> r.value == []
    ensures r.Some? ==> forall i, j :: 0 <= i < j < |r.value| ==> DateLt(r.value[i], r.value[j])
    ensures r.Some? ==> forall d :: d in r.value ==>
      Valid(d) && DateLe(start, d) && DateLe(d, end) && Emit(d, days, includeWeekend)
    ensures r.Some? ==> forall d :: Valid(d) && DateLe(start, d) && DateLe(d, end) && Emit(d, days, includeWeekend) ==>
      d in r.value
  {
    if DateLt(end, start) {
      return Some([]);
    }
    var out: seq<Date> := [];
    var cur := start;
    OrdinalOrder(start, end);
    while DateLe(cur, end)
      invariant Valid(cur)
      invariant Ordinal(start) <= Ordinal(cur) <= Ordinal(end) + 1
      invariant Expanded(out, Ordinal(start), Ordinal(cur), days, includeWeekend)
      decreases Ordinal(end) - Ordinal(cur)
    {
      OrdinalOrder(cur, end);
      ExpandStep(out, Ordinal(start), cur, days, includeWeekend);
      if Emit(cur, days, includeWeekend) {
        out := out + [cur];
      }
      if cur == MaxDate {
        return None;
      }
      SuccCorrect(cur);
      cur := Succ(cur);
    }
    OrdinalOrder(end, cur);
    OrdinalOrder(cur, MaxDate);
    ExpandedInDateTerms(out, start, end, days, includeWeekend);
    return Some(out);
  }

  // ---------- registration form (app.py:125-141) ----------

  const OtherUnit := "Otro"
  const MissingDataMessage := "Faltan datos: especialista, actividad, unidad y al menos 1 fecha."

  /** `unidad_otro.strip() if unidad == "Otro" else unidad`. */
  function FinalUnit(unit: string, otherUnit: string): string {
    if unit == OtherUnit then Strip(otherUnit) else unit
  }

  /**
   * The submit handler: the error message when specialist, activity, unit
   * (the chosen one or the free text) or the date list is empty; otherwise
   * one record per date, in date-list order, not yet marked.
   */
  function BuildSubmission(specialist: string, activity: string, unit: string, otherUnit: string,
                           dates: seq<Date>, notes: string, actorName: string): (r: Result<seq<NewRecord>, string>)
    ensures r.Failure? <==> specialist == "" || activity == "" || (unit == "" && otherUnit == "") || dates == []
    ensures r.Failure? ==> r.error == MissingDataMessage
    ensures r.Success? ==> |r.value| == |dates| && forall i :: 0 <= i < |dates| ==>
      var rec := r.value[i];
      && rec.scheduledDate == dates[i]
      && rec.specialist == Strip(specialist) && rec.activity == Strip(activity)
      && rec.unit == FinalUnit(unit, otherUnit)
      && rec.status == Some("") && rec.notes == Some(Strip(notes))
      && rec.createdBy == Some(Strip(if actorName == "" then NoAuthor else actorName))
  {
    if specialist == "" || activity == "" || (unit == "" && otherUnit == "") || dates == [] then
      Failure(MissingDataMessage)
    else
      var createdBy := Strip(if actorName == "" then NoAuthor else actorName);
      Success(seq(|dates|, i requires 0 <= i < |dates| =>
        NewRecord(Strip(specialist), Strip(activity), FinalUnit(unit, otherUnit), dates[i],
                  Some(""), Some(Strip(notes)), Some(createdBy))))
  }

  /**
   * What a successful submission stores: unmarked rows on the chosen dates,
   * with a non-empty author ("—" when the name is empty or blank).
   */
  lemma SubmissionStored(specialist: string, activity: string, unit: string, otherUnit: string,
                         dates: seq<Date>, notes: string, actorName: string, nextId: int, now: string)
    requires BuildSubmission(specialist, activity, unit, otherUnit, dates, notes, actorName).Success?
    ensures var recs := BuildSubmission(specialist, activity, unit, otherUnit, dates, notes, actorName).value;
      var rows := Inserted(recs, nextId, now);
      && |rows| == |dates|
      && forall i :: 0 <= i < |rows| ==>
           && rows[i].scheduledDate == dates[i] && rows[i].status == ""
           && rows[i].createdBy == (if AllSpace(actorName) then NoAuthor else Strip(actorName))
  {
    var recs := BuildSubmission(specialist, activity, unit, otherUnit, dates, notes, actorName).value;
    var rows := Inserted(recs, nextId, now);
    StoredAuthor(actorName);
    forall i | 0 <= i < |rows|
      ensures rows[i].scheduledDate == dates[i] && rows[i].status == ""
      ensures rows[i].createdBy == (if AllSpace(actorName) then NoAuthor else Strip(actorName))
    {
      var rec := recs[i];
      assert rec.scheduledDate == dates[i] && rec.status == Some("");
      assert rec.createdBy == Some(Strip(if actorName == "" then NoAuthor else actorName));
      assert rows[i] == NewRow(rec, nextId + i, now);
    }
  }

  /** `(actor_name or "—").strip()`, then `or "—"` in the store: a blank name ends as "—". */
  lemma StoredAuthor(actorName: string)
    ensures OrDefault(Some(Strip(if actorName == "" then NoAuthor else actorName)), NoAuthor)
         == (if AllSpace(actorName) then NoAuthor else Strip(actorName))
  {
    if actorName == "" {
      StripNoAuthor();
    }
  }

  lemma StripNoAuthor()
    ensures Strip(NoAuthor) == NoAuthor
  {
    assert |NoAuthor| == 1 && NoAuthor[0] == '\U{2014}';
    assert !IsSpace(NoAuthor[0]);
  }

  /** The unit check passes on the chosen option, so "Otro" with a blank free text stores an empty unit. */
  lemma SubmissionBlankOtherUnit(dates: seq<Date>)
    requires dates != []
    ensures var r := BuildSubmission("Ana", "Informe", OtherUnit, " ", dates, "", "Ana");
      r.Success? && r.value[0].unit == ""
  {
    assert AllSpace(" ");
  }

  // ---------- change detection in the status grid (app.py:187-203) ----------

  /** One row of the status grid; status and notes may be cleared to `None` in the editor. */
  datatype GridRow = GridRow(id: int, scheduledDate: Date, status: Option<string>, notes: Option<string>)

  /** Python's `str()` of a notes cell. */
  function PyStr(v: Option<string>): string {
    if v.None? then "None" else v.value
  }

  /** `original.loc[original["id"] == rid].iloc[0]`: the first original row with this id, or -1. */
  function FirstWithId(rows: seq<GridRow>, id: int): (k: int)
    ensures -1 <= k < |rows|
    ensures k >= 0 ==> rows[k].id == id && forall j :: 0 <= j < k ==> rows[j].id != id
    ensures k < 0 ==> forall j :: 0 <= j < |rows| ==> rows[j].id != id
  {
    if rows == [] then -1
    else if rows[0].id == id then 0
    else
      var k := FirstWithId(rows[1..], id);
      assert forall j :: 1 <= j < |rows| ==> rows[j] == rows[1..][j - 1];
      if k < 0 then -1 else k + 1
  }

  /** Every edited row has an original row: the editor shows a fixed set of rows with a read-only id. */
  ghost predicate AllKnown(original: seq<GridRow>, edited: seq<GridRow>) {
    forall i :: 0 <= i < |edited| ==> FirstWithId(original, edited[i].id) >= 0
  }

  /** The status or the notes of the row differ from the original (notes compared as `str`). */
  predicate Differs(orig: GridRow, row: GridRow) {
    row.status != orig.status || PyStr(row.notes) != PyStr(orig.notes)
  }

  function ChangeEntry(row: GridRow, actorName: string): StatusChange {
    StatusChange(row.id, row.status, Some(row.notes.GetOr("")), Some(Strip(actorName)))
  }

  /**
   * The change list the save button builds: one entry per edited row that
   * differs, in grid order. This is the reference definition that
   * `DetectChanges` is proved against; what it promises is stated by
   * `ChangesExactlyDiffering` and `ChangesIgnoreDates`.
   */
  function Changes(original: seq<GridRow>, edited: seq<GridRow>, actorName: string): (r: seq<StatusChange>)
    requires AllKnown(original, edited)
    ensures |r| <= |edited|
  {
    if edited == [] then []
    else
      var init, row := edited[..|edited| - 1], edited[|edited| - 1];
      var orig := original[FirstWithId(original, row.id)];
      Changes(original, init, actorName) + (if Differs(orig, row) then [ChangeEntry(row, actorName)] else [])
  }

  /** The ids reported as an unauthorised date change: for a non-admin, every row whose date differs. */
  function RefusedDateEdits(original: seq<GridRow>, edited: seq<GridRow>, isAdmin: bool): (r: seq<int>)
    requires AllKnown(original, edited)
    ensures isAdmin ==> r == []
  {
    if edited == [] || isAdmin then []
    else
      var init, row := edited[..|edited| - 1], edited[|edited| - 1];
      var orig := original[FirstWithId(original, row.id)];
      RefusedDateEdits(original, init, isAdmin) + (if row.scheduledDate != orig.scheduledDate then [row.id] else [])
  }

  /**
   * The save button: the changes to send to the standard update and the ids
   * whose date edit was refused. A refused date is only reverted in the
   * local copy of the row; no date ever reaches the change list.
   */
  method DetectChanges(original: seq<GridRow>, edited: seq<GridRow>, isAdmin: bool, actorName: string)
    returns (changes: seq<StatusChange>, refused: seq<int>)
    requires AllKnown(original, edited)
    ensures changes == Changes(original, edited, actorName)
    ensures refused == RefusedDateEdits(original, edited, isAdmin)
  {
    changes, refused := [], [];
    var i := 0;
    while i < |edited|
      invariant 0 <= i <= |edited|
      invariant changes == Changes(original, edited[..i], actorName)
      invariant refused == RefusedDateEdits(original, edited[..i], isAdmin)
    {
      ghost var prefix := edited[..i + 1];
      assert prefix[..|prefix| - 1] == edited[..i] && prefix[|prefix| - 1] == edited[i];
      var row := edited[i];
      var orig := original[FirstWithId(original, row.id)];
      if !isAdmin && row.scheduledDate != orig.scheduledDate {
        refused := refused + [row.id];
        row := row.(scheduledDate := orig.scheduledDate);
      }
      if Differs(orig, row) {
        changes := changes + [ChangeEntry(row, actorName)];
      }
      i := i + 1;
    }
    assert edited[..i] == edited;
  }

  /**
   * A change is emitted exactly for the rows whose status or notes differ
   * from the original, and it carries that row's id, status, notes (`None`
   * as "") and the stripped actor name.
   */
  lemma {:induction false} ChangesExactlyDiffering(original: seq<GridRow>, edited: seq<GridRow>, actorName: string)
    requires AllKnown(original, edited)
    ensures forall c :: c in Changes(original, edited, actorName) <==>
      exists i :: 0 <= i < |edited| && Differs(original[FirstWithId(original, edited[i].id)], edited[i])
                  && c == ChangeEntry(edited[i], actorName)
  {
    if edited != [] {
      var init := edited[..|edited| - 1];
      assert AllKnown(original, init) by {
        assert forall i :: 0 <= i < |init| ==> init[i] == edited[i];
      }
      ChangesExactlyDiffering(original, init, actorName);
      assert forall i :: 0 <= i < |init| ==> init[i] == edited[i];
    }
  }

  /** Date edits never influence the change list, whoever makes them. */
  lemma {:induction false} ChangesIgnoreDates(original: seq<GridRow>, e1: seq<GridRow>, e2: seq<GridRow>, actorName: string)
    requires AllKnown(original, e1) && |e1| == |e2|
    requires forall i :: 0 <= i < |e1| ==> e2[i] == e1[i].(scheduledDate := e2[i].scheduledDate)
    ensures AllKnown(original, e2)
    ensures Changes(original, e1, actorName) == Changes(original, e2, actorName)
  {
    if e1 != [] {
      var n := |e1| - 1;
      assert AllKnown(original, e1[..n]) by {
        assert forall i :: 0 <= i < n ==> e1[..n][i] == e1[i];
      }
      ChangesIgnoreDates(original, e1[..n], e2[..n], actorName);
    }
  }

  /** Saving an unedited grid of distinct ids sends nothing. */
  lemma {:induction false} UneditedGridHasNoChanges(original: seq<GridRow>, prefix: nat, actorName: string)
    requires prefix <= |original|
    requires forall i, j :: 0 <= i < j < |original| ==> original[i].id != original[j].id
    ensures AllKnown(original, original[..prefix])
    ensures Changes(original, original[..prefix], actorName) == []
  {
    forall i | 0 <= i < |original| ensures FirstWithId(original, original[i].id) == i {
    }
    if prefix > 0 {
      UneditedGridHasNoChanges(original, prefix - 1, actorName);
      assert original[..prefix][..prefix - 1] == original[..prefix - 1];
    }
  }

  // ---------- dashboard counts (app.py:221-231) ----------

  const DoneMark := "\U{2713}"
  const MissedMark := "\U{2717}"

  /** One row of the dashboard summary. */
  datatype Summary = Summary(specialist: string, planned: nat, completed: nat, missed: nat, pending: nat)

  /**
   * Rows of specialist `s`, and with status `status` when one is given: the
   * reference definition of the dashboard's counts, whose relations are
   * stated by `CountsAddUp` and `CountPositive`.
   */
  function Count(q: seq<Activity>, s: string, status: Option<string>): (n: nat)
    ensures n <= |q|
  {
    if q == [] then 0
    else (if q[0].specialist == s && (status.None? || q[0].status == status.value) then 1 else 0) + Count(q[1..], s, status)
  }

  function SummaryOf(q: seq<Activity>, s: string): Summary {
    Summary(s, Count(q, s, None), Count(q, s, Some(DoneMark)), Count(q, s, Some(MissedMark)), Count(q, s, Some("")))
  }

  /** The three marks split a specialist's rows: their counts never exceed the planned count, and fill it when every status is a mark. */
  lemma {:induction false} CountsAddUp(q: seq<Activity>, s: string)
    ensures Count(q, s, Some(DoneMark)) + Count(q, s, Some(MissedMark)) + Count(q, s, Some("")) <= Count(q, s, None)
    ensures (forall i :: 0 <= i < |q| ==> q[i].status in {DoneMark, MissedMark, ""}) ==>
      Count(q, s, Some(DoneMark)) + Count(q, s, Some(MissedMark)) + Count(q, s, Some("")) == Count(q, s, None)
  {
    if q != [] {
      CountsAddUp(q[1..], s);
      assert forall i :: 1 <= i < |q| ==> q[1..][i - 1] == q[i];
    }
  }

  lemma {:induction false} CountPositive(q: seq<Activity>, s: string)
    ensures Count(q, s, None) > 0 <==> exists i :: 0 <= i < |q| && q[i].specialist == s
  {
    if q != [] {
      CountPositive(q[1..], s);
      assert forall i :: 1 <= i < |q| ==> q[1..][i - 1] == q[i];
    }
  }

  /** The specialists with records, each once, in ascending order (`groupby("specialist")`). */
  function Specialists(q: seq<Activity>): (r: seq<string>)
    ensures StrictlySorted(r, StrLt)
    ensures forall s :: s in r <==> exists j :: 0 <= j < |q| && q[j].specialist == s
  {
    StrLtIsStrictTotalOrder();
    var names := seq(|q|, j requires 0 <= j < |q| => q[j].specialist);
    assert forall j :: 0 <= j < |q| ==> names[j] == q[j].specialist;
    SortedDistinct(names, StrLt)
  }

  /**
   * The summary table: one row per specialist with records, in specialist
   * order, each planned at least once and with its marks adding up to at
   * most the planned count.
   */
  function Dashboard(q: seq<Activity>): (r: seq<Summary>)
    ensures |r| == |Specialists(q)|
    ensures forall i, j :: 0 <= i < j < |r| ==> StrLt(r[i].specialist, r[j].specialist)
    ensures forall i :: 0 <= i < |r| ==> r[i].specialist == Specialists(q)[i]
    ensures forall i :: 0 <= i < |r| ==> r[i] == SummaryOf(q, r[i].specialist)
    ensures forall i :: 0 <= i < |r| ==> r[i].planned >= 1 && r[i].completed + r[i].missed + r[i].pending <= r[i].planned
  {
    var sps := Specialists(q);
    var r := seq(|sps|, i requires 0 <= i < |sps| => SummaryOf(q, sps[i]));
    assert forall i :: 0 <= i < |r| ==> r[i].specialist == sps[i];
    forall i | 0 <= i < |r|
      ensures r[i].planned >= 1 && r[i].completed + r[i].missed + r[i].pending <= r[i].planned
    {
      assert sps[i] in sps;
      CountPositive(q, sps[i]);
      CountsAddUp(q, sps[i]);
    }
    r
  }

  // ---------- completion rate and display order (app.py:232-236) ----------

  /** `tasa_cumplimiento`: the share of decided rows that were completed, 0 when none is decided. */
  function CompletionRate(s: Summary): (r: real)
    ensures 0.0 <= r <= 1.0
    ensures s.completed + s.missed == 0 ==> r == 0.0
    ensures s.completed + s.missed > 0 ==> r * (s.completed + s.missed) as real == s.completed as real
    ensures r == 1.0 <==> s.completed > 0 && s.missed == 0
  {
    if s.completed + s.missed > 0 then s.completed as real / (s.completed + s.missed) as real else 0.0
  }

  predicate PlannedFirst(a: Summary, b: Summary) {
    a.planned >= b.planned
  }

  /** The table as shown: the dashboard rows, largest planned count first. */
  function DisplayedDashboard(q: seq<Activity>): (r: seq<Summary>)
    ensures multiset(r) == multiset(Dashboard(q))
    ensures forall i, j :: 0 <= i < j < |r| ==> r[i].planned >= r[j].planned
  {
    assert IsTotalPreorder(PlannedFirst);
    Sort(Dashboard(q), PlannedFirst)
  }

  // ---------- the admin panel's arguments (app.py:280-294) ----------

  const AdminActor := "ADMIN"

  /** `text.strip() or fallback`: the stripped text, or the fallback when only whitespace was typed. */
  function StrippedOr(text: string, fallback: string): (r: string)
    ensures AllSpace(text) ==> r == fallback
    ensures !AllSpace(text) ==> r != "" && !IsSpace(r[0]) && !IsSpace(r[|r| - 1]) && Strip(r) == r
  {
    var t := Strip(text);
    if t == "" then fallback else t
  }

  /**
   * The actor and reason the admin panel passes to a reschedule or a delete
   * are never blank and never carry surrounding whitespace: a blank name
   * becomes "ADMIN" and a blank reason "—".
   */
  lemma AdminArgumentsNeverBlank(actorName: string, motivo: string)
    ensures var actor := StrippedOr(actorName, AdminActor);
      actor != "" && Strip(actor) == actor && (actor == AdminActor <==> AllSpace(actorName) || Strip(actorName) == AdminActor)
    ensures var reason := StrippedOr(motivo, NoAuthor);
      reason != "" && Strip(reason) == reason
  {
    StripNoAuthor();
    var actor := StrippedOr(actorName, AdminActor);
    assert Strip(AdminActor) == AdminActor by {
      assert forall i :: 0 <= i < |AdminActor| ==> !IsSpace(AdminActor[i]);
    }
  }
}
