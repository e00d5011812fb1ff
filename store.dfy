/**
 * The record store of db.py: the `scheduled_activities` and `audit_log`
 * tables held in memory by a class whose methods are the mutation service
 * (batch insert, standard status/notes update, audited admin reschedule
 * and delete), and the range query as a function of the stored rows.
 * Every method is one transaction: it either applies in full or, when
 * it reports `false`, changes nothing. Timestamps (`_now_iso()`) are passed in.
 */
module Store {
  import opened Wrappers
  import opened Seqs
  import opened Text
  import opened Calendar

  /** One row of `scheduled_activities`. */
  datatype Activity = Activity(
    id: int,
    specialist: string,
    activity: string,
    unit: string,
    scheduledDate: Date,
    status: string,
    notes: string,
    createdAt: string,
    createdBy: string,
    updatedAt: Option<string>,
    updatedBy: Option<string>)

  /** One dict of the list given to `add_scheduled_records`; `None` is a missing key or a `None` value. */
  datatype NewRecord = NewRecord(
    specialist: string,
    activity: string,
    unit: string,
    scheduledDate: Date,
    status: Option<string>,
    notes: Option<string>,
    createdBy: Option<string>)

  /** One dict of the list given to `update_records_status_and_notes`. */
  datatype StatusChange = StatusChange(id: int, status: Option<string>, notes: Option<string>, actor: Option<string>)

  datatype AuditAction = UpdateDate | Delete {
    /** The text stored in `audit_log.action`. */
    function Name(): string {
      match this
      case UpdateDate => "UPDATE_DATE"
      case Delete => "DELETE"
    }
  }

  /** One row of `audit_log`. */
  datatype AuditEntry = AuditEntry(
    id: int,
    action: AuditAction,
    recordId: int,
    oldDate: Option<Date>,
    newDate: Option<Date>,
    actor: string,
    reason: string,
    ts: string)

  /** The placeholder author written when a record names none. */
  const NoAuthor := "\U{2014}"

  /** `d.get(key, default) or default`: a missing key, `None` and `""` all give the default. */
  function OrDefault(v: Option<string>, default: string): (r: string)
    ensures v.Some? && v.value != "" ==> r == v.value
    ensures v.None? || v.value == "" ==> r == default
    ensures default != "" ==> r != ""
  {
    if v.Some? && v.value != "" then v.value else default
  }

  /** Applying the same `or default` a second time, as the store does after the form, changes nothing. */
  lemma OrDefaultIdempotent(v: Option<string>, default: string)
    ensures OrDefault(Some(OrDefault(v, default)), default) == OrDefault(v, default)
  {
  }

  // ---------- invariants of the two tables ----------

  /** Ids strictly ascend in table order (AUTOINCREMENT never reuses one) and stay below the next id. */
  ghost predicate WellFormed(rows: seq<Activity>, nextId: int) {
    && nextId >= 1
    && (forall i :: 0 <= i < |rows| ==> 1 <= rows[i].id < nextId)
    && (forall i, j :: 0 <= i < j < |rows| ==> rows[i].id < rows[j].id)
  }

  /** The audit log's AUTOINCREMENT ids: entry k has id k + 1. */
  ghost predicate AuditNumbered(audit: seq<AuditEntry>) {
    forall k :: 0 <= k < |audit| ==> audit[k].id == k + 1
  }

  ghost predicate HasId(rows: seq<Activity>, id: int) {
    exists i :: 0 <= i < |rows| && rows[i].id == id
  }

  /** `SELECT ... WHERE id = ?`: the position of the first row with this id, or -1. */
  function IndexOf(rows: seq<Activity>, id: int): (k: int)
    ensures -1 <= k < |rows|
    ensures k >= 0 ==> rows[k].id == id && forall j :: 0 <= j < k ==> rows[j].id != id
    ensures k < 0 <==> !HasId(rows, id)
  {
    if rows == [] then -1
    else if rows[0].id == id then 0
    else
      var k := IndexOf(rows[1..], id);
      if k < 0 then
        assert forall i :: 1 <= i < |rows| ==> rows[i] == rows[1..][i - 1];
        -1
      else k + 1
  }

  // ---------- batch insert (db.py:55-74) ----------

  /** The row INSERTed for one record, with the column defaults of db.py:69-72. */
  function NewRow(r: NewRecord, id: int, now: string): Activity {
    Activity(id, r.specialist, r.activity, r.unit, r.scheduledDate,
             OrDefault(r.status, ""), OrDefault(r.notes, ""), now, OrDefault(r.createdBy, NoAuthor), None, None)
  }

  function Inserted(records: seq<NewRecord>, firstId: int, now: string): (r: seq<Activity>)
    ensures |r| == |records|
  {
    seq(|records|, i requires 0 <= i < |records| => NewRow(records[i], firstId + i, now))
  }

  /**
   * A batch appends one row per record, each with a fresh id above every
   * earlier one, the defaults for status, notes and author, and no update stamp.
   */
  lemma BatchInsertFresh(rows: seq<Activity>, nextId: int, records: seq<NewRecord>, now: string)
    requires WellFormed(rows, nextId)
    ensures WellFormed(rows + Inserted(records, nextId, now), nextId + |records|)
    ensures forall i, j :: 0 <= i < |rows| && 0 <= j < |records| ==> rows[i].id < Inserted(records, nextId, now)[j].id
    ensures forall j :: 0 <= j < |records| ==>
      var a := Inserted(records, nextId, now)[j];
      && a.specialist == records[j].specialist && a.activity == records[j].activity
      && a.unit == records[j].unit && a.scheduledDate == records[j].scheduledDate
      && a.id == nextId + j
      && a.status == OrDefault(records[j].status, "") && a.notes == OrDefault(records[j].notes, "")
      && a.createdBy == OrDefault(records[j].createdBy, NoAuthor)
      && (records[j].status.None? ==> a.status == "")
      && (records[j].notes.None? ==> a.notes == "")
      && (records[j].createdBy.None? ==> a.createdBy == NoAuthor)
      && a.createdBy != "" && a.createdAt == now && a.updatedAt.None? && a.updatedBy.None?
  {
    var ins := Inserted(records, nextId, now);
    var all := rows + ins;
    forall i, j | 0 <= i < j < |all| ensures all[i].id < all[j].id {
      if j >= |rows| && i < |rows| {
        assert all[j] == ins[j - |rows|];
      }
    }
  }

  // ---------- standard update (db.py:95-111) ----------

  /** The UPDATE of db.py:100-103 applied to one matching row. */
  function WithStatus(a: Activity, ch: StatusChange, now: string): Activity {
    a.(status := OrDefault(ch.status, ""), notes := OrDefault(ch.notes, ""),
       updatedAt := Some(now), updatedBy := Some(OrDefault(ch.actor, NoAuthor)))
  }

  /** `UPDATE ... WHERE id = ?` for one change: every row with that id, and no other. */
  function ApplyChange(rows: seq<Activity>, ch: StatusChange, now: string): (r: seq<Activity>)
    ensures |r| == |rows|
  {
    seq(|rows|, i requires 0 <= i < |rows| => if rows[i].id == ch.id then WithStatus(rows[i], ch, now) else rows[i])
  }

  /** The changes applied in list order. */
  function ApplyChanges(rows: seq<Activity>, changes: seq<StatusChange>, now: string): (r: seq<Activity>)
    ensures |r| == |rows|
  {
    if changes == [] then rows
    else ApplyChange(ApplyChanges(rows, changes[..|changes| - 1], now), changes[|changes| - 1], now)
  }

  /**
   * The standard path touches only status, notes and the update stamp: every
   * row keeps its id, date, specialist, activity, unit and creation stamp, and
   * a row whose id no change names is left exactly as it was.
   */
  lemma {:induction false} UpdateChangesOnlyStatusAndNotes(rows: seq<Activity>, changes: seq<StatusChange>, now: string)
    ensures forall i :: 0 <= i < |rows| ==>
      var a, b := rows[i], ApplyChanges(rows, changes, now)[i];
      && b.id == a.id && b.scheduledDate == a.scheduledDate
      && b.specialist == a.specialist && b.activity == a.activity && b.unit == a.unit
      && b.createdAt == a.createdAt && b.createdBy == a.createdBy
    ensures forall i :: 0 <= i < |rows| && (forall c :: c in changes ==> c.id != rows[i].id) ==>
      ApplyChanges(rows, changes, now)[i] == rows[i]
  {
    if changes != [] {
      UpdateChangesOnlyStatusAndNotes(rows, changes[..|changes| - 1], now);
      assert forall c :: c in changes[..|changes| - 1] ==> c in changes;
    }
  }

  /** The last change naming a row decides its status, notes and update stamp. */
  lemma UpdateLastChangeWins(rows: seq<Activity>, changes: seq<StatusChange>, now: string, i: int)
    requires 0 <= i < |rows| && changes != [] && changes[|changes| - 1].id == rows[i].id
    ensures var b, ch := ApplyChanges(rows, changes, now)[i], changes[|changes| - 1];
      && b.status == OrDefault(ch.status, "") && b.notes == OrDefault(ch.notes, "")
      && b.updatedAt == Some(now) && b.updatedBy == Some(OrDefault(ch.actor, NoAuthor))
  {
    UpdateChangesOnlyStatusAndNotes(rows, changes[..|changes| - 1], now);
  }

  // ---------- admin reschedule and delete (db.py:113-140) ----------

  /** The UPDATE of db.py:119. */
  function Rescheduled(a: Activity, newDate: Date, actor: string, now: string): Activity {
    a.(scheduledDate := newDate, updatedAt := Some(now), updatedBy := Some(actor))
  }

  /** The DELETE of db.py:134: every row but the one at `k`, in order. */
  function RemoveAt(rows: seq<Activity>, k: int): (r: seq<Activity>)
    requires 0 <= k < |rows|
    ensures |r| == |rows| - 1
    ensures forall i :: 0 <= i < |r| ==> r[i] == if i < k then rows[i] else rows[i + 1]
  {
    rows[..k] + rows[k + 1..]
  }

  lemma RescheduleKeepsWellFormed(rows: seq<Activity>, nextId: int, k: int, newDate: Date, actor: string, now: string)
    requires WellFormed(rows, nextId) && 0 <= k < |rows|
    ensures WellFormed(rows[k := Rescheduled(rows[k], newDate, actor, now)], nextId)
  {
  }

  /** Deleting keeps the invariant, and afterwards no row carries the deleted id. */
  lemma DeleteRemovesId(rows: seq<Activity>, nextId: int, k: int)
    requires WellFormed(rows, nextId) && 0 <= k < |rows|
    ensures WellFormed(RemoveAt(rows, k), nextId)
    ensures !HasId(RemoveAt(rows, k), rows[k].id)
    ensures forall x :: x in RemoveAt(rows, k) <==> x in rows && x.id != rows[k].id
  {
    var r := RemoveAt(rows, k);
    forall i, j | 0 <= i < j < |r|
      ensures r[i].id < r[j].id
    {
      assert r[i] == rows[if i < k then i else i + 1];
      assert r[j] == rows[if j < k then j else j + 1];
    }
    forall i | 0 <= i < |r|
      ensures r[i].id != rows[k].id && r[i] in rows
    {
      assert r[i] == rows[if i < k then i else i + 1];
    }
    forall x | x in rows && x.id != rows[k].id
      ensures x in r
    {
      var i :| 0 <= i < |rows| && rows[i] == x;
      if i < k {
        assert r[i] == x;
      } else {
        assert r[i - 1] == x;
      }
    }
  }

  // ---------- range query (db.py:76-93) ----------

  /** The WHERE clause of db.py:80-85; `None` and `""` mean no specialist filter. */
  predicate InQuery(a: Activity, from: Date, to: Date, specialist: Option<string>) {
    && DateLe(from, a.scheduledDate) && DateLe(a.scheduledDate, to)
    && (specialist.None? || specialist.value == "" || a.specialist == specialist.value)
  }

  /** `ORDER BY date(scheduled_date), specialist, activity`. */
  predicate RowLe(a: Activity, b: Activity) {
    || DateLt(a.scheduledDate, b.scheduledDate)
    || (a.scheduledDate == b.scheduledDate
        && (|| StrLt(a.specialist, b.specialist)
            || (a.specialist == b.specialist && (a.activity == b.activity || StrLt(a.activity, b.activity)))))
  }

  lemma RowLeTransitive(a: Activity, b: Activity, c: Activity)
    requires RowLe(a, b) && RowLe(b, c)
    ensures RowLe(a, c)
  {
    if a.scheduledDate == b.scheduledDate == c.scheduledDate {
      if a.specialist == b.specialist == c.specialist {
        if StrLt(a.activity, b.activity) && StrLt(b.activity, c.activity) {
          StrLtTransitive(a.activity, b.activity, c.activity);
        }
      } else if StrLt(a.specialist, b.specialist) && StrLt(b.specialist, c.specialist) {
        StrLtTransitive(a.specialist, b.specialist, c.specialist);
      }
    }
  }

  lemma RowLeTotal(a: Activity, b: Activity)
    ensures RowLe(a, b) || RowLe(b, a)
  {
    StrLtTotal(a.specialist, b.specialist);
    StrLtTotal(a.activity, b.activity);
  }

  lemma RowLeIsTotalPreorder()
    ensures IsTotalPreorder(RowLe)
  {
    forall a, b, c | RowLe(a, b) && RowLe(b, c)
      ensures RowLe(a, c)
    {
      RowLeTransitive(a, b, c);
    }
    forall a, b
      ensures RowLe(a, b) || RowLe(b, a)
    {
      RowLeTotal(a, b);
    }
  }

  /**
   * `get_month_records`: exactly the stored rows the WHERE clause admits,
   * as many times as they are stored, in ascending (date, specialist, activity)
   * order. Rows that tie on all three come in table order (SQLite leaves that open).
   */
  function QueryRange(rows: seq<Activity>, from: Date, to: Date, specialist: Option<string>): (r: seq<Activity>)
    ensures forall x :: x in r <==> x in rows && InQuery(x, from, to, specialist)
    ensures multiset(r) == multiset(Filter(rows, a => InQuery(a, from, to, specialist)))
    ensures Sorted(r, RowLe)
  {
    RowLeIsTotalPreorder();
    var matching := Filter(rows, a => InQuery(a, from, to, specialist));
    var r := Sort(matching, RowLe);
    assert forall x :: x in r <==> x in matching by {
      forall x
        ensures x in r <==> x in matching
      {
        assert x in r <==> x in multiset(r);
        assert x in matching <==> x in multiset(matching);
      }
    }
    r
  }

  /** What a batch writes is returned unchanged by the next query whose range covers its date. */
  lemma BatchInsertVisible(rows: seq<Activity>, nextId: int, records: seq<NewRecord>, now: string,
                           j: int, from: Date, to: Date)
    requires 0 <= j < |records|
    requires DateLe(from, records[j].scheduledDate) && DateLe(records[j].scheduledDate, to)
    ensures Inserted(records, nextId, now)[j] in QueryRange(rows + Inserted(records, nextId, now), from, to, None)
  {
    var all := rows + Inserted(records, nextId, now);
    assert all[|rows| + j] == Inserted(records, nextId, now)[j];
  }

  /** After a reschedule the record answers every query whose range covers the new date. */
  lemma RescheduleVisible(rows: seq<Activity>, k: int, newDate: Date, actor: string, now: string, from: Date, to: Date)
    requires 0 <= k < |rows| && DateLe(from, newDate) && DateLe(newDate, to)
    ensures var a := Rescheduled(rows[k], newDate, actor, now);
      a.scheduledDate == newDate && a in QueryRange(rows[k := a], from, to, None)
  {
    var a := Rescheduled(rows[k], newDate, actor, now);
    assert rows[k := a][k] == a;
  }

  /** After a delete no query returns the deleted record's id. */
  lemma DeleteInvisible(rows: seq<Activity>, nextId: int, k: int, from: Date, to: Date, specialist: Option<string>)
    requires WellFormed(rows, nextId) && 0 <= k < |rows|
    ensures forall x :: x in QueryRange(RemoveAt(rows, k), from, to, specialist) ==> x.id != rows[k].id
  {
    DeleteRemovesId(rows, nextId, k);
  }

  // ---------- the store ----------

  class ActivityStore {
    var rows: seq<Activity>
    var audit: seq<AuditEntry>
    var nextId: int

    ghost predicate Valid()
      reads this
    {
      WellFormed(rows, nextId) && AuditNumbered(audit)
    }

    /** A freshly initialised database (`init_db`): both tables empty. */
    constructor ()
      ensures Valid() && rows == [] && audit == [] && nextId == 1
    {
      rows, audit, nextId := [], [], 1;
    }

    /** `SELECT ... WHERE id = ?`. */
    method Find(id: int) returns (k: int)
      requires Valid()
      ensures k == IndexOf(rows, id)
    {
      k := 0;
      while k < |rows|
        invariant 0 <= k <= |rows|
        invariant forall j :: 0 <= j < k ==> rows[j].id != id
      {
        if rows[k].id == id {
          return;
        }
        k := k + 1;
      }
      k := -1;
    }

    /** `add_scheduled_records`: appends one row per record; an empty batch changes nothing. */
    method AddScheduledRecords(records: seq<NewRecord>, now: string)
      requires Valid()
      modifies this
      ensures Valid()
      ensures rows == old(rows) + Inserted(records, old(nextId), now)
      ensures nextId == old(nextId) + |records|
      ensures audit == old(audit)
    {
      if records == [] {
        return;
      }
      ghost var rows0, next0 := rows, nextId;
      BatchInsertFresh(rows0, next0, records, now);
      var i := 0;
      while i < |records|
        invariant 0 <= i <= |records|
        invariant nextId == next0 + i
        invariant rows == rows0 + Inserted(records[..i], next0, now)
        invariant audit == old(audit)
      {
        rows := rows + [NewRow(records[i], nextId, now)];
        nextId := nextId + 1;
        i := i + 1;
        assert Inserted(records[..i], next0, now) == Inserted(records[..i - 1], next0, now) + [NewRow(records[i - 1], next0 + i - 1, now)];
      }
      assert records[..i] == records;
    }

    /** `update_records_status_and_notes`: the changes applied one after another; unknown ids are skipped silently. */
    method UpdateRecordsStatusAndNotes(changes: seq<StatusChange>, now: string)
      requires Valid()
      modifies this
      ensures Valid()
      ensures rows == ApplyChanges(old(rows), changes, now)
      ensures nextId == old(nextId) && audit == old(audit)
    {
      if changes == [] {
        return;
      }
      var i := 0;
      while i < |changes|
        invariant 0 <= i <= |changes|
        invariant rows == ApplyChanges(old(rows), changes[..i], now)
        invariant nextId == old(nextId) && audit == old(audit)
        invariant Valid()
      {
        UpdateChangesOnlyStatusAndNotes(old(rows), changes[..i + 1], now);
        rows := ApplyChange(rows, changes[i], now);
        assert changes[..i + 1][..i] == changes[..i];
        i := i + 1;
      }
      assert changes[..i] == changes;
    }

    /**
     * `admin_update_scheduled_date`: false and no change when the id is unknown;
     * otherwise the date and update stamp of that row change and exactly one
     * UPDATE_DATE entry with the old and the new date is appended.
     */
    method AdminUpdateScheduledDate(recordId: int, newDate: Date, actor: string, reason: string, now: string)
      returns (ok: bool)
      requires Valid()
      modifies this
      ensures Valid() && nextId == old(nextId)
      ensures ok <==> HasId(old(rows), recordId)
      ensures !ok ==> rows == old(rows) && audit == old(audit)
      ensures ok ==>
        var k := IndexOf(old(rows), recordId);
        && rows == old(rows)[k := Rescheduled(old(rows)[k], newDate, actor, now)]
        && audit == old(audit) + [AuditEntry(|old(audit)| + 1, UpdateDate, recordId,
                                             Some(old(rows)[k].scheduledDate), Some(newDate), actor, reason, now)]
    {
      var k := Find(recordId);
      if k < 0 {
        return false;
      }
      var oldDate := rows[k].scheduledDate;
      RescheduleKeepsWellFormed(rows, nextId, k, newDate, actor, now);
      rows := rows[k := Rescheduled(rows[k], newDate, actor, now)];
      audit := audit + [AuditEntry(|audit| + 1, UpdateDate, recordId, Some(oldDate), Some(newDate), actor, reason, now)];
      return true;
    }

    /**
     * `admin_delete_record`: false and no change when the id is unknown;
     * otherwise that row is removed and exactly one DELETE entry, with the old
     * date and no new date, is appended.
     */
    method AdminDeleteRecord(recordId: int, actor: string, reason: string, now: string) returns (ok: bool)
      requires Valid()
      modifies this
      ensures Valid() && nextId == old(nextId)
      ensures ok <==> HasId(old(rows), recordId)
      ensures !ok ==> rows == old(rows) && audit == old(audit)
      ensures ok ==>
        var k := IndexOf(old(rows), recordId);
        && rows == RemoveAt(old(rows), k)
        && !HasId(rows, recordId)
        && audit == old(audit) + [AuditEntry(|old(audit)| + 1, Delete, recordId,
                                             Some(old(rows)[k].scheduledDate), None, actor, reason, now)]
    {
      var k := Find(recordId);
      if k < 0 {
        return false;
      }
      var oldDate := rows[k].scheduledDate;
      DeleteRemovesId(rows, nextId, k);
      rows := RemoveAt(rows, k);
      audit := audit + [AuditEntry(|audit| + 1, Delete, recordId, Some(oldDate), None, actor, reason, now)];
      return true;
    }
  }

  /**
   * The audit rule over a reschedule followed by a delete of the same id:
   * the entries already written never change, and each call appends one
   * entry exactly when the id exists.
   */
  method AuditTrailScenario(store: ActivityStore, id: int, d: Date, now: string)
    requires store.Valid()
    modifies store
    ensures store.Valid()
    ensures |store.audit| == |old(store.audit)| + (if HasId(old(store.rows), id) then 2 else 0)
    ensures store.audit[..|old(store.audit)|] == old(store.audit)
  {
    var ok1 := store.AdminUpdateScheduledDate(id, d, "admin1", "client request", now);
    if ok1 {
      assert store.rows[IndexOf(old(store.rows), id)].id == id;
    }
    var ok2 := store.AdminDeleteRecord(id, "admin1", "duplicate", now);
  }
}
