/** `NotificationService`: messages to patients. Two kinds are created, one when a record is
    added and one when the consent is changed; patients list them newest first and mark them
    read, one at a time through the change tracker or all at once by a direct update. */
module NotificationService {
  import opened Base
  import opened Guids
  import opened Entities
  import opened Store
  import Ordering

  const RecordAddedTitle: string := "New Medical Record Added"
  const RecordAddedKind: string := "RECORD_ADDED"
  const ConsentChangedTitle: string := "Consent Settings Updated"
  const ConsentChangedKind: string := "CONSENT_CHANGED"
  /** The default page size of `GetAllAsync`. */
  const DefaultTake: int := 50

  function RecordAddedMessage(doctorEmail: string): string {
    "Dr. " + doctorEmail + " has added a new medical record to your file."
  }

  function AllowedOrDenied(flag: bool): string {
    if flag then "Allowed" else "Denied"
  }

  function ConsentChangedMessage(allowDoctors: bool, allowNurses: bool): string {
    "Your consent settings have been updated. Doctors: " + AllowedOrDenied(allowDoctors)
      + ", Nurses: " + AllowedOrDenied(allowNurses)
  }

  /** The row `NotifyRecordAddedAsync` builds. */
  function RecordAdded(id: Guid, patientId: Guid, recordId: Guid, doctorEmail: string, now: Instant): Notification {
    Notification(id, patientId, RecordAddedTitle, RecordAddedMessage(doctorEmail), RecordAddedKind,
                 false, now, Some(recordId), None, Some(doctorEmail))
  }

  /** The row `NotifyConsentChangedAsync` builds. */
  function ConsentChanged(id: Guid, patientId: Guid, allowDoctors: bool, allowNurses: bool, now: Instant): Notification {
    Notification(id, patientId, ConsentChangedTitle, ConsentChangedMessage(allowDoctors, allowNurses),
                 ConsentChangedKind, false, now, None, None, None)
  }

  /** A record notification fits its columns exactly when the doctor's email is at most 256
      characters: the message, 49 characters longer than the email, then fits too. */
  lemma RecordAddedFits(id: Guid, patientId: Guid, recordId: Guid, doctorEmail: string, now: Instant)
    ensures NotificationFits(RecordAdded(id, patientId, recordId, doctorEmail, now)) <==> |doctorEmail| <= 256
  {
    assert |RecordAddedMessage(doctorEmail)| == |doctorEmail| + 49;
  }

  /** A consent notification always fits, and its message names both flags. */
  lemma ConsentChangedFits(id: Guid, patientId: Guid, allowDoctors: bool, allowNurses: bool, now: Instant)
    ensures NotificationFits(ConsentChanged(id, patientId, allowDoctors, allowNurses, now))
    ensures var m := ConsentChanged(id, patientId, allowDoctors, allowNurses, now).message;
      m[50..50 + |AllowedOrDenied(allowDoctors)|] == AllowedOrDenied(allowDoctors)
  {
    var m := ConsentChangedMessage(allowDoctors, allowNurses);
    assert |"Your consent settings have been updated. Doctors: "| == 50;
    assert m[50..50 + |AllowedOrDenied(allowDoctors)|] == AllowedOrDenied(allowDoctors);
  }

  /** The two words the message uses for a flag tell it apart. */
  lemma AllowedOrDeniedInjective(a: bool, b: bool)
    requires AllowedOrDenied(a) == AllowedOrDenied(b)
    ensures a == b
  {
  }

  /** The consent message determines both flags. */
  lemma ConsentMessageInjective(d1: bool, n1: bool, d2: bool, n2: bool)
    requires ConsentChangedMessage(d1, n1) == ConsentChangedMessage(d2, n2)
    ensures d1 == d2 && n1 == n2
  {
    var m1 := ConsentChangedMessage(d1, n1);
    var m2 := ConsentChangedMessage(d2, n2);
    var w1 := AllowedOrDenied(d1);
    var w2 := AllowedOrDenied(d2);
    assert m1[50] == w1[0] && m2[50] == w2[0];
    AllowedOrDeniedInjective(d1, d2);
    var k := 50 + |w1| + 10;
    assert m1[k..] == AllowedOrDenied(n1);
    assert m2[k..] == AllowedOrDenied(n2);
    AllowedOrDeniedInjective(n1, n2);
  }

  // ---------------------------------------------------------------------------------------
  // Queries

  /** `OrderByDescending(n => n.CreatedAtUtc)`. */
  predicate NewerOrSame(a: Notification, b: Notification) {
    a.createdAt >= b.createdAt
  }

  function OfPatient(patientId: Guid): Notification -> bool {
    (n: Notification) => n.patientId == patientId
  }

  function UnreadOfPatient(patientId: Guid): Notification -> bool {
    (n: Notification) => n.patientId == patientId && !n.isRead
  }

  lemma NewerOrSameOrders()
    ensures Ordering.TotalPreorder(NewerOrSame)
  {
  }

  /** `GetUnreadAsync(patientId)`: exactly the patient's unread notifications, newest first. */
  function GetUnread(rows: seq<Notification>, patientId: Guid): (r: seq<Notification>)
    ensures Ordering.SortedBy(r, NewerOrSame)
    ensures forall n :: multiset(r)[n] == if n.patientId == patientId && !n.isRead then multiset(rows)[n] else 0
    ensures forall i :: 0 <= i < |r| ==> r[i].patientId == patientId && !r[i].isRead
  {
    var mine := Ordering.Filter(rows, UnreadOfPatient(patientId));
    NewerOrSameOrders();
    Ordering.SortSorted(mine, NewerOrSame);
    SortedOfUnread(rows, patientId);
    Ordering.Sort(mine, NewerOrSame)
  }

  /** What the unread listing holds, row by row and as a multiset. */
  lemma SortedOfUnread(rows: seq<Notification>, patientId: Guid)
    ensures var r := Ordering.Sort(Ordering.Filter(rows, UnreadOfPatient(patientId)), NewerOrSame);
      && (forall n :: multiset(r)[n] == if n.patientId == patientId && !n.isRead then multiset(rows)[n] else 0)
      && (forall i :: 0 <= i < |r| ==> r[i].patientId == patientId && !r[i].isRead)
  {
    var mine := Ordering.Filter(rows, UnreadOfPatient(patientId));
    var r := Ordering.Sort(mine, NewerOrSame);
    assert multiset(r) == multiset(mine);
    forall i | 0 <= i < |r| ensures r[i].patientId == patientId && !r[i].isRead {
      assert r[i] in multiset(mine);
    }
  }

  /** `GetAllAsync(patientId, take)`: the `take` newest of the patient's notifications (all of
      them when the patient has fewer), newest first. */
  function GetAll(rows: seq<Notification>, patientId: Guid, take: int): (r: seq<Notification>)
    ensures Ordering.SortedBy(r, NewerOrSame)
    ensures var count := |Ordering.Filter(rows, OfPatient(patientId))|;
      |r| == if take <= 0 then 0 else if take < count then take else count
    ensures multiset(r) <= multiset(rows)
    ensures forall i :: 0 <= i < |r| ==> r[i].patientId == patientId && r[i] in rows
    ensures forall i :: 0 <= i < |rows| && rows[i].patientId == patientId && rows[i] !in r ==>
      forall j :: 0 <= j < |r| ==> r[j].createdAt >= rows[i].createdAt
    ensures take >= |Ordering.Filter(rows, OfPatient(patientId))| ==>
      forall n :: multiset(r)[n] == if n.patientId == patientId then multiset(rows)[n] else 0
  {
    var mine := Ordering.Filter(rows, OfPatient(patientId));
    NewerOrSameOrders();
    Ordering.SortSorted(mine, NewerOrSame);
    var sorted := Ordering.Sort(mine, NewerOrSame);
    Ordering.TakeSorted(sorted, take, NewerOrSame);
    TakeOfMine(rows, patientId, sorted, take);
    PageOfMine(rows, patientId, sorted, take);
    PageIsNewest(rows, patientId, sorted, take);
    Ordering.Take(sorted, take)
  }

  /** Every row of a page of the patient's sorted notifications is one of the patient's. */
  lemma TakeOfMine(rows: seq<Notification>, patientId: Guid, sorted: seq<Notification>, take: int)
    requires multiset(sorted) == multiset(Ordering.Filter(rows, OfPatient(patientId)))
    ensures var r := Ordering.Take(sorted, take);
      forall i :: 0 <= i < |r| ==> r[i].patientId == patientId && r[i] in rows
  {
    var mine := Ordering.Filter(rows, OfPatient(patientId));
    var r := Ordering.Take(sorted, take);
    forall i | 0 <= i < |r| ensures r[i].patientId == patientId && r[i] in rows {
      assert r[i] == sorted[i];
      assert sorted[i] in multiset(mine);
      assert sorted[i] in mine;
    }
  }

  /** A page of the patient's notifications holds `take` rows, or all of them when the patient
      has fewer, and takes no row more often than it is stored. */
  lemma PageOfMine(rows: seq<Notification>, patientId: Guid, sorted: seq<Notification>, take: int)
    requires multiset(sorted) == multiset(Ordering.Filter(rows, OfPatient(patientId)))
    ensures var count := |Ordering.Filter(rows, OfPatient(patientId))|;
      var r := Ordering.Take(sorted, take);
      && |r| == (if take <= 0 then 0 else if take < count then take else count)
      && multiset(r) <= multiset(rows)
  {
    var mine := Ordering.Filter(rows, OfPatient(patientId));
    assert |sorted| == |multiset(sorted)| == |mine|;
    assert multiset(mine) <= multiset(rows);
  }

  /** None of the patient's notifications left out of the page is newer than a row kept. */
  lemma PageIsNewest(rows: seq<Notification>, patientId: Guid, sorted: seq<Notification>, take: int)
    requires Ordering.SortedBy(sorted, NewerOrSame)
    requires multiset(sorted) == multiset(Ordering.Filter(rows, OfPatient(patientId)))
    ensures var r := Ordering.Take(sorted, take);
      forall i :: 0 <= i < |rows| && rows[i].patientId == patientId && rows[i] !in r ==>
        forall j :: 0 <= j < |r| ==> r[j].createdAt >= rows[i].createdAt
  {
    var r := Ordering.Take(sorted, take);
    forall i | 0 <= i < |rows| && rows[i].patientId == patientId && rows[i] !in r
      ensures forall j :: 0 <= j < |r| ==> r[j].createdAt >= rows[i].createdAt
    {
      assert rows[i] in multiset(rows);
      assert rows[i] in multiset(sorted);
      Ordering.TakeIsFront(sorted, take, NewerOrSame, rows[i]);
    }
  }

  // ---------------------------------------------------------------------------------------
  // Marking read

  /** Position of the first notification with this id that belongs to this patient, or
      `|rows|` when there is none. */
  function FindOwned(rows: seq<Notification>, id: Guid, patientId: Guid): (k: nat)
    ensures k <= |rows|
    ensures k < |rows| ==> rows[k].id == id && rows[k].patientId == patientId
    ensures forall i :: 0 <= i < k ==> !(rows[i].id == id && rows[i].patientId == patientId)
  {
    if rows == [] then 0
    else if rows[0].id == id && rows[0].patientId == patientId then 0
    else 1 + FindOwned(rows[1..], id, patientId)
  }

  /** The notification table after `MarkAsReadAsync(id, patientId)`. */
  function MarkRead(rows: seq<Notification>, id: Guid, patientId: Guid): seq<Notification> {
    var k := FindOwned(rows, id, patientId);
    if k == |rows| then rows else rows[k := rows[k].(isRead := true)]
  }

  /** The notification table after `MarkAllAsReadAsync(patientId)`. */
  function MarkAllRead(rows: seq<Notification>, patientId: Guid): (r: seq<Notification>)
    ensures |r| == |rows|
    ensures forall i :: 0 <= i < |r| && r[i].patientId == patientId ==> r[i].isRead
    ensures forall i :: 0 <= i < |rows| && rows[i].patientId != patientId ==> r[i] == rows[i]
    ensures forall i :: 0 <= i < |rows| && rows[i].patientId == patientId ==> r[i] == rows[i].(isRead := true)
  {
    seq(|rows|, i requires 0 <= i < |rows| =>
      if rows[i].patientId == patientId && !rows[i].isRead then rows[i].(isRead := true) else rows[i])
  }

  /** Marking one notification read touches only a row with that id owned by that patient,
      changes only its read flag, and does nothing for a foreign or unknown id. */
  lemma MarkReadOnlyOwnRow(rows: seq<Notification>, id: Guid, patientId: Guid)
    ensures var r := MarkRead(rows, id, patientId);
      && |r| == |rows|
      && (forall i :: 0 <= i < |rows| ==> r[i] == rows[i] || (rows[i].id == id && rows[i].patientId == patientId
                                                             && r[i] == rows[i].(isRead := true)))
      && ((forall i :: 0 <= i < |rows| ==> !(rows[i].id == id && rows[i].patientId == patientId)) ==> r == rows)
  {
  }

  lemma MarkReadIdempotent(rows: seq<Notification>, id: Guid, patientId: Guid)
    ensures MarkRead(MarkRead(rows, id, patientId), id, patientId) == MarkRead(rows, id, patientId)
  {
    var k := FindOwned(rows, id, patientId);
    if k < |rows| {
      var r := MarkRead(rows, id, patientId);
      assert forall i :: 0 <= i < k ==> r[i] == rows[i];
      assert r[k].id == id && r[k].patientId == patientId;
      assert FindOwned(r, id, patientId) == k;
    }
  }

  /** After marking all read, the patient has no unread notification. */
  lemma MarkAllReadLeavesNoUnread(rows: seq<Notification>, patientId: Guid)
    ensures GetUnread(MarkAllRead(rows, patientId), patientId) == []
  {
    var r := MarkAllRead(rows, patientId);
    assert forall i :: 0 <= i < |r| ==> !(r[i].patientId == patientId && !r[i].isRead);
    var u := GetUnread(r, patientId);
    forall n: Notification | n.patientId == patientId && !n.isRead ensures multiset(u)[n] == 0 {
      assert n !in r;
    }
    assert multiset(u) == multiset{};
  }

  /** Marking all read changes only the read flag of the patient's rows: every row of every
      other patient is as it was. */
  lemma MarkAllReadOnlyOwnRows(rows: seq<Notification>, patientId: Guid)
    ensures forall i :: 0 <= i < |rows| && rows[i].patientId != patientId ==> MarkAllRead(rows, patientId)[i] == rows[i]
    ensures forall i :: 0 <= i < |rows| ==>
      MarkAllRead(rows, patientId)[i] == rows[i].(isRead := rows[i].isRead || rows[i].patientId == patientId)
  {
  }

  lemma MarkAllReadIdempotent(rows: seq<Notification>, patientId: Guid)
    ensures MarkAllRead(MarkAllRead(rows, patientId), patientId) == MarkAllRead(rows, patientId)
  {
  }

  /** Marking all read keeps every constraint of the table: only read flags change. */
  lemma MarkAllReadKeepsConstraints(t: Tables, patientId: Guid)
    requires Constraints(t)
    ensures Constraints(t.(notifications := MarkAllRead(t.notifications, patientId)))
  {
    var r := MarkAllRead(t.notifications, patientId);
    assert forall i :: 0 <= i < |r| ==> r[i].id == t.notifications[i].id;
    assert forall i :: 0 <= i < |r| ==> NotificationFits(r[i]);
  }

  // ---------------------------------------------------------------------------------------
  // The operations

  /** `NotifyRecordAddedAsync(patientId, recordId, doctorEmail)`; `id` is the new row's Guid. */
  method NotifyRecordAdded(db: AppDb, id: Guid, patientId: Guid, recordId: Guid, doctorEmail: string, now: Instant)
    returns (r: Result<(), SaveError>)
    requires db.Valid() && db.pending == []
    requires !HasKey(db.tables.notifications, NotificationKey, id)
    modifies db
    ensures db.Valid()
    ensures var n := RecordAdded(id, patientId, recordId, doctorEmail, now);
      if |doctorEmail| <= 256 then
        r == Success(()) && db.pending == []
        && db.tables == old(db.tables).(notifications := old(db.tables.notifications) + [n])
      else
        r == Failure(ConstraintViolation) && db.tables == old(db.tables)
        && db.pending == [Entry(NotificationRow(n), Added)]
  {
    var n := RecordAdded(id, patientId, recordId, doctorEmail, now);
    db.Add(NotificationRow(n));
    assert db.pending == [Entry(NotificationRow(n), Added)];
    SaveAddedNotification(db.tables, n);
    RecordAddedFits(id, patientId, recordId, doctorEmail, now);
    var saved := db.SaveChangesAsync();
    match saved
    case Success(_) => r := Success(());
    case Failure(e) => r := Failure(e);
  }

  /** `NotifyConsentChangedAsync(patientId, allowDoctors, allowNurses)`: always commits. */
  method NotifyConsentChanged(db: AppDb, id: Guid, patientId: Guid, allowDoctors: bool, allowNurses: bool, now: Instant)
    requires db.Valid() && db.pending == []
    requires !HasKey(db.tables.notifications, NotificationKey, id)
    modifies db
    ensures db.Valid() && db.pending == []
    ensures db.tables == old(db.tables).(notifications := old(db.tables.notifications)
                                           + [ConsentChanged(id, patientId, allowDoctors, allowNurses, now)])
  {
    var n := ConsentChanged(id, patientId, allowDoctors, allowNurses, now);
    db.Add(NotificationRow(n));
    assert db.pending == [Entry(NotificationRow(n), Added)];
    SaveAddedNotification(db.tables, n);
    ConsentChangedFits(id, patientId, allowDoctors, allowNurses, now);
    var saved := db.SaveChangesAsync();
  }

  /** `MarkAsReadAsync(notificationId, patientId)`: through the change tracker and the save. */
  method MarkAsRead(db: AppDb, notificationId: Guid, patientId: Guid)
    requires db.Valid() && db.pending == []
    modifies db
    ensures db.Valid() && db.pending == []
    ensures db.tables == old(db.tables).(notifications := MarkRead(old(db.tables.notifications), notificationId, patientId))
  {
    var rows := db.tables.notifications;
    var k := FindOwned(rows, notificationId, patientId);
    if k < |rows| {
      var n := rows[k].(isRead := true);
      db.MarkModified(NotificationRow(n));
      assert db.pending == [Entry(NotificationRow(n), Modified)];
      assert NotificationFits(rows[k]);
      SaveModifiedNotification(db.tables, k, n);
      var saved := db.SaveChangesAsync();
    }
  }

  /** `MarkAllAsReadAsync(patientId)`: a set-based `UPDATE` issued straight to the database;
      it neither goes through the change tracker nor runs the append-only check. */
  method MarkAllAsRead(db: AppDb, patientId: Guid)
    requires db.Valid()
    modifies db
    ensures db.Valid() && db.pending == old(db.pending)
    ensures db.tables == old(db.tables).(notifications := MarkAllRead(old(db.tables.notifications), patientId))
  {
    MarkAllReadKeepsConstraints(db.tables, patientId);
    db.tables := db.tables.(notifications := MarkAllRead(db.tables.notifications, patientId));
  }
}
