/**
 * The task record of src/activity.c. A record is handled through a pointer that may be NULL;
 * `Activity` is that pointer, `None` standing for NULL.
 */
module Activities {
  import opened Wrappers
  import Utils

  /** `struct activity` (src/activity.c:46-57); minutes and priority are unsigned in C. */
  datatype Record = Record(
    id: int,
    name: Option<string>,
    descr: Option<string>,
    course: Option<string>,
    insertDate: int,
    expiryDate: int,
    completionDate: int,
    totalTime: nat,
    usedTime: nat,
    priority: nat)

  type Activity = Option<Record>

  /** `newActivity` (src/activity.c:89-112): every argument lands in its field, strings copied. */
  function NewActivity(id: int, name: Option<string>, descr: Option<string>, course: Option<string>,
                       insertDate: int, expiryDate: int, completionDate: int,
                       totalTime: nat, usedTime: nat, priority: nat): (a: Activity)
    ensures a.Some?
    ensures GetActivityId(a) == id && GetActivityName(a) == name && GetActivityDescr(a) == descr
    ensures GetActivityCourse(a) == course && GetActivityInsertDate(a) == insertDate
    ensures GetActivityExpiryDate(a) == expiryDate && GetActivityCompletionDate(a) == completionDate
    ensures GetActivityTotalTime(a) == totalTime && GetActivityUsedTime(a) == usedTime
    ensures GetActivityPriority(a) == priority
  {
    Some(Record(id, Utils.CopyString(name), Utils.CopyString(descr), Utils.CopyString(course),
                insertDate, expiryDate, completionDate, totalTime, usedTime, priority))
  }

  /** `copyActivity` (src/activity.c:161-167): a field-by-field copy, NULL for NULL. */
  function CopyActivity(original: Activity): (r: Activity)
    ensures original.None? <==> r.None?
    ensures SameFields(r, original)
  {
    if original.None? then None
    else
      var o := original.value;
      NewActivity(o.id, o.name, o.descr, o.course, o.insertDate, o.expiryDate, o.completionDate,
                  o.totalTime, o.usedTime, o.priority)
  }

  /** Every getter agrees on the two records. */
  predicate SameFields(a: Activity, b: Activity) {
    && GetActivityId(a) == GetActivityId(b)
    && GetActivityName(a) == GetActivityName(b)
    && GetActivityDescr(a) == GetActivityDescr(b)
    && GetActivityCourse(a) == GetActivityCourse(b)
    && GetActivityInsertDate(a) == GetActivityInsertDate(b)
    && GetActivityExpiryDate(a) == GetActivityExpiryDate(b)
    && GetActivityCompletionDate(a) == GetActivityCompletionDate(b)
    && GetActivityTotalTime(a) == GetActivityTotalTime(b)
    && GetActivityUsedTime(a) == GetActivityUsedTime(b)
    && GetActivityPriority(a) == GetActivityPriority(b)
  }

  /** Two non-NULL records that agree on every getter are the same value. */
  lemma SameFieldsIsEquality(a: Activity, b: Activity)
    requires a.Some? && b.Some?
    ensures SameFields(a, b) <==> a == b
  {
  }

  // Getters (src/activity.c:209-266): the field, or 0 / NULL for a NULL record.

  function GetActivityId(a: Activity): (r: int)
    ensures a.None? ==> r == 0
    ensures a.Some? ==> r == a.value.id
  { if a.None? then 0 else a.value.id }

  function GetActivityName(a: Activity): (r: Option<string>)
    ensures a.None? ==> r.None?
    ensures a.Some? ==> r == a.value.name
  { if a.None? then None else a.value.name }

  function GetActivityDescr(a: Activity): (r: Option<string>)
    ensures a.None? ==> r.None?
    ensures a.Some? ==> r == a.value.descr
  { if a.None? then None else a.value.descr }

  function GetActivityCourse(a: Activity): (r: Option<string>)
    ensures a.None? ==> r.None?
    ensures a.Some? ==> r == a.value.course
  { if a.None? then None else a.value.course }

  function GetActivityInsertDate(a: Activity): (r: int)
    ensures a.None? ==> r == 0
    ensures a.Some? ==> r == a.value.insertDate
  { if a.None? then 0 else a.value.insertDate }

  function GetActivityExpiryDate(a: Activity): (r: int)
    ensures a.None? ==> r == 0
    ensures a.Some? ==> r == a.value.expiryDate
  { if a.None? then 0 else a.value.expiryDate }

  function GetActivityCompletionDate(a: Activity): (r: int)
    ensures a.None? ==> r == 0
    ensures a.Some? ==> r == a.value.completionDate
  { if a.None? then 0 else a.value.completionDate }

  function GetActivityTotalTime(a: Activity): (r: nat)
    ensures a.None? ==> r == 0
    ensures a.Some? ==> r == a.value.totalTime
  { if a.None? then 0 else a.value.totalTime }

  function GetActivityUsedTime(a: Activity): (r: nat)
    ensures a.None? ==> r == 0
    ensures a.Some? ==> r == a.value.usedTime
  { if a.None? then 0 else a.value.usedTime }

  function GetActivityPriority(a: Activity): (r: nat)
    ensures a.None? ==> r == 0
    ensures a.Some? ==> r == a.value.priority
  { if a.None? then 0 else a.value.priority }

  // Setters (src/activity.c:305-373): each one rewrites a single field and is a no-op on NULL.
  // The string setters store a copy of the argument (NULL stays NULL).

  function SetActivityId(a: Activity, newId: int): (r: Activity)
    ensures a.None? ==> r.None?
    ensures a.Some? ==> r == Some(a.value.(id := newId))
  { if a.None? then a else Some(a.value.(id := newId)) }

  function SetActivityName(a: Activity, name: Option<string>): (r: Activity)
    ensures a.None? ==> r.None?
    ensures a.Some? ==> r == Some(a.value.(name := name))
  { if a.None? then a else Some(a.value.(name := Utils.CopyString(name))) }

  function SetActivityDescr(a: Activity, descr: Option<string>): (r: Activity)
    ensures a.None? ==> r.None?
    ensures a.Some? ==> r == Some(a.value.(descr := descr))
  { if a.None? then a else Some(a.value.(descr := Utils.CopyString(descr))) }

  function SetActivityCourse(a: Activity, course: Option<string>): (r: Activity)
    ensures a.None? ==> r.None?
    ensures a.Some? ==> r == Some(a.value.(course := course))
  { if a.None? then a else Some(a.value.(course := Utils.CopyString(course))) }

  function SetActivityInsertDate(a: Activity, insertDate: int): (r: Activity)
    ensures a.None? ==> r.None?
    ensures a.Some? ==> r == Some(a.value.(insertDate := insertDate))
  { if a.None? then a else Some(a.value.(insertDate := insertDate)) }

  function SetActivityExpiryDate(a: Activity, expiryDate: int): (r: Activity)
    ensures a.None? ==> r.None?
    ensures a.Some? ==> r == Some(a.value.(expiryDate := expiryDate))
  { if a.None? then a else Some(a.value.(expiryDate := expiryDate)) }

  function SetActivityCompletionDate(a: Activity, completionDate: int): (r: Activity)
    ensures a.None? ==> r.None?
    ensures a.Some? ==> r == Some(a.value.(completionDate := completionDate))
  { if a.None? then a else Some(a.value.(completionDate := completionDate)) }

  function SetActivityTotalTime(a: Activity, totalTime: nat): (r: Activity)
    ensures a.None? ==> r.None?
    ensures a.Some? ==> r == Some(a.value.(totalTime := totalTime))
  { if a.None? then a else Some(a.value.(totalTime := totalTime)) }

  function SetActivityUsedTime(a: Activity, usedTime: nat): (r: Activity)
    ensures a.None? ==> r.None?
    ensures a.Some? ==> r == Some(a.value.(usedTime := usedTime))
  { if a.None? then a else Some(a.value.(usedTime := usedTime)) }

  function SetActivityPriority(a: Activity, priority: nat): (r: Activity)
    ensures a.None? ==> r.None?
    ensures a.Some? ==> r == Some(a.value.(priority := priority))
  { if a.None? then a else Some(a.value.(priority := priority)) }

  /** What the ten getters read from a record, gathered into one value. */
  function Readings(a: Activity): Record {
    Record(GetActivityId(a), GetActivityName(a), GetActivityDescr(a), GetActivityCourse(a),
           GetActivityInsertDate(a), GetActivityExpiryDate(a), GetActivityCompletionDate(a),
           GetActivityTotalTime(a), GetActivityUsedTime(a), GetActivityPriority(a))
  }

  /**
   * The getter/setter laws, for all ten setters: on a non-NULL record the getter of the field
   * a setter wrote returns the new value, and the other nine getters return what they did before.
   */
  lemma GetAfterSet(a: Activity, newId: int, name: Option<string>, descr: Option<string>,
                    course: Option<string>, insertDate: int, expiryDate: int, completionDate: int,
                    totalTime: nat, usedTime: nat, priority: nat)
    requires a.Some?
    ensures Readings(SetActivityId(a, newId)) == Readings(a).(id := newId)
    ensures Readings(SetActivityName(a, name)) == Readings(a).(name := name)
    ensures Readings(SetActivityDescr(a, descr)) == Readings(a).(descr := descr)
    ensures Readings(SetActivityCourse(a, course)) == Readings(a).(course := course)
    ensures Readings(SetActivityInsertDate(a, insertDate)) == Readings(a).(insertDate := insertDate)
    ensures Readings(SetActivityExpiryDate(a, expiryDate)) == Readings(a).(expiryDate := expiryDate)
    ensures Readings(SetActivityCompletionDate(a, completionDate))
      == Readings(a).(completionDate := completionDate)
    ensures Readings(SetActivityTotalTime(a, totalTime)) == Readings(a).(totalTime := totalTime)
    ensures Readings(SetActivityUsedTime(a, usedTime)) == Readings(a).(usedTime := usedTime)
    ensures Readings(SetActivityPriority(a, priority)) == Readings(a).(priority := priority)
  {
  }
}
