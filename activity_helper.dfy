/**
 * Status predicates, comparators and the criterion dispatcher of src/activity_helper.c.
 * Every C function here returns an `int`; the predicates return 1 or 0.
 */
module ActivityHelper {
  import opened Wrappers
  import opened Activities

  // ---------------------------------------------------------------------------
  // Status predicates (src/activity_helper.c:26-123)

  /** `isActivityYetToBegin`: no minute used yet. */
  function IsActivityYetToBegin(a: Activity): (r: int)
    ensures r == 0 || r == 1
    ensures r == 1 <==> a.Some? && a.value.usedTime == 0
  {
    if a.None? then 0 else if GetActivityUsedTime(a) == 0 then 1 else 0
  }

  /** `isActivityCompleted`: a completion date is set. */
  function IsActivityCompleted(a: Activity): (r: int)
    ensures r == 0 || r == 1
    ensures r == 1 <==> a.Some? && a.value.completionDate != 0
  {
    if a.None? then 0 else if GetActivityCompletionDate(a) != 0 then 1 else 0
  }

  /** `wasActivityCompletedAfterDate`: completed strictly after the threshold. */
  function WasActivityCompletedAfterDate(a: Activity, thresholdDate: int): (r: int)
    ensures r == 0 || r == 1
    ensures r == 1 <==> a.Some? && a.value.completionDate > thresholdDate
  {
    if a.None? then 0 else if GetActivityCompletionDate(a) > thresholdDate then 1 else 0
  }

  /** `wasActivityExpiredBeforeDate`: an expiry date is set (positive) and lies before the threshold. */
  function WasActivityExpiredBeforeDate(a: Activity, thresholdDate: int): (r: int)
    ensures r == 0 || r == 1
    ensures r == 1 <==> a.Some? && 0 < a.value.expiryDate < thresholdDate
  {
    if a.None? then 0
    else
      var expiryDate := GetActivityExpiryDate(a);
      if expiryDate > 0 && expiryDate < thresholdDate then 1 else 0
  }

  // ---------------------------------------------------------------------------
  // Three-way comparison

  /** `r` orders `x` and `y` the way a C comparator promises: negative, zero or positive. */
  predicate OrdersBy(r: int, x: int, y: int) {
    (r < 0 <==> x < y) && (r == 0 <==> x == y) && (r > 0 <==> x > y)
  }

  function Sign(x: int): int {
    if x < 0 then -1 else if x == 0 then 0 else 1
  }

  /** The `if (x == y) return 0; return (x < y) ? -1 : 1;` tail shared by the numeric comparators. */
  function CompareValues(x: int, y: int): (r: int)
    ensures OrdersBy(r, x, y) && -1 <= r <= 1
  {
    if x == y then 0 else if x < y then -1 else 1
  }

  /** `compareWithId` (src/activity_helper.c:149-157): -2 flags a NULL record. */
  function CompareWithId(a: Activity, activityId: int): (r: int)
    ensures a.None? ==> r == -2
    ensures a.Some? ==> OrdersBy(r, a.value.id, activityId) && -1 <= r <= 1
  {
    if a.None? then -2
    else
      var aId := GetActivityId(a);
      if aId == activityId then 0 else if aId < activityId then -1 else 1
  }

  /**
   * `activityCompletionPercentage` (src/activity_helper.c:181-191): used * 100 / total with
   * integer division, 0 when there is nothing to divide, and over 100 when used exceeds total.
   */
  function ActivityCompletionPercentage(activity: Activity): (r: int)
    ensures r >= 0
    ensures activity.None? || activity.value.usedTime == 0 || activity.value.totalTime == 0 ==> r == 0
    ensures activity.Some? && activity.value.usedTime > 0 && activity.value.totalTime > 0 ==>
      var used, total := activity.value.usedTime, activity.value.totalTime;
      r * total <= used * 100 < (r + 1) * total && (r >= 100 <==> used >= total)
  {
    if activity.None? then 0
    else
      var totalTime := GetActivityTotalTime(activity);
      var usedTime := GetActivityUsedTime(activity);
      if usedTime == 0 || totalTime == 0 then 0
      else
        var percentage := (usedTime * 100) / totalTime;
        PercentBounds(usedTime, totalTime, percentage);
        percentage
  }

  lemma PercentBounds(used: nat, total: nat, q: int)
    requires total > 0 && q == (used * 100) / total
    ensures q * total <= used * 100 < (q + 1) * total
    ensures q >= 100 <==> used >= total
  {
    var m := used * 100;
    assert m == q * total + m % total;
    assert (q + 1) * total == q * total + total;
    if used >= total {
      MulLeq(total, used, 100);
      if q <= 99 {
        MulLeq(q, 99, total);
        assert false;
      }
    } else {
      MulLeq(used + 1, total, 100);
      if q >= 100 {
        MulLeq(100, q, total);
        assert false;
      }
    }
  }

  lemma MulLeq(x: int, y: int, z: nat)
    requires x <= y
    ensures x * z <= y * z
  {
    assert y * z - x * z == (y - x) * z;
  }

  // ---------------------------------------------------------------------------
  // NULL handling (src/activity_helper.c:217-255): a present value is the greater one.

  /** `compareNullActivity` */
  function CompareNullActivity(a: Activity, b: Activity): (r: int)
    ensures a.None? && b.None? ==> r == 0
    ensures a.Some? && b.None? ==> r == 1
    ensures a.None? && b.Some? ==> r == -1
  {
    if a.None? && b.None? then 0
    else if a.Some? && b.None? then 1
    else if b.Some? && a.None? then -1
    else 0
  }

  /** `compareNullString` */
  function CompareNullString(a: Option<string>, b: Option<string>): (r: int)
    ensures a.None? && b.None? ==> r == 0
    ensures a.Some? && b.None? ==> r == 1
    ensures a.None? && b.Some? ==> r == -1
  {
    if a.None? && b.None? then 0
    else if a.Some? && b.None? then 1
    else if b.Some? && a.None? then -1
    else 0
  }

  // ---------------------------------------------------------------------------
  // strcmp, as used by the string comparators

  /** A C string cannot hold the terminator itself. */
  predicate NoNul(s: string) {
    forall i :: 0 <= i < |s| ==> s[i] != '\0'
  }

  /**
   * The C library's `strcmp`: the difference of the first differing characters, the end of a
   * string reading as '\0'. C fixes only the sign of the result.
   */
  function StrCmp(a: string, b: string): int
    decreases |a|
  {
    if |a| == 0 && |b| == 0 then 0
    else if |a| == 0 then 0 - b[0] as int
    else if |b| == 0 then a[0] as int
    else if a[0] != b[0] then a[0] as int - b[0] as int
    else StrCmp(a[1..], b[1..])
  }

  /** Lexicographic order by character code, stated without recursion. */
  ghost predicate LexLess(a: string, b: string) {
    exists k :: 0 <= k <= |a| && k < |b| && a[..k] == b[..k] && (k == |a| || a[k] < b[k])
  }

  /** Swapping the operands of strcmp negates its result. */
  lemma {:induction false} StrCmpAntisymmetric(a: string, b: string)
    ensures StrCmp(b, a) == -StrCmp(a, b)
    decreases |a|
  {
    if |a| > 0 && |b| > 0 && a[0] == b[0] {
      StrCmpAntisymmetric(a[1..], b[1..]);
    }
  }

  /** On C strings, strcmp is zero exactly for equal strings. */
  lemma {:induction false} StrCmpZeroIffEqual(a: string, b: string)
    requires NoNul(a) && NoNul(b)
    ensures StrCmp(a, b) == 0 <==> a == b
    decreases |a|
  {
    if |a| == 0 && |b| == 0 {
    } else if |a| == 0 {
      assert b[0] != '\0';
    } else if |b| == 0 {
      assert a[0] != '\0';
    } else if a[0] != b[0] {
    } else {
      StrCmpZeroIffEqual(a[1..], b[1..]);
      assert a == [a[0]] + a[1..] && b == [b[0]] + b[1..];
    }
  }

  /** A common first character does not change the lexicographic order. */
  lemma LexLessTail(a: string, b: string)
    requires |a| > 0 && |b| > 0 && a[0] == b[0]
    ensures LexLess(a, b) <==> LexLess(a[1..], b[1..])
  {
    var a', b' := a[1..], b[1..];
    if LexLess(a', b') {
      var k :| 0 <= k <= |a'| && k < |b'| && a'[..k] == b'[..k] && (k == |a'| || a'[k] < b'[k]);
      assert a[..k + 1] == [a[0]] + a'[..k];
      assert b[..k + 1] == [b[0]] + b'[..k];
      assert a[..k + 1] == b[..k + 1];
    }
    if LexLess(a, b) {
      var k :| 0 <= k <= |a| && k < |b| && a[..k] == b[..k] && (k == |a| || a[k] < b[k]);
      if k == 0 {
        assert false;
      }
      assert a'[..k - 1] == a[..k][1..];
      assert b'[..k - 1] == b[..k][1..];
    }
  }

  /** On C strings, strcmp is negative exactly when the first string comes first lexicographically. */
  lemma {:induction false} StrCmpNegativeIffLexLess(a: string, b: string)
    requires NoNul(a) && NoNul(b)
    ensures StrCmp(a, b) < 0 <==> LexLess(a, b)
    decreases |a|
  {
    if |a| == 0 && |b| == 0 {
    } else if |a| == 0 {
      assert b[0] != '\0';
      assert a[..0] == b[..0];
    } else if |b| == 0 {
      assert a[0] != '\0';
    } else if a[0] != b[0] {
      if a[0] < b[0] {
        assert a[..0] == b[..0];
      }
    } else {
      StrCmpNegativeIffLexLess(a[1..], b[1..]);
      LexLessTail(a, b);
    }
  }

  // ---------------------------------------------------------------------------
  // Comparators (src/activity_helper.c:280-685). Each one first settles NULL records through
  // CompareNullActivity, and the string ones settle NULL strings through CompareNullString.

  /** `compareActivityById` */
  function CompareActivityById(a: Activity, b: Activity): (r: int)
    ensures a.None? || b.None? ==> r == CompareNullActivity(a, b)
    ensures a.Some? && b.Some? ==> OrdersBy(r, a.value.id, b.value.id)
    ensures -1 <= r <= 1
  {
    if a.None? || b.None? then CompareNullActivity(a, b)
    else CompareWithId(a, GetActivityId(b))
  }

  /** The body shared by the name, description and course comparators. */
  function CompareStringFields(x: Option<string>, y: Option<string>): (r: int)
    ensures x.None? || y.None? ==> r == CompareNullString(x, y)
    ensures x.Some? && y.Some? ==> r == StrCmp(x.value, y.value)
  {
    if x.None? || y.None? then CompareNullString(x, y) else StrCmp(x.value, y.value)
  }

  /** `compareActivityByName` */
  function CompareActivityByName(a: Activity, b: Activity): (r: int)
    ensures a.None? || b.None? ==> r == CompareNullActivity(a, b)
    ensures a.Some? && b.Some? ==> r == CompareStringFields(a.value.name, b.value.name)
  {
    if a.None? || b.None? then CompareNullActivity(a, b)
    else CompareStringFields(GetActivityName(a), GetActivityName(b))
  }

  /** `compareActivityByDescr` */
  function CompareActivityByDescr(a: Activity, b: Activity): (r: int)
    ensures a.None? || b.None? ==> r == CompareNullActivity(a, b)
    ensures a.Some? && b.Some? ==> r == CompareStringFields(a.value.descr, b.value.descr)
  {
    if a.None? || b.None? then CompareNullActivity(a, b)
    else CompareStringFields(GetActivityDescr(a), GetActivityDescr(b))
  }

  /** `compareActivityByCourse` */
  function CompareActivityByCourse(a: Activity, b: Activity): (r: int)
    ensures a.None? || b.None? ==> r == CompareNullActivity(a, b)
    ensures a.Some? && b.Some? ==> r == CompareStringFields(a.value.course, b.value.course)
  {
    if a.None? || b.None? then CompareNullActivity(a, b)
    else CompareStringFields(GetActivityCourse(a), GetActivityCourse(b))
  }

  /**
   * `compareActivityByInsertDate` AS WRITTEN: both dates are read from `a`
   * (src/activity_helper.c:420-421), so two records always compare equal.
   */
  function CompareActivityByInsertDate(a: Activity, b: Activity): (r: int)
    ensures a.None? || b.None? ==> r == CompareNullActivity(a, b)
    ensures a.Some? && b.Some? ==> r == 0
  {
    if a.None? || b.None? then CompareNullActivity(a, b)
    else CompareValues(GetActivityInsertDate(a), GetActivityInsertDate(a))
  }

  /** `compareActivityByExpiryDate` AS WRITTEN: reads `a` twice (src/activity_helper.c:455-456). */
  function CompareActivityByExpiryDate(a: Activity, b: Activity): (r: int)
    ensures a.None? || b.None? ==> r == CompareNullActivity(a, b)
    ensures a.Some? && b.Some? ==> r == 0
  {
    if a.None? || b.None? then CompareNullActivity(a, b)
    else CompareValues(GetActivityExpiryDate(a), GetActivityExpiryDate(a))
  }

  /** `compareActivityByCompletionDate` AS WRITTEN: reads `a` twice (src/activity_helper.c:490-491). */
  function CompareActivityByCompletionDate(a: Activity, b: Activity): (r: int)
    ensures a.None? || b.None? ==> r == CompareNullActivity(a, b)
    ensures a.Some? && b.Some? ==> r == 0
  {
    if a.None? || b.None? then CompareNullActivity(a, b)
    else CompareValues(GetActivityCompletionDate(a), GetActivityCompletionDate(a))
  }

  /**
   * The date comparators as their doc comments describe them (src/activity_helper.c:406-408 and
   * alike): the date of `a` against the date of `b`.
   */
  function CompareActivityByInsertDateFixed(a: Activity, b: Activity): (r: int)
    ensures a.None? || b.None? ==> r == CompareNullActivity(a, b)
    ensures a.Some? && b.Some? ==> OrdersBy(r, a.value.insertDate, b.value.insertDate)
  {
    if a.None? || b.None? then CompareNullActivity(a, b)
    else CompareValues(GetActivityInsertDate(a), GetActivityInsertDate(b))
  }

  function CompareActivityByExpiryDateFixed(a: Activity, b: Activity): (r: int)
    ensures a.None? || b.None? ==> r == CompareNullActivity(a, b)
    ensures a.Some? && b.Some? ==> OrdersBy(r, a.value.expiryDate, b.value.expiryDate)
  {
    if a.None? || b.None? then CompareNullActivity(a, b)
    else CompareValues(GetActivityExpiryDate(a), GetActivityExpiryDate(b))
  }

  function CompareActivityByCompletionDateFixed(a: Activity, b: Activity): (r: int)
    ensures a.None? || b.None? ==> r == CompareNullActivity(a, b)
    ensures a.Some? && b.Some? ==> OrdersBy(r, a.value.completionDate, b.value.completionDate)
  {
    if a.None? || b.None? then CompareNullActivity(a, b)
    else CompareValues(GetActivityCompletionDate(a), GetActivityCompletionDate(b))
  }

  /**
   * The discrepancy, on a concrete pair: an activity inserted at time 1 against one inserted at
   * time 2. The documented comparator says "before" (-1); the code says "equal" (0). The same
   * pair shape shows it for the expiry and the completion date.
   */
  lemma DateComparatorsIgnoreSecondOperand()
    ensures var a := NewActivity(1, None, None, None, 1, 1, 1, 0, 0, 2);
            var b := NewActivity(2, None, None, None, 2, 2, 2, 0, 0, 2);
            && CompareActivityByInsertDate(a, b) == 0 && CompareActivityByInsertDateFixed(a, b) == -1
            && CompareActivityByExpiryDate(a, b) == 0 && CompareActivityByExpiryDateFixed(a, b) == -1
            && CompareActivityByCompletionDate(a, b) == 0 && CompareActivityByCompletionDateFixed(a, b) == -1
  {
  }

  /** `compareActivityByTotalTime` */
  function CompareActivityByTotalTime(a: Activity, b: Activity): (r: int)
    ensures a.None? || b.None? ==> r == CompareNullActivity(a, b)
    ensures a.Some? && b.Some? ==> OrdersBy(r, a.value.totalTime, b.value.totalTime)
  {
    if a.None? || b.None? then CompareNullActivity(a, b)
    else CompareValues(GetActivityTotalTime(a), GetActivityTotalTime(b))
  }

  /** `compareActivityByUsedTime` */
  function CompareActivityByUsedTime(a: Activity, b: Activity): (r: int)
    ensures a.None? || b.None? ==> r == CompareNullActivity(a, b)
    ensures a.Some? && b.Some? ==> OrdersBy(r, a.value.usedTime, b.value.usedTime)
  {
    if a.None? || b.None? then CompareNullActivity(a, b)
    else CompareValues(GetActivityUsedTime(a), GetActivityUsedTime(b))
  }

  /** `compareActivityByPriority` */
  function CompareActivityByPriority(a: Activity, b: Activity): (r: int)
    ensures a.None? || b.None? ==> r == CompareNullActivity(a, b)
    ensures a.Some? && b.Some? ==> OrdersBy(r, a.value.priority, b.value.priority)
  {
    if a.None? || b.None? then CompareNullActivity(a, b)
    else CompareValues(GetActivityPriority(a), GetActivityPriority(b))
  }

  /** `compareActivityByPercentCompletion` */
  function CompareActivityByPercentCompletion(a: Activity, b: Activity): (r: int)
    ensures a.None? || b.None? ==> r == CompareNullActivity(a, b)
    ensures a.Some? && b.Some? ==>
      OrdersBy(r, ActivityCompletionPercentage(a), ActivityCompletionPercentage(b))
  {
    if a.None? || b.None? then CompareNullActivity(a, b)
    else CompareValues(ActivityCompletionPercentage(a), ActivityCompletionPercentage(b))
  }

  /** Minutes still to spend: total - used, or 0 once the budget is exceeded. */
  function TimeToCompletion(a: Activity): (r: nat)
    ensures a.Some? && a.value.totalTime >= a.value.usedTime ==>
      r + a.value.usedTime == a.value.totalTime
    ensures a.None? || a.value.totalTime < a.value.usedTime ==> r == 0
  {
    var totalTime := GetActivityTotalTime(a);
    var usedTime := GetActivityUsedTime(a);
    if totalTime >= usedTime then totalTime - usedTime else 0
  }

  /** `compareActivityByTimeToCompletion` (src/activity_helper.c:662-685) */
  function CompareActivityByTimeToCompletion(a: Activity, b: Activity): (r: int)
    ensures a.None? || b.None? ==> r == CompareNullActivity(a, b)
    ensures a.Some? && b.Some? ==> OrdersBy(r, TimeToCompletion(a), TimeToCompletion(b))
    ensures -1 <= r <= 1
  {
    if a.None? || b.None? then CompareNullActivity(a, b)
    else CompareValues(TimeToCompletion(a), TimeToCompletion(b))
  }

  // ---------------------------------------------------------------------------
  // The dispatcher (src/activity_helper.c:732-776)

  /**
   * `compareActivityBy`: criteria 0-11; any other value compares by id. Criteria 4-6 reach the
   * date comparators as written, so two records always tie under them.
   */
  function CompareActivityBy(a: Activity, b: Activity, compareBy: int): (r: int)
    ensures !(1 <= compareBy <= 3) ==> -1 <= r <= 1
    ensures (compareBy < 0 || compareBy > 11) ==> r == CompareActivityById(a, b)
    ensures compareBy in {4, 5, 6} && (a.None? || b.None?) ==> r == CompareNullActivity(a, b)
    ensures compareBy in {4, 5, 6} && a.Some? && b.Some? ==> r == 0
  {
    match compareBy
    case 0 => CompareActivityById(a, b)
    case 1 => CompareActivityByName(a, b)
    case 2 => CompareActivityByDescr(a, b)
    case 3 => CompareActivityByCourse(a, b)
    case 4 => CompareActivityByInsertDate(a, b)
    case 5 => CompareActivityByExpiryDate(a, b)
    case 6 => CompareActivityByCompletionDate(a, b)
    case 7 => CompareActivityByTotalTime(a, b)
    case 8 => CompareActivityByUsedTime(a, b)
    case 9 => CompareActivityByPriority(a, b)
    case 10 => CompareActivityByPercentCompletion(a, b)
    case 11 => CompareActivityByTimeToCompletion(a, b)
    case _ => CompareActivityById(a, b)
  }

  /**
   * Every criterion is a consistent three-way comparison: swapping the operands flips the sign.
   * This is what the merge of the sortable worklist relies on.
   */
  lemma CompareActivityByAntisymmetric(a: Activity, b: Activity, compareBy: int)
    ensures Sign(CompareActivityBy(b, a, compareBy)) == -Sign(CompareActivityBy(a, b, compareBy))
  {
    if a.Some? && b.Some? && 1 <= compareBy <= 3 {
      var x, y := a.value, b.value;
      var (s, t) := if compareBy == 1 then (x.name, y.name)
                    else if compareBy == 2 then (x.descr, y.descr)
                    else (x.course, y.course);
      if s.Some? && t.Some? {
        StrCmpAntisymmetric(s.value, t.value);
      }
    }
  }

  /**
   * The dispatcher with the corrected date comparators: the same as `CompareActivityBy` outside
   * criteria 4-6, and the documented order of the insert, expiry and completion dates there.
   */
  function CompareActivityByFixed(a: Activity, b: Activity, compareBy: int): (r: int)
    ensures !(compareBy in {4, 5, 6}) ==> r == CompareActivityBy(a, b, compareBy)
    ensures compareBy in {4, 5, 6} && (a.None? || b.None?) ==> r == CompareNullActivity(a, b)
    ensures compareBy == 4 && a.Some? && b.Some? ==> OrdersBy(r, a.value.insertDate, b.value.insertDate)
    ensures compareBy == 5 && a.Some? && b.Some? ==> OrdersBy(r, a.value.expiryDate, b.value.expiryDate)
    ensures compareBy == 6 && a.Some? && b.Some? ==>
      OrdersBy(r, a.value.completionDate, b.value.completionDate)
  {
    match compareBy
    case 4 => CompareActivityByInsertDateFixed(a, b)
    case 5 => CompareActivityByExpiryDateFixed(a, b)
    case 6 => CompareActivityByCompletionDateFixed(a, b)
    case _ => CompareActivityBy(a, b, compareBy)
  }

  /** The corrected dispatcher is as consistent as the one as written. */
  lemma CompareActivityByFixedAntisymmetric(a: Activity, b: Activity, compareBy: int)
    ensures Sign(CompareActivityByFixed(b, a, compareBy)) == -Sign(CompareActivityByFixed(a, b, compareBy))
  {
    if !(compareBy in {4, 5, 6}) {
      CompareActivityByAntisymmetric(a, b, compareBy);
    }
  }

  /** `priorityToText` (src/activity_helper.c:803-812) */
  function PriorityToText(priority: int): (r: string)
    ensures priority == 1 ==> r == "ALTA"
    ensures priority == 2 ==> r == "MEDIA"
    ensures priority == 3 ==> r == "BASSA"
    ensures r == "?" <==> priority !in {1, 2, 3}
  {
    match priority
    case 1 => "ALTA"
    case 2 => "MEDIA"
    case 3 => "BASSA"
    case _ => "?"
  }
}
