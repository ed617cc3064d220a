/**
 * Lookup and report staging of src/activities_container_helper.c: the in-order walk that routes
 * every record of the index into one of the four report lists, and the sort of those lists.
 */
module ContainerHelper {
  import opened Wrappers
  import opened Activities
  import opened ActivityHelper
  import opened AvlTree
  import opened Container
  import opened SupportLists

  /** The root of the index, NULL when there is no container. */
  function GetRootNode(container: ActivitiesContainer?): Tree
    reads container
  {
    if container == null then Nil else container.avlTree
  }

  /**
   * `getActivityWithIdForTest`: the stored record with the id, or NULL when there is none, the
   * index is empty or there is no container.
   */
  function GetActivityWithIdForTest(container: ActivitiesContainer?, activityId: int): (r: Activity)
    reads container
    ensures r.Some? ==> container != null && r.value in Elements(container.avlTree) && r.value.id == activityId
    ensures container != null && Ordered(container.avlTree) ==>
      (r.None? <==> forall x :: x in Elements(container.avlTree) ==> x.id != activityId)
  {
    var root := GetRootNode(container);
    if root.Nil? then None
    else
      var activityNode := Search(root, activityId);
      if activityNode.Node? then Some(activityNode.activity) else None
  }

  // ---------------------------------------------------------------------------
  // Routing (src/activities_container_helper.c:313-334)

  datatype ReportList = Completed | Ongoing | Expired | YetToBegin

  /**
   * The list a record is routed to, or None when it is left out of the report: a completed record
   * only counts when it was completed after the period start; an open one is expired, else yet to
   * begin, else ongoing.
   */
  function ReportListOf(activity: Record, beginDate: int, nowDate: int): (r: Option<ReportList>)
    ensures r == None <==> activity.completionDate != 0 && activity.completionDate <= beginDate
    ensures r == Some(Completed) <==> activity.completionDate != 0 && activity.completionDate > beginDate
    ensures r == Some(Expired) <==> activity.completionDate == 0 && 0 < activity.expiryDate < nowDate
    ensures r == Some(YetToBegin) <==>
      activity.completionDate == 0 && !(0 < activity.expiryDate < nowDate) && activity.usedTime == 0
    ensures r == Some(Ongoing) <==>
      activity.completionDate == 0 && !(0 < activity.expiryDate < nowDate) && activity.usedTime != 0
  {
    var a := Some(activity);
    if IsActivityCompleted(a) == 1 then
      if WasActivityCompletedAfterDate(a, beginDate) == 1 then Some(Completed) else None
    else if WasActivityExpiredBeforeDate(a, nowDate) == 1 then Some(Expired)
    else if IsActivityYetToBegin(a) == 1 then Some(YetToBegin)
    else Some(Ongoing)
  }

  function Picked(activity: Record, list: ReportList, beginDate: int, nowDate: int): seq<Activity> {
    if ReportListOf(activity, beginDate, nowDate) == Some(list) then [Some(activity)] else []
  }

  /**
   * What the walk puts in front of a list: the left subtree is visited first and every visited
   * record is pushed at the head, so the right subtree's records end up first.
   */
  function Staged(t: Tree, list: ReportList, beginDate: int, nowDate: int): seq<Activity> {
    if t.Nil? then []
    else Staged(t.right, list, beginDate, nowDate) + Picked(t.activity, list, beginDate, nowDate)
         + Staged(t.left, list, beginDate, nowDate)
  }

  /** Exactly the records of the tree that are routed to the list are staged into it, and only records. */
  lemma {:induction false} StagedMembers(t: Tree, list: ReportList, beginDate: int, nowDate: int)
    ensures forall a :: a in Staged(t, list, beginDate, nowDate) ==>
      a.Some? && a.value in Elements(t) && ReportListOf(a.value, beginDate, nowDate) == Some(list)
    ensures forall x :: x in Elements(t) && ReportListOf(x, beginDate, nowDate) == Some(list) ==>
      Some(x) in Staged(t, list, beginDate, nowDate)
  {
    if t.Node? {
      StagedMembers(t.left, list, beginDate, nowDate);
      StagedMembers(t.right, list, beginDate, nowDate);
    }
  }

  /** Ids strictly decrease from the head: every element is a record and no id repeats. */
  predicate DescendingIds(s: seq<Activity>) {
    forall i, j :: 0 <= i < j < |s| ==> s[i].Some? && s[j].Some? && s[i].value.id > s[j].value.id
  }

  lemma DescendingConcat(a: seq<Activity>, b: seq<Activity>)
    requires DescendingIds(a) && DescendingIds(b)
    requires forall x, y :: x in a && y in b ==> x.Some? && y.Some? && x.value.id > y.value.id
    ensures DescendingIds(a + b)
  {
    var s := a + b;
    forall i, j | 0 <= i < j < |s|
      ensures s[i].Some? && s[j].Some? && s[i].value.id > s[j].value.id
    {
      var x := if i < |a| then a[i] else b[i - |a|];
      var y := if j < |a| then a[j] else b[j - |a|];
      assert s[i] == x && s[j] == y;
      if j < |a| {
        assert a[i].Some? && a[j].Some? && a[i].value.id > a[j].value.id;
      } else if i >= |a| {
        assert b[i - |a|].Some? && b[j - |a|].Some? && b[i - |a|].value.id > b[j - |a|].value.id;
      } else {
        assert x in a && y in b;
      }
    }
    assert DescendingIds(s);
  }

  /** On an ordered tree each staged list holds its records in strictly descending id order. */
  lemma {:induction false} StagedDescending(t: Tree, list: ReportList, beginDate: int, nowDate: int)
    requires Ordered(t)
    ensures DescendingIds(Staged(t, list, beginDate, nowDate))
  {
    if t.Node? {
      var right, mid, left := Staged(t.right, list, beginDate, nowDate), Picked(t.activity, list, beginDate, nowDate),
        Staged(t.left, list, beginDate, nowDate);
      StagedDescending(t.left, list, beginDate, nowDate);
      StagedDescending(t.right, list, beginDate, nowDate);
      StagedMembers(t.left, list, beginDate, nowDate);
      StagedMembers(t.right, list, beginDate, nowDate);
      DescendingConcat(right, mid);
      forall x: Activity, y: Activity | x in right + mid && y in left
        ensures x.Some? && y.Some? && x.value.id > y.value.id
      {
        assert x in right || x in mid;
      }
      DescendingConcat(right + mid, left);
    }
  }

  /** The four lists are distinct objects, or missing. */
  predicate SeparateLists(completedList: SupportList?, ongoingList: SupportList?, expiredList: SupportList?,
                          yetToBeginList: SupportList?)
  {
    && (completedList == null || (completedList != ongoingList && completedList != expiredList && completedList != yetToBeginList))
    && (ongoingList == null || (ongoingList != expiredList && ongoingList != yetToBeginList))
    && (expiredList == null || expiredList != yetToBeginList)
  }

  /**
   * The visit step of `buildInOrderSupportListsForActivitiesReport`: the record is pushed onto the
   * head of the list it is routed to, and onto no other list.
   */
  method RouteActivity(activity: Record, completedList: SupportList?, ongoingList: SupportList?,
                       expiredList: SupportList?, yetToBeginList: SupportList?, beginDate: int, nowDate: int)
    requires SeparateLists(completedList, ongoingList, expiredList, yetToBeginList)
    modifies completedList, ongoingList, expiredList, yetToBeginList
    ensures completedList != null ==>
      completedList.items == Picked(activity, Completed, beginDate, nowDate) + old(completedList.items)
    ensures ongoingList != null ==>
      ongoingList.items == Picked(activity, Ongoing, beginDate, nowDate) + old(ongoingList.items)
    ensures expiredList != null ==>
      expiredList.items == Picked(activity, Expired, beginDate, nowDate) + old(expiredList.items)
    ensures yetToBeginList != null ==>
      yetToBeginList.items == Picked(activity, YetToBegin, beginDate, nowDate) + old(yetToBeginList.items)
  {
    var a := Some(activity);
    var isCompleted := IsActivityCompleted(a);
    if isCompleted == 1 {
      var wasCompletedInLastPeriod := WasActivityCompletedAfterDate(a, beginDate);
      if wasCompletedInLastPeriod == 1 {
        AddActivityToSupportList(completedList, a);
      }
    } else if WasActivityExpiredBeforeDate(a, nowDate) == 1 {
      AddActivityToSupportList(expiredList, a);
    } else if IsActivityYetToBegin(a) == 1 {
      AddActivityToSupportList(yetToBeginList, a);
    } else {
      AddActivityToSupportList(ongoingList, a);
    }
  }

  lemma StagedUnfold(t: Tree, list: ReportList, beginDate: int, nowDate: int, rest: seq<Activity>)
    requires t.Node?
    ensures Staged(t, list, beginDate, nowDate) + rest ==
      Staged(t.right, list, beginDate, nowDate) + (Picked(t.activity, list, beginDate, nowDate) + (Staged(t.left, list, beginDate, nowDate) + rest))
  {
  }

  /**
   * `buildInOrderSupportListsForActivitiesReport`: walks the tree in order and pushes every
   * record onto the head of the list it is routed to; a missing list ignores its records.
   */
  method BuildInOrderSupportListsForActivitiesReport(root: Tree, completedList: SupportList?, ongoingList: SupportList?,
                                                     expiredList: SupportList?, yetToBeginList: SupportList?,
                                                     beginDate: int, nowDate: int)
    requires SeparateLists(completedList, ongoingList, expiredList, yetToBeginList)
    modifies completedList, ongoingList, expiredList, yetToBeginList
    ensures completedList != null ==>
      completedList.items == Staged(root, Completed, beginDate, nowDate) + old(completedList.items)
    ensures ongoingList != null ==>
      ongoingList.items == Staged(root, Ongoing, beginDate, nowDate) + old(ongoingList.items)
    ensures expiredList != null ==>
      expiredList.items == Staged(root, Expired, beginDate, nowDate) + old(expiredList.items)
    ensures yetToBeginList != null ==>
      yetToBeginList.items == Staged(root, YetToBegin, beginDate, nowDate) + old(yetToBeginList.items)
    decreases root
  {
    if root.Node? {
      ghost var completed0 := if completedList == null then [] else completedList.items;
      ghost var ongoing0 := if ongoingList == null then [] else ongoingList.items;
      ghost var expired0 := if expiredList == null then [] else expiredList.items;
      ghost var yetToBegin0 := if yetToBeginList == null then [] else yetToBeginList.items;
      BuildInOrderSupportListsForActivitiesReport(root.left, completedList, ongoingList, expiredList, yetToBeginList, beginDate, nowDate);
      RouteActivity(root.activity, completedList, ongoingList, expiredList, yetToBeginList, beginDate, nowDate);
      BuildInOrderSupportListsForActivitiesReport(root.right, completedList, ongoingList, expiredList, yetToBeginList, beginDate, nowDate);
      StagedUnfold(root, Completed, beginDate, nowDate, completed0);
      StagedUnfold(root, Ongoing, beginDate, nowDate, ongoing0);
      StagedUnfold(root, Expired, beginDate, nowDate, expired0);
      StagedUnfold(root, YetToBegin, beginDate, nowDate, yetToBegin0);
    }
  }

  /**
   * The staging and sorting of `printActivitiesReport` and `printActivitiesReportToFile`, as
   * written: completed records by completion date (criterion 6), the ones yet to begin by insert
   * date (4), the ongoing ones by completion percentage (10), the expired ones by expiry date (5).
   * The date criteria tie on every pair, so those three lists come out reversed; the ongoing list
   * comes out sorted, but the merge as written may drop some of its records.
   */
  method StageActivitiesReport(root: Tree, beginDate: int, nowDate: int)
    returns (completedList: SupportList, ongoingList: SupportList, expiredList: SupportList, yetToBeginList: SupportList)
    ensures fresh(completedList) && fresh(ongoingList) && fresh(expiredList) && fresh(yetToBeginList)
    ensures completedList.items == Reversed(Staged(root, Completed, beginDate, nowDate))
    ensures yetToBeginList.items == Reversed(Staged(root, YetToBegin, beginDate, nowDate))
    ensures expiredList.items == Reversed(Staged(root, Expired, beginDate, nowDate))
    ensures multiset(ongoingList.items) <= multiset(Staged(root, Ongoing, beginDate, nowDate))
    ensures Sorted(ongoingList.items, ByCriterion(10))
    ensures |Staged(root, Ongoing, beginDate, nowDate)| > 0 ==> |ongoingList.items| > 0
  {
    completedList := new SupportList();
    ongoingList := new SupportList();
    expiredList := new SupportList();
    yetToBeginList := new SupportList();
    BuildInOrderSupportListsForActivitiesReport(root, completedList, ongoingList, expiredList, yetToBeginList, beginDate, nowDate);
    StagedAllRecords(root, Completed, beginDate, nowDate, completedList.items);
    StagedAllRecords(root, YetToBegin, beginDate, nowDate, yetToBeginList.items);
    StagedAllRecords(root, Expired, beginDate, nowDate, expiredList.items);
    assert ongoingList.items == Staged(root, Ongoing, beginDate, nowDate) + [];

    SortSupportList(completedList, 6);
    SortSupportList(yetToBeginList, 4);
    SortSupportList(ongoingList, 10);
    SortSupportList(expiredList, 5);
  }

  /**
   * The same staging with the corrected merge and date comparators: the four lists hold exactly
   * the staged records, sorted by criteria 6, 4, 10 and 5.
   */
  method StageActivitiesReportFixed(root: Tree, beginDate: int, nowDate: int)
    returns (completedList: SupportList, ongoingList: SupportList, expiredList: SupportList, yetToBeginList: SupportList)
    ensures fresh(completedList) && fresh(ongoingList) && fresh(expiredList) && fresh(yetToBeginList)
    ensures multiset(completedList.items) == multiset(Staged(root, Completed, beginDate, nowDate))
    ensures multiset(ongoingList.items) == multiset(Staged(root, Ongoing, beginDate, nowDate))
    ensures multiset(expiredList.items) == multiset(Staged(root, Expired, beginDate, nowDate))
    ensures multiset(yetToBeginList.items) == multiset(Staged(root, YetToBegin, beginDate, nowDate))
    ensures Sorted(completedList.items, ByCriterionFixed(6)) && Sorted(yetToBeginList.items, ByCriterionFixed(4))
    ensures Sorted(ongoingList.items, ByCriterionFixed(10)) && Sorted(expiredList.items, ByCriterionFixed(5))
  {
    completedList := new SupportList();
    ongoingList := new SupportList();
    expiredList := new SupportList();
    yetToBeginList := new SupportList();
    BuildInOrderSupportListsForActivitiesReport(root, completedList, ongoingList, expiredList, yetToBeginList, beginDate, nowDate);

    SortSupportListFixed(completedList, 6);
    SortSupportListFixed(yetToBeginList, 4);
    SortSupportListFixed(ongoingList, 10);
    SortSupportListFixed(expiredList, 5);
  }

  // ---------------------------------------------------------------------------
  // The report order with the date comparators as written

  /** A freshly staged list holds records only, no NULL reference. */
  lemma StagedAllRecords(root: Tree, list: ReportList, beginDate: int, nowDate: int, items: seq<Activity>)
    requires items == Staged(root, list, beginDate, nowDate) + []
    ensures items == Staged(root, list, beginDate, nowDate) && AllRecords(items)
  {
    StagedMembers(root, list, beginDate, nowDate);
    assert Staged(root, list, beginDate, nowDate) + [] == Staged(root, list, beginDate, nowDate);
  }

  /** On an ordered tree a staged list, reversed, has strictly ascending ids. */
  lemma StagedReversedAscending(root: Tree, list: ReportList, beginDate: int, nowDate: int)
    requires Ordered(root)
    ensures var s := Reversed(Staged(root, list, beginDate, nowDate));
      forall i, j :: 0 <= i < j < |s| ==> s[i].Some? && s[j].Some? && s[i].value.id < s[j].value.id
  {
    var staged := Staged(root, list, beginDate, nowDate);
    StagedDescending(root, list, beginDate, nowDate);
    var s := Reversed(staged);
    forall i, j | 0 <= i < j < |s|
      ensures s[i].Some? && s[j].Some? && s[i].value.id < s[j].value.id
    {
      assert s[i] == staged[|staged| - 1 - i] && s[j] == staged[|staged| - 1 - j];
    }
  }

  /**
   * Sorting a staged list with a date criterion as written reverses it, so the completed, the
   * yet-to-begin and the expired records come out in ascending id order, whatever their dates.
   */
  method SortStagedByDateAsWritten(root: Tree, list: ReportList, beginDate: int, nowDate: int, criterion: int)
    returns (sorted: seq<Activity>)
    requires Ordered(root) && criterion in {4, 5, 6}
    ensures sorted == Reversed(Staged(root, list, beginDate, nowDate))
    ensures forall i, j :: 0 <= i < j < |sorted| ==> sorted[i].Some? && sorted[j].Some? && sorted[i].value.id < sorted[j].value.id
  {
    var staged := Staged(root, list, beginDate, nowDate);
    StagedAllRecords(root, list, beginDate, nowDate, staged + []);
    DateCriteriaTie(staged, criterion);
    sorted := MergeSortSupportListAsWritten(staged, ByCriterion(criterion));
    StagedReversedAscending(root, list, beginDate, nowDate);
  }
}
