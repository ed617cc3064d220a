/**
 * The sortable worklist of src/activities_container_support_list.c: a singly linked list of
 * record references with head insertion and a recursive merge sort. The node chain is the
 * sequence `items`, head first.
 */
module SupportLists {
  import opened Wrappers
  import opened Activities
  import opened ActivityHelper

  /** `struct listItem` (src/activities_container_support_list.c:13-15). */
  class SupportList {
    var items: seq<Activity>

    /** `newSupportList`: the head is NULL. */
    constructor ()
      ensures items == []
    {
      items := [];
    }
  }

  /** The C comparator function pointer `int (*)(Activity, Activity)`. */
  type Comparator = (Activity, Activity) -> int

  /** `isSupportListEmpty`: 1 exactly when there is no list or no node. */
  function IsSupportListEmpty(list: SupportList?): (r: int)
    reads list
    ensures r == 0 || r == 1
    ensures r == 1 <==> list == null || |list.items| == 0
  {
    if list == null || list.items == [] then 1 else 0
  }

  /** `addActivityToSupportList`: head insertion of the reference; no list, no change. */
  method AddActivityToSupportList(list: SupportList?, activity: Activity)
    modifies list
    ensures list != null ==> list.items == [activity] + old(list.items) && IsSupportListEmpty(list) == 0
  {
    if list == null {
      return;
    }
    list.items := [activity] + list.items;
  }

  /**
   * `doActionOnSupportListActivities`: the action is applied to every reference, NULL ones
   * included, once each and from the head on. The action's effect is its result.
   */
  method DoActionOnSupportListActivities<T>(list: SupportList?, action: Activity -> T) returns (outcomes: seq<T>)
    ensures list == null ==> outcomes == []
    ensures list != null ==>
      |outcomes| == |list.items| && forall k :: 0 <= k < |outcomes| ==> outcomes[k] == action(list.items[k])
  {
    outcomes := [];
    if IsSupportListEmpty(list) == 1 {
      return;
    }
    var current := 0;
    while current < |list.items|
      invariant 0 <= current <= |list.items|
      invariant |outcomes| == current
      invariant forall k :: 0 <= k < current ==> outcomes[k] == action(list.items[k])
    {
      outcomes := outcomes + [action(list.items[current])];
      current := current + 1;
    }
  }

  /**
   * `deleteSupportList`: frees every node, counted in `freedNodes`, and hands back NULL for the
   * caller's pointer. The referenced records are not freed and the list's contents are not read
   * again.
   */
  method DeleteSupportList(list: SupportList?) returns (freedNodes: nat, after: SupportList?)
    ensures after == null
    ensures freedNodes == if list == null then 0 else |list.items|
  {
    if list == null {
      return 0, null;
    }
    freedNodes := 0;
    var currentNode := 0;
    while currentNode < |list.items|
      invariant 0 <= currentNode <= |list.items|
      invariant freedNodes == currentNode
    {
      freedNodes := freedNodes + 1;
      currentNode := currentNode + 1;
    }
    after := null;
  }

  // ---------------------------------------------------------------------------
  // Split

  /**
   * `splitSupportList`: the slow pointer stops at the last node of the first half, which keeps
   * the first ceil(n/2) nodes; the rest is returned. An empty chain gives two empty halves.
   */
  method SplitSupportList(head: seq<Activity>) returns (first: seq<Activity>, second: seq<Activity>)
    ensures first + second == head
    ensures |first| == (|head| + 1) / 2 && |second| == |head| / 2
  {
    if |head| == 0 {
      return [], [];
    }
    var ptrSlow := 0;
    var ptrFast := 0;
    while ptrFast < |head| && ptrFast + 1 < |head|
      invariant 0 <= ptrFast <= |head| - 1 || (ptrFast == |head| && ptrFast % 2 == 0)
      invariant ptrFast % 2 == 0
      invariant ptrSlow == if ptrFast < |head| then ptrFast / 2 else ptrFast / 2 - 1
      decreases |head| - ptrFast
    {
      ptrFast := ptrFast + 2;
      if ptrFast < |head| {
        ptrSlow := ptrSlow + 1;
      }
    }
    first, second := head[..ptrSlow + 1], head[ptrSlow + 1..];
  }

  // ---------------------------------------------------------------------------
  // Merge

  /** The head comparison of `mergeSupportLists`: NULL references go after the others. */
  function MergeCompare(x: Activity, y: Activity, cmp: Comparator): int {
    if x.None? && y.Some? then 1
    else if x.Some? && y.None? then -1
    else if x.Some? && y.Some? then cmp(x, y)
    else 0
  }

  /** Swapping the operands of the comparator flips the sign of its answer. */
  ghost predicate SignAntisymmetric(cmp: Comparator) {
    forall x, y :: Sign(cmp(y, x)) == -Sign(cmp(x, y))
  }

  /** Every neighbouring pair is in order under the merge's comparison. */
  predicate Sorted(s: seq<Activity>, cmp: Comparator) {
    forall i :: 0 < i < |s| ==> MergeCompare(s[i - 1], s[i], cmp) <= 0
  }

  /**
   * `mergeSupportLists` as written: the first guard tests `listA` twice, so an exhausted A
   * ends the merge and whatever is left of B is dropped.
   */
  function MergeSupportListsAsWritten(listA: seq<Activity>, listB: seq<Activity>, cmp: Comparator): (r: seq<Activity>)
    ensures |r| <= |listA| + |listB|
    ensures r == [] <==> listA == []
    ensures multiset(r) <= multiset(listA) + multiset(listB)
    decreases |listA| + |listB|
  {
    if listA == [] then []
    else if listB == [] then listA
    else if MergeCompare(listA[0], listB[0], cmp) < 0 then
      assert listA == [listA[0]] + listA[1..];
      [listA[0]] + MergeSupportListsAsWritten(listA[1..], listB, cmp)
    else
      assert listB == [listB[0]] + listB[1..];
      [listB[0]] + MergeSupportListsAsWritten(listA, listB[1..], cmp)
  }

  /**
   * `mergeSupportLists` with the first guard as intended (both lists empty): the lesser head goes
   * first and a tie takes B's head. The result is a permutation of the two lists.
   */
  function MergeSupportLists(listA: seq<Activity>, listB: seq<Activity>, cmp: Comparator): (r: seq<Activity>)
    ensures multiset(r) == multiset(listA) + multiset(listB)
    ensures |r| == |listA| + |listB|
    ensures |r| > 0 ==> (|listA| > 0 && r[0] == listA[0]) || (|listB| > 0 && r[0] == listB[0])
    decreases |listA| + |listB|
  {
    if listA == [] && listB == [] then []
    else if listA == [] then listB
    else if listB == [] then listA
    else if MergeCompare(listA[0], listB[0], cmp) < 0 then
      var rest := MergeSupportLists(listA[1..], listB, cmp);
      assert listA == [listA[0]] + listA[1..];
      [listA[0]] + rest
    else
      var rest := MergeSupportLists(listA, listB[1..], cmp);
      assert listB == [listB[0]] + listB[1..];
      [listB[0]] + rest
  }

  /** Merging two sorted lists gives a sorted list when the comparator is sign-antisymmetric. */
  lemma {:induction false} MergeSorted(listA: seq<Activity>, listB: seq<Activity>, cmp: Comparator)
    requires SignAntisymmetric(cmp)
    requires Sorted(listA, cmp) && Sorted(listB, cmp)
    ensures Sorted(MergeSupportLists(listA, listB, cmp), cmp)
    decreases |listA| + |listB|
  {
    if listA == [] || listB == [] {
      return;
    }
    var x, y := listA[0], listB[0];
    if MergeCompare(x, y, cmp) < 0 {
      MergeSorted(listA[1..], listB, cmp);
    } else {
      if x.Some? && y.Some? {
        assert Sign(cmp(y, x)) == -Sign(cmp(x, y));
      }
      assert MergeCompare(y, x, cmp) <= 0;
      MergeSorted(listA, listB[1..], cmp);
    }
  }

  /** Every element of A ties with every element of B, and all are records. */
  ghost predicate AllTiesBetween(listA: seq<Activity>, listB: seq<Activity>, cmp: Comparator) {
    forall x, y :: x in listA && y in listB ==> x.Some? && y.Some? && cmp(x, y) == 0
  }

  lemma AllTiesBetweenTail(listA: seq<Activity>, listB: seq<Activity>, cmp: Comparator)
    requires |listB| > 0 && AllTiesBetween(listA, listB, cmp)
    ensures AllTiesBetween(listA, listB[1..], cmp)
  {
    forall x, y | x in listA && y in listB[1..]
      ensures x.Some? && y.Some? && cmp(x, y) == 0
    {
      assert y in listB;
    }
  }

  /** On ties B's head is always taken first, so a merge of all-tied lists is B followed by A. */
  lemma {:induction false} MergeAllTies(listA: seq<Activity>, listB: seq<Activity>, cmp: Comparator)
    requires AllTiesBetween(listA, listB, cmp)
    ensures MergeSupportLists(listA, listB, cmp) == listB + listA
    decreases |listB|
  {
    if listA == [] || listB == [] {
      return;
    }
    var x, y := listA[0], listB[0];
    assert x in listA && y in listB;
    assert MergeCompare(x, y, cmp) == 0;
    assert MergeSupportLists(listA, listB, cmp) == [y] + MergeSupportLists(listA, listB[1..], cmp);
    AllTiesBetweenTail(listA, listB, cmp);
    MergeAllTies(listA, listB[1..], cmp);
    assert listB == [y] + listB[1..];
  }

  /**
   * A record with the lower completion percentage loses its partner when the two are merged as
   * written; the corrected merge keeps both.
   */
  lemma MergeAsWrittenDropsRecords(x: Record, y: Record)
    requires ActivityCompletionPercentage(Some(x)) < ActivityCompletionPercentage(Some(y))
    ensures MergeSupportListsAsWritten([Some(x)], [Some(y)], ByCriterion(10)) == [Some(x)]
    ensures MergeSupportLists([Some(x)], [Some(y)], ByCriterion(10)) == [Some(x), Some(y)]
  {
    var a, b := Some(x), Some(y);
    assert CompareActivityByPercentCompletion(a, b) == -1;
    assert ByCriterion(10)(a, b) == -1;
    assert MergeCompare(a, b, ByCriterion(10)) < 0;
    assert [a][1..] == [];
  }

  /**
   * The merge as written is the corrected merge cut short: it agrees with it until A runs out,
   * and then stops.
   */
  lemma {:induction false} MergeAsWrittenIsPrefix(listA: seq<Activity>, listB: seq<Activity>, cmp: Comparator)
    ensures MergeSupportListsAsWritten(listA, listB, cmp) <= MergeSupportLists(listA, listB, cmp)
    decreases |listA| + |listB|
  {
    if listA == [] || listB == [] {
      return;
    }
    if MergeCompare(listA[0], listB[0], cmp) < 0 {
      MergeAsWrittenIsPrefix(listA[1..], listB, cmp);
    } else {
      MergeAsWrittenIsPrefix(listA, listB[1..], cmp);
    }
  }

  /** A prefix of a sorted list is sorted. */
  lemma SortedPrefix(p: seq<Activity>, s: seq<Activity>, cmp: Comparator)
    requires Sorted(s, cmp) && p <= s
    ensures Sorted(p, cmp)
  {
    forall i | 0 < i < |p|
      ensures MergeCompare(p[i - 1], p[i], cmp) <= 0
    {
      assert p[i - 1] == s[i - 1] && p[i] == s[i];
    }
  }

  /**
   * When every pair ties and A is not empty, B is used up before A, so the line-99 guard never
   * fires and the merge as written is B followed by A, like the corrected one.
   */
  lemma {:induction false} MergeAsWrittenAllTies(listA: seq<Activity>, listB: seq<Activity>, cmp: Comparator)
    requires |listA| > 0 && AllTiesBetween(listA, listB, cmp)
    ensures MergeSupportListsAsWritten(listA, listB, cmp) == listB + listA
    decreases |listB|
  {
    if listB == [] {
      assert listB + listA == listA;
    } else {
      assert listA[0] in listA && listB[0] in listB;
      AllTiesBetweenTail(listA, listB, cmp);
      MergeAsWrittenAllTies(listA, listB[1..], cmp);
      MergeAsWrittenTakesB(listA, listB, cmp);
    }
  }

  /**
   * A tie or a lesser head of B puts B's head first in the merge as written; when the rest merges
   * to B's tail followed by A, the whole merge is B followed by A.
   */
  lemma MergeAsWrittenTakesB(listA: seq<Activity>, listB: seq<Activity>, cmp: Comparator)
    requires |listA| > 0 && |listB| > 0 && MergeCompare(listA[0], listB[0], cmp) >= 0
    requires MergeSupportListsAsWritten(listA, listB[1..], cmp) == listB[1..] + listA
    ensures MergeSupportListsAsWritten(listA, listB, cmp) == listB + listA
  {
    var b0, tail := listB[0], listB[1..];
    MergeAsWrittenUnfoldB(listA, listB, cmp);
    assert [b0] + (tail + listA) == ([b0] + tail) + listA;
    assert [b0] + tail == listB;
  }

  lemma MergeAsWrittenUnfoldB(listA: seq<Activity>, listB: seq<Activity>, cmp: Comparator)
    requires |listA| > 0 && |listB| > 0 && MergeCompare(listA[0], listB[0], cmp) >= 0
    ensures MergeSupportListsAsWritten(listA, listB, cmp)
      == [listB[0]] + MergeSupportListsAsWritten(listA, listB[1..], cmp)
  {
  }

  // ---------------------------------------------------------------------------
  // Merge sort

  function Reversed(s: seq<Activity>): (r: seq<Activity>)
    ensures |r| == |s|
    ensures forall i :: 0 <= i < |s| ==> r[i] == s[|s| - 1 - i]
  {
    if s == [] then [] else Reversed(s[1..]) + [s[0]]
  }

  lemma ReversedAppend(a: seq<Activity>, b: seq<Activity>)
    ensures Reversed(a + b) == Reversed(b) + Reversed(a)
  {
    var l, r := Reversed(a + b), Reversed(b) + Reversed(a);
    assert |l| == |r|;
    forall i | 0 <= i < |l|
      ensures l[i] == r[i]
    {
      if i < |b| {
        assert l[i] == (a + b)[|a| + |b| - 1 - i] == b[|b| - 1 - i];
      } else {
        assert l[i] == (a + b)[|a| + |b| - 1 - i] == a[|a| - 1 - (i - |b|)];
      }
    }
  }

  /** Every pair of elements of `s` is a tie between two records. */
  ghost predicate AllTies(s: seq<Activity>, cmp: Comparator) {
    AllTiesBetween(s, s, cmp)
  }

  lemma AllTiesOfSameElements(s: seq<Activity>, t: seq<Activity>, cmp: Comparator)
    requires AllTies(s, cmp) && multiset(t) <= multiset(s)
    ensures AllTies(t, cmp)
  {
    forall x, y | x in t && y in t
      ensures x.Some? && y.Some? && cmp(x, y) == 0
    {
      assert x in multiset(t) && y in multiset(t);
      assert x in s && y in s;
    }
  }

  /**
   * `mergeSortSupportList` over the corrected merge: split, sort both halves, merge. The result is
   * a permutation of the input; it is sorted when the comparator is sign-antisymmetric; a list of
   * at most one node is returned as it is; and when every pair ties the merge always takes the
   * second half first, which reverses the list.
   */
  method MergeSortSupportList(head: seq<Activity>, cmp: Comparator) returns (r: seq<Activity>)
    ensures multiset(r) == multiset(head)
    ensures |head| <= 1 ==> r == head
    ensures SignAntisymmetric(cmp) ==> Sorted(r, cmp)
    ensures AllTies(head, cmp) ==> r == Reversed(head)
    decreases |head|
  {
    if |head| <= 1 {
      if |head| == 1 {
        assert head == [head[0]] && head[1..] == [];
      }
      return head;
    }
    var firstHalf, secondHalf := SplitSupportList(head);
    var sortedFirst := MergeSortSupportList(firstHalf, cmp);
    var sortedSecond := MergeSortSupportList(secondHalf, cmp);
    r := MergeSupportLists(sortedFirst, sortedSecond, cmp);
    if SignAntisymmetric(cmp) {
      MergeSorted(sortedFirst, sortedSecond, cmp);
    }
    assert multiset(head) == multiset(firstHalf) + multiset(secondHalf);
    if AllTies(head, cmp) {
      AllTiesOfSameElements(head, firstHalf, cmp);
      AllTiesOfSameElements(head, secondHalf, cmp);
      AllTiesBetweenParts(head, sortedFirst, sortedSecond, cmp);
      MergeAllTies(sortedFirst, sortedSecond, cmp);
      ReversedAppend(firstHalf, secondHalf);
    }
  }

  /** Two lists drawn from an all-tied list tie with each other. */
  lemma AllTiesBetweenParts(whole: seq<Activity>, listA: seq<Activity>, listB: seq<Activity>, cmp: Comparator)
    requires AllTies(whole, cmp) && multiset(listA) + multiset(listB) == multiset(whole)
    ensures AllTiesBetween(listA, listB, cmp)
  {
    forall x, y | x in listA && y in listB
      ensures x.Some? && y.Some? && cmp(x, y) == 0
    {
      assert x in multiset(listA) && y in multiset(listB);
      assert x in multiset(whole) && y in multiset(whole);
    }
  }

  /** Reversal keeps every element, as often as it occurs. */
  lemma {:induction false} ReversedMultiset(s: seq<Activity>)
    ensures multiset(Reversed(s)) == multiset(s)
  {
    if s != [] {
      ReversedMultiset(s[1..]);
      assert s == [s[0]] + s[1..];
    }
  }

  /**
   * `mergeSortSupportList` as written, over the merge with the line-99 guard. Records can only be
   * lost, never invented; the result is still sorted, since each merge as written is a prefix of
   * the corrected one; a non-empty list stays non-empty; a two-node list comes back as the merge
   * of its two nodes; and when every pair ties nothing is lost and the list is reversed.
   */
  method MergeSortSupportListAsWritten(head: seq<Activity>, cmp: Comparator) returns (r: seq<Activity>)
    ensures multiset(r) <= multiset(head) && |r| <= |head|
    ensures |head| <= 1 ==> r == head
    ensures |head| > 0 ==> |r| > 0
    ensures |head| == 2 ==> r == MergeSupportListsAsWritten([head[0]], [head[1]], cmp)
    ensures SignAntisymmetric(cmp) ==> Sorted(r, cmp)
    ensures AllTies(head, cmp) ==> r == Reversed(head)
    decreases |head|
  {
    if |head| <= 1 {
      if |head| == 1 {
        assert head == [head[0]] && head[1..] == [];
      }
      return head;
    }
    var firstHalf, secondHalf := SplitSupportList(head);
    AllTiesOfHalves(head, firstHalf, secondHalf, cmp);
    var sortedFirst := MergeSortSupportListAsWritten(firstHalf, cmp);
    var sortedSecond := MergeSortSupportListAsWritten(secondHalf, cmp);
    r := MergeSupportListsAsWritten(sortedFirst, sortedSecond, cmp);
    MergeAsWrittenOfHalves(head, firstHalf, secondHalf, sortedFirst, sortedSecond, cmp);
    MergeAsWrittenSorted(sortedFirst, sortedSecond, cmp);
    MergeAsWrittenReversesHalves(head, firstHalf, secondHalf, sortedFirst, sortedSecond, cmp);
  }

  /** The merge as written of two lists drawn from the halves of `head` draws from `head`. */
  lemma MergeAsWrittenOfHalves(head: seq<Activity>, firstHalf: seq<Activity>, secondHalf: seq<Activity>,
                               sortedFirst: seq<Activity>, sortedSecond: seq<Activity>, cmp: Comparator)
    requires head == firstHalf + secondHalf
    requires multiset(sortedFirst) <= multiset(firstHalf) && |sortedFirst| <= |firstHalf|
    requires multiset(sortedSecond) <= multiset(secondHalf) && |sortedSecond| <= |secondHalf|
    ensures multiset(MergeSupportListsAsWritten(sortedFirst, sortedSecond, cmp)) <= multiset(head)
    ensures |MergeSupportListsAsWritten(sortedFirst, sortedSecond, cmp)| <= |head|
    ensures |head| == 2 && |firstHalf| == 1 && sortedFirst == firstHalf && sortedSecond == secondHalf ==>
      MergeSupportListsAsWritten(sortedFirst, sortedSecond, cmp) == MergeSupportListsAsWritten([head[0]], [head[1]], cmp)
  {
    assert multiset(head) == multiset(firstHalf) + multiset(secondHalf);
    if |head| == 2 && |firstHalf| == 1 {
      assert firstHalf == [head[0]] && secondHalf == [head[1]];
    }
  }

  /** Both halves of an all-tied list are all tied. */
  lemma AllTiesOfHalves(head: seq<Activity>, firstHalf: seq<Activity>, secondHalf: seq<Activity>, cmp: Comparator)
    requires head == firstHalf + secondHalf
    ensures AllTies(head, cmp) ==> AllTies(firstHalf, cmp) && AllTies(secondHalf, cmp)
  {
    if AllTies(head, cmp) {
      assert multiset(head) == multiset(firstHalf) + multiset(secondHalf);
      AllTiesOfSameElements(head, firstHalf, cmp);
      AllTiesOfSameElements(head, secondHalf, cmp);
    }
  }

  /**
   * Merging two sorted lists as written gives a sorted list when the comparator is
   * sign-antisymmetric: the result is a prefix of the corrected merge.
   */
  lemma MergeAsWrittenSorted(listA: seq<Activity>, listB: seq<Activity>, cmp: Comparator)
    ensures SignAntisymmetric(cmp) && Sorted(listA, cmp) && Sorted(listB, cmp) ==>
      Sorted(MergeSupportListsAsWritten(listA, listB, cmp), cmp)
  {
    if SignAntisymmetric(cmp) && Sorted(listA, cmp) && Sorted(listB, cmp) {
      MergeSorted(listA, listB, cmp);
      MergeAsWrittenIsPrefix(listA, listB, cmp);
      SortedPrefix(MergeSupportListsAsWritten(listA, listB, cmp), MergeSupportLists(listA, listB, cmp), cmp);
    }
  }

  /**
   * On an all-tied list split into a non-empty first half and a second half, merging the two
   * halves, each reversed by its own sort, as written reverses the whole list.
   */
  lemma MergeAsWrittenReversesHalves(head: seq<Activity>, firstHalf: seq<Activity>, secondHalf: seq<Activity>,
                                     sortedFirst: seq<Activity>, sortedSecond: seq<Activity>, cmp: Comparator)
    requires head == firstHalf + secondHalf && |firstHalf| > 0
    requires AllTies(firstHalf, cmp) ==> sortedFirst == Reversed(firstHalf)
    requires AllTies(secondHalf, cmp) ==> sortedSecond == Reversed(secondHalf)
    ensures AllTies(head, cmp) ==> MergeSupportListsAsWritten(sortedFirst, sortedSecond, cmp) == Reversed(head)
  {
    if AllTies(head, cmp) {
      AllTiesOfHalves(head, firstHalf, secondHalf, cmp);
      ReversedMultiset(firstHalf);
      ReversedMultiset(secondHalf);
      AllTiesBetweenParts(head, sortedFirst, sortedSecond, cmp);
      MergeAsWrittenAllTies(sortedFirst, sortedSecond, cmp);
      ReversedAppend(firstHalf, secondHalf);
    }
  }

  /** The comparator `compareActivityBy` gives for a criterion. */
  function ByCriterion(criterion: int): Comparator {
    (x, y) => CompareActivityBy(x, y, criterion)
  }

  lemma ByCriterionAntisymmetric(criterion: int)
    ensures SignAntisymmetric(ByCriterion(criterion))
  {
    forall x, y
      ensures Sign(ByCriterion(criterion)(y, x)) == -Sign(ByCriterion(criterion)(x, y))
    {
      CompareActivityByAntisymmetric(x, y, criterion);
    }
  }

  /** The comparator the corrected dispatcher gives for a criterion. */
  function ByCriterionFixed(criterion: int): Comparator {
    (x, y) => CompareActivityByFixed(x, y, criterion)
  }

  lemma ByCriterionFixedAntisymmetric(criterion: int)
    ensures SignAntisymmetric(ByCriterionFixed(criterion))
  {
    forall x, y
      ensures Sign(ByCriterionFixed(criterion)(y, x)) == -Sign(ByCriterionFixed(criterion)(x, y))
    {
      CompareActivityByFixedAntisymmetric(x, y, criterion);
    }
  }

  /** No reference in the list is NULL. */
  predicate AllRecords(s: seq<Activity>) {
    forall a :: a in s ==> a.Some?
  }

  /** Under the date criteria 4, 5 and 6 as written, any two records tie. */
  lemma DateCriteriaTie(s: seq<Activity>, criterion: int)
    requires criterion in {4, 5, 6} && AllRecords(s)
    ensures AllTies(s, ByCriterion(criterion))
  {
    forall x, y | x in s && y in s
      ensures x.Some? && y.Some? && ByCriterion(criterion)(x, y) == 0
    {
    }
  }

  /**
   * `sortSupportList(list, sortBy)` as the report calls it: nothing happens to an empty or missing
   * list; otherwise the chain is merge-sorted as written under `compareActivityBy` with the
   * criterion. Records may be lost, the survivors are in order, and under a date criterion a
   * list of records comes back reversed.
   */
  method SortSupportList(list: SupportList?, criterion: int)
    modifies list
    ensures list != null ==>
      && multiset(list.items) <= multiset(old(list.items))
      && Sorted(list.items, ByCriterion(criterion))
      && (|old(list.items)| <= 1 ==> list.items == old(list.items))
      && (|old(list.items)| > 0 ==> |list.items| > 0)
      && (criterion in {4, 5, 6} && AllRecords(old(list.items)) ==> list.items == Reversed(old(list.items)))
  {
    if IsSupportListEmpty(list) == 1 {
      return;
    }
    ByCriterionAntisymmetric(criterion);
    if criterion in {4, 5, 6} && AllRecords(list.items) {
      DateCriteriaTie(list.items, criterion);
    }
    list.items := MergeSortSupportListAsWritten(list.items, ByCriterion(criterion));
  }

  /**
   * `sortSupportList` with the corrected merge and the corrected date comparators: the same
   * references are relinked into sorted order, none lost.
   */
  method SortSupportListFixed(list: SupportList?, criterion: int)
    modifies list
    ensures list != null ==>
      && multiset(list.items) == multiset(old(list.items))
      && Sorted(list.items, ByCriterionFixed(criterion))
      && (|old(list.items)| <= 1 ==> list.items == old(list.items))
  {
    if IsSupportListEmpty(list) == 1 {
      return;
    }
    ByCriterionFixedAntisymmetric(criterion);
    list.items := MergeSortSupportList(list.items, ByCriterionFixed(criterion));
  }

  /**
   * Merge-sorting the two-record chain `[x, y]` by completion percentage (criterion 10), as
   * written: x has the lower percentage, so the merge takes it, finds A empty and drops y.
   */
  method SortPairByPercentAsWritten(x: Record, y: Record) returns (sorted: seq<Activity>)
    requires ActivityCompletionPercentage(Some(x)) < ActivityCompletionPercentage(Some(y))
    ensures sorted == [Some(x)]
  {
    sorted := MergeSortSupportListAsWritten([Some(x), Some(y)], ByCriterion(10));
    MergeAsWrittenDropsRecords(x, y);
  }
}
