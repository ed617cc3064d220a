# Activity store: AVL index, id counter and report staging

This project models the core of a small C task manager (Xnnea/progetto_PSD), a store of study
"activities". Each activity is a record with an integer id, three optional strings, three dates,
two minute counters and a priority.

- Records are kept in an AVL tree keyed on the id.
- A container wraps the tree together with a `nextId` counter that hands out ids automatically.
- For the periodic report, an in-order walk routes every record into one of four singly linked
  worklists: completed, ongoing, expired and yet to begin. Each list is then merge-sorted by a
  fixed criterion of the comparator dispatcher.

The model follows the C code file by file:

| file | module | form |
|---|---|---|
| `wrappers.dfy` | `Wrappers` | `Option`; `None` stands for a NULL pointer |
| `utils.dfy` | `Utils` | pure functions; the out-pointer and in-place trimming code as methods |
| `activity.dfy` | `Activities` | the record as a datatype; `Activity = Option<Record>` |
| `activity_helper.dfy` | `ActivityHelper` | status predicates, comparators, the criterion dispatcher |
| `avl.dfy` | `AvlTree` | the tree as a datatype; insert, delete and rotations return the new root as the C does |
| `container.dfy` | `Container` | a class with the `avlTree` and `nextId` fields |
| `support_list.dfy` | `SupportLists` | a class whose node chain is a `seq<Activity>` field; split, merge and merge sort |
| `container_helper.dfy` | `ContainerHelper` | lookup, the routing walk and the report sort |

A sequence of records is sorted (`Sorted`) when every neighbouring pair is in order under the
merge's own head comparison (`MergeCompare`). That comparison puts NULL references last and
otherwise asks the comparator.

Where the header comments disagree with the code, the model follows the code:

- `nextId` becomes "inserted id + 1" after every insert. It can therefore go down when an explicit
  smaller id is inserted, and it grows even when a duplicate insert leaves the tree unchanged.
- An id of 0 is replaced only when `nextId > 0`.
- An expiry date only counts when it is positive (`0 < expiry < now`).
- The merge orders NULL references after records. The comparators, however, treat NULL as
  smaller.
- The merge's first guard and three date comparators are wrong as written; see "## Findings".
  The dispatcher `CompareActivityBy`, the merge sort, `SortSupportList` and
  `StageActivitiesReport` follow the code as written. Each has a corrected counterpart beside it
  (`CompareActivityByFixed`, `MergeSortSupportList`, `SortSupportListFixed`,
  `StageActivitiesReportFixed`), with the input that shows the difference.
- `sortSupportList` is declared in src/activities_container_support_list.h:116 with an integer
  criterion `sortBy`, and the report calls it with 6, 4, 10 and 5. The definition at
  src/activities_container_support_list.c:144 declares a comparator function parameter instead.
  The model follows the declaration and its callers: the integer picks the criterion of
  `compareActivityBy`.

## Model

| member | source | states |
|---|---|---|
| Utils.Max | src/utils.c:22-24 | the result is at least `a`, at least `b`, and equal to one of them |
| Utils.MinToHoursAndMinutes | src/utils.c:49-52 | minutes are below 60 and `hours*60 + minutes` gives back the input |
| Utils.TrimLineEnding | src/utils.c:84-102 | the line is a prefix of the buffer and what was cut is "", "\n", "\r" or "\r\n": one '\n' and then one '\r' go, nothing else |
| Utils.CopyString | src/utils.c:135-143 | NULL stays NULL; otherwise the copy equals the string |
| Utils.DateToEpoch | src/utils.c:276-293 | 0 whenever year, month, day, hour or minute is out of range; otherwise mktime of the assembled time |
| Utils.DaysInMonth | src/utils.c:325-327 | February has 29 days in a leap year and 28 otherwise; April, June, September and November have 30; the other seven months have 31 |
| Utils.DaysInYearTotal | src/utils.c:325-327 | the month table sums to 366 in leap years and 365 otherwise |
| Activities.NewActivity | src/activity.c:89-112 | the result is a record, and every getter returns the argument given for its field |
| Activities.CopyActivity | src/activity.c:161-167 | NULL for NULL; otherwise every getter agrees with the original |
| Activities.SameFieldsIsEquality | src/activity.c:161-167 | two records that agree on every getter are equal, so the copy is the same value |
| Activities.GetActivityId | src/activity.c:209-212 | the id, or 0 for NULL |
| Activities.GetActivityName | src/activity.c:214-218 | the name, or NULL for NULL |
| Activities.GetActivityDescr | src/activity.c:220-224 | the description, or NULL for NULL |
| Activities.GetActivityCourse | src/activity.c:226-230 | the course, or NULL for NULL |
| Activities.GetActivityInsertDate | src/activity.c:232-236 | the insert date, or 0 for NULL |
| Activities.GetActivityExpiryDate | src/activity.c:238-242 | the expiry date, or 0 for NULL |
| Activities.GetActivityCompletionDate | src/activity.c:244-248 | the completion date, or 0 for NULL |
| Activities.GetActivityTotalTime | src/activity.c:250-254 | the total minutes, or 0 for NULL |
| Activities.GetActivityUsedTime | src/activity.c:256-260 | the used minutes, or 0 for NULL |
| Activities.GetActivityPriority | src/activity.c:262-266 | the priority, or 0 for NULL |
| Activities.SetActivityId | src/activity.c:305-307 | no-op on NULL; otherwise only the id changes |
| Activities.SetActivityName | src/activity.c:309-317 | no-op on NULL; otherwise only the name changes, to a copy of the argument |
| Activities.SetActivityDescr | src/activity.c:319-327 | no-op on NULL; otherwise only the description changes, to a copy of the argument |
| Activities.SetActivityCourse | src/activity.c:329-337 | no-op on NULL; otherwise only the course changes, to a copy of the argument |
| Activities.SetActivityInsertDate | src/activity.c:339-343 | no-op on NULL; otherwise only the insert date changes |
| Activities.SetActivityExpiryDate | src/activity.c:345-349 | no-op on NULL; otherwise only the expiry date changes |
| Activities.SetActivityCompletionDate | src/activity.c:351-355 | no-op on NULL; otherwise only the completion date changes |
| Activities.SetActivityTotalTime | src/activity.c:357-361 | no-op on NULL; otherwise only the total minutes change |
| Activities.SetActivityUsedTime | src/activity.c:363-367 | no-op on NULL; otherwise only the used minutes change |
| Activities.SetActivityPriority | src/activity.c:369-373 | no-op on NULL; otherwise only the priority changes |
| Activities.GetAfterSet | src/activity.c:209-373 | for each of the ten setters on a non-NULL record: its getter returns the value written and the other nine getters return what they did before |
| ActivityHelper.IsActivityYetToBegin | src/activity_helper.c:26-32 | 1 exactly for a record with no used minutes, else 0 (NULL gives 0) |
| ActivityHelper.IsActivityCompleted | src/activity_helper.c:56-62 | 1 exactly for a record with a nonzero completion date, else 0 |
| ActivityHelper.WasActivityCompletedAfterDate | src/activity_helper.c:86-92 | 1 exactly when the completion date is after the threshold |
| ActivityHelper.WasActivityExpiredBeforeDate | src/activity_helper.c:116-123 | 1 exactly when `0 < expiry < threshold` |
| ActivityHelper.CompareWithId | src/activity_helper.c:149-157 | -2 for NULL; otherwise -1, 0 or 1 with the sign of `id - activityId` |
| ActivityHelper.ActivityCompletionPercentage | src/activity_helper.c:181-191 | the floor of `used*100/total`: `r*total <= used*100 < (r+1)*total` when both are nonzero, 0 otherwise; it reaches 100 exactly when `used >= total` |
| ActivityHelper.PercentBounds | src/activity_helper.c:189 | the integer quotient lies between the two neighbouring multiples |
| ActivityHelper.CompareNullActivity | src/activity_helper.c:217-223 | 0 when both are NULL, 1 when only the left is set, -1 when only the right is set |
| ActivityHelper.CompareNullString | src/activity_helper.c:249-255 | the same rule for two optional strings |
| ActivityHelper.StrCmpAntisymmetric | src/activity_helper.c:310-321 | the model of `strcmp` changes sign when its operands are swapped |
| ActivityHelper.StrCmpZeroIffEqual | src/activity_helper.c:310-321 | on strings without NUL, `strcmp` is 0 exactly for equal strings |
| ActivityHelper.StrCmpNegativeIffLexLess | src/activity_helper.c:310-321 | `strcmp` is negative exactly when the left string is lexicographically smaller (a proper prefix included) |
| ActivityHelper.CompareActivityById | src/activity_helper.c:280-286 | the NULL rule first; otherwise -1, 0 or 1 ordering the ids |
| ActivityHelper.CompareActivityByName | src/activity_helper.c:310-321 | the NULL rules for records and strings first; otherwise the `strcmp` of the names |
| ActivityHelper.CompareActivityByDescr | src/activity_helper.c:345-356 | as by name, on the descriptions |
| ActivityHelper.CompareActivityByCourse | src/activity_helper.c:380-391 | as by name, on the courses |
| ActivityHelper.CompareActivityByInsertDate | src/activity_helper.c:417-426 | as written: the NULL rule, then 0 for any two records |
| ActivityHelper.CompareActivityByExpiryDate | src/activity_helper.c:452-461 | as written: the NULL rule, then 0 for any two records |
| ActivityHelper.CompareActivityByCompletionDate | src/activity_helper.c:487-496 | as written: the NULL rule, then 0 for any two records |
| ActivityHelper.CompareActivityByInsertDateFixed | src/activity_helper.c:406-426 | corrected: the NULL rule, then -1, 0 or 1 ordering the two insert dates |
| ActivityHelper.CompareActivityByExpiryDateFixed | src/activity_helper.c:441-461 | corrected: the same, on the expiry dates |
| ActivityHelper.CompareActivityByCompletionDateFixed | src/activity_helper.c:476-496 | corrected: the same, on the completion dates |
| ActivityHelper.DateComparatorsIgnoreSecondOperand | src/activity_helper.c:417-496 | two records dated 1 and 2 compare as 0 as written and as -1 corrected, for each of the three dates |
| ActivityHelper.CompareActivityByTotalTime | src/activity_helper.c:522-531 | the NULL rule, then the order of the total minutes |
| ActivityHelper.CompareActivityByUsedTime | src/activity_helper.c:557-566 | the NULL rule, then the order of the used minutes |
| ActivityHelper.CompareActivityByPriority | src/activity_helper.c:592-601 | the NULL rule, then the order of the priorities |
| ActivityHelper.CompareActivityByPercentCompletion | src/activity_helper.c:627-636 | the NULL rule, then the order of the completion percentages |
| ActivityHelper.TimeToCompletion | src/activity_helper.c:662-685 | `total - used` when `total >= used`, and 0 otherwise |
| ActivityHelper.CompareActivityByTimeToCompletion | src/activity_helper.c:662-685 | the NULL rule, then the order of the remaining minutes, in {-1, 0, 1} |
| ActivityHelper.CompareActivityBy | src/activity_helper.c:732-776 | as written: criteria 4, 5 and 6 reach the date comparators as written, so two records give 0 and a NULL gets the NULL rule; results lie in {-1, 0, 1} except for the string criteria 1-3; any criterion outside 0-11 compares by id |
| ActivityHelper.CompareActivityByAntisymmetric | src/activity_helper.c:732-776 | for every criterion, swapping the two records flips the sign of the answer |
| ActivityHelper.CompareActivityByFixed | src/activity_helper.c:747-755 | corrected: the same answer as the dispatcher outside criteria 4-6; there, the NULL rule and then the order of the insert, expiry or completion dates of the two records |
| ActivityHelper.CompareActivityByFixedAntisymmetric | src/activity_helper.c:732-776 | corrected: for every criterion, swapping the two records flips the sign of the answer |
| ActivityHelper.PriorityToText | src/activity_helper.c:803-812 | 1 is "ALTA", 2 is "MEDIA", 3 is "BASSA", anything else is "?" |
| AvlTree.GetHeight | src/activities_container_avl.c:171-174 | 0 for NULL; on a tree with correct cached heights, the true height |
| AvlTree.CreateNode | src/activities_container_avl.c:196-205 | NULL exactly for NULL; otherwise an ordered AVL leaf of height 1 holding just the record |
| AvlTree.BalanceFactor | src/activities_container_avl.c:227-230 | 0 for NULL; otherwise height(left) - height(right) |
| AvlTree.RightRotate | src/activities_container_avl.c:254-267 | the old left child becomes the root and the in-order sequence of records is unchanged |
| AvlTree.LeftRotate | src/activities_container_avl.c:291-304 | the old right child becomes the root and the in-order sequence of records is unchanged |
| AvlTree.RightRotatePreservesOrder | src/activities_container_avl.c:254-267 | the rotation keeps the set of records and keeps strict id order |
| AvlTree.LeftRotatePreservesOrder | src/activities_container_avl.c:291-304 | the rotation keeps the set of records and keeps strict id order |
| AvlTree.LeftRightPreservesOrder | src/activities_container_avl.c:365-368 | the left-right double rotation keeps the records and the id order |
| AvlTree.RightLeftPreservesOrder | src/activities_container_avl.c:380-383 | the right-left double rotation keeps the records and the id order |
| AvlTree.RightRotateRestores | src/activities_container_avl.c:509-510 | on a node leaning two levels to the left, with a left child that is not right-heavy, a right rotation yields an AVL tree of the stated height |
| AvlTree.LeftRightRotateRestores | src/activities_container_avl.c:513-516 | with a right-heavy left child, the double rotation yields an AVL tree one level lower |
| AvlTree.LeftRotateRestores | src/activities_container_avl.c:519-520 | the mirror image of RightRotateRestores |
| AvlTree.RightLeftRotateRestores | src/activities_container_avl.c:523-526 | the mirror image of LeftRightRotateRestores |
| AvlTree.Search | src/activities_container_avl.c:136-148 | a node found holds a record of the tree with that id; on an ordered tree NULL comes back exactly when no record has the id |
| AvlTree.InsertRebalance | src/activities_container_avl.c:355-387 | the LL, LR, RR and RL cases chosen by comparing the new id with the child's give an AVL tree with the same records and order; a balanced node is returned untouched |
| AvlTree.InsertNode | src/activities_container_avl.c:331-388 | the result is an AVL tree whose height grew by at most one; with a fresh id on an ordered tree it stays ordered and holds the old records plus the new one |
| AvlTree.InsertNodeDuplicate | src/activities_container_avl.c:341-346 | inserting an id that is already present returns the same tree |
| AvlTree.LeftmostNode | src/activities_container_avl.c:412-421 | a node of the tree with no left child, whose id is the minimum when the tree is ordered |
| AvlTree.MinValueNode | src/activities_container_avl.c:412-421 | NULL for NULL; otherwise the leftmost node |
| AvlTree.DeleteRebalance | src/activities_container_avl.c:503-526 | the child-balance-factor cases give an AVL tree with the same records and order, at most one level lower |
| AvlTree.DeleteNode | src/activities_container_avl.c:447-529 | the result is an AVL tree, at most one level lower; on an ordered tree it stays ordered and holds exactly the old records except those with the id, every other record unchanged |
| AvlTree.DeleteNodeMissing | src/activities_container_avl.c:447-529 | deleting an id that is not present returns the same tree |
| AvlTree.DeleteSubtree | src/activities_container_avl.c:550-558 | the post-order teardown frees every node of the tree exactly once |
| AvlTree.OrderedIdsUnique | src/activities_container_avl.c:341-346 | in an ordered tree two records with the same id are the same record |
| AvlTree.InOrderElements | src/activities_container_avl.c:136-148 | the in-order traversal lists exactly the records of the tree |
| AvlTree.InOrderAscending | src/activities_container_avl.c:136-148 | on an ordered tree the in-order traversal has strictly increasing ids |
| Container.ActivitiesContainer.constructor | src/activities_container.c:351-359 | an empty, valid index with `nextId == 1` |
| Container.AssignedId | src/activities_container.c:198 | a nonzero id is kept; 0 becomes `nextId` when `nextId > 0` and stays 0 otherwise |
| Container.InsertActivity | src/activities_container.c:176-204 | NULL changes nothing; a NULL container becomes a fresh one with the record as its root; an empty tree restarts the counter at 1; the id is assigned and written back into the caller's record; the tree stays valid and gains the record when its id is new, and is unchanged when the id is taken; `nextId` becomes the id + 1 in every case |
| Container.RemoveActivity | src/activities_container.c:296-301 | no-op on a NULL container or an empty tree; otherwise the record with the id is deleted, the tree stays valid, and `nextId` is never touched |
| Container.AutoIdScenario | src/activities_container.c:198-201 | four automatic inserts get ids 1 to 4; after removing id 2 the counter is 5 and the next automatic id is 5 |
| Container.EmptiedRestartScenario | src/activities_container.c:190-195 | once every record is removed, the next automatic id is 1 again |
| SupportLists.SupportList.constructor | src/activities_container_support_list.c:17-23 | a list with no node |
| SupportLists.IsSupportListEmpty | src/activities_container_support_list.c:43-45 | 1 exactly when there is no list or no node, else 0 |
| SupportLists.AddActivityToSupportList | src/activities_container_support_list.c:49-57 | the reference is prepended and the rest is unchanged; no-op without a list |
| SupportLists.DoActionOnSupportListActivities | src/activities_container_support_list.c:60-69 | the action is applied to every reference, once each, from the head on |
| SupportLists.DeleteSupportList | src/activities_container_support_list.c:25-39 | one node freed per element, the records untouched, and the caller's pointer set to NULL |
| SupportLists.SplitSupportList | src/activities_container_support_list.c:77-95 | the two halves concatenate back to the list; the first keeps ceil(n/2) nodes and the second gets floor(n/2) |
| SupportLists.MergeSupportListsAsWritten | src/activities_container_support_list.c:98-124 | as written: the result draws from the two inputs and never has more nodes than both together (elements may be lost); it is empty exactly when A is |
| SupportLists.MergeSupportLists | src/activities_container_support_list.c:98-124 | corrected: the result is a permutation of A followed by B, and it starts with the head of one of them |
| SupportLists.MergeAsWrittenDropsRecords | src/activities_container_support_list.c:99-117 | under criterion 10, `[x]` merged with `[y]`, where x has the lower completion percentage, gives `[x]` as written and `[x, y]` corrected |
| SupportLists.MergeAsWrittenIsPrefix | src/activities_container_support_list.c:98-124 | the merge as written is a prefix of the corrected merge: the same until A runs out, then cut short |
| SupportLists.MergeAsWrittenAllTies | src/activities_container_support_list.c:99-123 | when every pair ties and A is not empty, B runs out first, so the line-99 guard never fires and the merge as written is B followed by A |
| SupportLists.MergeAsWrittenSorted | src/activities_container_support_list.c:98-124 | as written, merging two sorted lists under a consistent comparator still gives a sorted list |
| SupportLists.MergeSorted | src/activities_container_support_list.c:105-123 | merging two sorted lists with a consistent comparator gives a sorted list |
| SupportLists.MergeAllTies | src/activities_container_support_list.c:115-123 | when every pair ties, B's head is always taken first, so the merge is B followed by A |
| SupportLists.Reversed | src/activities_container_support_list.c:127-141 | the element at position i is the input's element at position n-1-i |
| SupportLists.ReversedAppend | src/activities_container_support_list.c:127-141 | reversing `a + b` gives reversed b followed by reversed a |
| SupportLists.MergeSortSupportList | src/activities_container_support_list.c:127-141 | corrected: over the corrected merge, the result is a permutation of the input; it is sorted under a consistent comparator; lists of at most one node come back as they were; when every pair ties, the list is reversed |
| SupportLists.MergeSortSupportListAsWritten | src/activities_container_support_list.c:127-141 | as written: the result draws from the input (records may be lost) and is sorted under a consistent comparator; lists of at most one node come back as they were; a non-empty list stays non-empty; a two-node list becomes the merge of its nodes; when every pair ties, nothing is lost and the list is reversed |
| SupportLists.SortPairByPercentAsWritten | src/activities_container_support_list.c:99-141 | as written, sorting `[x, y]` by completion percentage, where x has the lower one, returns `[x]`: y is lost |
| SupportLists.ByCriterionAntisymmetric | src/activities_container_support_list.c:144-148 | the comparator of every criterion is consistent, so the sort's sortedness promise applies to it |
| SupportLists.ByCriterionFixedAntisymmetric | src/activities_container_support_list.c:144-148 | corrected: the same for the corrected dispatcher |
| SupportLists.DateCriteriaTie | src/activity_helper.c:747-753 | under criteria 4, 5 and 6 as written, any two records of a list tie |
| SupportLists.SortSupportList | src/activities_container_support_list.c:144-148 | as written: nothing changes on an empty or missing list; otherwise the list keeps only references it had (some may be lost), is non-empty if it was, and is sorted under the criterion; one node stays as it is; under criteria 4-6 a list of records is reversed |
| SupportLists.SortSupportListFixed | src/activities_container_support_list.c:144-148 | corrected: nothing changes on an empty or missing list; otherwise the same references are reordered, sorted under the corrected criterion |
| ContainerHelper.GetActivityWithIdForTest | src/activities_container_helper.c:22-32 | a record of the index with that id; on an ordered index NULL comes back exactly when no record has the id |
| ContainerHelper.ReportListOf | src/activities_container_helper.c:318-330 | a completed record goes to the completed list only when completed after the period start, and otherwise to no list; an open record goes to expired if `0 < expiry < now`, else to yet-to-begin if no minute is used, else to ongoing |
| ContainerHelper.StagedMembers | src/activities_container_helper.c:313-334 | a list receives exactly the tree's records that are routed to it, and nothing else |
| ContainerHelper.StagedDescending | src/activities_container_helper.c:313-334 | on an ordered tree each list holds its records in strictly descending id order before sorting |
| ContainerHelper.RouteActivity | src/activities_container_helper.c:318-330 | the visited record is pushed onto the head of its list and onto no other list |
| ContainerHelper.BuildInOrderSupportListsForActivitiesReport | src/activities_container_helper.c:313-334 | each list becomes its staged records (the in-order walk's pushes) in front of what it held before |
| ContainerHelper.StageActivitiesReport | src/activities_container_helper.c:371-380 | as written: the completed, yet-to-begin and expired lists are their staged records reversed; the ongoing list keeps only staged records, is sorted by completion percentage, and is non-empty when records were staged for it |
| ContainerHelper.StageActivitiesReportFixed | src/activities_container_helper.c:371-380 | corrected: the four lists hold exactly the staged records, sorted by criteria 6, 4, 10 and 5 respectively |
| ContainerHelper.StagedReversedAscending | src/activities_container_helper.c:313-334 | on an ordered tree a staged list, reversed, has strictly ascending ids |
| ContainerHelper.SortStagedByDateAsWritten | src/activities_container_helper.c:377-380 | with the sort and the date criteria as written, a staged list comes back reversed, so its records are in ascending id order whatever their dates |

## Left out

- Node identity and relinking. The tree and the worklists are values. `insertNode`, `deleteNode` and the rotations return the new subtree just as the C does, but the model does not capture which struct is reused, pointer aliasing between nodes, or the `*root = *temp` overwrite as a memory operation.
- The worklist node chain is a sequence field of the list object. `splitSupportList`'s truncation and `mergeSupportLists`' `next` rewiring appear as the resulting sequences.
- Records are values, so the setters return the updated record rather than mutating the caller's struct. The same holds for `insertActivity`'s write-back of the id, which is returned as `activityAfter`.
- AvlTree.InsertNode takes a record rather than a possibly NULL pointer. The only caller, `insertActivity`, has already returned on NULL, and `createNode(NULL)` is modelled by AvlTree.CreateNode.
- `malloc` failure is not modelled. Allocation always succeeds, so `newSupportList`, `newActivityContainer` and `newActivity` never return NULL for lack of memory.
- The duplicate activity that `insertNode` leaks, and `free` in general, are left out. AvlTree.DeleteSubtree and SupportLists.DeleteSupportList report what would be freed.
- The search of src/activities_container_helper.c:8-20 is the same descent as the tree's own `search`, so it is modelled once, as AvlTree.Search.
- `getRootNode` is not part of this model. ContainerHelper.GetRootNode assumes it gives the tree of a container, or NULL without one.
- The older tree code in src/activities_container.c is not modelled. This covers its broken `search` and its duplicate rotation, insert and delete code. `insertActivity` there calls that file's own `insertNode`, which is modelled by the AVL file's version.
- `time(NULL)`, `localtime`, `strftime` and `mktime` depend on the host clock and time zone. "now", the period start and mktime are parameters.
- Printing, menus, file loading and saving, and the `fgets` part of `readLine` are left out. They are console and stream I/O with nothing to state.
- ActivityHelper.ActivityCompletionPercentage: `usedTime * 100` is computed in unsigned 32-bit arithmetic and wraps above 42949672 minutes. The model uses unbounded integers.
- Ids and dates are unbounded integers. The overflow of `getActivityId(activity) + 1` at `INT_MAX` is not modelled.
- SupportLists.MergeSortSupportList, SupportLists.SortSupportListFixed and ContainerHelper.StageActivitiesReportFixed describe the corrected program, with the line-99 guard and the date comparators fixed. The program as written is SupportLists.MergeSortSupportListAsWritten, SupportLists.SortSupportList and ContainerHelper.StageActivitiesReport.
- SupportLists.SortSupportList and ContainerHelper.StageActivitiesReport: for the ongoing list the model states that only staged records survive, sorted, and that the list does not become empty. It does not say which records the merge as written drops beyond the two-record case of SupportLists.SortPairByPercentAsWritten.
- The conflicting declaration and definition of `sortSupportList` are not modelled as such; the integer criterion of the header and of the callers is used.
- SupportLists.MergeSortSupportList promises "sorted" as neighbouring pairs in order. Reading it as every pair in order needs a transitive comparator, which is not proved for the twelve criteria.
- SupportLists.DoActionOnSupportListActivities: the action's side effect (printing) is its returned value, collected per reference.

## Findings

| source | as written | input that shows it | evidently intended | confidence | as-written member | corrected member |
|---|---|---|---|---|---|---|
| src/activity_helper.c:420-421 | `compareActivityByInsertDate` reads both insert dates from `a` | records inserted at 1 and at 2: the answer is 0 | compare the date of `a` with the date of `b` (-1 here), as the comment at lines 406-408 says | high; not executed | ActivityHelper.DateComparatorsIgnoreSecondOperand | ActivityHelper.CompareActivityByInsertDateFixed |
| src/activity_helper.c:455-456 | `compareActivityByExpiryDate` reads both expiry dates from `a` | records expiring at 1 and at 2: the answer is 0 | the expiry date of `a` against that of `b` (-1 here) | high; not executed | ActivityHelper.DateComparatorsIgnoreSecondOperand | ActivityHelper.CompareActivityByExpiryDateFixed |
| src/activity_helper.c:490-491 | `compareActivityByCompletionDate` reads both completion dates from `a` | records completed at 1 and at 2: the answer is 0 | the completion date of `a` against that of `b` (-1 here) | high; not executed | ActivityHelper.DateComparatorsIgnoreSecondOperand | ActivityHelper.CompareActivityByCompletionDateFixed |
| src/activities_container_support_list.c:99 | `listA == NULL && listA == NULL` returns NULL as soon as A is empty, dropping the rest of B | under criterion 10, `[x]` merged with `[y]` where x has the lower completion percentage gives `[x]`; so sorting `[x, y]` loses y | return NULL only when both lists are empty, and B when only A is | high; not executed | SupportLists.SortPairByPercentAsWritten | SupportLists.MergeSupportLists |

Consequences:

- The report sorts with criteria 6, 4 and 5 (src/activities_container_helper.c:377-380). With the date comparators as written, every pair of records ties. The merge then always takes the second half first, and the sort reverses the staged list. The completed, yet-to-begin and expired lists therefore come out in ascending id order rather than by date. This is proved as ContainerHelper.StageActivitiesReport, ContainerHelper.SortStagedByDateAsWritten and ContainerHelper.StagedReversedAscending.
- In that all-ties case the merge guard never drops anything, because B is always exhausted first (SupportLists.MergeAsWrittenAllTies).
- The ongoing list is sorted by criterion 10, which orders records strictly. As written, a two-record ongoing list whose first record has the lower completion percentage loses the second record (SupportLists.SortPairByPercentAsWritten). What survives is still sorted (SupportLists.MergeAsWrittenSorted).
