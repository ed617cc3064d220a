/**
 * The activity container of src/activities_container.c: the AVL index together with the
 * counter that hands out ids.
 */
module Container {
  import opened Wrappers
  import opened Activities
  import opened AvlTree

  /** `struct containerItem` (src/activities_container.c:18-21). */
  class ActivitiesContainer {
    var avlTree: Tree
    var nextId: int

    /** The index is an AVL tree in strict id order. */
    ghost predicate Valid()
      reads this
    {
      IsAvl(avlTree) && Ordered(avlTree)
    }

    /** `newActivityContainer`: an empty index whose first automatic id is 1. */
    constructor ()
      ensures avlTree == Nil && nextId == 1 && Valid()
    {
      avlTree := Nil;
      nextId := 1;
    }
  }

  /** The id a record is stored under: 0 asks for the counter's value when the counter is positive. */
  function AssignedId(requestedId: int, nextId: int): (id: int)
    ensures requestedId != 0 ==> id == requestedId
    ensures requestedId == 0 && nextId > 0 ==> id == nextId
    ensures requestedId == 0 && nextId <= 0 ==> id == 0
  {
    if requestedId == 0 && requestedId < nextId then nextId else requestedId
  }

  /**
   * `insertActivity`. NULL changes nothing. A NULL container is replaced by a fresh one, and an
   * empty index restarts the counter at 1, before the id is assigned. The record is inserted
   * under its (possibly assigned) id, and the counter becomes that id + 1 in every case, also
   * when the id was already taken and the index did not change. `activityAfter` is the caller's
   * record after `setActivityId`.
   */
  method InsertActivity(container: ActivitiesContainer?, activity: Activity)
    returns (result: ActivitiesContainer?, activityAfter: Activity)
    requires container != null ==> container.Valid()
    modifies container
    ensures activity.None? ==>
      result == container && activityAfter == activity
      && (container != null ==> container.avlTree == old(container.avlTree) && container.nextId == old(container.nextId))
    ensures activity.Some? ==>
      && result != null && result.Valid()
      && (container == null ==> fresh(result))
      && (container != null ==> result == container)
      && var emptyBefore := container == null || old(container.avlTree).Nil?;
         var before := if container == null then Nil else old(container.avlTree);
         var id := AssignedId(activity.value.id, if emptyBefore then 1 else old(container.nextId));
         && activityAfter == Some(activity.value.(id := id))
         && result.nextId == id + 1
         && result.avlTree == (if emptyBefore then CreateNode(activityAfter) else InsertNode(before, activityAfter.value))
         && (FreshId(before, id) ==> Elements(result.avlTree) == Elements(before) + {activityAfter.value})
         && (!FreshId(before, id) ==> result.avlTree == before)
         && Elements(before) <= Elements(result.avlTree) && result.avlTree.Node?
  {
    if activity.None? {
      return container, activity;
    }
    var currentActivityId := GetActivityId(activity);
    if container == null {
      var tree := new ActivitiesContainer();
      activityAfter := activity;
      if currentActivityId == 0 && currentActivityId < tree.nextId {
        activityAfter := SetActivityId(activity, tree.nextId);
      }
      tree.avlTree := CreateNode(activityAfter);
      tree.nextId := GetActivityId(activityAfter) + 1;
      return tree, activityAfter;
    } else if container.avlTree.Nil? {
      container.nextId := 1;
      activityAfter := activity;
      if currentActivityId == 0 && currentActivityId < container.nextId {
        activityAfter := SetActivityId(activity, container.nextId);
      }
      container.avlTree := CreateNode(activityAfter);
      container.nextId := GetActivityId(activityAfter) + 1;
      return container, activityAfter;
    }
    activityAfter := activity;
    if currentActivityId == 0 && currentActivityId < container.nextId {
      activityAfter := SetActivityId(activity, container.nextId);
    }
    var before := container.avlTree;
    container.avlTree := InsertNode(container.avlTree, activityAfter.value);
    container.nextId := GetActivityId(activityAfter) + 1;
    if !FreshId(before, activityAfter.value.id) {
      var x :| x in Elements(before) && x.id == activityAfter.value.id;
      InsertNodeDuplicate(before, activityAfter.value, x);
    }
    result := container;
  }

  /**
   * `removeActivity`: deletes the record with the id, if any, and never touches the counter.
   * A NULL container or an empty index is left as it is.
   */
  method RemoveActivity(container: ActivitiesContainer?, activityId: int) returns (result: ActivitiesContainer?)
    requires container != null ==> container.Valid()
    modifies container
    ensures result == container
    ensures container != null ==>
      && container.Valid()
      && container.nextId == old(container.nextId)
      && container.avlTree == DeleteNode(old(container.avlTree), activityId)
      && Elements(container.avlTree) == Without(Elements(old(container.avlTree)), activityId)
  {
    if container == null || container.avlTree.Nil? {
      return container;
    }
    container.avlTree := DeleteNode(container.avlTree, activityId);
    return container;
  }

  /** The ids of the records held in a tree. */
  ghost function Keys(t: Tree): set<int> {
    set x | x in Elements(t) :: x.id
  }

  /**
   * Four automatic ids into a fresh container are 1, 2, 3, 4; removing 2 keeps the counter at 5,
   * so the next automatic id is 5 and not the freed 2.
   */
  method AutoIdScenario(blank: Record) returns (ids: seq<int>, nextAfterRemove: int)
    requires blank.id == 0
    ensures ids == [1, 2, 3, 4, 5]
    ensures nextAfterRemove == 5
  {
    var c := new ActivitiesContainer();
    var r, a1 := InsertActivity(c, Some(blank));
    assert a1.value in Elements(c.avlTree);
    var a2, a3, a4, a5;
    r, a2 := InsertActivity(c, Some(blank));
    assert a1.value in Elements(c.avlTree);
    r, a3 := InsertActivity(c, Some(blank));
    assert a1.value in Elements(c.avlTree);
    r, a4 := InsertActivity(c, Some(blank));
    assert a1.value in Elements(c.avlTree);
    r := RemoveActivity(c, 2);
    assert a1.value in Elements(c.avlTree);
    nextAfterRemove := c.nextId;
    r, a5 := InsertActivity(c, Some(blank));
    ids := [a1.value.id, a2.value.id, a3.value.id, a4.value.id, a5.value.id];
  }

  /** Once every record is removed the counter restarts: the next automatic id is 1 again. */
  method EmptiedRestartScenario(blank: Record) returns (idAfterEmptied: int)
    requires blank.id == 0
    ensures idAfterEmptied == 1
  {
    var d := new ActivitiesContainer();
    var r, b1 := InsertActivity(d, Some(blank));
    var b2, b3;
    r, b2 := InsertActivity(d, Some(blank));
    r := RemoveActivity(d, 1);
    r := RemoveActivity(d, 2);
    assert Elements(d.avlTree) == {};
    r, b3 := InsertActivity(d, Some(blank));
    idAfterEmptied := b3.value.id;
  }
}
