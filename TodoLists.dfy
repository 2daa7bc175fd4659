/** The to-do list screen's state and its transitions, as values: the list of items with the
    id counter, what adding, toggling and deleting make of them, and how the list is split
    into the "Items" and "Completed Items" sections. */
module TodoLists {
  import opened TodoItems
  import opened Lists

  /** The screen's remembered state: the items in the order they were added and the id the
      next added item receives. */
  datatype TodoState = TodoState(items: seq<TodoItem>, nextId: int)

  /** The state when the screen is first shown. */
  const Initial := TodoState([], 1)

  predicate HasId(items: seq<TodoItem>, id: int)
  {
    exists i :: 0 <= i < |items| && items[i].id == id
  }

  /** No two items share an id; the rows of both sections are keyed by it. */
  predicate IdsUnique(items: seq<TodoItem>)
  {
    forall i, j :: 0 <= i < j < |items| ==> items[i].id != items[j].id
  }

  /** The state invariant: ids are unique, and every id was handed out by the counter,
      which starts at 1. */
  predicate Valid(s: TodoState)
  {
    && 1 <= s.nextId
    && IdsUnique(s.items)
    && forall i :: 0 <= i < |s.items| ==> 1 <= s.items[i].id < s.nextId
  }

  lemma InitialIsValid()
    ensures Valid(Initial) && Initial.items == [] && Initial.nextId == 1
  {
  }

  /** Two items of a list with unique ids that have the same id are the same item. */
  lemma SameIdSameItem(items: seq<TodoItem>, x: TodoItem, y: TodoItem)
    requires IdsUnique(items) && x in items && y in items && x.id == y.id
    ensures x == y
  {
  }

  /** With unique ids, nothing kept from the tail of a list shares the id of its head. */
  lemma TailAvoidsHeadId(items: seq<TodoItem>, keep: TodoItem -> bool)
    requires IdsUnique(items) && items != []
    ensures forall x :: x in Filter(items[1..], keep) ==> x.id != items[0].id
  {
    forall x | x in Filter(items[1..], keep)
      ensures x.id != items[0].id
    {
      var m :| 0 <= m < |items[1..]| && items[1..][m] == x;
      assert items[m + 1] == x;
    }
  }

  /** Putting an item with a fresh id in front of a list with unique ids keeps them unique. */
  lemma ConsKeepsIdsUnique(x: TodoItem, rest: seq<TodoItem>)
    requires IdsUnique(rest) && forall y :: y in rest ==> y.id != x.id
    ensures IdsUnique([x] + rest)
  {
    var r := [x] + rest;
    forall i, j | 0 <= i < j < |r|
      ensures r[i].id != r[j].id
    {
      assert r[j] == rest[j - 1] && r[j] in rest;
      if 0 < i {
        assert r[i] == rest[i - 1];
      }
    }
  }

  /** Keeping some of the items of a list with unique ids keeps the ids unique. */
  lemma {:induction false} FilterKeepsIdsUnique(items: seq<TodoItem>, keep: TodoItem -> bool)
    requires IdsUnique(items)
    ensures IdsUnique(Filter(items, keep))
  {
    if items != [] {
      var rest := items[1..];
      assert IdsUnique(rest);
      FilterKeepsIdsUnique(rest, keep);
      var kept := Filter(rest, keep);
      if keep(items[0]) {
        assert Filter(items, keep) == [items[0]] + kept;
        TailAvoidsHeadId(items, keep);
        ConsKeepsIdsUnique(items[0], kept);
      } else {
        assert Filter(items, keep) == [] + kept;
      }
    }
  }

  // ---------------------------------------------------------------------------------------
  // Adding

  /** Appends a new, active item carrying the counter's id, and advances the counter. */
  function Add(s: TodoState, text: string): (r: TodoState)
    ensures |r.items| == |s.items| + 1 && r.items[..|s.items|] == s.items
    ensures r.items[|s.items|] == TodoItem(s.nextId, text, false)
    ensures r.nextId == s.nextId + 1
    ensures Valid(s) ==> Valid(r) && !HasId(s.items, s.nextId)
  {
    TodoState(s.items + [TodoItem(s.nextId, text)], s.nextId + 1)
  }

  // ---------------------------------------------------------------------------------------
  // Toggling

  /** The update applied to each item when the box of the item `id` is (un)checked. */
  function SetCompletedIfId(id: int, isChecked: bool): TodoItem -> TodoItem
  {
    (item: TodoItem) => if item.id == id then item.(isCompleted := isChecked) else item
  }

  /** The list after the box of the item `id` is set to `isChecked`: every position keeps its
      id and text, only the items with that id take the new flag, and a missing id changes
      nothing. */
  function Toggled(items: seq<TodoItem>, id: int, isChecked: bool): (r: seq<TodoItem>)
    ensures |r| == |items|
    ensures forall i :: 0 <= i < |items| ==> r[i].id == items[i].id && r[i].text == items[i].text
    ensures forall i :: 0 <= i < |items| ==>
      r[i].isCompleted == (if items[i].id == id then isChecked else items[i].isCompleted)
    ensures !HasId(items, id) ==> r == items
  {
    Map(items, SetCompletedIfId(id, isChecked))
  }

  function Toggle(s: TodoState, id: int, isChecked: bool): (r: TodoState)
    ensures r.nextId == s.nextId && |r.items| == |s.items|
    ensures Valid(s) ==> Valid(r)
  {
    s.(items := Toggled(s.items, id, isChecked))
  }

  /** The last toggle of an id decides its items' flag. */
  lemma ToggleOverrides(items: seq<TodoItem>, id: int, first: bool, second: bool)
    ensures Toggled(Toggled(items, id, first), id, second) == Toggled(items, id, second)
  {
  }

  /** Toggling an id twice with the same value is toggling it once. */
  lemma ToggleIdempotent(items: seq<TodoItem>, id: int, isChecked: bool)
    ensures Toggled(Toggled(items, id, isChecked), id, isChecked) == Toggled(items, id, isChecked)
  {
    ToggleOverrides(items, id, isChecked, isChecked);
  }

  /** Setting the flag the items with that id already have changes nothing. */
  lemma ToggleToCurrentIsIdentity(items: seq<TodoItem>, id: int, isChecked: bool)
    requires forall i :: 0 <= i < |items| && items[i].id == id ==> items[i].isCompleted == isChecked
    ensures Toggled(items, id, isChecked) == items
  {
  }

  /** Checking and then unchecking an active item gives back the original list. */
  lemma CheckThenUncheckRestores(items: seq<TodoItem>, id: int)
    requires forall i :: 0 <= i < |items| && items[i].id == id ==> !items[i].isCompleted
    ensures Toggled(Toggled(items, id, true), id, false) == items
  {
  }

  // ---------------------------------------------------------------------------------------
  // Deleting

  function OtherThan(id: int): TodoItem -> bool
  {
    (item: TodoItem) => item.id != id
  }

  /** The list after the item `id` is deleted: exactly the items with another id stay, a
      missing id changes nothing, and unique ids stay unique. */
  function WithoutId(items: seq<TodoItem>, id: int): (r: seq<TodoItem>)
    ensures forall x :: x in r <==> x in items && x.id != id
    ensures !HasId(r, id)
    ensures !HasId(items, id) ==> r == items
    ensures IdsUnique(items) ==> IdsUnique(r)
  {
    var r := Filter(items, OtherThan(id));
    assert !HasId(items, id) ==> r == items by {
      if !HasId(items, id) {
        FilterKeepsAll(items, OtherThan(id));
      }
    }
    assert IdsUnique(items) ==> IdsUnique(r) by {
      if IdsUnique(items) {
        FilterKeepsIdsUnique(items, OtherThan(id));
      }
    }
    assert !HasId(r, id) by {
      forall i | 0 <= i < |r|
        ensures r[i].id != id
      {
        assert r[i] in r;
      }
    }
    r
  }

  function Delete(s: TodoState, id: int): (r: TodoState)
    ensures r.nextId == s.nextId && |r.items| <= |s.items|
    ensures Valid(s) ==> Valid(r)
  {
    var r := s.(items := WithoutId(s.items, id));
    assert Valid(s) ==> Valid(r) by {
      if Valid(s) {
        forall i | 0 <= i < |r.items|
          ensures 1 <= r.items[i].id < r.nextId
        {
          assert r.items[i] in s.items;
        }
      }
    }
    r
  }

  /** Deleting an id that is present removes that one item and keeps all the others, in
      their order. */
  lemma DeleteRemovesExactlyOne(items: seq<TodoItem>, k: nat)
    requires IdsUnique(items) && k < |items|
    ensures WithoutId(items, items[k].id) == items[..k] + items[k + 1..]
    ensures |WithoutId(items, items[k].id)| == |items| - 1
  {
    FilterDropsOne(items, OtherThan(items[k].id), k);
  }

  // ---------------------------------------------------------------------------------------
  // The two sections

  predicate IsActive(item: TodoItem)
  {
    !item.isCompleted
  }

  predicate IsCompleted(item: TodoItem)
  {
    item.isCompleted
  }

  /** The rows of the "Items" section: the items not yet completed. */
  function ActiveItems(items: seq<TodoItem>): (r: seq<TodoItem>)
    ensures forall x :: x in r <==> x in items && !x.isCompleted
  {
    Filter(items, IsActive)
  }

  /** The rows of the "Completed Items" section. */
  function CompletedItems(items: seq<TodoItem>): (r: seq<TodoItem>)
    ensures forall x :: x in r <==> x in items && x.isCompleted
  {
    Filter(items, IsCompleted)
  }

  /** Every item lands in exactly one of the two sections. */
  lemma PartitionSplits(items: seq<TodoItem>)
    ensures |ActiveItems(items)| + |CompletedItems(items)| == |items|
    ensures multiset(ActiveItems(items)) + multiset(CompletedItems(items)) == multiset(items)
  {
    FilterSplits(items, IsActive, IsCompleted);
  }

  /** Each section keeps the order of the list: the sections of a concatenation are the
      concatenations of the sections. */
  lemma PartitionKeepsOrder(a: seq<TodoItem>, b: seq<TodoItem>)
    ensures ActiveItems(a + b) == ActiveItems(a) + ActiveItems(b)
    ensures CompletedItems(a + b) == CompletedItems(a) + CompletedItems(b)
  {
    FilterAppend(a, b, IsActive);
    FilterAppend(a, b, IsCompleted);
  }

  const EmptyListMessage := "No active items. Add a task to get started!"

  /** What stands where the active rows go: the rows, or the empty-state message. */
  datatype ActiveSection = ActiveRows(rows: seq<TodoItem>) | EmptyState(message: string)

  /** The completed section is either absent (no heading at all) or shows its rows. */
  datatype CompletedSection = CompletedRows(rows: seq<TodoItem>) | NoCompletedSection

  datatype ListView = ListView(active: ActiveSection, completed: CompletedSection)

  /** The scrolling list built from the items. The empty-state message shows exactly when no
      item is active; the completed section shows exactly when some item is completed. */
  function Render(items: seq<TodoItem>): (v: ListView)
    ensures v.active.EmptyState? <==> forall i :: 0 <= i < |items| ==> items[i].isCompleted
    ensures v.active.ActiveRows? ==> v.active.rows == ActiveItems(items) && v.active.rows != []
    ensures v.active.EmptyState? ==> v.active.message == EmptyListMessage
    ensures v.completed.CompletedRows? <==> exists i :: 0 <= i < |items| && items[i].isCompleted
    ensures v.completed.CompletedRows? ==> v.completed.rows == CompletedItems(items)
  {
    var active := ActiveItems(items);
    var completed := CompletedItems(items);
    assert active == [] <==> forall i :: 0 <= i < |items| ==> items[i].isCompleted by {
      if active != [] {
        assert active[0] in active;
      }
      forall i | 0 <= i < |items| && active == []
        ensures items[i].isCompleted
      {
        assert items[i] !in active;
      }
    }
    assert completed != [] <==> exists i :: 0 <= i < |items| && items[i].isCompleted by {
      if completed != [] {
        assert completed[0] in completed;
      }
      if i :| 0 <= i < |items| && items[i].isCompleted {
        assert items[i] in completed;
      }
    }
    ListView(
      if active != [] then ActiveRows(active) else EmptyState(EmptyListMessage),
      if completed != [] then CompletedRows(completed) else NoCompletedSection)
  }

  /** The keyed rows of the list, top to bottom. */
  function Rows(v: ListView): seq<TodoItem>
  {
    (if v.active.ActiveRows? then v.active.rows else []) +
    (if v.completed.CompletedRows? then v.completed.rows else [])
  }

  /** Joining two lists with unique ids and no id in common keeps the ids unique. */
  lemma AppendKeepsIdsUnique(a: seq<TodoItem>, b: seq<TodoItem>)
    requires IdsUnique(a) && IdsUnique(b)
    requires forall x, y :: x in a && y in b ==> x.id != y.id
    ensures IdsUnique(a + b)
  {
    var r := a + b;
    forall i, j | 0 <= i < j < |r|
      ensures r[i].id != r[j].id
    {
      if j < |a| {
        assert r[i] == a[i] && r[j] == a[j];
      } else if |a| <= i {
        assert r[i] == b[i - |a|] && r[j] == b[j - |a|];
      } else {
        assert r[i] == a[i] && r[i] in a;
        assert r[j] == b[j - |a|] && r[j] in b;
      }
    }
  }

  /** No item is both active and completed, so with unique ids the two sections together
      still have unique ids. */
  lemma SectionIdsUnique(items: seq<TodoItem>)
    requires IdsUnique(items)
    ensures IdsUnique(ActiveItems(items) + CompletedItems(items))
  {
    var active, completed := ActiveItems(items), CompletedItems(items);
    FilterKeepsIdsUnique(items, IsActive);
    FilterKeepsIdsUnique(items, IsCompleted);
    forall x, y | x in active && y in completed
      ensures x.id != y.id
    {
      if x.id == y.id {
        SameIdSameItem(items, x, y);
      }
    }
    AppendKeepsIdsUnique(active, completed);
  }

  /** Rendering a valid state shows every item exactly once, and no two rows of the list
      share a key. */
  lemma RenderShowsEachItemOnce(s: TodoState)
    requires Valid(s)
    ensures multiset(Rows(Render(s.items))) == multiset(s.items)
    ensures IdsUnique(Rows(Render(s.items)))
  {
    var active, completed := ActiveItems(s.items), CompletedItems(s.items);
    assert Rows(Render(s.items)) == active + completed;
    PartitionSplits(s.items);
    SectionIdsUnique(s.items);
  }

  // ---------------------------------------------------------------------------------------
  // Sessions

  /** What the user can do to the list: add through the input, tick or untick a box, press
      an item's delete button. */
  datatype Event = ItemAdded(text: string) | CheckedChanged(id: int, isChecked: bool) | DeleteClicked(id: int)

  function Apply(s: TodoState, e: Event): TodoState
  {
    match e
    case ItemAdded(text) => Add(s, text)
    case CheckedChanged(id, isChecked) => Toggle(s, id, isChecked)
    case DeleteClicked(id) => Delete(s, id)
  }

  /** The state after the events, in order. */
  function Replay(s: TodoState, events: seq<Event>): TodoState
    decreases |events|
  {
    if events == [] then s else Replay(Apply(s, events[0]), events[1..])
  }

  /** Every sequence of events keeps the invariant, and the counter never goes down. */
  lemma {:induction false} ReplayKeepsValid(s: TodoState, events: seq<Event>)
    requires Valid(s)
    ensures Valid(Replay(s, events)) && s.nextId <= Replay(s, events).nextId
    decreases |events|
  {
    if events != [] {
      ReplayKeepsValid(Apply(s, events[0]), events[1..]);
    }
  }

  /** Every state the screen can reach from its initial state satisfies the invariant. */
  lemma ReachableStatesAreValid(events: seq<Event>)
    ensures Valid(Replay(Initial, events))
  {
    ReplayKeepsValid(Initial, events);
  }

  /** An id once handed out is never handed out again, whatever happens in between
      (deleting that item included). */
  lemma IdsNeverReused(s: TodoState, id: int, events: seq<Event>, text: string)
    requires Valid(s) && HasId(s.items, id)
    ensures var later := Replay(s, events); Add(later, text).items[|later.items|].id != id
  {
    ReplayKeepsValid(s, events);
  }

  // ---------------------------------------------------------------------------------------
  // The counter's width

  /** Kotlin's `Int` range. */
  const IntMinValue := -0x8000_0000
  const IntMaxValue := 0x7fff_ffff

  /** `x + 1` on a 32-bit two's-complement integer. */
  function IncrementInt(x: int): (r: int)
    requires IntMinValue <= x <= IntMaxValue
    ensures IntMinValue <= r <= IntMaxValue
    ensures (r - (x + 1)) % 0x1_0000_0000 == 0
  {
    if x == IntMaxValue then IntMinValue else x + 1
  }

  /** Adding as the screen does it, with the counter's `nextId++` on a 32-bit `Int`. */
  function AddInt32(s: TodoState, text: string): (r: TodoState)
    requires IntMinValue <= s.nextId <= IntMaxValue
    ensures r.items == Add(s, text).items
    ensures IntMinValue <= r.nextId <= IntMaxValue
  {
    TodoState(s.items + [TodoItem(s.nextId, text)], IncrementInt(s.nextId))
  }

  /** Below the largest `Int` the 32-bit counter and the unbounded one agree. */
  lemma AddInt32AgreesBelowMax(s: TodoState, text: string)
    requires IntMinValue <= s.nextId < IntMaxValue
    ensures AddInt32(s, text) == Add(s, text)
  {
  }

  /** Once the counter has reached the largest `Int`, the next add breaks the invariant:
      the counter wraps to the smallest `Int`, below the id just handed out. */
  lemma AddInt32BreaksInvariant()
    ensures var s := TodoState([], IntMaxValue); Valid(s) && !Valid(AddInt32(s, "a"))
  {
  }
}
