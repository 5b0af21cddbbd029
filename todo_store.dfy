/** The to-do store: the page's `todoArray` and `todoCounter`, and the five
    handlers that change them. Answers to confirmation dialogs and clock
    readings are passed in as parameters. */
module TodoStore {
  import opened TodoItem
  import opened TodoList

  datatype Option<T> = None | Some(value: T)

  /** What a bulk operation (`clearCompleted`, `completeAll`) reported:
      nothing to do, the user declined the confirmation, or it was applied.
      The count is the one shown in the dialog and in the notification. */
  datatype BulkOutcome = NothingToDo | Declined(count: nat) | Applied(count: nat)

  /** Every id in the list has been handed out. */
  ghost predicate IdsIssued(s: seq<Todo>, issued: set<nat>) {
    forall i :: 0 <= i < |s| ==> s[i].id in issued
  }

  /** Every id handed out lies between 1 and the counter. */
  ghost predicate IssuedUpTo(issued: set<nat>, counter: nat) {
    forall id :: id in issued ==> 1 <= id <= counter
  }

  class Store {
    /** `todoArray` */
    var todos: seq<Todo>
    /** `todoCounter`: the last id handed out */
    var counter: nat
    /** Every id handed out so far, including those of deleted entries. */
    ghost var issued: set<nat>

    ghost predicate Valid()
      reads this
    {
      && WellFormed(todos, counter)
      && IdsIssued(todos, issued)
      && IssuedUpTo(issued, counter)
    }

    /** The state at page load: an empty array and a counter at zero. */
    constructor ()
      ensures Valid()
      ensures todos == [] && counter == 0 && issued == {}
    {
      todos := [];
      counter := 0;
      issued := {};
    }

    /** `todoList`: trims the input; refuses it when empty or over 100
        characters, leaving everything as it was; otherwise appends one new
        entry whose id is the pre-incremented counter, an id never issued
        before. */
    method Add(input: string, createdAt: nat) returns (r: Result<Todo, TextError>)
      requires Valid()
      modifies this
      ensures Valid()
      ensures CheckText(input).Err? ==>
        && r == Err(CheckText(input).error)
        && todos == old(todos) && counter == old(counter) && issued == old(issued)
      ensures CheckText(input).Ok? ==>
        && r == Ok(NewTodo(old(counter), CheckText(input).value, createdAt))
        && todos == old(todos) + [r.value]
        && counter == old(counter) + 1
        && r.value.id !in old(issued)
        && issued == old(issued) + {r.value.id}
    {
      var checked := CheckText(input);
      if checked.Err? {
        return Err(checked.error);
      }
      var item := NewTodo(counter, checked.value, createdAt);
      AppendKeepsWellFormed(todos, counter, checked.value, createdAt);
      assert item.id !in issued;
      ghost var before := todos;
      counter := counter + 1;
      todos := todos + [item];
      issued := issued + {item.id};
      forall i | 0 <= i < |todos| ensures todos[i].id in issued {
        if i < |before| { assert todos[i] == before[i]; }
      }
      r := Ok(item);
    }

    /** `toggleTodo(index)`: flips the completed flag of the entry at
        `index`; an index outside the array does nothing. */
    method Toggle(index: int)
      requires Valid()
      modifies this
      ensures Valid()
      ensures todos == (if 0 <= index < |old(todos)| then ToggleAt(old(todos), index) else old(todos))
      ensures counter == old(counter) && issued == old(issued)
    {
      if 0 <= index < |todos| {
        ToggleKeepsWellFormed(todos, counter, index);
        todos := ToggleAt(todos, index);
      }
    }

    /** `deleteTodo(index)`: when `index` is inside the array and the user
        confirms, removes that entry and returns it; otherwise changes
        nothing. The counter is left alone, so the id is never reused. */
    method Delete(index: int, confirmed: bool) returns (removed: Option<Todo>)
      requires Valid()
      modifies this
      ensures Valid()
      ensures 0 <= index < |old(todos)| && confirmed ==>
        && removed == Some(old(todos)[index])
        && todos == RemoveAt(old(todos), index)
      ensures !(0 <= index < |old(todos)| && confirmed) ==>
        removed == None && todos == old(todos)
      ensures counter == old(counter) && issued == old(issued)
    {
      removed := None;
      if 0 <= index < |todos| && confirmed {
        removed := Some(todos[index]);
        RemoveKeepsWellFormed(todos, counter, index);
        todos := RemoveAt(todos, index);
      }
    }

    /** `clearCompleted`: with no completed entry, reports that and changes
        nothing; otherwise asks, and on confirmation keeps only the pending
        entries, in their order. */
    method ClearCompleted(confirmed: bool) returns (outcome: BulkOutcome)
      requires Valid()
      modifies this
      ensures Valid()
      ensures |Done(old(todos))| == 0 ==> outcome == NothingToDo && todos == old(todos)
      ensures |Done(old(todos))| > 0 && !confirmed ==>
        outcome == Declined(|Done(old(todos))|) && todos == old(todos)
      ensures |Done(old(todos))| > 0 && confirmed ==>
        && outcome == Applied(|Done(old(todos))|)
        && todos == Pending(old(todos))
        && outcome.count == |old(todos)| - |todos|
      ensures counter == old(counter) && issued == old(issued)
    {
      var completedCount := |Done(todos)|;
      if completedCount == 0 {
        NoneDoneMeansAllPending(todos);
        return NothingToDo;
      }
      if !confirmed {
        return Declined(completedCount);
      }
      PartitionSizes(todos);
      ClearKeepsWellFormed(todos, counter);
      ghost var before := todos;
      todos := Pending(todos);
      PendingMembers(before);
      forall i | 0 <= i < |todos| ensures todos[i].id in issued {
        assert todos[i] in Pending(before);
        var k :| 0 <= k < |before| && before[k] == todos[i];
      }
      outcome := Applied(completedCount);
    }

    /** `completeAll`: with no pending entry, reports that and changes
        nothing; otherwise asks, and on confirmation walks the array marking
        each entry completed. Ids, texts, times and order stay as they were. */
    method CompleteAll(confirmed: bool) returns (outcome: BulkOutcome)
      requires Valid()
      modifies this
      ensures Valid()
      ensures |Pending(old(todos))| == 0 ==> outcome == NothingToDo && todos == old(todos)
      ensures |Pending(old(todos))| > 0 && !confirmed ==>
        outcome == Declined(|Pending(old(todos))|) && todos == old(todos)
      ensures |Pending(old(todos))| > 0 && confirmed ==>
        outcome == Applied(|Pending(old(todos))|) && todos == MarkAllCompleted(old(todos))
      ensures counter == old(counter) && issued == old(issued)
    {
      var pendingCount := |Pending(todos)|;
      if pendingCount == 0 {
        NonePendingMeansMarkAllIsIdentity(todos);
        return NothingToDo;
      }
      if !confirmed {
        return Declined(pendingCount);
      }
      MarkAllKeepsWellFormed(todos, counter);
      ghost var before := todos;
      var i := 0;
      while i < |todos|
        invariant 0 <= i <= |todos| == |before|
        invariant forall k :: 0 <= k < i ==> todos[k] == before[k].(completed := true)
        invariant forall k :: i <= k < |todos| ==> todos[k] == before[k]
        invariant counter == old(counter) && issued == old(issued)
      {
        todos := todos[i := todos[i].(completed := true)];
        i := i + 1;
      }
      assert todos == MarkAllCompleted(before);
      outcome := Applied(pendingCount);
    }
  }
}
