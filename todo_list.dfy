/** The to-do list as a value: what each store operation does to the
    sequence of entries, the list invariant (ids strictly increasing in array
    order, never above the counter, every text acceptable), and the lemmas that
    each operation keeps it. */
module TodoList {
  import opened TodoItem

  /** Ids strictly increase along the array, so no id appears twice. */
  predicate IdsIncreasing(s: seq<Todo>) {
    forall i, j :: 0 <= i < j < |s| ==> s[i].id < s[j].id
  }

  /** The invariant of the list held next to the id counter `counter`. */
  predicate WellFormed(s: seq<Todo>, counter: nat) {
    && IdsIncreasing(s)
    && (forall i :: 0 <= i < |s| ==> 1 <= s[i].id <= counter)
    && (forall i :: 0 <= i < |s| ==> AcceptableText(s[i].text))
  }

  /** `todoArray[index].completed = !todoArray[index].completed` */
  function ToggleAt(s: seq<Todo>, index: nat): (r: seq<Todo>)
    requires index < |s|
    ensures |r| == |s|
    ensures r[index].completed == !s[index].completed
    ensures r[index] == s[index].(completed := r[index].completed)
    ensures forall i :: 0 <= i < |s| && i != index ==> r[i] == s[i]
  {
    s[index := s[index].(completed := !s[index].completed)]
  }

  /** `todoArray.splice(index, 1)`: the element at `index` goes, the others
      keep their order. */
  function RemoveAt(s: seq<Todo>, index: nat): (r: seq<Todo>)
    requires index < |s|
    ensures |r| == |s| - 1
    ensures forall i :: 0 <= i < index ==> r[i] == s[i]
    ensures forall i :: index <= i < |r| ==> r[i] == s[i + 1]
    ensures multiset(r) + multiset{s[index]} == multiset(s)
  {
    assert s == s[..index] + [s[index]] + s[index + 1..];
    s[..index] + s[index + 1..]
  }

  /** `todoArray.filter(t => !t.completed)` */
  function Pending(s: seq<Todo>): (r: seq<Todo>)
    ensures |r| <= |s|
    ensures forall i :: 0 <= i < |r| ==> !r[i].completed
  {
    if s == [] then []
    else if s[0].completed then Pending(s[1..])
    else [s[0]] + Pending(s[1..])
  }

  /** `todoArray.filter(t => t.completed)` */
  function Done(s: seq<Todo>): (r: seq<Todo>)
    ensures |r| <= |s|
    ensures forall i :: 0 <= i < |r| ==> r[i].completed
  {
    if s == [] then []
    else if s[0].completed then [s[0]] + Done(s[1..])
    else Done(s[1..])
  }

  /** The array after `forEach(todo => todo.completed = true)`. */
  function MarkAllCompleted(s: seq<Todo>): (r: seq<Todo>)
    ensures |r| == |s|
    ensures forall i :: 0 <= i < |s| ==> r[i] == s[i].(completed := true)
  {
    seq(|s|, i requires 0 <= i < |s| => s[i].(completed := true))
  }

  /** The entry `todoList` appends: the pre-incremented counter as its id,
      the trimmed text, not completed. */
  function NewTodo(counter: nat, text: string, createdAt: nat): (t: Todo)
    ensures t.id == counter + 1 && t.id > counter
    ensures t.text == text && !t.completed && t.createdAt == createdAt
  {
    Todo(counter + 1, text, false, createdAt)
  }

  /** The id `todoList` hands out is above every id already in a
      well-formed list. */
  lemma NewIdAboveList(s: seq<Todo>, counter: nat, text: string, createdAt: nat)
    requires WellFormed(s, counter)
    ensures forall i :: 0 <= i < |s| ==> s[i].id < NewTodo(counter, text, createdAt).id
  {
  }

  // ---------------------------------------------------------------------
  // What the filters keep

  /** The pending filter keeps exactly the entries that are not completed. */
  lemma {:induction false} PendingMembers(s: seq<Todo>)
    ensures forall t :: t in Pending(s) <==> t in s && !t.completed
  {
    if s != [] {
      PendingMembers(s[1..]);
      assert s == [s[0]] + s[1..];
    }
  }

  /** The completed filter keeps exactly the entries that are completed. */
  lemma {:induction false} DoneMembers(s: seq<Todo>)
    ensures forall t :: t in Done(s) <==> t in s && t.completed
  {
    if s != [] {
      DoneMembers(s[1..]);
      assert s == [s[0]] + s[1..];
    }
  }

  // ---------------------------------------------------------------------
  // Counting: every entry is either pending or completed.

  lemma {:induction false} PartitionSizes(s: seq<Todo>)
    ensures |Pending(s)| + |Done(s)| == |s|
    ensures multiset(Pending(s)) + multiset(Done(s)) == multiset(s)
  {
    if s != [] {
      PartitionSizes(s[1..]);
      assert s == [s[0]] + s[1..];
    }
  }

  /** No entry left by the filter of `clearCompleted` is completed, so a
      second clear finds nothing to do. */
  lemma {:induction false} PendingHasNoneDone(s: seq<Todo>)
    ensures Done(Pending(s)) == []
    ensures Pending(Pending(s)) == Pending(s)
  {
    if s != [] {
      PendingHasNoneDone(s[1..]);
      if !s[0].completed {
        assert ([s[0]] + Pending(s[1..]))[1..] == Pending(s[1..]);
      }
    }
  }

  /** After marking every entry completed, none is pending. */
  lemma {:induction false} MarkAllLeavesNonePending(s: seq<Todo>)
    ensures Pending(MarkAllCompleted(s)) == []
    ensures Done(MarkAllCompleted(s)) == MarkAllCompleted(s)
  {
    if s != [] {
      MarkAllLeavesNonePending(s[1..]);
      assert MarkAllCompleted(s)[1..] == MarkAllCompleted(s[1..]);
    }
  }

  /** With no completed entry, the filter of `clearCompleted` keeps them all. */
  lemma {:induction false} NoneDoneMeansAllPending(s: seq<Todo>)
    requires |Done(s)| == 0
    ensures Pending(s) == s
  {
    if s != [] {
      DoneMembers(s);
      assert s[0] !in Done(s);
      NoneDoneMeansAllPending(s[1..]);
      assert s == [s[0]] + s[1..];
    }
  }

  /** With no pending entry, marking all completed changes nothing. */
  lemma NonePendingMeansMarkAllIsIdentity(s: seq<Todo>)
    requires |Pending(s)| == 0
    ensures MarkAllCompleted(s) == s
  {
    PendingMembers(s);
    forall i | 0 <= i < |s| ensures s[i].completed {
      assert s[i] in s;
    }
  }

  // ---------------------------------------------------------------------
  // Order: the filters keep the entries in their array order.

  /** Every id in `s` is above `id`. */
  predicate IdsAbove(id: nat, s: seq<Todo>) {
    forall k :: 0 <= k < |s| ==> id < s[k].id
  }

  lemma PendingKeepsIdsAbove(id: nat, s: seq<Todo>)
    requires IdsAbove(id, s)
    ensures IdsAbove(id, Pending(s))
  {
    var r := Pending(s);
    PendingMembers(s);
    forall k | 0 <= k < |r| ensures id < r[k].id {
      assert r[k] in r;
      assert r[k] in s;
    }
  }

  lemma {:induction false} PendingKeepsOrder(s: seq<Todo>)
    requires IdsIncreasing(s)
    ensures IdsIncreasing(Pending(s))
  {
    if s != [] {
      var tail := s[1..];
      PendingKeepsOrder(tail);
      if !s[0].completed {
        assert IdsAbove(s[0].id, tail);
        PendingKeepsIdsAbove(s[0].id, tail);
        var r := Pending(s);
        assert r == [s[0]] + Pending(tail);
        forall i, j | 0 <= i < j < |r| ensures r[i].id < r[j].id {
          assert r[j] == Pending(tail)[j - 1];
          if i > 0 {
            assert r[i] == Pending(tail)[i - 1];
          }
        }
      }
    }
  }

  // ---------------------------------------------------------------------
  // Every store operation keeps the invariant.

  lemma AppendKeepsWellFormed(s: seq<Todo>, counter: nat, text: string, createdAt: nat)
    requires WellFormed(s, counter)
    requires AcceptableText(text)
    ensures WellFormed(s + [NewTodo(counter, text, createdAt)], counter + 1)
  {
  }

  lemma ToggleKeepsWellFormed(s: seq<Todo>, counter: nat, index: nat)
    requires WellFormed(s, counter) && index < |s|
    ensures WellFormed(ToggleAt(s, index), counter)
  {
  }

  lemma RemoveKeepsWellFormed(s: seq<Todo>, counter: nat, index: nat)
    requires WellFormed(s, counter) && index < |s|
    ensures WellFormed(RemoveAt(s, index), counter)
  {
    var r := RemoveAt(s, index);
    forall i, j | 0 <= i < j < |r| ensures r[i].id < r[j].id {
      var i' := if i < index then i else i + 1;
      var j' := if j < index then j else j + 1;
      assert r[i] == s[i'] && r[j] == s[j'];
    }
  }

  lemma ClearKeepsWellFormed(s: seq<Todo>, counter: nat)
    requires WellFormed(s, counter)
    ensures WellFormed(Pending(s), counter)
  {
    PendingKeepsOrder(s);
    PendingMembers(s);
    var r := Pending(s);
    forall i | 0 <= i < |r| ensures 1 <= r[i].id <= counter && AcceptableText(r[i].text) {
      assert r[i] in r;
    }
  }

  lemma MarkAllKeepsWellFormed(s: seq<Todo>, counter: nat)
    requires WellFormed(s, counter)
    ensures WellFormed(MarkAllCompleted(s), counter)
  {
  }

  /** Toggling the same entry twice restores the list. */
  lemma ToggleTwiceRestores(s: seq<Todo>, index: nat)
    requires index < |s|
    ensures ToggleAt(ToggleAt(s, index), index) == s
  {
  }
}
