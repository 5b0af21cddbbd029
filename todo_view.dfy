/** What `displayTodos` computes before it builds any markup: the display
    order (a sorted copy of the array), the index each shown entry's buttons
    act on, and the dashboard counters. */
module TodoView {
  import opened TodoItem
  import opened TodoList

  // ---------------------------------------------------------------------
  // Display order

  /** `a` may be shown above `b`: pending entries come before completed ones,
      and within each group newer entries (larger `createdAt`) come first. */
  predicate ShownBefore(a: Todo, b: Todo) {
    || (!a.completed && b.completed)
    || (a.completed == b.completed && a.createdAt >= b.createdAt)
  }

  /** The comparator handed to `sort`. Negative means `a` goes first. */
  function Compare(a: Todo, b: Todo): (r: int)
    ensures r <= 0 <==> ShownBefore(a, b)
    ensures r >= 0 <==> ShownBefore(b, a)
  {
    if a.completed == b.completed then b.createdAt - a.createdAt
    else if a.completed then 1 else -1
  }

  /** The comparator is consistent, as `Array.prototype.sort` requires for a
      well-defined result: antisymmetric, total and transitive. */
  lemma CompareIsConsistent(a: Todo, b: Todo, c: Todo)
    ensures Compare(a, b) < 0 <==> Compare(b, a) > 0
    ensures Compare(a, b) == 0 <==> Compare(b, a) == 0
    ensures Compare(a, b) <= 0 && Compare(b, c) <= 0 ==> Compare(a, c) <= 0
  {
  }

  predicate Sorted(v: seq<Todo>) {
    forall i, j :: 0 <= i < j < |v| ==> ShownBefore(v[i], v[j])
  }

  /** Two entries the comparator cannot tell apart. */
  predicate SameKey(a: Todo, b: Todo) {
    a.completed == b.completed && a.createdAt == b.createdAt
  }

  /** Entries with the same key keep their array order, which in a list with
      increasing ids is increasing id order. */
  predicate TiesInIdOrder(v: seq<Todo>) {
    forall i, j :: 0 <= i < j < |v| && SameKey(v[i], v[j]) ==> v[i].id < v[j].id
  }

  /** Places `x` in front of the first entry it may be shown before. */
  function Insert(x: Todo, s: seq<Todo>): seq<Todo> {
    if s == [] then [x]
    else if Compare(x, s[0]) <= 0 then [x] + s
    else [s[0]] + Insert(x, s[1..])
  }

  lemma {:induction false} InsertPermutes(x: Todo, s: seq<Todo>)
    ensures multiset(Insert(x, s)) == multiset(s) + multiset{x}
  {
    if s == [] {
    } else if Compare(x, s[0]) <= 0 {
      assert Insert(x, s) == [x] + s;
    } else {
      var rest := Insert(x, s[1..]);
      InsertPermutes(x, s[1..]);
      assert Insert(x, s) == [s[0]] + rest;
      assert s == [s[0]] + s[1..];
    }
  }

  /** Inserting adds `x` and loses nothing. */
  lemma {:induction false} InsertMembers(x: Todo, s: seq<Todo>)
    ensures forall y :: y in Insert(x, s) <==> y == x || y in s
  {
    if s != [] && Compare(x, s[0]) > 0 {
      InsertMembers(x, s[1..]);
      assert Insert(x, s) == [s[0]] + Insert(x, s[1..]);
      assert s == [s[0]] + s[1..];
    }
  }

  lemma {:induction false} InsertSorted(x: Todo, s: seq<Todo>)
    requires Sorted(s)
    ensures Sorted(Insert(x, s))
  {
    if s == [] {
    } else if Compare(x, s[0]) <= 0 {
      assert Insert(x, s) == [x] + s;
    } else {
      var rest := Insert(x, s[1..]);
      InsertSorted(x, s[1..]);
      InsertMembers(x, s[1..]);
      var r := [s[0]] + rest;
      assert Insert(x, s) == r;
      forall i, j | 0 <= i < j < |r| ensures ShownBefore(r[i], r[j]) {
        if i == 0 {
          assert r[j] in rest;
          if r[j] != x {
            assert r[j] in s[1..];
          }
        } else {
          assert r[i] == rest[i - 1] && r[j] == rest[j - 1];
        }
      }
    }
  }

  lemma {:induction false} InsertKeepsTies(x: Todo, s: seq<Todo>)
    requires TiesInIdOrder(s) && IdsAbove(x.id, s)
    ensures TiesInIdOrder(Insert(x, s))
  {
    if s == [] {
    } else if Compare(x, s[0]) <= 0 {
      assert Insert(x, s) == [x] + s;
    } else {
      var rest := Insert(x, s[1..]);
      InsertKeepsTies(x, s[1..]);
      InsertMembers(x, s[1..]);
      var r := [s[0]] + rest;
      assert Insert(x, s) == r;
      forall i, j | 0 <= i < j < |r| && SameKey(r[i], r[j]) ensures r[i].id < r[j].id {
        if i == 0 {
          assert r[j] in rest;
          if r[j] != x {
            assert r[j] in s[1..];
          }
        } else {
          assert r[i] == rest[i - 1] && r[j] == rest[j - 1];
        }
      }
    }
  }

  /** `[...todoArray].sort(compare)`: a sorted copy; the array itself is a
      value here and stays as it was. `sort` is stable, so this is an
      insertion sort that puts each entry in front of the entries it ties
      with that came after it in the array. */
  function DisplayOrder(s: seq<Todo>): (v: seq<Todo>)
    ensures |v| == |s|
    ensures multiset(v) == multiset(s)
    ensures Sorted(v)
    ensures forall i, j :: 0 <= i < j < |v| ==> !(v[i].completed && !v[j].completed)
    ensures forall i, j :: 0 <= i < j < |v| && v[i].completed == v[j].completed ==>
      v[i].createdAt >= v[j].createdAt
  {
    if s == [] then []
    else
      var rest := DisplayOrder(s[1..]);
      InsertPermutes(s[0], rest);
      InsertSorted(s[0], rest);
      assert s == [s[0]] + s[1..];
      assert |Insert(s[0], rest)| == |s| by {
        assert |multiset(Insert(s[0], rest))| == |multiset(s)|;
      }
      Insert(s[0], rest)
  }

  /** Entries the comparator ties keep their array order. */
  lemma {:induction false} DisplayOrderIsStable(s: seq<Todo>)
    requires IdsIncreasing(s)
    ensures TiesInIdOrder(DisplayOrder(s))
  {
    if s != [] {
      var rest := DisplayOrder(s[1..]);
      DisplayOrderIsStable(s[1..]);
      forall k | 0 <= k < |rest| ensures s[0].id < rest[k].id {
        assert rest[k] in multiset(s[1..]);
        assert rest[k] in s[1..];
      }
      InsertKeepsTies(s[0], rest);
    }
  }

  /** Completed B (t=2) then pending C (t=3) are shown as C, B. */
  lemma DisplayOrderExampleTail(b: Todo, c: Todo)
    requires b == Todo(2, "B", true, 2)
    requires c == Todo(3, "C", false, 3)
    ensures DisplayOrder([b, c]) == [c, b]
  {
    assert [b, c][1..] == [c] && [c][1..] == [];
    assert DisplayOrder([c]) == Insert(c, DisplayOrder([])) == [c];
    assert Compare(b, c) > 0;
    assert Insert(b, [c]) == [c] + Insert(b, []) == [c, b];
  }

  /** Pending A (t=1), completed B (t=2), pending C (t=3) are shown as C, A, B. */
  lemma DisplayOrderExample(a: Todo, b: Todo, c: Todo)
    requires a == Todo(1, "A", false, 1)
    requires b == Todo(2, "B", true, 2)
    requires c == Todo(3, "C", false, 3)
    ensures DisplayOrder([a, b, c]) == [c, a, b]
  {
    DisplayOrderExampleTail(b, c);
    assert [a, b, c][1..] == [b, c];
    assert Compare(a, c) > 0 && Compare(a, b) < 0 && [c, b][1..] == [b];
    assert Insert(a, [b]) == [a, b];
    assert Insert(a, [c, b]) == [c] + Insert(a, [b]) == [c, a, b];
  }

  // ---------------------------------------------------------------------
  // Mapping a shown entry back to the array

  /** `todoArray.findIndex(t => t.id === id)`: the first index holding `id`,
      or -1. */
  function FindIndex(s: seq<Todo>, id: nat): (k: int)
    ensures -1 <= k < |s|
    ensures 0 <= k ==> s[k].id == id && forall j :: 0 <= j < k ==> s[j].id != id
    ensures k == -1 ==> forall j :: 0 <= j < |s| ==> s[j].id != id
  {
    if s == [] then -1
    else if s[0].id == id then 0
    else
      var k := FindIndex(s[1..], id);
      if k < 0 then -1 else k + 1
  }

  /** With distinct ids, the index found for a shown entry is that entry's
      own place in the array, so its toggle and delete buttons act on it. */
  lemma FindIndexOfMember(s: seq<Todo>, t: Todo)
    requires IdsIncreasing(s) && t in s
    ensures 0 <= FindIndex(s, t.id) < |s|
    ensures s[FindIndex(s, t.id)] == t
  {
    var m :| 0 <= m < |s| && s[m] == t;
    var k := FindIndex(s, t.id);
    assert k == m;
  }

  // ---------------------------------------------------------------------
  // Dashboard counters

  datatype Stats = Stats(total: nat, completed: nat, active: int, completionRate: int)

  /** `Math.round((completed / total) * 100)`, or 0 for an empty list, in
      exact arithmetic: the percentage rounded to the nearest integer, halves
      rounded up. */
  function CompletionRate(completed: nat, total: nat): (rate: int)
    ensures total == 0 ==> rate == 0
    ensures total > 0 ==> 200 * completed - total < 2 * total * rate <= 200 * completed + total
    ensures completed <= total ==> 0 <= rate <= 100
    ensures completed == 0 ==> rate == 0
    ensures 0 < total == completed ==> rate == 100
  {
    if total > 0 then
      var n, d := 200 * completed + total, 2 * total;
      var q := n / d;
      assert n == d * q + n % d && 0 <= n % d < d;
      RateBounds(completed, total, q);
      q
    else 0
  }

  lemma ProductMonotone(a: int, b: int, c: int)
    requires 0 <= a && b <= c
    ensures a * b <= a * c
  {
    assert a * c - a * b == a * (c - b);
  }

  /** The integer facts behind the bounds of `CompletionRate`. */
  lemma RateBounds(completed: nat, total: nat, q: int)
    requires total > 0
    requires 2 * total * q <= 200 * completed + total < 2 * total * q + 2 * total
    ensures 0 <= q
    ensures completed <= total ==> q <= 100
    ensures completed == 0 ==> q == 0
    ensures completed == total ==> q == 100
  {
    var d := 2 * total;
    assert d * q <= 200 * completed + total < d * q + d;
    if q < 0 {
      ProductMonotone(d, q, -1);
    }
    if completed <= total && q > 100 {
      ProductMonotone(d, 101, q);
    }
    if completed == 0 && q > 0 {
      ProductMonotone(d, 1, q);
    }
    if completed == total && q < 100 {
      ProductMonotone(d, q, 99);
    }
  }

  /** The four numbers on the dashboard. */
  function Summary(s: seq<Todo>): (st: Stats)
    ensures st.total == |s| && st.completed == |Done(s)|
    ensures st.completed <= st.total
    ensures st.active == st.total - st.completed == |Pending(s)|
    ensures st.completionRate == CompletionRate(st.completed, st.total)
    ensures 0 <= st.completionRate <= 100
    ensures st.total == 0 ==> st == Stats(0, 0, 0, 0)
    ensures 0 < st.total == st.completed ==> st.completionRate == 100
  {
    PartitionSizes(s);
    var completed := |Done(s)|;
    Stats(|s|, completed, |s| - completed, CompletionRate(completed, |s|))
  }

  // ---------------------------------------------------------------------
  // The "all missions completed" banner

  /** The banner condition as written: a rounded rate of 100 on a non-empty
      list. */
  predicate BannerAsWritten(st: Stats) {
    st.completionRate == 100 && st.total > 0
  }

  /** The rounded rate reaches 100 with one entry still pending: 200 of 201
      entries completed is 99.502... percent, strictly above the half, so it
      rounds up to 100 whichever way an exact half would be rounded. */
  lemma BannerAsWrittenShowsWithPendingEntry(p: Todo, others: seq<Todo>)
    requires !p.completed && |others| == 200
    ensures |Pending([p] + MarkAllCompleted(others))| == 1
    ensures BannerAsWritten(Summary([p] + MarkAllCompleted(others)))
  {
    var done := MarkAllCompleted(others);
    var s := [p] + done;
    MarkAllLeavesNonePending(others);
    assert s[1..] == done;
    assert Done(s) == Done(done);
    assert Pending(s) == [p] + Pending(done);
    assert CompletionRate(200, 201) == 100;
  }

  /** The banner as written shows exactly when the list is non-empty and at
      most one entry in 200 is still pending. */
  lemma BannerAsWrittenIff(s: seq<Todo>)
    ensures BannerAsWritten(Summary(s)) <==> s != [] && 200 * |Pending(s)| <= |s|
  {
    var st := Summary(s);
    var t, c := st.total, st.completed;
    if t > 0 && 200 * (t - c) <= t && st.completionRate <= 99 {
      ProductMonotone(2 * t, st.completionRate, 99);
    }
  }

  /** The evidently intended banner condition: every entry is completed. */
  predicate AllMissionsComplete(st: Stats) {
    st.total > 0 && st.completed == st.total
  }

  /** The corrected banner shows exactly when the list is non-empty and
      nothing is pending, and it never contradicts a rate of 100. */
  lemma AllMissionsCompleteIffNonePending(s: seq<Todo>)
    ensures AllMissionsComplete(Summary(s)) <==> s != [] && Pending(s) == []
    ensures AllMissionsComplete(Summary(s)) ==> BannerAsWritten(Summary(s))
  {
  }

  // ---------------------------------------------------------------------
  // The whole display

  /** One listed entry and the array index its buttons pass to `toggleTodo`
      and `deleteTodo`. */
  datatype Row = Row(todo: Todo, actualIndex: int)

  datatype Screen = NoMissions | Listing(rows: seq<Row>, stats: Stats, allDoneBanner: bool)

  /** The rows of the listing: each entry in display order with the index
      `findIndex` gives for its id. */
  function Rows(s: seq<Todo>): (rows: seq<Row>)
    ensures |rows| == |s|
    ensures forall k :: 0 <= k < |s| ==> rows[k].todo == DisplayOrder(s)[k]
  {
    var v := DisplayOrder(s);
    assert |v| == |s| by { assert |multiset(v)| == |multiset(s)|; }
    seq(|v|, k requires 0 <= k < |v| => Row(v[k], FindIndex(s, v[k].id)))
  }

  /** With distinct ids, every row's buttons act on the entry the row shows. */
  lemma RowsPointBack(s: seq<Todo>)
    requires IdsIncreasing(s)
    ensures forall k :: 0 <= k < |Rows(s)| ==>
      && 0 <= Rows(s)[k].actualIndex < |s|
      && s[Rows(s)[k].actualIndex] == Rows(s)[k].todo
  {
    var v := DisplayOrder(s);
    var rows := Rows(s);
    forall k | 0 <= k < |rows|
      ensures 0 <= rows[k].actualIndex < |s| && s[rows[k].actualIndex] == rows[k].todo
    {
      assert v[k] in multiset(s);
      FindIndexOfMember(s, v[k]);
    }
  }

  /** `displayTodos` without the markup: an empty list shows the
      "no active missions" panel; otherwise the rows in display order, the
      dashboard and the banner, shown when the rounded rate is 100. */
  function Display(s: seq<Todo>): (screen: Screen)
    ensures s == [] <==> screen == NoMissions
    ensures screen.Listing? ==>
      && |screen.rows| == |s|
      && (forall k :: 0 <= k < |s| ==> screen.rows[k].todo == DisplayOrder(s)[k])
      && screen.stats == Summary(s)
      && (screen.allDoneBanner <==> 200 * |Pending(s)| <= |s|)
      && (Pending(s) == [] ==> screen.allDoneBanner)
    ensures screen.Listing? && IdsIncreasing(s) ==>
      forall k :: 0 <= k < |screen.rows| ==>
        && 0 <= screen.rows[k].actualIndex < |s|
        && s[screen.rows[k].actualIndex] == screen.rows[k].todo
  {
    if s == [] then NoMissions
    else
      var stats := Summary(s);
      BannerAsWrittenIff(s);
      if IdsIncreasing(s) then
        RowsPointBack(s);
        Listing(Rows(s), stats, BannerAsWritten(stats))
      else
        Listing(Rows(s), stats, BannerAsWritten(stats))
  }

  /** The display with the corrected banner: the same panel, rows and
      dashboard, and the banner exactly when nothing is pending. */
  function DisplayCorrected(s: seq<Todo>): (screen: Screen)
    ensures s == [] <==> screen == NoMissions
    ensures screen.Listing? ==>
      && screen.rows == Display(s).rows
      && screen.stats == Display(s).stats
      && (screen.allDoneBanner <==> Pending(s) == [])
  {
    var shown := Display(s);
    if shown.NoMissions? then shown
    else
      AllMissionsCompleteIffNonePending(s);
      shown.(allDoneBanner := AllMissionsComplete(shown.stats))
  }
}
