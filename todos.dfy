/** The todo routes (`server/todos.js`): `currentTodos` is the day array of
    the todos save that the client is looking at; every route changes it in
    place, and so changes the save. */
module Todos {
  import opened Model
  import opened Utils
  import opened SaveStructure

  /** A todo item as `/add` creates it. */
  datatype Todo = Todo(id: string, title: string, done: bool)

  function TodoId(t: Todo): string { t.id }

  /** `swapItems(id1, id2)` on a non-empty array. The outer `splice` takes its
      position, the index of id2, before the inner one runs; the inner one
      then takes out the element at the index of id1 (the last element when
      id1 is missing, as `splice(-1, 1)` does), and the outer one inserts it
      at id2's position of the shortened array. */
  function Moved(s: seq<Todo>, id1: string, id2: string): seq<Todo>
    requires s != []
  {
    var j := IndexOfKey(s, TodoId, id2);
    var i := IndexOfKey(s, TodoId, id1);
    SpliceIn(SpliceOut(s, i), j, s[SpliceStart(|s|, i)])
  }

  /** `updateCurrentTodos(year, month, day)`: the current array becomes that
      day's array of the todos save, created empty when missing. */
  method UpdateCurrentTodos(cur: Current<Todo>, a: Archive<Todo>, year: int, month: int, day: int) returns (r: seq<Todo>)
    requires a.Valid()
    modifies cur, a
    ensures a.Valid()
    ensures cur.path == Some(KeysFor(year, month, day))
    ensures r == BucketAt(old(a.root), KeysFor(year, month, day)).GetOr([])
    ensures a.root == Ensured(old(a.root), KeysFor(year, month, day))
    ensures cur.Items(a) == r
  {
    var keys := a.GetDayArray(year, month, day);
    cur.Attach(keys);
    r := cur.Items(a);
  }

  /** `swapItems(id1, id2)`, also the `/swap` route. */
  method SwapItems(cur: Current<Todo>, a: Archive<Todo>, id1: string, id2: string)
    requires a.Valid()
    modifies cur, a
    ensures a.Valid()
    ensures cur.path == old(cur.path)
    ensures old(cur.Items(a)) != [] ==> cur.Items(a) == Moved(old(cur.Items(a)), id1, id2)
    ensures old(cur.Items(a)) == [] ==> cur.Items(a) == [] && a.root == old(a.root)
    ensures old(cur.Items(a)) != [] && cur.path.Some? ==> a.root == WithBucket(old(a.root), cur.path.value, cur.Items(a))
    ensures cur.path.None? ==> a.root == old(a.root)
  {
    var s := cur.Items(a);
    if s != [] {
      var target := IndexOfKey(s, TodoId, id2);
      var from := IndexOfKey(s, TodoId, id1);
      var item := s[SpliceStart(|s|, from)];
      cur.SetItems(a, SpliceIn(SpliceOut(s, from), target, item));
    }
  }

  /** The `/add` route: a todo with a fresh id, the given title and not done,
      appended to the current array. */
  method AddRoute(cur: Current<Todo>, a: Archive<Todo>, title: string, freshId: string) returns (r: seq<Todo>)
    requires a.Valid()
    modifies cur, a
    ensures a.Valid()
    ensures cur.path == old(cur.path)
    ensures r == old(cur.Items(a)) + [Todo(freshId, title, false)]
    ensures cur.Items(a) == r
    ensures cur.path.Some? ==> a.root == WithBucket(old(a.root), cur.path.value, r)
    ensures cur.path.None? ==> a.root == old(a.root)
  {
    cur.SetItems(a, cur.Items(a) + [Todo(freshId, title, false)]);
    r := cur.Items(a);
  }

  /** The `/update` route: the todo with the body's id becomes the body; with
      no such todo the array is unchanged. */
  method UpdateRoute(cur: Current<Todo>, a: Archive<Todo>, body: Todo) returns (r: seq<Todo>)
    requires a.Valid()
    modifies cur, a
    ensures a.Valid()
    ensures cur.path == old(cur.path)
    ensures r == ReplaceFirst(old(cur.Items(a)), TodoId, body.id, body)
    ensures cur.Items(a) == r
    ensures cur.path.Some? ==> a.root == WithBucket(old(a.root), cur.path.value, r)
    ensures cur.path.None? ==> a.root == old(a.root)
  {
    cur.SetItems(a, ReplaceFirst(cur.Items(a), TodoId, body.id, body));
    r := cur.Items(a);
  }

  /** The `/delete` route: `tryDeleteObject(id, currentTodos)` takes out the
      first todo with the id, if any. */
  method DeleteRoute(cur: Current<Todo>, a: Archive<Todo>, id: string) returns (r: seq<Todo>)
    requires a.Valid()
    modifies cur, a
    ensures a.Valid()
    ensures cur.path == old(cur.path)
    ensures r == DeleteFirst(old(cur.Items(a)), TodoId, id)
    ensures cur.Items(a) == r
    ensures cur.path.Some? ==> a.root == WithBucket(old(a.root), cur.path.value, r)
    ensures cur.path.None? ==> a.root == old(a.root)
  {
    var deleted, rest := TryDeleteObject(id, cur.Items(a), TodoId);
    cur.SetItems(a, rest);
    r := cur.Items(a);
  }

  // ---------------------------------------------------------------------------
  // Properties

  /** Moving keeps every todo: the same length and the same elements. */
  lemma MovedKeepsTodos(s: seq<Todo>, id1: string, id2: string)
    requires s != []
    ensures |Moved(s, id1, id2)| == |s|
    ensures multiset(Moved(s, id1, id2)) == multiset(s)
  {
    var i := SpliceStart(|s|, IndexOfKey(s, TodoId, id1));
    var rest := SpliceOut(s, i);
    assert SpliceOut(s, IndexOfKey(s, TodoId, id1)) == rest;
    SpliceOutAt(s, i);
    SpliceInOut(rest, IndexOfKey(s, TodoId, id2), s[i]);
  }

  /** With both ids present, the todo with id1 ends up at the index id2 had,
      and taking it out again leaves the other todos in their old order. */
  lemma MovedPlacesTodo(s: seq<Todo>, id1: string, id2: string)
    requires HasKey(s, TodoId, id1) && HasKey(s, TodoId, id2)
    ensures var i, j := IndexOfKey(s, TodoId, id1), IndexOfKey(s, TodoId, id2);
      && Moved(s, id1, id2)[j] == s[i]
      && SpliceOut(Moved(s, id1, id2), j) == SpliceOut(s, i)
  {
    var i, j := IndexOfKey(s, TodoId, id1), IndexOfKey(s, TodoId, id2);
    var rest := SpliceOut(s, i);
    SpliceOutAt(s, i);
    assert SpliceStart(|s|, i) == i;
    assert SpliceStart(|rest|, j) == j;
    SpliceInOut(rest, j, s[i]);
  }

  /** Swapping a todo with itself changes nothing. */
  lemma MovedOntoItself(s: seq<Todo>, id: string)
    requires HasKey(s, TodoId, id)
    ensures Moved(s, id, id) == s
  {
    var i := IndexOfKey(s, TodoId, id);
    var rest := SpliceOut(s, i);
    assert SpliceStart(|s|, i) == i;
    assert rest == s[..i] + s[i + 1..];
    assert SpliceStart(|rest|, i) == i;
    assert rest[..i] == s[..i] && rest[i..] == s[i + 1..];
    assert s == s[..i] + [s[i]] + s[i + 1..];
  }

  /** For neighbours, in either order, moving is a true swap. */
  lemma MovedNeighbours(s: seq<Todo>, id1: string, id2: string)
    requires HasKey(s, TodoId, id1) && HasKey(s, TodoId, id2)
    requires var i, j := IndexOfKey(s, TodoId, id1), IndexOfKey(s, TodoId, id2); j == i + 1 || i == j + 1
    ensures var i, j := IndexOfKey(s, TodoId, id1), IndexOfKey(s, TodoId, id2);
      Moved(s, id1, id2) == s[i := s[j]][j := s[i]]
  {
    var i, j := IndexOfKey(s, TodoId, id1), IndexOfKey(s, TodoId, id2);
    assert SpliceStart(|s|, i) == i;
    if j == i + 1 {
      SwapForward(s, i);
    } else {
      SwapBackward(s, j);
    }
  }

  /** Taking out element i and putting it back one place later swaps it with
      its right neighbour. */
  lemma SwapForward(s: seq<Todo>, i: nat)
    requires i + 1 < |s|
    ensures SpliceIn(SpliceOut(s, i), i + 1, s[i]) == s[i := s[i + 1]][i + 1 := s[i]]
  {
    SpliceOutAt(s, i);
    var rest := SpliceOut(s, i);
    assert SpliceStart(|rest|, i + 1) == i + 1;
    assert rest == s[..i] + s[i + 1..];
    assert SpliceIn(rest, i + 1, s[i]) == s[..i] + [s[i + 1]] + [s[i]] + s[i + 2..];
  }

  /** Taking out element j + 1 and putting it back at j swaps it with its
      left neighbour. */
  lemma SwapBackward(s: seq<Todo>, j: nat)
    requires j + 1 < |s|
    ensures SpliceIn(SpliceOut(s, j + 1), j, s[j + 1]) == s[j + 1 := s[j]][j := s[j + 1]]
  {
    SpliceOutAt(s, j + 1);
    var rest := SpliceOut(s, j + 1);
    assert SpliceStart(|rest|, j) == j;
    assert rest == s[..j + 1] + s[j + 2..];
    assert SpliceIn(rest, j, s[j + 1]) == s[..j] + [s[j + 1]] + [s[j]] + s[j + 2..];
  }

  /** Deleting the todo that `/add` just appended gives the array back, when
      its fresh id was not already in use. */
  lemma AddThenDelete(s: seq<Todo>, title: string, freshId: string)
    requires !HasKey(s, TodoId, freshId)
    ensures DeleteFirst(s + [Todo(freshId, title, false)], TodoId, freshId) == s
  {
    var t := s + [Todo(freshId, title, false)];
    assert TodoId(t[|s|]) == freshId;
    assert forall i :: 0 <= i < |s| ==> t[i] == s[i] && TodoId(s[i]) != freshId;
    var k := IndexOfKey(t, TodoId, freshId);
    assert k != -1;
    assert k == |s|;
    assert t[..|s|] == s;
  }

  /** `/update` keeps every todo's id, so it never loses or adds a todo. */
  lemma UpdateKeepsIds(s: seq<Todo>, body: Todo)
    ensures |ReplaceFirst(s, TodoId, body.id, body)| == |s|
    ensures forall j :: 0 <= j < |s| ==> ReplaceFirst(s, TodoId, body.id, body)[j].id == s[j].id
    ensures HasKey(s, TodoId, body.id) <==> body in ReplaceFirst(s, TodoId, body.id, body)
  {
    ReplaceFirstEffect(s, TodoId, body.id, body);
    if body in s {
      var j :| 0 <= j < |s| && s[j] == body;
      assert TodoId(s[j]) == body.id;
    }
  }
}
