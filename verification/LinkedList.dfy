/** The intrusive doubly linked list of src/std_llist.c, between two sentinels. */
module LinkedList {
  import opened Options

  /** A comparison function: negative if the first argument goes before the second. */
  type Compare<!T> = (T, T) -> int

  ghost function Index<T>(s: seq<T>, x: T): (i: nat)
    requires x in s
    ensures i < |s| && s[i] == x
  {
    var i: nat :| i < |s| && s[i] == x;
    i
  }

  ghost function Without<T>(s: seq<T>, x: T): seq<T> {
    if x in s then s[..Index(s, x)] + s[Index(s, x) + 1..] else s
  }

  lemma WithoutMembers<T>(s: seq<T>, x: T)
    requires forall i :: 0 <= i < |s| ==> Index(s, s[i]) == i
    ensures forall y :: y in Without(s, x) <==> y in s && y != x
  {
    if x in s {
      var k := Index(s, x);
      var w := Without(s, x);
      forall y | y in s && y != x ensures y in w {
        var i := Index(s, y);
        assert w[if i < k then i else i - 1] == y;
      }
      forall y | y in w ensures y in s && y != x {
        var i := Index(w, y);
        assert s[if i < k then i else i + 1] == y;
      }
    }
  }

  function InsertedAt<T>(s: seq<T>, i: nat, x: T): seq<T>
    requires i <= |s|
  {
    s[..i] + [x] + s[i..]
  }

  /** std_dll together with the structure that it is embedded in. */
  class Dll<T> {
    var next: Dll?<T>
    var back: Dll?<T>
    var data: T

    constructor (data: T)
      ensures next == null && back == null && this.data == data
    {
      this.data, next, back := data, null, null;
    }

    /** std_dll_islinked */
    predicate IsLinked()
      reads this`next, this`back
    {
      next != null && back != null
    }
  }

  class DllHead<T> {
    const head: Dll<T>
    const tail: Dll<T>
    const compare: Option<Compare<T>>

    /** The items between the sentinels, in order. */
    ghost var items: seq<Dll<T>>

    ghost predicate Distinct()
      reads this`items
    {
      head != tail && forall i :: 0 <= i < |items| ==> items[i] != head && items[i] != tail && Index(items, items[i]) == i
    }

    ghost function At(i: int): Dll<T>
      requires -1 <= i <= |items|
      reads this`items
    {
      if i == -1 then head else if i == |items| then tail else items[i]
    }

    ghost predicate LinkedAt(i: int)
      reads this`items, head`next, tail`back, items`next, items`back
    {
      -1 <= i < |items| ==> At(i).next == At(i + 1) && At(i + 1).back == At(i)
    }

    ghost predicate Valid()
      reads this`items, head`next, head`back, tail`next, tail`back, items`next, items`back
    {
      && Distinct() && head.back == null && tail.next == null
      && forall i {:trigger LinkedAt(i)} :: LinkedAt(i)
    }

    /** x is a structure outside the list. */
    ghost predicate Outside(x: Dll<T>)
      reads this`items, x`next, x`back
    {
      x !in items && x != head && x != tail && x.next == null && x.back == null
    }

    /** std_dll_init, or std_dll_init_sort with a comparison function. */
    constructor (sentinel: T, compare: Option<Compare<T>>)
      ensures this.compare == compare && Valid() && items == [] && fresh(head) && fresh(tail)
    {
      items := [];
      this.compare := compare;
      head := new Dll(sentinel);
      tail := new Dll(sentinel);
      new;
      head.next := tail;
      tail.back := head;
    }

    ghost function IndexOf(x: Dll<T>): (i: nat)
      requires x in items
      reads this`items
    {
      Index(items, x)
    }

    /** In a well formed list the linked structures are those in the list. */
    lemma LinkedIsIn(x: Dll<T>)
      requires Valid() && x in items
      ensures x.IsLinked() && x != head && x != tail
      ensures var i := IndexOf(x); x.back == At(i - 1) && x.next == At(i + 1)
      ensures forall j :: 0 <= j < |items| && items[j] == x ==> j == IndexOf(x)
    {
      var i: int := IndexOf(x);
      assert LinkedAt(i - 1) && LinkedAt(i);
    }

    method GetFirst() returns (x: Dll?<T>)
      requires Valid()
      ensures x == if items == [] then null else items[0]
    {
      assert LinkedAt(-1);
      x := if head.next != tail then head.next else null;
    }

    method GetLast() returns (x: Dll?<T>)
      requires Valid()
      ensures x == if items == [] then null else items[|items| - 1]
    {
      assert LinkedAt(|items| - 1);
      x := if tail.back != head then tail.back else null;
    }

    method GetNext(after: Dll<T>) returns (x: Dll?<T>)
      requires Valid() && after in items
      ensures var i := IndexOf(after) + 1; x == if i == |items| then null else items[i]
    {
      LinkedIsIn(after);
      x := if after.next != tail then after.next else null;
    }

    method GetPrev(before: Dll<T>) returns (x: Dll?<T>)
      requires Valid() && before in items
      ensures var i := IndexOf(before); x == if i == 0 then null else items[i - 1]
    {
      LinkedIsIn(before);
      x := if before.back != head then before.back else null;
    }

    /** What the four writes of an insertion between the items i - 1 and i do. */
    twostate lemma Inserted(i: nat, new x: Dll<T>)
      requires old(Valid()) && 0 <= i <= |old(items)| && x !in old(items) && x != head && x != tail
      requires items == InsertedAt(old(items), i, x)
      requires x.next == old(At(i)) && x.back == old(At(i - 1))
      requires old(At(i - 1)).next == x && old(At(i)).back == x
      requires forall j :: -1 <= j <= |old(items)| ==>
                 && (j != i - 1 ==> old(At(j)).next == old(At(j).next))
                 && (j != i ==> old(At(j)).back == old(At(j).back))
      ensures Valid()
    {
      var n := |old(items)|;
      assert forall j :: 0 <= j < n ==> old(At(j)) == old(items)[j];
      forall j ensures LinkedAt(j) {
        if -1 <= j <= n {
          assert At(j) == if j < i then old(At(j)) else if j == i then x else old(At(j - 1));
          assert At(j + 1) == if j + 1 < i then old(At(j + 1)) else if j + 1 == i then x else old(At(j));
          assert old(LinkedAt(j)) && old(LinkedAt(j - 1));
        }
      }
      assert head == old(At(-1)) && tail == old(At(n));
    }

    /** An insertion between two neighbours. */
    method InsertBetween(a: Dll<T>, b: Dll<T>, x: Dll<T>, ghost i: nat)
      requires Valid() && x !in items && x != head && x != tail
      requires i <= |items| && a == At(i - 1) && b == At(i)
      modifies `items, x`next, x`back, a`next, b`back
      ensures Valid() && items == InsertedAt(old(items), i, x)
    {
      x.next := b;
      x.back := a;
      b.back := x;
      a.next := x;
      items := InsertedAt(items, i, x);
      Inserted(i, x);
    }

    method InsertAtFront(x: Dll<T>)
      requires Valid() && x !in items && x != head && x != tail
      modifies `items, x`next, x`back, head`next, items`back, tail`back
      ensures Valid() && items == [x] + old(items)
    {
      assert LinkedAt(-1);
      InsertBetween(head, head.next, x, 0);
    }

    method InsertAtBack(x: Dll<T>)
      requires Valid() && x !in items && x != head && x != tail
      modifies `items, x`next, x`back, head`next, items`next, tail`back
      ensures Valid() && items == old(items) + [x]
    {
      assert LinkedAt(|items| - 1);
      InsertBetween(tail.back, tail, x, |items|);
    }

    method InsertAfter(after: Dll<T>, x: Dll<T>)
      requires Valid() && x !in items && x != head && x != tail && after in items
      modifies `items, x`next, x`back, items`next, items`back, tail`back
      ensures Valid()
      ensures var i := old(IndexOf(after)) + 1; items == InsertedAt(old(items), i, x)
    {
      LinkedIsIn(after);
      InsertBetween(after, after.next, x, IndexOf(after) + 1);
    }

    method InsertBefore(before: Dll<T>, x: Dll<T>)
      requires Valid() && x !in items && x != head && x != tail && before in items
      modifies `items, x`next, x`back, items`next, items`back, head`next
      ensures Valid()
      ensures var i := old(IndexOf(before)); items == InsertedAt(old(items), i, x)
    {
      LinkedIsIn(before);
      InsertBetween(before.back, before, x, IndexOf(before));
    }

    /** What the two writes of a removal of item i do. */
    twostate lemma Removed(i: nat)
      requires old(Valid()) && i < |old(items)| && items == old(items)[..i] + old(items)[i + 1..]
      requires old(At(i - 1)).next == old(At(i + 1)) && old(At(i + 1)).back == old(At(i - 1))
      requires forall j :: -1 <= j <= |old(items)| && j != i ==>
                 && (j != i - 1 ==> old(At(j)).next == old(At(j).next))
                 && (j != i + 1 ==> old(At(j)).back == old(At(j).back))
      ensures Valid()
    {
      var n := |old(items)|;
      assert forall j :: 0 <= j < n ==> old(At(j)) == old(items)[j];
      forall j ensures LinkedAt(j) {
        if -1 <= j < n - 1 {
          assert At(j) == if j < i then old(At(j)) else old(At(j + 1));
          assert At(j + 1) == if j + 1 < i then old(At(j + 1)) else old(At(j + 2));
          assert old(LinkedAt(j)) && old(LinkedAt(j + 1));
        }
      }
      assert head == old(At(-1)) && tail == old(At(n));
    }

    method Remove(x: Dll<T>)
      requires Valid() && x in items
      modifies `items, items`next, items`back, head`next, tail`back
      ensures Valid() && Outside(x)
      ensures items == Without(old(items), x)
    {
      ghost var i := IndexOf(x);
      LinkedIsIn(x);
      var front, back := x.back, x.next;
      front.next := back;
      back.back := front;
      x.back := null;
      x.next := null;
      items := Without(items, x);
      Removed(i);
    }

    /** The position that std_dll_insert chooses: before the first item that x goes before. */
    ghost predicate GoesAt(d: T, i: nat)
      reads this`items, items`data
    {
      && i <= |items|
      && match compare
         case None => i == |items|
         case Some(less) =>
           (forall j :: 0 <= j < i ==> less(d, items[j].data) >= 0) && (i < |items| ==> less(d, items[i].data) < 0)
    }

    method Insert(x: Dll<T>) returns (ghost i: nat)
      requires Valid() && x !in items && x != head && x != tail
      modifies `items, x`next, x`back, head`next, items`next, items`back, tail`back
      ensures Valid() && old(GoesAt(x.data, i)) && items == InsertedAt(old(items), i, x)
    {
      if compare == None {
        i := |items|;
        InsertAtBack(x);
        return;
      }
      var less := compare.value;
      var first := GetFirst();
      if first == null || less(x.data, first.data) < 0 {
        i := 0;
        InsertAtFront(x);
        return;
      }
      var walk := first;
      i := 1;
      LinkedIsIn(walk);
      while !(walk.next == tail || less(x.data, walk.next.data) < 0)
        invariant 0 < i <= |items| && walk == items[i - 1] && walk.next == At(i)
        invariant forall j :: 0 <= j < i ==> less(x.data, items[j].data) >= 0
        decreases |items| - i
      {
        walk := walk.next;
        assert LinkedAt(i);
        i := i + 1;
      }
      LinkedIsIn(walk);
      InsertAfter(walk, x);
    }
  }

  /** A comparison function that orders its arguments. */
  ghost predicate Orders<T(!new)>(less: Compare<T>) {
    && (forall x, y :: less(x, y) < 0 <==> less(y, x) > 0)
    && (forall x, y, z :: less(x, y) <= 0 && less(y, z) <= 0 ==> less(x, z) <= 0)
  }

  ghost predicate Sorted<T>(less: Compare<T>, s: seq<T>) {
    forall i, j :: 0 <= i < j < |s| ==> less(s[i], s[j]) <= 0
  }

  lemma GoesBefore<T(!new)>(less: Compare<T>, d: T, x: T, y: T)
    requires Orders(less) && less(d, x) < 0 && less(x, y) <= 0
    ensures less(d, y) < 0
  {
    assert less(x, y) <= 0 && less(y, d) <= 0 ==> less(x, d) <= 0;
  }

  lemma StaysSorted<T(!new)>(less: Compare<T>, s: seq<T>, d: T, i: nat)
    requires Sorted(less, s) && i <= |s| && forall x, y :: less(x, y) < 0 <==> less(y, x) > 0
    requires (forall j :: 0 <= j < i ==> less(d, s[j]) >= 0) && (forall j :: i <= j < |s| ==> less(d, s[j]) < 0)
    ensures Sorted(less, s[..i] + [d] + s[i..])
  {
    var t := s[..i] + [d] + s[i..];
    assert forall j :: 0 <= j < |t| ==> t[j] == if j < i then s[j] else if j == i then d else s[j - 1];
  }

  /** Sorted insertion keeps the list sorted, and puts the new item after all that compare equal to it. */
  lemma InsertKeepsSorted<T(!new)>(less: Compare<T>, s: seq<T>, d: T, i: nat)
    requires Orders(less) && Sorted(less, s) && i <= |s|
    requires (forall j :: 0 <= j < i ==> less(d, s[j]) >= 0) && (i < |s| ==> less(d, s[i]) < 0)
    ensures Sorted(less, s[..i] + [d] + s[i..])
    ensures forall j :: i <= j < |s| ==> less(d, s[j]) < 0
  {
    forall j | i <= j < |s| ensures less(d, s[j]) < 0 {
      if i < j { GoesBefore(less, d, s[i], s[j]); }
    }
    StaysSorted(less, s, d, i);
  }
}
