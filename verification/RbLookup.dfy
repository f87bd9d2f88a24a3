/** The lookups and the in-order walk of src/std_rbtree.c. */
module RbLookup {
  import opened RbShape
  import opened RbTree
  import opened RbUpdate

  /** Nothing up to lo is as great as d, and everything from hi on is greater. */
  ghost predicate SplitsStrictly(t: RbTable, d: Data, lo: real, hi: real)
    reads t`cells
  {
    && (forall n :: n in t.cells && t.cells[n].at <= lo ==> t.compare(d, n.data) > 0)
    && (forall n :: n in t.cells && hi <= t.cells[n].at ==> t.compare(d, n.data) < 0)
  }

  /** What comparing d with the data of a node says about the nodes before and behind it. */
  lemma ComparedWith(t: RbTable, x: Node, d: Data)
    requires t.Valid() && x in t.cells
    ensures t.compare(d, x.data) > 0 ==> forall n :: n in t.cells && t.cells[n].at <= t.cells[x].at ==> t.compare(d, n.data) > 0
    ensures t.compare(d, x.data) < 0 ==> forall n :: n in t.cells && t.cells[x].at <= t.cells[n].at ==> t.compare(d, n.data) < 0
  {
    forall n | n in t.cells
      ensures t.compare(d, x.data) > 0 && t.cells[n].at <= t.cells[x].at ==> t.compare(d, n.data) > 0
      ensures t.compare(d, x.data) < 0 && t.cells[x].at <= t.cells[n].at ==> t.compare(d, n.data) < 0
    {
      assert !(n != x && SamePlace(t.cells, n, x));
      assert InOrder(t.cells, t.compare, n, x) && InOrder(t.cells, t.compare, x, n);
      assert Consistent(t.compare, d, n.data, x.data) && Consistent(t.compare, x.data, n.data, d);
      assert Consistent(t.compare, n.data, d, x.data) && Consistent(t.compare, d, x.data, n.data);
    }
  }

  lemma AtRoot(t: RbTable, d: Data)
    requires t.Valid() && t.root != t.nil
    ensures t.root in t.cells && SplitsStrictly(t, d, t.cells[t.root].lo, t.cells[t.root].hi)
  {
    RootCovers(t.cells, t.nil, t.root);
    forall n | n in t.cells ensures 0.0 < t.cells[n].at < 1.0 { InUnit(t.cells, t.nil, t.root, n); }
  }

  /** _std_rbtree_getexact */
  method GetExact(t: RbTable, d: Data) returns (r: Node?)
    requires t.Valid()
    ensures if r == null then forall n :: n in t.cells ==> t.compare(d, n.data) != 0
            else r in t.cells && t.compare(d, r.data) == 0
  {
    var x := t.root;
    if x != t.nil { AtRoot(t, d); }
    while x != t.nil
      invariant x in t.cells ==> SplitsStrictly(t, d, t.cells[x].lo, t.cells[x].hi)
      invariant x in t.cells || (x == t.nil && forall n :: n in t.cells ==> t.compare(d, n.data) != 0)
      decreases Inside(t.cells, x)
    {
      t.KidFacts(x);
      InsideSplits(t.cells, t.nil, t.root, x);
      var cmp := t.compare(d, x.data);
      ComparedWith(t, x, d);
      if cmp == 0 {
        break;
      } else if cmp < 0 {
        x := x.left;
      } else {
        x := x.right;
      }
    }
    return if x == t.nil then null else x;
  }

  /** r is the first node whose data is not smaller than d, or an equal one. */
  ghost predicate LeastAtLeast(t: RbTable, d: Data, r: Node?)
    reads t`cells
  {
    if r == null then forall n :: n in t.cells ==> t.compare(d, n.data) > 0
    else r in t.cells && t.compare(d, r.data) <= 0 &&
         forall n :: n in t.cells && t.compare(d, n.data) <= 0 ==> t.compare(r.data, n.data) <= 0
  }

  /** r is the last node whose data is not greater than d, or an equal one. */
  ghost predicate GreatestAtMost(t: RbTable, d: Data, r: Node?)
    reads t`cells
  {
    if r == null then forall n :: n in t.cells ==> t.compare(d, n.data) < 0
    else r in t.cells && t.compare(d, r.data) >= 0 &&
         forall n :: n in t.cells && t.compare(d, n.data) >= 0 ==> t.compare(n.data, r.data) <= 0
  }

  /** The place of a node decides which of those that d is not greater than is the least. */
  lemma FirstIsLeast(t: RbTable, d: Data, r: Node)
    requires t.Valid() && r in t.cells && t.compare(d, r.data) <= 0
    requires t.compare(d, r.data) == 0 || forall n :: n in t.cells && t.cells[n].at < t.cells[r].at ==> t.compare(d, n.data) > 0
    ensures LeastAtLeast(t, d, r)
  {
    forall n | n in t.cells && t.compare(d, n.data) <= 0 ensures t.compare(r.data, n.data) <= 0 {
      assert !(n != r && SamePlace(t.cells, n, r));
      assert InOrder(t.cells, t.compare, r, n) && Consistent(t.compare, r.data, d, n.data) && Consistent(t.compare, d, r.data, d);
      assert Consistent(t.compare, r.data, r.data, r.data);
    }
  }

  lemma LastIsGreatest(t: RbTable, d: Data, r: Node)
    requires t.Valid() && r in t.cells && t.compare(d, r.data) >= 0
    requires t.compare(d, r.data) == 0 || forall n :: n in t.cells && t.cells[r].at < t.cells[n].at ==> t.compare(d, n.data) < 0
    ensures GreatestAtMost(t, d, r)
  {
    forall n | n in t.cells && t.compare(d, n.data) >= 0 ensures t.compare(n.data, r.data) <= 0 {
      assert !(n != r && SamePlace(t.cells, n, r));
      assert InOrder(t.cells, t.compare, n, r) && Consistent(t.compare, n.data, d, r.data) && Consistent(t.compare, d, n.data, d);
      assert Consistent(t.compare, r.data, r.data, r.data);
    }
  }

  /** _std_rbtree_getexactornext */
  method GetExactOrNext(t: RbTable, d: Data) returns (r: Node?)
    requires t.Valid()
    ensures LeastAtLeast(t, d, r)
    ensures (exists n :: n in t.cells && t.compare(d, n.data) == 0) ==> r != null && t.compare(d, r.data) == 0
  {
    var x := t.root;
    if x == t.nil { return null; }
    AtRoot(t, d);
    while true
      invariant x in t.cells && SplitsStrictly(t, d, t.cells[x].lo, t.cells[x].hi)
      decreases Inside(t.cells, x)
    {
      t.KidFacts(x);
      InsideSplits(t.cells, t.nil, t.root, x);
      var cmp := t.compare(d, x.data);
      ComparedWith(t, x, d);
      if cmp == 0 {
        FirstIsLeast(t, d, x);
        return x;
      }
      if cmp < 0 {
        if x.left == t.nil {
          FirstIsLeast(t, d, x);
          return x;
        }
        x := x.left;
      } else {
        if x.right == t.nil {
          r := t.ClimbRight(x);
          NextIsLeast(t, d, x, r);
          return;
        }
        x := x.right;
      }
    }
  }

  lemma NextIsLeast(t: RbTable, d: Data, x: Node, r: Node?)
    requires t.Valid() && x in t.cells && t.compare(d, x.data) > 0 && t.NextPlace(t.cells[x].at, r)
    requires SplitsStrictly(t, d, t.cells[x].lo, t.cells[x].hi) && t.cells[x].right == t.nil
    ensures LeastAtLeast(t, d, r) && forall n :: n in t.cells ==> t.compare(d, n.data) != 0
  {
    ComparedWith(t, x, d);
    t.KidFacts(x);
    if r != null { FirstIsLeast(t, d, r); }
  }

  /** _std_rbtree_getexactorprev */
  method GetExactOrPrev(t: RbTable, d: Data) returns (r: Node?)
    requires t.Valid()
    ensures GreatestAtMost(t, d, r)
    ensures (exists n :: n in t.cells && t.compare(d, n.data) == 0) ==> r != null && t.compare(d, r.data) == 0
  {
    var x := t.root;
    if x == t.nil { return null; }
    AtRoot(t, d);
    while true
      invariant x in t.cells && SplitsStrictly(t, d, t.cells[x].lo, t.cells[x].hi)
      decreases Inside(t.cells, x)
    {
      t.KidFacts(x);
      InsideSplits(t.cells, t.nil, t.root, x);
      var cmp := t.compare(d, x.data);
      ComparedWith(t, x, d);
      if cmp == 0 {
        LastIsGreatest(t, d, x);
        return x;
      }
      if cmp < 0 {
        if x.left == t.nil {
          r := ClimbLeft(t, x);
          PreviousIsGreatest(t, d, x, r);
          return;
        }
        x := x.left;
      } else {
        if x.right == t.nil {
          LastIsGreatest(t, d, x);
          return x;
        }
        x := x.right;
      }
    }
  }

  ghost predicate PreviousPlace(t: RbTable, at: real, r: Node?)
    reads t`cells
  {
    if r == null then forall n :: n in t.cells ==> at <= t.cells[n].at
    else r in t.cells && t.cells[r].at < at && forall n :: n in t.cells && t.cells[n].at < at ==> t.cells[n].at <= t.cells[r].at
  }

  /** Up to the first node that is reached from its right side. */
  method ClimbLeft(t: RbTable, x0: Node) returns (r: Node?)
    requires t.Valid() && x0 in t.cells && t.cells[x0].left == t.nil
    ensures PreviousPlace(t, t.cells[x0].at, r)
  {
    var x := x0;
    t.KidFacts(x);
    var y := x.parent;
    while y != t.nil && x == y.left
      invariant x in t.cells && y == x.parent && t.cells[x].lo == t.cells[x0].lo && Vacant(t.cells, t.cells[x].lo, t.cells[x0].at)
      invariant t.cells[x].lo < t.cells[x0].at
      decreases RbTable.Outside(t.cells, x)
    {
      t.KidFacts(x);
      LeftKid(t, x);
      x := y;
      t.KidFacts(x);
      y := x.parent;
    }
    t.KidFacts(x);
    if y == t.nil {
      forall n | n in t.cells ensures 0.0 < t.cells[n].at { InUnit(t.cells, t.nil, t.root, n); }
      return null;
    }
    return y;
  }

  lemma LeftKid(t: RbTable, x: Node)
    requires t.Valid() && x in t.cells && x.parent != t.nil && x == x.parent.left
    ensures x.parent in t.cells && t.cells[x].lo == t.cells[x.parent].lo && t.cells[x].hi == t.cells[x.parent].at
  {
    t.KidFacts(x);
    t.KidFacts(x.parent);
    Above(t.cells, t.nil, t.root, x);
  }

  lemma PreviousIsGreatest(t: RbTable, d: Data, x: Node, r: Node?)
    requires t.Valid() && x in t.cells && t.compare(d, x.data) < 0 && PreviousPlace(t, t.cells[x].at, r)
    requires SplitsStrictly(t, d, t.cells[x].lo, t.cells[x].hi) && t.cells[x].left == t.nil
    ensures GreatestAtMost(t, d, r) && forall n :: n in t.cells ==> t.compare(d, n.data) != 0
  {
    ComparedWith(t, x, d);
    t.KidFacts(x);
    if r != null { LastIsGreatest(t, d, r); }
  }
}
