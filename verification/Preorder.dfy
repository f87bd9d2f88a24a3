/** Walking a trie in three directions: down into a node, right after its left subtree, and up
    after all of its subtree. Each walking state says which keys lie behind it. */
module Preorder {
  import opened Bits
  import opened Options
  import opened PrefixSet

  datatype Direction = Down | Right | Up

  /** The keys that a walk in this state has left behind. */
  predicate Done(dir: Direction, n: Bits, r: Bits) {
    match dir
    case Down => Before(r, n)
    case Right => Before(r, n) || r == n || Below(n, false, r)
    case Up => Before(r, n) || n <= r
  }

  /** Entering a node and moving on to its left child, or to its right side if it has none. */
  lemma StepDown(P: set<Bits>, n: Bits, c: Option<Bits>, r: Bits)
    requires n in P && r in P && ChildIs(P, n, false, c)
    ensures match c
            case Some(q) => Done(Down, q, r) <==> Done(Down, n, r) || r == n
            case None => Done(Right, n, r) <==> Done(Down, n, r) || r == n
  {
    BeforeTotal(n, r);
    if c.Some? {
      var q := c.value;
      BelowBefore(n, q, q);
      if n <= r {
        PrefixCases(n, r);
        if n < r {
          BelowBefore(n, r, r);
          BelowBefore(n, q, r);
          if Below(n, false, r) { PrefixCases(q, r); BelowBefore(q, r, r); BeforeTotal(q, r); }
          BeforeTotal(r, q);
        }
      } else {
        SubtreeContiguous(n, q, r);
        BeforeTotal(n, r);
      }
    }
  }

  /** From the right side of a node into its right child, or up if it has none. */
  lemma StepRight(P: set<Bits>, n: Bits, c: Option<Bits>, r: Bits)
    requires n in P && r in P && ChildIs(P, n, true, c)
    ensures match c
            case Some(q) => Done(Down, q, r) <==> Done(Right, n, r)
            case None => Done(Up, n, r) <==> Done(Right, n, r)
  {
    if n <= r { PrefixCases(n, r); }
    match c
    case None =>
    case Some(q) =>
      if n <= r {
        BelowBefore(n, q, q);
        BelowBefore(n, r, q);
        if Below(n, true, r) {
          PrefixCases(q, r);
          BelowBefore(q, r, r);
          BeforeTotal(q, r);
          BelowBefore(n, r, r);
          BeforeTotal(n, r);
        }
      } else {
        SubtreeContiguous(n, q, r);
      }
  }

  /** From a finished subtree to its parent: to the right side from the left, further up from the right. */
  lemma StepUp(P: set<Bits>, n: Bits, y: Bits, r: Bits)
    requires n in P && r in P && n < y && IsChild(P, n, y[|n|], y)
    ensures Done(Up, y, r) <==> Done(if y[|n|] then Up else Right, n, r)
  {
    if n <= r {
      PrefixCases(n, r);
      BelowBefore(n, y, y);
      BeforeTotal(n, y);
      if n < r {
        BelowBefore(n, r, r);
        BeforeTotal(n, r);
        if y[|n|] { BelowBefore(n, r, y); } else { BelowBefore(n, y, r); }
        BeforeTotal(y, r);
        assert Below(n, y[|n|], r) <==> y <= r;
      }
    } else {
      SubtreeContiguous(n, y, r);
      assert !(y <= r);
    }
  }

  lemma DownAtRoot(P: set<Bits>, n: Bits, r: Bits)
    requires IsRoot(P, n) && r in P
    ensures !Done(Down, n, r)
  {
    PrefixCases(n, r);
    BelowBefore(n, r, r);
    BeforeTotal(n, r);
  }

  /** What is behind comes before what is ahead. */
  lemma DoneComesFirst(dir: Direction, n: Bits, k: Bits, w: Bits)
    requires Done(dir, n, k) && !Done(dir, n, w)
    ensures Before(k, w)
  {
    BeforeTotal(n, w);
    if Before(k, n) && Before(n, w) { BeforeTrans(k, n, w); }
    if n <= w {
      PrefixCases(n, w);
      BelowBefore(n, w, w);
      BelowBefore(n, k, w);
      if Before(k, n) && n < w { BeforeTrans(k, n, w); }
    } else if n <= k {
      SubtreeContiguous(n, k, w);
    }
  }

  // ----- listings -----

  ghost predicate Ordered(keys: seq<Bits>) {
    forall i, j :: 0 <= i < j < |keys| ==> Before(keys[i], keys[j])
  }

  /** The keys of S, each once, in prefix-lexicographic order. */
  ghost predicate Lists(keys: seq<Bits>, S: set<Bits>) {
    Ordered(keys) && forall k :: k in keys <==> k in S
  }

  lemma ListsNext(keys: seq<Bits>, S: set<Bits>, n: Bits)
    requires Lists(keys, S) && forall k :: k in S ==> Before(k, n)
    ensures Lists(keys + [n], S + {n})
  {}

  /** There is only one such list. */
  lemma {:induction false} ListsUnique(keys: seq<Bits>, keys': seq<Bits>, S: set<Bits>)
    requires Lists(keys, S) && Lists(keys', S)
    ensures keys == keys'
    decreases |keys|
  {
    assert (keys != [] ==> keys[0] in keys) && (keys' != [] ==> keys'[0] in keys');
    if keys != [] && keys' != [] {
      LastIsLast(keys, keys', S);
      LastIsLast(keys', keys, S);
      var l, l' := keys[|keys| - 1], keys'[|keys'| - 1];
      BeforeTotal(l, l');
      var m, m' := keys[..|keys| - 1], keys'[..|keys'| - 1];
      DropLast(keys, S);
      DropLast(keys', S);
      ListsUnique(m, m', S - {l});
      assert keys == m + [l] && keys' == m' + [l];
    }
  }

  lemma LastIsLast(keys: seq<Bits>, keys': seq<Bits>, S: set<Bits>)
    requires Lists(keys, S) && Lists(keys', S) && keys != [] && keys' != []
    ensures var l, l' := keys[|keys| - 1], keys'[|keys'| - 1]; l == l' || Before(l, l')
  {
    var l := keys[|keys| - 1];
    assert l in S && l in keys';
    var i :| 0 <= i < |keys'| && keys'[i] == l;
  }

  lemma DropLast(keys: seq<Bits>, S: set<Bits>)
    requires Lists(keys, S) && keys != []
    ensures Lists(keys[..|keys| - 1], S - {keys[|keys| - 1]})
  {
    var m, l := keys[..|keys| - 1], keys[|keys| - 1];
    forall k ensures k in m <==> k in S - {l} {
      if k in m {
        var i :| 0 <= i < |m| && m[i] == k;
        BeforeTotal(keys[i], l);
        assert keys[i] in keys;
      }
      if k in S - {l} { assert k in keys; }
    }
  }
}
