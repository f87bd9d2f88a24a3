/** The links of a path-compressed trie, read off the set P of its node keys alone.
    Because every child and parent link is determined by P, two tries with the same
    node keys have the same shape, and changing the trie is changing P. */
module PrefixSet {
  import opened Bits
  import opened Options

  /** q is the topmost node on side b below p. */
  ghost predicate IsChild(P: set<Bits>, p: Bits, b: bool, q: Bits) {
    q in P && Below(p, b, q) && forall r :: r in P && Below(p, b, r) ==> q <= r
  }

  ghost predicate NoChild(P: set<Bits>, p: Bits, b: bool) {
    forall r :: r in P ==> !Below(p, b, r)
  }

  /** p is the longest key of P that is a proper prefix of q. */
  ghost predicate IsParent(P: set<Bits>, q: Bits, p: Bits) {
    p in P && p < q && forall r :: r in P && r < q ==> r <= p
  }

  ghost predicate IsRoot(P: set<Bits>, q: Bits) {
    q in P && forall r :: r in P ==> q <= r
  }

  lemma ChildUnique(P: set<Bits>, p: Bits, b: bool, q: Bits, q': Bits)
    requires IsChild(P, p, b, q) && IsChild(P, p, b, q')
    ensures q == q'
  {}

  lemma ParentUnique(P: set<Bits>, q: Bits, p: Bits, p': Bits)
    requires IsParent(P, q, p) && IsParent(P, q, p')
    ensures p == p'
  {}

  lemma ChildHasParent(P: set<Bits>, p: Bits, b: bool, q: Bits)
    requires p in P && IsChild(P, p, b, q)
    ensures IsParent(P, q, p)
  {
    forall r | r in P && r < q ensures r <= p {
      PrefixComparable(r, p, q);
    }
  }

  /** The child of a parent on the side of the node is the node. */
  lemma ParentHasChild(P: set<Bits>, q: Bits, p: Bits, c: Bits)
    requires q in P && IsParent(P, q, p) && IsChild(P, p, q[|p|], c)
    ensures c == q
  {
    assert Below(p, q[|p|], q);
    assert c < q ==> c <= p;
  }

  /** The child (if any) of p on side b. */
  ghost predicate ChildIs(P: set<Bits>, p: Bits, b: bool, c: Option<Bits>) {
    match c
    case None => NoChild(P, p, b)
    case Some(q) => IsChild(P, p, b, q)
  }

  /** The parent of q; the root has none. */
  ghost predicate ParentIs(P: set<Bits>, q: Bits, c: Option<Bits>) {
    match c
    case None => IsRoot(P, q)
    case Some(p) => IsParent(P, q, p)
  }

  ghost predicate RootIs(P: set<Bits>, root: Option<Bits>) {
    match root
    case None => P == {}
    case Some(q) => IsRoot(P, q)
  }

  // ----- shapes -----

  /** The links of one node, by key. */
  datatype Links = Links(left: Option<Bits>, right: Option<Bits>, parent: Option<Bits>) {
    function Child(b: bool): Option<Bits> {
      if b then right else left
    }
    function WithChild(b: bool, c: Option<Bits>): Links {
      if b then this.(right := c) else this.(left := c)
    }
  }

  type Shape = map<Bits, Links>

  ghost predicate NodeIs(P: set<Bits>, p: Bits, l: Links) {
    ChildIs(P, p, false, l.left) && ChildIs(P, p, true, l.right) && ParentIs(P, p, l.parent)
  }

  /** Every link is the one that the set of keys dictates. */
  ghost predicate Trie(S: Shape, root: Option<Bits>) {
    RootIs(S.Keys, root) && forall p {:trigger NodeIs(S.Keys, p, S[p])} :: p in S ==> NodeIs(S.Keys, p, S[p])
  }

  /** A node hangs from its parent on the side of its own next bit, and from nowhere else. */
  lemma HangsFromParent(S: Shape, root: Option<Bits>, q: Bits)
    requires Trie(S, root) && q in S && S[q].parent.Some?
    ensures var p := S[q].parent.value;
            p in S && p < q && S[p].Child(q[|p|]) == Some(q) && IsChild(S.Keys, p, q[|p|], q)
  {
    var p := S[q].parent.value;
    assert NodeIs(S.Keys, q, S[q]) && NodeIs(S.Keys, p, S[p]);
    assert Below(p, q[|p|], q);
    ParentHasChild(S.Keys, q, p, S[p].Child(q[|p|]).value);
  }

  lemma ChildKnowsParent(S: Shape, root: Option<Bits>, p: Bits, b: bool, q: Bits)
    requires Trie(S, root) && p in S && S[p].Child(b) == Some(q)
    ensures q in S && S[q].parent == Some(p) && p < q && q[|p|] == b && IsChild(S.Keys, p, b, q)
  {
    assert NodeIs(S.Keys, p, S[p]) && NodeIs(S.Keys, q, S[q]);
    ChildHasParent(S.Keys, p, b, q);
    if S[q].parent.Some? { ParentUnique(S.Keys, q, p, S[q].parent.value); }
  }

  // ----- a new leaf x below p, on a side where p had no child -----

  ghost predicate FitsBelow(P: set<Bits>, p: Bits, x: Bits) {
    p in P && p < x && NoChild(P, p, x[|p|])
  }

  lemma BelowNothing(P: set<Bits>, p: Bits, x: Bits, r: Bits)
    requires FitsBelow(P, p, x) && r in P
    ensures !(x <= r) && (r < x ==> r <= p)
    ensures forall b :: Below(r, b, x) && r != p ==> Below(r, b, p)
  {
    assert p < r ==> !Below(p, x[|p|], r);
    if r < x { PrefixComparable(r, p, x); PrefixCases(r, r); }
    if r <= p { PrefixCases(r, p); }
  }

  lemma BelowKeepsNode(P: set<Bits>, p: Bits, x: Bits, r: Bits, l: Links)
    requires FitsBelow(P, p, x) && r in P && NodeIs(P, r, l)
    ensures NodeIs(P + {x}, r, if r == p then l.WithChild(x[|p|], Some(x)) else l)
  {
    BelowNothing(P, p, x, r);
    if l.parent.Some? { BelowNothing(P, p, x, l.parent.value); }
    forall b, c | ChildIs(P, r, b, Some(c)) ensures ChildIs(P + {x}, r, b, Some(c)) {
      BelowNothing(P, p, x, c);
    }
  }

  lemma BelowNewNode(P: set<Bits>, p: Bits, x: Bits)
    requires FitsBelow(P, p, x)
    ensures x !in P && NodeIs(P + {x}, x, Links(None, None, Some(p)))
  {
    forall r | r in P ensures !(x <= r) && (r < x ==> r <= p) { BelowNothing(P, p, x, r); }
  }

  lemma HangBelow(S: Shape, root: Option<Bits>, p: Bits, x: Bits)
    requires Trie(S, root) && FitsBelow(S.Keys, p, x)
    ensures x !in S && S[p].Child(x[|p|]) == None
    ensures Trie(S[p := S[p].WithChild(x[|p|], Some(x))][x := Links(None, None, Some(p))], root)
  {
    var S' := S[p := S[p].WithChild(x[|p|], Some(x))][x := Links(None, None, Some(p))];
    BelowNewNode(S.Keys, p, x);
    assert NodeIs(S.Keys, p, S[p]);
    assert S'.Keys == S.Keys + {x};
    forall r | r in S' ensures NodeIs(S'.Keys, r, S'[r]) {
      if r in S { assert NodeIs(S.Keys, r, S[r]); BelowKeepsNode(S.Keys, p, x, r, S[r]); }
    }
    if root.Some? { BelowNothing(S.Keys, p, x, root.value); }
    assert RootIs(S'.Keys, root);
  }

  // ----- a new key x in q's place, with q as its only child -----

  ghost predicate FitsAbove(P: set<Bits>, q: Bits, x: Bits) {
    && q in P && x !in P && x < q
    && (forall r :: r in P && r < q ==> r < x)
    && (forall r :: r in P && x <= r ==> q <= r)
  }

  lemma AboveChild(P: set<Bits>, q: Bits, x: Bits, p: Bits, b: bool, c: Option<Bits>)
    requires FitsAbove(P, q, x) && p in P && ChildIs(P, p, b, c)
    ensures ChildIs(P + {x}, p, b, if c == Some(q) then Some(x) else c)
  {
    assert Below(p, b, x) ==> Below(p, b, q);
    if c.Some? && c != Some(q) && c.value <= q { PrefixCases(c.value, q); }
  }

  lemma AboveParent(P: set<Bits>, q: Bits, x: Bits, r: Bits, c: Option<Bits>)
    requires FitsAbove(P, q, x) && r in P && ParentIs(P, r, c)
    ensures ParentIs(P + {x}, r, if r == q then Some(x) else c)
    ensures r == q ==> ParentIs(P + {x}, x, c)
  {
    if r <= q { PrefixCases(r, q); }
  }

  lemma AboveNewNode(P: set<Bits>, q: Bits, x: Bits, c: Option<Bits>)
    requires FitsAbove(P, q, x) && ParentIs(P, q, c)
    ensures NodeIs(P + {x}, x, Links(None, None, c).WithChild(q[|x|], Some(q)))
  {
    AboveParent(P, q, x, q, c);
    forall r | r in P && x < r ensures r[|x|] == q[|x|] { assert q <= r; }
  }

  /** The shape after x has taken the place of q. */
  function Spliced(S: Shape, q: Bits, x: Bits): Shape
    requires q in S && x < q && (S[q].parent.Some? ==> S[q].parent.value in S && S[q].parent.value < q)
  {
    var S1 := if S[q].parent.None? then S
              else var p := S[q].parent.value; S[p := S[p].WithChild(q[|p|], Some(x))];
    S1[q := S[q].(parent := Some(x))][x := Links(None, None, S[q].parent).WithChild(q[|x|], Some(q))]
  }

  lemma SplicedNode(S: Shape, root: Option<Bits>, q: Bits, x: Bits, r: Bits)
    requires Trie(S, root) && FitsAbove(S.Keys, q, x) && r in S
    requires S[q].parent.Some? ==> S[q].parent.value in S && S[q].parent.value < q
    ensures NodeIs(S.Keys + {x}, r, Spliced(S, q, x)[r])
  {
    assert NodeIs(S.Keys, r, S[r]);
    AboveChild(S.Keys, q, x, r, false, S[r].left);
    AboveChild(S.Keys, q, x, r, true, S[r].right);
    AboveParent(S.Keys, q, x, r, S[r].parent);
    if S[q].parent.Some? { HangsFromParent(S, root, q); }
    if S[r].left == Some(q) { ChildKnowsParent(S, root, r, false, q); }
    if S[r].right == Some(q) { ChildKnowsParent(S, root, r, true, q); }
  }

  lemma SpliceAbove(S: Shape, root: Option<Bits>, q: Bits, x: Bits)
    requires Trie(S, root) && FitsAbove(S.Keys, q, x)
    ensures S[q].parent.Some? ==> S[q].parent.value in S && S[q].parent.value < q
    ensures Trie(Spliced(S, q, x), if S[q].parent.None? then Some(x) else root)
  {
    assert NodeIs(S.Keys, q, S[q]);
    var S' := Spliced(S, q, x);
    assert S'.Keys == S.Keys + {x};
    AboveNewNode(S.Keys, q, x, S[q].parent);
    forall r | r in S' ensures NodeIs(S'.Keys, r, S'[r]) {
      if r in S { SplicedNode(S, root, q, x, r); }
    }
    if S[q].parent.Some? { AboveParent(S.Keys, q, x, root.value, None); }
  }

  // ----- removing x, which has at most one child c -----

  ghost predicate OneWay(P: set<Bits>, x: Bits, c: Option<Bits>) {
    && x in P
    && (c.Some? ==> c.value in P && x < c.value)
    && (forall r :: r in P && x < r ==> c.Some? && c.value <= r)
  }

  lemma OneWayFromLinks(S: Shape, root: Option<Bits>, x: Bits)
    requires Trie(S, root) && x in S && (S[x].left == None || S[x].right == None)
    ensures OneWay(S.Keys, x, if S[x].left.Some? then S[x].left else S[x].right)
  {
    assert NodeIs(S.Keys, x, S[x]);
    forall r | r in S && x < r
      ensures S[x].Child(r[|x|]).Some? && S[x].Child(r[|x|]).value <= r
    {
      assert Below(x, r[|x|], r);
    }
  }

  lemma WithoutChild(P: set<Bits>, x: Bits, c: Option<Bits>, r: Bits, b: bool, e: Option<Bits>)
    requires OneWay(P, x, c) && r in P && r != x && ChildIs(P, r, b, e)
    ensures ChildIs(P - {x}, r, b, if e == Some(x) then c else e)
  {
    if e == Some(x) {
      forall s | s in P && s != x && Below(r, b, s) ensures c.Some? && c.value <= s { PrefixCases(x, s); }
    }
  }

  lemma WithoutParent(P: set<Bits>, x: Bits, c: Option<Bits>, e: Bits, r: Option<Bits>, px: Option<Bits>)
    requires OneWay(P, x, c) && e in P && e != x && ParentIs(P, e, r) && ParentIs(P, x, px)
    ensures ParentIs(P - {x}, e, if r == Some(x) then px else r)
    ensures r == Some(x) ==> c == Some(e)
  {
    if r == Some(x) {
      PrefixCases(c.value, e);
      forall s | s in P && s != x && s < e ensures s < x { PrefixCases(s, x); }
      if px == None { forall s | s in P && s != x ensures e <= s { PrefixCases(x, s); } }
    }
  }

  /** The shape after x has gone and its only child, if any, has been promoted. */
  function Pruned(S: Shape, x: Bits): Shape
    requires x in S && (S[x].parent.Some? ==> S[x].parent.value in S && S[x].parent.value < x)
  {
    var c := if S[x].left.Some? then S[x].left else S[x].right;
    var S1 := if S[x].parent.None? then S
              else var p := S[x].parent.value; S[p := S[p].WithChild(x[|p|], c)];
    var S2 := if c.Some? && c.value in S1 then S1[c.value := S1[c.value].(parent := S[x].parent)] else S1;
    S2 - {x}
  }

  /** Pruning replaces x by its child and x as a parent by x's parent. */
  lemma PrunedLinks(S: Shape, root: Option<Bits>, x: Bits, r: Bits)
    requires Trie(S, root) && x in S && (S[x].left == None || S[x].right == None)
    requires S[x].parent.Some? ==> S[x].parent.value in S && S[x].parent.value < x
    requires r in S && r != x
    ensures var c := if S[x].left.Some? then S[x].left else S[x].right;
            && r in Pruned(S, x)
            && Pruned(S, x)[r] == Links(
                 if S[r].left == Some(x) then c else S[r].left,
                 if S[r].right == Some(x) then c else S[r].right,
                 if c == Some(r) then S[x].parent else S[r].parent)
            && (S[r].left == Some(x) || S[r].right == Some(x) ==> S[x].parent == Some(r))
            && (S[r].parent == Some(x) ==> c == Some(r))
  {
    var c := if S[x].left.Some? then S[x].left else S[x].right;
    if S[x].parent.Some? { HangsFromParent(S, root, x); }
    if S[r].left == Some(x) { ChildKnowsParent(S, root, r, false, x); }
    if S[r].right == Some(x) { ChildKnowsParent(S, root, r, true, x); }
    if c == Some(r) { ChildKnowsParent(S, root, x, S[x].left.None?, r); }
    if S[r].parent == Some(x) { HangsFromParent(S, root, r); }
  }

  lemma PrunedNode(S: Shape, root: Option<Bits>, x: Bits, r: Bits)
    requires Trie(S, root) && x in S && (S[x].left == None || S[x].right == None)
    requires S[x].parent.Some? ==> S[x].parent.value in S && S[x].parent.value < x
    requires r in S && r != x
    ensures r in Pruned(S, x) && NodeIs(S.Keys - {x}, r, Pruned(S, x)[r])
  {
    var c := if S[x].left.Some? then S[x].left else S[x].right;
    OneWayFromLinks(S, root, x);
    assert NodeIs(S.Keys, r, S[r]) && NodeIs(S.Keys, x, S[x]);
    WithoutChild(S.Keys, x, c, r, false, S[r].left);
    WithoutChild(S.Keys, x, c, r, true, S[r].right);
    WithoutParent(S.Keys, x, c, r, S[r].parent, S[x].parent);
    PrunedLinks(S, root, x, r);
    if c == Some(r) { ChildKnowsParent(S, root, x, S[x].left.None?, r); }
  }

  lemma Prune(S: Shape, root: Option<Bits>, x: Bits)
    requires Trie(S, root) && x in S && (S[x].left == None || S[x].right == None)
    ensures S[x].parent.Some? ==> S[x].parent.value in S && S[x].parent.value < x
    ensures var c := if S[x].left.Some? then S[x].left else S[x].right;
            Trie(Pruned(S, x), if S[x].parent.None? then c else root)
  {
    var c := if S[x].left.Some? then S[x].left else S[x].right;
    OneWayFromLinks(S, root, x);
    assert NodeIs(S.Keys, x, S[x]);
    var S' := Pruned(S, x);
    assert S'.Keys == S.Keys - {x};
    forall r | r in S' ensures NodeIs(S'.Keys, r, S'[r]) { PrunedNode(S, root, x, r); }
    if S[x].parent.None? {
      forall r | r in S && r != x ensures c.Some? && c.value <= r { PrefixCases(x, r); }
    }
  }
}
