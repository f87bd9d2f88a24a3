/** Adding a leaf, taking out a node with at most one child, and putting one node in another's
    position; and how high the tree is. */
module RbUpdate {
  import opened Options
  import opened RbColor
  import opened RbInsertFix
  import opened RbRemoveFix
  import opened RbShape

  ghost function Inside(S: Cells, x: Node): set<Node> {
    if x in S then set n | n in S && S[x].lo < S[n].at < S[x].hi else {}
  }

  /** The nodes of a subtree are its top and those on its two sides. */
  lemma InsideSplits(S: Cells, nil: Node, root: Node, x: Node)
    requires Tree(S, nil, root) && x in S
    ensures Inside(S, x) == {x} + Inside(S, S[x].left) + Inside(S, S[x].right)
    ensures x !in Inside(S, S[x].left) && x !in Inside(S, S[x].right) && Inside(S, S[x].left) !! Inside(S, S[x].right)
    ensures forall s :: Inside(S, S[x].Kid(s)) < Inside(S, x)
  {
    Above(S, nil, root, x);
    forall n | n in Inside(S, x) ensures n == x || n in Inside(S, S[x].left) || n in Inside(S, S[x].right) {
      assert S[n].at == S[x].at ==> SamePlace(S, n, x);
    }
  }

  // ----- a new leaf -----

  ghost predicate InGap(S: Cells, nil: Node, n: Node, s: bool, g: real)
    requires n in S
  {
    S[n].Kid(s) == nil && S[n].Lo(s) < g < S[n].Hi(s)
  }

  /** No two free positions overlap: the search for a place from the root leads to one of them. */
  lemma {:induction false} GapIsUnique(S: Cells, nil: Node, root: Node, r: Node, n: Node, s: bool, p: Node, t: bool, g: real)
    requires Tree(S, nil, root) && n in S && p in S && r in S && InGap(S, nil, n, s, g) && InGap(S, nil, p, t, g)
    requires S[r].lo < g < S[r].hi && n in Inside(S, r) && p in Inside(S, r)
    ensures n == p && s == t
    decreases Inside(S, r)
  {
    Above(S, nil, root, n);
    Above(S, nil, root, p);
    Above(S, nil, root, r);
    assert n != p ==> !SamePlace(S, n, p);
    if n == p {
    } else if r != n && r != p {
      var side := g > S[r].at;
      var k := S[r].Kid(side);
      assert !SamePlace(S, r, n) && !SamePlace(S, r, p);
      InsideSplits(S, nil, root, r);
      GapIsUnique(S, nil, root, k, n, s, p, t, g);
    }
  }

  function Leaf(nil: Node, parent: Node, lo: real, hi: real): Cell {
    Cell(nil, nil, parent, true, (lo + hi) / 2.0, lo, hi, 0)
  }

  function Attached(S: Cells, nil: Node, p: Node, side: bool, z: Node): Cells {
    if p in S then S[p := S[p].WithKid(side, z)][z := Leaf(nil, p, S[p].Lo(side), S[p].Hi(side))]
    else S[z := Leaf(nil, nil, 0.0, 1.0)]
  }

  /** The new leaf does not get in the way of any other free position. */
  lemma OtherGapsStay(S: Cells, nil: Node, root: Node, p: Node, side: bool, n: Node, s: bool, g: real)
    requires Tree(S, nil, root) && p in S && n in S && InGap(S, nil, p, side, g) && S[n].Kid(s) == nil && (n, s) != (p, side)
    ensures !(S[n].Lo(s) < g < S[n].Hi(s))
  {
    if S[n].Lo(s) < g < S[n].Hi(s) {
      RootCovers(S, nil, root);
      InUnit(S, nil, root, p);
      GapIsUnique(S, nil, root, root, n, s, p, side, g);
    }
  }

  lemma AttachedKid(S: Cells, nil: Node, root: Node, p: Node, side: bool, z: Node, n: Node, s: bool)
    requires Tree(S, nil, root) && z !in S && z != nil && p in S && S[p].Kid(side) == nil && n in S
    ensures KidOk(Attached(S, nil, p, side, z), nil, n, s)
  {
    var S' := Attached(S, nil, p, side, z);
    Above(S, nil, root, p);
    assert KidOk(S, nil, n, s) by { Above(S, nil, root, n); }
    if S[n].Kid(s) == nil && (n, s) != (p, side) {
      OtherGapsStay(S, nil, root, p, side, n, s, S'[z].at);
    }
  }

  /** The leaf lies where nothing else is. */
  lemma LeafIsOk(S: Cells, nil: Node, root: Node, p: Node, side: bool, z: Node)
    requires Tree(S, nil, root) && z !in S && z != nil && p in S && S[p].Kid(side) == nil
    ensures var S' := Attached(S, nil, p, side, z);
            && CellOk(S', nil, root, z) && nil !in S' && root in S' && root != nil && S'[root].parent == nil
            && S'.Keys == S.Keys + {z} && forall m :: m in S ==> S'[m].at == S[m].at != S'[z].at
  {
    Above(S, nil, root, p);
  }

  lemma AttachedCellOk(S: Cells, nil: Node, root: Node, p: Node, side: bool, z: Node, n: Node)
    requires Tree(S, nil, root) && z !in S && z != nil && p in S && S[p].Kid(side) == nil && n in S
    ensures n in Attached(S, nil, p, side, z) && CellOk(Attached(S, nil, p, side, z), nil, root, n)
  {
    AttachedKid(S, nil, root, p, side, z, n, false);
    AttachedKid(S, nil, root, p, side, z, n, true);
    AttachedParent(S, nil, root, p, side, z, n);
  }

  lemma AttachedApart(S: Cells, S': Cells, z: Node)
    requires PlacesApart(S) && S'.Keys == S.Keys + {z} && forall m :: m in S ==> S'[m].at == S[m].at != S'[z].at
    ensures PlacesApart(S')
  {
    forall m, n | m in S' && n in S' && SamePlace(S', m, n) ensures m == n {
      if m != z && n != z { assert SamePlace(S, m, n); }
    }
  }

  lemma AttachedIsTree(S: Cells, nil: Node, root: Node, p: Node, side: bool, z: Node)
    requires Tree(S, nil, root) && z !in S && z != nil && p in S && S[p].Kid(side) == nil
    ensures Tree(Attached(S, nil, p, side, z), nil, root)
  {
    var S' := Attached(S, nil, p, side, z);
    LeafIsOk(S, nil, root, p, side, z);
    AttachedApart(S, S', z);
    forall n | n in S' ensures CellOk(S', nil, root, n) {
      if n != z { AttachedCellOk(S, nil, root, p, side, z, n); }
    }
  }

  lemma AttachedParent(S: Cells, nil: Node, root: Node, p: Node, side: bool, z: Node, n: Node)
    requires Tree(S, nil, root) && z !in S && z != nil && p in S && S[p].Kid(side) == nil && n in S
    ensures var S' := Attached(S, nil, p, side, z); ParentOk(S', nil, root, n) && n != nil && S'[n].lo < S'[n].at < S'[n].hi
  {
    Above(S, nil, root, n);
  }

  lemma AttachedColours(S: Cells, nil: Node, root: Node, p: Node, side: bool, z: Node, n: Node)
    requires RedBlack(S, nil, root) && z !in S && z != nil && p in S && S[p].Kid(side) == nil && n in S
    ensures EvenAt(Attached(S, nil, p, side, z), None, n) && CalmAt(Attached(S, nil, p, side, z), n)
  {
    assert EvenAt(S, None, n) && CalmAt(S, n);
    Above(S, nil, root, n);
  }

  /** The new leaf is red, and only its parent may be red as well. */
  lemma AttachKeepsFix(S: Cells, nil: Node, root: Node, p: Node, side: bool, z: Node)
    requires RedBlack(S, nil, root) && z !in S && z != nil
    requires if p in S then S[p].Kid(side) == nil else S == map[]
    ensures InsertFix(Attached(S, nil, p, side, z), nil, if p in S then root else z, z)
  {
    var S' := Attached(S, nil, p, side, z);
    if p in S {
      AttachedIsTree(S, nil, root, p, side, z);
      forall n | n in S' ensures EvenAt(S', None, n) && (n != z ==> CalmAt(S', n)) {
        if n != z { AttachedColours(S, nil, root, p, side, z, n); }
      }
    } else {
      assert CellOk(S', nil, z, z);
      assert EvenAt(S', None, z);
    }
  }

  lemma {:induction false} RootCovers(S: Cells, nil: Node, root: Node)
    requires Tree(S, nil, root) && S != map[]
    ensures root in S && Inside(S, root) == S.Keys && S[root].lo == 0.0 && S[root].hi == 1.0
  {
    Above(S, nil, root, root);
    forall n | n in S ensures 0.0 < S[n].at < 1.0 { InUnit(S, nil, root, n); }
  }

  lemma {:induction false} InUnit(S: Cells, nil: Node, root: Node, n: Node)
    requires Tree(S, nil, root) && n in S
    ensures 0.0 <= S[n].lo < S[n].at < S[n].hi <= 1.0
    decreases S.Keys - Inside(S, n)
  {
    Above(S, nil, root, n);
    if S[n].parent != nil {
      var p := S[n].parent;
      InsideSplits(S, nil, root, p);
      assert Inside(S, n) < Inside(S, p) <= S.Keys by { assert n == S[p].Kid(SideOf(S, n)); }
      InUnit(S, nil, root, p);
    }
  }

  // ----- taking out a node with at most one child -----

  function OnlyKid(S: Cells, nil: Node, y: Node): Node
    requires y in S
  {
    if S[y].left != nil then S[y].left else S[y].right
  }

  function SplicedCell(S: Cells, nil: Node, y: Node, n: Node): Cell
    requires y in S && n in S
  {
    if n == S[y].parent then S[n].WithKid(S[n].right == y, OnlyKid(S, nil, y))
    else if n == OnlyKid(S, nil, y) then S[n].(parent := S[y].parent, lo := S[y].lo, hi := S[y].hi)
    else S[n]
  }

  function Spliced(S: Cells, nil: Node, y: Node): Cells
    requires y in S
  {
    map n | n in S && n != y :: SplicedCell(S, nil, y, n)
  }

  function SplicedRoot(S: Cells, nil: Node, root: Node, y: Node): Node
    requires y in S
  {
    if S[y].parent == nil then OnlyKid(S, nil, y) else root
  }

  ghost predicate CanSplice(S: Cells, nil: Node, root: Node, y: Node) {
    RedBlack(S, nil, root) && y in S && (S[y].left == nil || S[y].right == nil)
  }

  /** By the colours, the only child of a node is a red leaf below a black node. */
  lemma OnlyKidIsLeaf(S: Cells, nil: Node, root: Node, y: Node)
    requires CanSplice(S, nil, root, y)
    ensures S[y].bh == 0 && y != nil && y != S[y].parent && OnlyKid(S, nil, y) != y
    ensures var x := OnlyKid(S, nil, y);
            x != nil ==> x in S && x != S[y].parent && S[x].parent == y && S[x].red && !S[y].red && S[x].bh == 0 && S[x].left == nil && S[x].right == nil
  {
    Above(S, nil, root, y);
    assert EvenAt(S, None, y) && Weight(S, y, false, None) == Weight(S, y, true, None) == S[y].bh;
    var x := OnlyKid(S, nil, y);
    if x != nil {
      Above(S, nil, root, x);
      assert EvenAt(S, None, x) && CalmAt(S, x) && Weight(S, x, false, None) == Weight(S, x, true, None) == S[x].bh;
      KidsOf(S, nil, root, x);
      forall k | k in S ensures CalmAt(S, k) {}
    }
  }

  lemma SplicedKid(S: Cells, nil: Node, root: Node, y: Node, n: Node, s: bool)
    requires CanSplice(S, nil, root, y) && n in S && n != y
    ensures KidOk(Spliced(S, nil, y), nil, n, s)
  {
    var S', x := Spliced(S, nil, y), OnlyKid(S, nil, y);
    OnlyKidIsLeaf(S, nil, root, y);
    Above(S, nil, root, y);
    assert KidOk(S, nil, n, s) && n != nil by { Above(S, nil, root, n); }
    SplicedGaps(S, nil, root, y);
    if n == S[y].parent && s == SideOf(S, y) {
      assert S'[n].Kid(s) == x;
    } else if n != x && S[n].Kid(s) != nil {
      assert S[n].Kid(s) != y && S[n].Kid(s) != x;
    }
  }

  /** What y leaves free: all of its interval, or the two sides of its only child. */
  lemma SplicedGaps(S: Cells, nil: Node, root: Node, y: Node)
    requires CanSplice(S, nil, root, y)
    ensures var S', x := Spliced(S, nil, y), OnlyKid(S, nil, y);
            if x == nil then Vacant(S', S[y].lo, S[y].hi)
            else x in S && Vacant(S', S[y].lo, S[x].at) && Vacant(S', S[x].at, S[y].hi)
    ensures forall lo, hi :: Vacant(S, lo, hi) ==> Vacant(Spliced(S, nil, y), lo, hi)
  {
    var S', x := Spliced(S, nil, y), OnlyKid(S, nil, y);
    OnlyKidIsLeaf(S, nil, root, y);
    Above(S, nil, root, y);
    if x != nil { Above(S, nil, root, x); }
    forall m | m in S'
      ensures S'[m].at == S[m].at
      ensures x == nil ==> !(S[y].lo < S'[m].at < S[y].hi)
      ensures x != nil ==> !(S[y].lo < S'[m].at < S[x].at) && !(S[x].at < S'[m].at < S[y].hi)
    {
      assert !SamePlace(S, m, y);
    }
  }

  lemma SplicedParent(S: Cells, nil: Node, root: Node, y: Node, n: Node)
    requires CanSplice(S, nil, root, y) && n in S && n != y
    ensures ParentOk(Spliced(S, nil, y), nil, SplicedRoot(S, nil, root, y), n)
    ensures var c := Spliced(S, nil, y)[n]; n != nil && c.lo < c.at < c.hi
  {
    OnlyKidIsLeaf(S, nil, root, y);
    Above(S, nil, root, y);
    Above(S, nil, root, n);
    if OnlyKid(S, nil, y) != nil { Above(S, nil, root, OnlyKid(S, nil, y)); }
  }

  lemma SplicedTop(S: Cells, nil: Node, root: Node, y: Node)
    requires CanSplice(S, nil, root, y)
    ensures var S', root' := Spliced(S, nil, y), SplicedRoot(S, nil, root, y);
            if root' == nil then S' == map[] else root' in S' && S'[root'].parent == nil
  {
    OnlyKidIsLeaf(S, nil, root, y);
    Above(S, nil, root, y);
    if S[y].parent == nil && OnlyKid(S, nil, y) == nil {
      RootCovers(S, nil, root);
      forall n | n in S ensures n == y { assert !(n != y && SamePlace(S, n, y)); }
    } else if S[y].parent != nil {
      Above(S, nil, root, root);
    }
  }

  lemma SplicedIsTree(S: Cells, nil: Node, root: Node, y: Node)
    requires CanSplice(S, nil, root, y)
    ensures Tree(Spliced(S, nil, y), nil, SplicedRoot(S, nil, root, y))
  {
    var S', root' := Spliced(S, nil, y), SplicedRoot(S, nil, root, y);
    SplicedTop(S, nil, root, y);
    OnlyKidIsLeaf(S, nil, root, y);
    forall n | n in S' ensures S'[n].at == S[n].at && CellOk(S', nil, root', n) {
      SplicedParent(S, nil, root, y, n);
      SplicedKid(S, nil, root, y, n, false);
      SplicedKid(S, nil, root, y, n, true);
    }
    PlacesStayApart(S, S');
  }

  lemma SplicedEven(S: Cells, nil: Node, root: Node, y: Node, D: Short, n: Node, s: bool)
    requires CanSplice(S, nil, root, y) && n in S && n != y
    requires D == if S[y].red then None else Upwards(S, root, y)
    ensures Weight(Spliced(S, nil, y), n, s, D) == S[n].bh
  {
    var S', x := Spliced(S, nil, y), OnlyKid(S, nil, y);
    assert Weight(S, n, s, None) == S[n].bh by { assert EvenAt(S, None, n); }
    OnlyKidIsLeaf(S, nil, root, y);
    Above(S, nil, root, y);
    KidsOf(S, nil, root, n);
    if S[n].Kid(s) == y {
      assert S'[n].Kid(s) == x;
      Above(S, nil, root, y);
    } else {
      if S[n].Kid(s) != nil { Above(S, nil, root, S[n].Kid(s)); }
      assert S'[n].Kid(s) == S[n].Kid(s);
      assert Height(S', S[n].Kid(s)) == Height(S, S[n].Kid(s));
    }
  }

  /** After y is taken out its only child has taken its position, one black short if y was black. */
  lemma SpliceKeepsFix(S: Cells, nil: Node, root: Node, y: Node)
    requires CanSplice(S, nil, root, y)
    ensures var S', root' := Spliced(S, nil, y), SplicedRoot(S, nil, root, y);
            if S[y].red then RedBlack(S', nil, root')
            else RemoveFix(S', nil, root', OnlyKid(S, nil, y), Upwards(S, root, y))
  {
    var S', root' := Spliced(S, nil, y), SplicedRoot(S, nil, root, y);
    var D := if S[y].red then None else Upwards(S, root, y);
    SplicedIsTree(S, nil, root, y);
    OnlyKidIsLeaf(S, nil, root, y);
    Above(S, nil, root, y);
    forall n | n in S' ensures EvenAt(S', D, n) {
      SplicedEven(S, nil, root, y, D, n, false);
      SplicedEven(S, nil, root, y, D, n, true);
    }
    forall n | n in S' && n != OnlyKid(S, nil, y) ensures CalmAt(S', n) { assert CalmAt(S, n); Above(S, nil, root, n); }
  }

  // ----- putting y in the position of z -----

  function Renaming(n: Node, z: Node, y: Node): Node {
    if n == z then y else n
  }

  function RenamedCell(c: Cell, z: Node, y: Node): Cell {
    c.(left := Renaming(c.left, z, y), right := Renaming(c.right, z, y), parent := Renaming(c.parent, z, y))
  }

  function Renamed(S: Cells, z: Node, y: Node): Cells
    requires z in S
  {
    map n | n in S.Keys - {z} + {y} :: RenamedCell(if n == y then S[z] else S[n], z, y)
  }

  lemma RenamedIsRedBlack(S: Cells, nil: Node, root: Node, z: Node, y: Node)
    requires RedBlack(S, nil, root) && z in S && y !in S && y != nil
    ensures RedBlack(Renamed(S, z, y), nil, Renaming(root, z, y))
  {
    var S', root' := Renamed(S, z, y), Renaming(root, z, y);
    forall n | n in S' ensures CellOk(S', nil, root', n) { RenamedCellOk(S, nil, root, z, y, n); }
    forall n | n in S' ensures EvenAt(S', None, n) && CalmAt(S', n) { RenamedColours(S, nil, root, z, y, n); }
    RenamedTop(S, nil, root, z, y);
  }

  lemma RenamedTop(S: Cells, nil: Node, root: Node, z: Node, y: Node)
    requires RedBlack(S, nil, root) && z in S && y !in S && y != nil
    ensures var S', root' := Renamed(S, z, y), Renaming(root, z, y);
            nil !in S' && root' != nil && root' in S' && S'[root'].parent == nil && !Red(S', root') && PlacesApart(S')
  {
    Above(S, nil, root, z);
    Above(S, nil, root, root);
    var S' := Renamed(S, z, y);
    forall m, n | m in S' && n in S' && SamePlace(S', m, n) ensures m == n {
      assert SamePlace(S, if m == y then z else m, if n == y then z else n);
    }
  }

  lemma RenamedCellOk(S: Cells, nil: Node, root: Node, z: Node, y: Node, n: Node)
    requires RedBlack(S, nil, root) && z in S && y !in S && y != nil && n in Renamed(S, z, y)
    ensures CellOk(Renamed(S, z, y), nil, Renaming(root, z, y), n)
  {
    var S', o := Renamed(S, z, y), if n == y then z else n;
    Above(S, nil, root, z);
    assert CellOk(S, nil, root, o);
    forall lo, hi | Vacant(S, lo, hi) ensures Vacant(S', lo, hi) {}
  }

  lemma RenamedHeight(S: Cells, z: Node, y: Node, k: Node)
    requires z in S && y !in S && k != y
    ensures Height(Renamed(S, z, y), Renaming(k, z, y)) == Height(S, k) && (Red(Renamed(S, z, y), Renaming(k, z, y)) <==> Red(S, k))
  {}

  lemma RenamedColours(S: Cells, nil: Node, root: Node, z: Node, y: Node, n: Node)
    requires RedBlack(S, nil, root) && z in S && y !in S && y != nil && n in Renamed(S, z, y)
    ensures EvenAt(Renamed(S, z, y), None, n) && CalmAt(Renamed(S, z, y), n)
  {
    var S', o := Renamed(S, z, y), if n == y then z else n;
    assert o in S && S'[n] == RenamedCell(S[o], z, y);
    KidsOf(S, nil, root, o);
    Above(S, nil, root, o);
    assert EvenAt(S, None, o) && CalmAt(S, o);
    assert S[o].left == S[o].Kid(false) && S[o].right == S[o].Kid(true);
    RenamedHeight(S, z, y, S[o].left);
    RenamedHeight(S, z, y, S[o].right);
    RenamedHeight(S, z, y, S[o].parent);
  }

  // ----- height -----

  function Pow2(n: nat): nat {
    if n == 0 then 1 else 2 * Pow2(n - 1)
  }

  /** A subtree with h black nodes on each path has at least 2^h - 1 nodes. */
  lemma {:induction false} HeightBound(S: Cells, nil: Node, root: Node, x: Node)
    requires Tree(S, nil, root) && Even(S, None) && (x in S || x == nil)
    ensures Pow2(Height(S, x)) <= |Inside(S, x)| + 1
    decreases Inside(S, x)
  {
    if x in S {
      var l, r := S[x].left, S[x].right;
      assert (l in S || l == nil) && (r in S || r == nil) by { Above(S, nil, root, x); }
      assert Height(S, l) == Height(S, r) == S[x].bh by {
        assert EvenAt(S, None, x) && Weight(S, x, false, None) == Height(S, l) && Weight(S, x, true, None) == Height(S, r);
      }
      InsideSplits(S, nil, root, x);
      assert l == S[x].Kid(false) && r == S[x].Kid(true);
      HeightBound(S, nil, root, l);
      HeightBound(S, nil, root, r);
      Sum(x, Inside(S, l), Inside(S, r));
      OneBlackMore(S[x].bh, Height(S, x), |Inside(S, l)|, |Inside(S, r)|);
    }
  }

  lemma OneBlackMore(h: nat, h': nat, a: nat, b: nat)
    requires h <= h' <= h + 1 && Pow2(h) <= a + 1 && Pow2(h) <= b + 1
    ensures Pow2(h') <= a + b + 2
  {}

  lemma Sum<T>(x: T, A: set<T>, B: set<T>)
    requires x !in A && x !in B && A !! B
    ensures |{x} + A + B| == 1 + |A| + |B|
  {}
}
