/** Red-black trees as maps from nodes to their fields. Every node carries its place in the order
    and the interval of places that its subtree covers, so that all conditions are local to a node
    and its neighbours, and a rotation changes four nodes and no place. */
module RbShape {
  /** A pointer value that the tree does not look into (void *rbt_data). */
  type Data = int

  /** struct _std_rbtree_node */
  class Node {
    const data: Data
    var left: Node
    var right: Node
    var parent: Node
    var red: bool

    constructor Nil()
      ensures left == this && right == this && parent == this && !red
    {
      data, left, right, parent, red := 0, this, this, this, false;
    }

    constructor (data: Data, nil: Node)
      ensures this.data == data
    {
      this.data, left, right, parent, red := data, nil, nil, nil, false;
    }
  }

  /** The fields of a node, its place, the open interval of places of its subtree, and the number of
      black nodes on each path below it. Side false is left, side true is right. */
  datatype Cell = Cell(left: Node, right: Node, parent: Node, red: bool, at: real, lo: real, hi: real, bh: nat) {
    function Kid(side: bool): Node { if side then right else left }
    function Lo(side: bool): real { if side then at else lo }
    function Hi(side: bool): real { if side then hi else at }
    function WithKid(side: bool, k: Node): Cell { if side then this.(right := k) else this.(left := k) }
  }

  type Cells = map<Node, Cell>

  ghost predicate Vacant(S: Cells, lo: real, hi: real) {
    forall y :: y in S ==> !(lo < S[y].at < hi)
  }

  // ----- structure -----

  /** The link from x down on one side: nothing lies there, or a child that covers all of that side. */
  ghost predicate KidOk(S: Cells, nil: Node, x: Node, side: bool)
    requires x in S
  {
    var c := S[x];
    var k := c.Kid(side);
    if k == nil then Vacant(S, c.Lo(side), c.Hi(side))
    else k in S && S[k].parent == x && S[k].lo == c.Lo(side) && S[k].hi == c.Hi(side)
  }

  ghost predicate ParentOk(S: Cells, nil: Node, root: Node, x: Node)
    requires x in S
  {
    var c := S[x];
    if c.parent == nil then x == root && c.lo == 0.0 && c.hi == 1.0
    else c.parent in S && (S[c.parent].left == x || S[c.parent].right == x)
  }

  ghost predicate CellOk(S: Cells, nil: Node, root: Node, x: Node)
    requires x in S
  {
    var c := S[x];
    && x != nil && c.lo < c.at < c.hi && KidOk(S, nil, x, false) && KidOk(S, nil, x, true)
    && ParentOk(S, nil, root, x)
  }

  ghost predicate SamePlace(S: Cells, x: Node, y: Node)
    requires x in S && y in S
  {
    S[x].at == S[y].at
  }

  /** A search tree over the places 0 to 1. */
  ghost predicate Tree(S: Cells, nil: Node, root: Node) {
    && nil !in S && (if root == nil then S == map[] else root in S && S[root].parent == nil)
    && (forall x {:trigger CellOk(S, nil, root, x)} :: x in S ==> CellOk(S, nil, root, x))
    && PlacesApart(S)
  }

  ghost predicate PlacesApart(S: Cells) {
    forall x, y {:trigger SamePlace(S, x, y)} :: x in S && y in S && SamePlace(S, x, y) ==> x == y
  }

  lemma PlacesStayApart(S: Cells, S': Cells)
    requires PlacesApart(S) && S'.Keys <= S.Keys && forall n :: n in S' ==> S'[n].at == S[n].at
    ensures PlacesApart(S')
  {
    forall m, n | m in S' && n in S' && SamePlace(S', m, n) ensures m == n { assert SamePlace(S, m, n); }
  }

  /** On which side of its parent a node is. */
  function SideOf(S: Cells, x: Node): bool
    requires x in S && S[x].parent in S
  {
    S[S[x].parent].right == x
  }

  lemma Above(S: Cells, nil: Node, root: Node, x: Node)
    requires Tree(S, nil, root) && x in S
    ensures nil !in S && x != nil && S[x].lo < S[x].at < S[x].hi && KidOk(S, nil, x, false) && KidOk(S, nil, x, true)
    ensures S[x].parent == nil <==> x == root
    ensures S[x].parent == nil ==> S[x].lo == 0.0 && S[x].hi == 1.0
    ensures S[x].parent != nil ==>
              var p := S[x].parent;
              && p in S && p != x && S[p].Kid(SideOf(S, x)) == x && S[p].Kid(!SideOf(S, x)) != x
              && S[x].lo == S[p].Lo(SideOf(S, x)) && S[x].hi == S[p].Hi(SideOf(S, x))
  {
    assert CellOk(S, nil, root, x);
    var p := S[x].parent;
    if p != nil { assert CellOk(S, nil, root, p); }
  }

  // ----- rotation -----

  /** A node's fields after x has gone down and its child on the given side has taken its position. */
  function RotatedCell(S: Cells, x: Node, side: bool, n: Node): Cell
    requires x in S && S[x].Kid(side) in S && n in S
  {
    var cx, y := S[x], S[x].Kid(side);
    var cy := S[y];
    if n == x then
      cx.WithKid(side, cy.Kid(!side)).(parent := y, lo := if side then cx.lo else cy.at, hi := if side then cy.at else cx.hi)
    else if n == y then cy.WithKid(!side, x).(parent := cx.parent, lo := cx.lo, hi := cx.hi)
    else if n == cy.Kid(!side) then S[n].(parent := x)
    else if n == cx.parent then S[n].WithKid(S[n].right == x, y)
    else S[n]
  }

  function Rotated(S: Cells, x: Node, side: bool): (S': Cells)
    requires x in S && S[x].Kid(side) in S
  {
    map n | n in S :: RotatedCell(S, x, side, n)
  }

  function RotatedRoot(S: Cells, nil: Node, root: Node, x: Node, side: bool): Node
    requires x in S
  {
    if S[x].parent == nil then S[x].Kid(side) else root
  }

  lemma SameVacancy(S: Cells, S': Cells, lo: real, hi: real)
    requires S.Keys == S'.Keys && forall y :: y in S ==> S'[y].at == S[y].at
    ensures Vacant(S, lo, hi) <==> Vacant(S', lo, hi)
  {}

  /** The four nodes of a rotation are different nodes. */
  lemma Around(S: Cells, nil: Node, root: Node, x: Node, side: bool)
    requires Tree(S, nil, root) && x in S && S[x].Kid(side) != nil
    ensures var y := S[x].Kid(side);
            && x != nil && y in S && y != x && S[y].parent == x
            && var b, p := S[y].Kid(!side), S[x].parent;
            && (b != nil ==> b in S && b != x && b != y && b != p && S[b].parent == y)
            && (p != nil ==> p in S && p != x && p != y)
            && S[x].Kid(!side) != y && (b != nil ==> S[y].Kid(side) != b)
  {
    var y := S[x].Kid(side);
    Above(S, nil, root, x);
    Above(S, nil, root, y);
    var b, p := S[y].Kid(!side), S[x].parent;
    if b != nil { Above(S, nil, root, b); }
  }

  lemma RotatedRange(S: Cells, nil: Node, root: Node, x: Node, side: bool, n: Node)
    requires Tree(S, nil, root) && x in S && S[x].Kid(side) != nil && S[x].Kid(side) in S && n in S
    ensures var c := Rotated(S, x, side)[n]; c.lo < c.at < c.hi
  {
    Above(S, nil, root, n);
    Above(S, nil, root, x);
    Above(S, nil, root, S[x].Kid(side));
  }

  /** The children after a rotation. */
  lemma RotatedKids(S: Cells, nil: Node, root: Node, x: Node, side: bool, n: Node, s: bool)
    requires Tree(S, nil, root) && x in S && S[x].Kid(side) != nil && S[x].Kid(side) in S && n in S
    ensures var y := S[x].Kid(side);
            RotatedCell(S, x, side, n).Kid(s) ==
              if n == x then (if s == side then S[y].Kid(!side) else S[x].Kid(s))
              else if n == y then (if s == side then S[y].Kid(s) else x)
              else if S[n].Kid(s) == x then y else S[n].Kid(s)
    ensures n != x ==> S[n].Kid(s) != S[x].Kid(side)
    ensures n == x && s != side ==> S[x].Kid(s) != x && S[x].Kid(s) != S[x].Kid(side)
    ensures n == S[x].Kid(side) ==> S[n].Kid(s) != x && S[n].Kid(s) != n
  {
    var y := S[x].Kid(side);
    Around(S, nil, root, x, side);
    assert n != nil && KidOk(S, nil, n, s) by { Above(S, nil, root, n); }
    assert S[y].parent == x;
    if n == S[x].parent { Above(S, nil, root, x); }
    if n == y { Above(S, nil, root, y); }
  }

  /** The links down from the two nodes that turn. */
  lemma RotatedKidOfLower(S: Cells, nil: Node, root: Node, x: Node, side: bool, s: bool)
    requires Tree(S, nil, root) && x in S && S[x].Kid(side) != nil && S[x].Kid(side) in S
    ensures KidOk(Rotated(S, x, side), nil, x, s)
  {
    var S', y := Rotated(S, x, side), S[x].Kid(side);
    Around(S, nil, root, x, side);
    SameVacancy(S, S', S'[x].Lo(s), S'[x].Hi(s));
    assert KidOk(S, nil, x, s) && KidOk(S, nil, x, side) && KidOk(S, nil, y, !side) by {
      Above(S, nil, root, x);
      Above(S, nil, root, y);
    }
  }

  lemma RotatedKidOfUpper(S: Cells, nil: Node, root: Node, x: Node, side: bool, s: bool)
    requires Tree(S, nil, root) && x in S && S[x].Kid(side) != nil && S[x].Kid(side) in S
    ensures KidOk(Rotated(S, x, side), nil, S[x].Kid(side), s)
  {
    var S', y := Rotated(S, x, side), S[x].Kid(side);
    Around(S, nil, root, x, side);
    SameVacancy(S, S', S'[y].Lo(s), S'[y].Hi(s));
    assert KidOk(S, nil, x, side) && KidOk(S, nil, y, side) by {
      Above(S, nil, root, x);
      Above(S, nil, root, y);
    }
    assert x != nil && S[y].lo < S[y].hi by {
      Above(S, nil, root, x);
      Above(S, nil, root, y);
    }
  }

  /** The link down to the two nodes that turn. */
  lemma RotatedKidOfParent(S: Cells, nil: Node, root: Node, x: Node, side: bool)
    requires Tree(S, nil, root) && x in S && S[x].Kid(side) != nil && S[x].Kid(side) in S && S[x].parent in S
    ensures KidOk(Rotated(S, x, side), nil, S[x].parent, SideOf(S, x))
  {
    var S', y, n, s := Rotated(S, x, side), S[x].Kid(side), S[x].parent, SideOf(S, x);
    Around(S, nil, root, x, side);
    SameVacancy(S, S', S[n].Lo(s), S[n].Hi(s));
    Above(S, nil, root, x);
    assert n != nil && KidOk(S, nil, n, s) by { Above(S, nil, root, n); }
    assert S'[n].Kid(s) == y;
  }

  lemma RotatedKidOfOther(S: Cells, nil: Node, root: Node, x: Node, side: bool, n: Node, s: bool)
    requires Tree(S, nil, root) && x in S && S[x].Kid(side) != nil && S[x].Kid(side) in S && n in S
    requires n != x && n != S[x].Kid(side)
    ensures KidOk(Rotated(S, x, side), nil, n, s)
  {
    if n == S[x].parent && s == SideOf(S, x) {
      RotatedKidOfParent(S, nil, root, x, side);
    } else {
      RotatedKidElsewhere(S, nil, root, x, side, n, s);
    }
  }

  lemma RotatedKidElsewhere(S: Cells, nil: Node, root: Node, x: Node, side: bool, n: Node, s: bool)
    requires Tree(S, nil, root) && x in S && S[x].Kid(side) != nil && S[x].Kid(side) in S && n in S
    requires n != x && n != S[x].Kid(side) && !(n == S[x].parent && s == SideOf(S, x))
    ensures KidOk(Rotated(S, x, side), nil, n, s)
  {
    var S', y := Rotated(S, x, side), S[x].Kid(side);
    Around(S, nil, root, x, side);
    SameVacancy(S, S', S[n].Lo(s), S[n].Hi(s));
    assert n != nil && KidOk(S, nil, n, s) by { Above(S, nil, root, n); }
    assert S[n].Kid(s) != x by { if n == S[x].parent { Above(S, nil, root, x); } }
    assert S[n].Kid(s) != y && S'[n].Kid(s) == S[n].Kid(s);
  }

  /** The link up from the two nodes that turn. */
  lemma RotatedParentOfPair(S: Cells, nil: Node, root: Node, x: Node, side: bool)
    requires Tree(S, nil, root) && x in S && S[x].Kid(side) != nil && S[x].Kid(side) in S
    ensures var S', root' := Rotated(S, x, side), RotatedRoot(S, nil, root, x, side);
            ParentOk(S', nil, root', x) && ParentOk(S', nil, root', S[x].Kid(side))
  {
    Around(S, nil, root, x, side);
    Above(S, nil, root, x);
  }

  lemma RotatedParentOfOther(S: Cells, nil: Node, root: Node, x: Node, side: bool, n: Node)
    requires Tree(S, nil, root) && x in S && S[x].Kid(side) != nil && S[x].Kid(side) in S && n in S
    requires n != x && n != S[x].Kid(side)
    ensures ParentOk(Rotated(S, x, side), nil, RotatedRoot(S, nil, root, x, side), n)
  {
    Around(S, nil, root, x, side);
    assert ParentOk(S, nil, root, n) by { Above(S, nil, root, n); }
    assert n != nil by { Above(S, nil, root, n); }
    Above(S, nil, root, x);
  }

  lemma RotatedCellOk(S: Cells, nil: Node, root: Node, x: Node, side: bool, n: Node)
    requires Tree(S, nil, root) && x in S && S[x].Kid(side) != nil && S[x].Kid(side) in S && n in S
    ensures CellOk(Rotated(S, x, side), nil, RotatedRoot(S, nil, root, x, side), n)
  {
    RotatedRange(S, nil, root, x, side, n);
    assert n != nil by { Above(S, nil, root, n); }
    if n == x || n == S[x].Kid(side) {
      RotatedParentOfPair(S, nil, root, x, side);
      RotatedKidOfLower(S, nil, root, x, side, false);
      RotatedKidOfLower(S, nil, root, x, side, true);
      RotatedKidOfUpper(S, nil, root, x, side, false);
      RotatedKidOfUpper(S, nil, root, x, side, true);
    } else {
      RotatedParentOfOther(S, nil, root, x, side, n);
      RotatedKidOfOther(S, nil, root, x, side, n, false);
      RotatedKidOfOther(S, nil, root, x, side, n, true);
    }
  }

  lemma RotatedTop(S: Cells, nil: Node, root: Node, x: Node, side: bool)
    requires Tree(S, nil, root) && x in S && S[x].Kid(side) != nil && S[x].Kid(side) in S
    ensures var S', root' := Rotated(S, x, side), RotatedRoot(S, nil, root, x, side); root' != nil && root' in S' && S'[root'].parent == nil
  {
    Around(S, nil, root, x, side);
    Above(S, nil, root, x);
  }

  lemma RotationIsTree(S: Cells, nil: Node, root: Node, x: Node, side: bool)
    requires Tree(S, nil, root) && x in S && S[x].Kid(side) != nil
    ensures S[x].Kid(side) in S
    ensures Tree(Rotated(S, x, side), nil, RotatedRoot(S, nil, root, x, side))
  {
    Around(S, nil, root, x, side);
    var S', root' := Rotated(S, x, side), RotatedRoot(S, nil, root, x, side);
    RotatedTop(S, nil, root, x, side);
    PlacesStayApart(S, S');
    forall n | n in S' ensures CellOk(S', nil, root', n) { RotatedCellOk(S, nil, root, x, side, n); }
  }
}
