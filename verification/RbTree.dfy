/** The red-black tree of src/std_rbtree.c, with its shared sentinel, changed in place. Where the
    source writes a step twice, as mirror images, the step here takes the side as an argument. */
module RbTree {
  import opened Options
  import opened RbColor
  import opened RbInsertFix
  import opened RbRemoveFix
  import opened RbShape
  import opened RbUpdate

  type Compare = (Data, Data) -> int

  ghost predicate Consistent(compare: Compare, a: Data, b: Data, c: Data) {
    && (compare(a, b) < 0 <==> compare(b, a) > 0)
    && (compare(a, b) <= 0 && compare(b, c) <= 0 ==> compare(a, c) <= 0)
  }

  /** rbtt_compare orders the users' data; different data may compare equal. */
  ghost predicate Orders(compare: Compare) {
    forall a, b, c {:trigger Consistent(compare, a, b, c)} :: Consistent(compare, a, b, c)
  }

  ghost predicate InOrder(S: Cells, compare: Compare, m: Node, n: Node)
    requires m in S && n in S
  {
    S[m].at < S[n].at ==> compare(m.data, n.data) <= 0
  }

  /** A later place does not hold smaller data. */
  ghost predicate Ordered(S: Cells, compare: Compare) {
    forall m, n {:trigger InOrder(S, compare, m, n)} :: m in S && n in S ==> InOrder(S, compare, m, n)
  }

  class RbTable {
    const nil: Node
    const compare: Compare
    var root: Node
    var numinodes: nat
    var numinserts: nat
    var numremoved: nat

    /** The nodes of the tree and what is known of them. */
    ghost var cells: Cells

    ghost predicate Mirrors(n: Node)
      requires n in cells
      reads this`cells, n`left, n`right, n`parent, n`red
    {
      n.left == cells[n].left && n.right == cells[n].right && n.parent == cells[n].parent && n.red == cells[n].red
    }

    ghost predicate Linked()
      reads this`cells, nil`red, cells.Keys`left, cells.Keys`right, cells.Keys`parent, cells.Keys`red
    {
      nil !in cells && !nil.red && forall n {:trigger Mirrors(n)} :: n in cells ==> Mirrors(n)
    }

    ghost predicate Valid()
      reads this, nil`red, cells.Keys`left, cells.Keys`right, cells.Keys`parent, cells.Keys`red
    {
      Linked() && RedBlack(cells, nil, root) && Ordered(cells, compare) && Orders(compare) && numinodes == |cells|
    }

    constructor (compare: Compare)
      requires Orders(compare)
      ensures Valid() && cells == map[] && this.compare == compare
    {
      this.compare := compare;
      var sentinel := new Node.Nil();
      nil, root := sentinel, sentinel;
      numinodes, numinserts, numremoved := 0, 0, 0;
      cells := map[];
    }

    // ----- single steps -----

    static function KidOf(n: Node, side: bool): Node
      reads n`left, n`right
    {
      if side then n.right else n.left
    }

    /** n->rbt_color = red, and the change of the number of black nodes below it that this means. */
    method Paint(n: Node, red: bool)
      requires Linked() && n in cells
      modifies n`red, this`cells
      ensures Linked() && cells == old(cells)[n := old(cells)[n].(red := red)]
    {
      assert Mirrors(n);
      n.red := red;
      cells := cells[n := cells[n].(red := red)];
      forall m | m in cells ensures Mirrors(m) { assert old(Mirrors(m)); }
    }

    ghost method Recount(n: Node, bh: nat)
      requires Linked() && n in cells
      modifies this`cells
      ensures Linked() && cells == old(cells)[n := old(cells)[n].(bh := bh)]
    {
      assert Mirrors(n);
      cells := cells[n := cells[n].(bh := bh)];
      forall m | m in cells ensures Mirrors(m) { assert old(Mirrors(m)); }
    }

    ghost function Real(n: Node): set<Node> {
      if n == nil then {} else {n}
    }

    /** The pointer updates of a rotation. */
    method RotateLinks(x: Node, side: bool)
      requires x != nil && KidOf(x, side) != nil && KidOf(x, side) != x && x.parent != x && x.parent != KidOf(x, side)
      requires var b := KidOf(KidOf(x, side), !side); b != x && b != KidOf(x, side) && (b != nil ==> b != x.parent)
      modifies this`root, x`left, x`right, x`parent, KidOf(x, side)`left, KidOf(x, side)`right, KidOf(x, side)`parent
      modifies Real(KidOf(KidOf(x, side), !side))`parent, Real(x.parent)`left, Real(x.parent)`right
      ensures var y, p := old(KidOf(x, side)), old(x.parent);
              var b := old(KidOf(KidOf(x, side), !side));
              && KidOf(x, side) == b && KidOf(x, !side) == old(KidOf(x, !side)) && x.parent == y
              && KidOf(y, !side) == x && KidOf(y, side) == old(KidOf(KidOf(x, side), side)) && y.parent == p
              && (b != nil ==> b.parent == x)
              && (if p == nil then root == y
                  else root == old(root) && p.left == (if old(x.parent.left) == x then y else old(x.parent.left))
                       && p.right == (if old(x.parent.left) == x then old(x.parent.right) else y))
    {
      var y := KidOf(x, side);
      var b := KidOf(y, !side);
      if side { x.right := b; } else { x.left := b; }
      if b != nil { b.parent := x; }
      y.parent := x.parent;
      if x.parent != nil {
        if x == x.parent.left { x.parent.left := y; } else { x.parent.right := y; }
      } else {
        root := y;
      }
      if side { y.left := x; } else { y.right := x; }
      x.parent := y;
    }

    /** The nodes around a rotation are different ones. */
    static ghost predicate Turnable(S: Cells, nil: Node, x: Node, side: bool) {
      && nil !in S && x in S && S[x].Kid(side) in S
      && var y := S[x].Kid(side);
      && var b, p := S[y].Kid(!side), S[x].parent;
      && y != x && S[x].Kid(!side) != y && (b != nil ==> b in S && b != x && b != y && b != p && S[y].Kid(side) != b)
      && (p != nil ==> p in S && p != x && p != y && (S[p].left == x) != (S[p].right == x))
    }

    /** std_rbtree_rotateleft (side true) and std_rbtree_rotateright (side false). */
    method Rotate(x: Node, side: bool)
      requires Linked() && Tree(cells, nil, root) && x in cells && cells[x].Kid(side) != nil
      modifies this`root, this`cells, cells.Keys`left, cells.Keys`right, cells.Keys`parent
      ensures old(cells)[x].Kid(side) in old(cells)
      ensures Linked() && cells == Rotated(old(cells), x, side) && root == RotatedRoot(old(cells), nil, old(root), x, side)
    {
      IsTurnable(cells, nil, root, x, side);
      RotateHere(x, side);
    }

    static lemma IsTurnable(S: Cells, nil: Node, root: Node, x: Node, side: bool)
      requires Tree(S, nil, root) && x in S && S[x].Kid(side) != nil
      ensures Turnable(S, nil, x, side)
    {
      Around(S, nil, root, x, side);
      Above(S, nil, root, x);
    }

    method RotateHere(x: Node, side: bool)
      requires Linked() && Turnable(cells, nil, x, side)
      modifies this`root, this`cells, cells.Keys`left, cells.Keys`right, cells.Keys`parent
      ensures old(cells)[x].Kid(side) in old(cells)
      ensures Linked() && cells == Rotated(old(cells), x, side) && root == RotatedRoot(old(cells), nil, old(root), x, side)
    {
      ghost var y := cells[x].Kid(side);
      assert Mirrors(x) && Mirrors(y);
      ghost var b, p := cells[y].Kid(!side), cells[x].parent;
      if b != nil { assert Mirrors(b); }
      if p != nil { assert Mirrors(p); }
      RotateLinks(x, side);
      cells := Rotated(cells, x, side);
      forall n | n in cells ensures Mirrors(n) {
        if n == x {
          assert Mirrors(x);
        } else if n == y {
          assert Mirrors(y);
        } else if n == b {
          assert Mirrors(b);
        } else if n == p {
          assert Mirrors(p);
        } else {
          assert old(Mirrors(n)) && cells[n] == old(cells)[n];
        }
      }
    }

    // ----- insertion -----

    /** Every node keeps its place. */
    twostate predicate SamePlaces()
      reads this`cells
    {
      cells.Keys == old(cells.Keys) && forall n :: n in cells ==> cells[n].at == old(cells)[n].at
    }

    static ghost function Outside(S: Cells, x: Node): set<Node> {
      S.Keys - Inside(S, x)
    }

    /** The three colour changes for a red uncle. */
    method PushLinks(p: Node, y: Node, g: Node)
      requires Linked() && p in cells && y in cells && g in cells && p != g && y != g && p != y
      requires (cells[g].left == p && cells[g].right == y) || (cells[g].left == y && cells[g].right == p)
      modifies this`cells, p`red, y`red, g`red
      ensures Linked() && cells == Pushed(old(cells), g)
    {
      Paint(p, false);
      assert cells.Keys == old(cells.Keys);
      Paint(y, false);
      assert cells.Keys == old(cells.Keys);
      Paint(g, true);
      Recount(g, cells[g].bh + 1);
    }

    /** The case of a red uncle: the grandparent passes its black down. */
    method PushRed(x: Node, y: Node) returns (g: Node)
      requires Linked() && InsertFix(cells, nil, root, x) && RedRed(cells, root, x)
      requires cells[cells[x].parent].parent in cells && y == Uncle(cells, x) && Red(cells, y)
      modifies this`cells, cells.Keys`red
      ensures Linked() && InsertFix(cells, nil, root, g) && SamePlaces() && Outside(cells, g) < old(Outside(cells, x))
    {
      Grandparent(cells, nil, root, x);
      PushKeepsFix(cells, nil, root, x);
      PushShrinks(cells, nil, root, x);
      assert Mirrors(x) && Mirrors(cells[x].parent);
      g := x.parent.parent;
      PushLinks(x.parent, y, g);
    }

    static lemma PushShrinks(S: Cells, nil: Node, root: Node, x: Node)
      requires Tree(S, nil, root) && x in S && S[x].parent in S && S[S[x].parent].parent in S
      ensures var g := S[S[x].parent].parent; Outside(Pushed(S, g), g) < Outside(S, x)
    {
      var p := S[x].parent;
      Above(S, nil, root, x);
      Above(S, nil, root, p);
      InsideSplits(S, nil, root, p);
      InsideSplits(S, nil, root, S[p].parent);
      assert Inside(Pushed(S, S[p].parent), S[p].parent) == Inside(S, S[p].parent);
      assert S[p].Kid(SideOf(S, x)) == x && S[S[p].parent].Kid(SideOf(S, p)) == p;
    }

    static lemma TurnedPlaces(S: Cells, x: Node, side: bool)
      requires x in S && S[x].Kid(side) in S
      ensures Turned(S, x, side).Keys == S.Keys && forall n :: n in S ==> Turned(S, x, side)[n].at == S[n].at
    {}

    /** Turning x up above its parent. */
    method TurnIn(x: Node, side: bool) returns (p: Node)
      requires Linked() && InsertFix(cells, nil, root, x) && RedRed(cells, root, x)
      requires cells[cells[x].parent].parent in cells && side == SideOf(cells, x) != SideOf(cells, cells[x].parent)
      modifies this`root, this`cells, cells.Keys`left, cells.Keys`right, cells.Keys`parent
      ensures Linked() && InsertFix(cells, nil, root, p) && RedRed(cells, root, p) && cells[cells[p].parent].parent in cells
      ensures SideOf(cells, p) == SideOf(cells, cells[p].parent) == !side
      ensures Red(cells, Uncle(cells, p)) <==> old(Red(cells, Uncle(cells, x)))
      ensures SamePlaces()
    {
      assert Mirrors(x);
      p := x.parent;
      InwardIsTurn(cells, nil, root, x, side);
      Rotate(p, side);
    }

    static lemma InwardIsTurn(S: Cells, nil: Node, root: Node, x: Node, side: bool)
      requires InsertFix(S, nil, root, x) && RedRed(S, root, x)
      requires S[S[x].parent].parent in S && side == SideOf(S, x) != SideOf(S, S[x].parent)
      ensures var p := S[x].parent;
              && p in S && S[p].Kid(side) == x && x != nil
              && var S', root' := Rotated(S, p, side), RotatedRoot(S, nil, root, p, side);
              && InsertFix(S', nil, root', p) && RedRed(S', root', p) && S'[p].parent in S' && S'[S'[p].parent].parent in S'
              && SideOf(S', p) == SideOf(S', S'[p].parent) == !side && (Red(S', Uncle(S', p)) <==> Red(S, Uncle(S, x)))
              && S'.Keys == S.Keys && forall n :: n in S ==> S'[n].at == S[n].at
    {
      Grandparent(S, nil, root, x);
      TurnInward(S, nil, root, x);
      var p := S[x].parent;
      RotationIsTurn(S, p, side);
      Above(S, nil, root, p);
      TurnedPlaces(S, p, side);
    }

    /** The colour changes and the rotation for a black uncle. */
    method TurnOutLinks(p: Node, g: Node, side: bool)
      requires Linked() && Tree(cells, nil, root) && g in cells && p in cells && cells[g].Kid(side) == p && p != g
      requires cells[p].red && !cells[g].red
      modifies this`root, this`cells, cells.Keys`left, cells.Keys`right, cells.Keys`parent, cells.Keys`red
      ensures Linked() && cells == Turned(old(cells), g, side) && root == RotatedRoot(old(cells), nil, old(root), g, side)
    {
      ghost var S := cells;
      RotationIsTurn(S, g, side);
      Paint(p, false);
      Paint(g, true);
      RecolouredIsTree(S, cells, nil, root);
      Rotate(g, side);
    }

    /** The case of a black uncle with x on the outer side: parent and grandparent change colours and places. */
    method TurnOut(x: Node, side: bool)
      requires Linked() && InsertFix(cells, nil, root, x) && RedRed(cells, root, x)
      requires cells[cells[x].parent].parent in cells && side == SideOf(cells, cells[x].parent) == SideOf(cells, x)
      requires !Red(cells, Uncle(cells, x))
      modifies this`root, this`cells, cells.Keys`left, cells.Keys`right, cells.Keys`parent, cells.Keys`red
      ensures Linked() && InsertFix(cells, nil, root, x) && !RedRed(cells, root, x) && SamePlaces()
    {
      Grandparent(cells, nil, root, x);
      TurnOutward(cells, nil, root, x);
      assert Mirrors(x) && Mirrors(cells[x].parent);
      TurnedPlaces(cells, x.parent.parent, side);
      TurnOutLinks(x.parent, x.parent.parent, side);
    }

    /** The loop's guard: x and its parent are both red. */
    lemma GuardIsRedRed(x: Node)
      requires Linked() && InsertFix(cells, nil, root, x)
      ensures RedRed(cells, root, x) <==> x != root && x.parent.red
    {
      assert Mirrors(x);
      Above(cells, nil, root, x);
      if x != root { assert Mirrors(cells[x].parent); }
    }

    /** What the source reads around a red node below a red one. */
    lemma Surroundings(x: Node)
      requires Linked() && InsertFix(cells, nil, root, x) && RedRed(cells, root, x)
      ensures var p := cells[x].parent;
              && p in cells && cells[p].parent in cells && x.parent == p && p.parent == cells[p].parent
              && (SideOf(cells, p) <==> p != p.parent.left) && (x == KidOf(p, SideOf(cells, x))) && x != KidOf(p, !SideOf(cells, x))
              && Uncle(cells, x) == KidOf(p.parent, !SideOf(cells, p)) && (Red(cells, Uncle(cells, x)) <==> Uncle(cells, x) != nil && Uncle(cells, x).red)
    {
      Grandparent(cells, nil, root, x);
      Above(cells, nil, root, x);
      var p := cells[x].parent;
      assert Mirrors(x) && Mirrors(p) && Mirrors(cells[p].parent);
      if Uncle(cells, x) in cells { assert Mirrors(Uncle(cells, x)); }
    }

    /** One round of the loop. */
    method FixOnce(x0: Node) returns (x: Node)
      requires Linked() && InsertFix(cells, nil, root, x0) && RedRed(cells, root, x0)
      modifies this`root, this`cells, cells.Keys`left, cells.Keys`right, cells.Keys`parent, cells.Keys`red
      ensures Linked() && InsertFix(cells, nil, root, x) && SamePlaces()
      ensures RedRed(cells, root, x) ==> Outside(cells, x) < old(Outside(cells, x0))
    {
      x := x0;
      Surroundings(x);
      var side := x.parent != x.parent.parent.left;
      var y := KidOf(x.parent.parent, !side);
      if y != nil && y.red {
        x := PushRed(x, y);
      } else {
        if x == KidOf(x.parent, !side) {
          x := TurnIn(x, !side);
        }
        TurnOut(x, side);
      }
    }

    /** std_rbtree_balanceoninsert, for a node that has been linked in as a leaf. */
    method BalanceOnInsert(z: Node)
      requires nil !in cells && !nil.red && InsertFix(cells, nil, root, z)
      requires forall n :: n in cells && n != z ==> Mirrors(n)
      requires z.left == cells[z].left && z.right == cells[z].right && z.parent == cells[z].parent
      modifies this`root, this`cells, cells.Keys`left, cells.Keys`right, cells.Keys`parent, cells.Keys`red
      ensures Linked() && RedBlack(cells, nil, root) && SamePlaces()
    {
      var x := z;
      x.red := true;
      forall n | n in cells ensures Mirrors(n) {}
      GuardIsRedRed(x);
      while x != root && x.parent.red
        invariant Linked() && InsertFix(cells, nil, root, x) && SamePlaces()
        invariant RedRed(cells, root, x) <==> x != root && x.parent.red
        decreases if RedRed(cells, root, x) then 1 else 0, Outside(cells, x)
      {
        x := FixOnce(x);
        GuardIsRedRed(x);
      }
      PaintRoot(x);
    }

    method PaintRoot(ghost x: Node)
      requires Linked() && InsertFix(cells, nil, root, x) && !RedRed(cells, root, x)
      modifies this`cells, cells.Keys`red
      ensures Linked() && RedBlack(cells, nil, root) && SamePlaces()
    {
      BlackRoot(cells, nil, root, x);
      ghost var S := cells;
      Paint(root, false);
      assert cells == Blackened(S, root);
    }

    // ----- removal: the fix-up -----

    /** The side of a parent on which x, or the sentinel in its place, hangs. */
    lemma ShortSide(x: Node, D: Short)
      requires Linked() && RemoveFix(cells, nil, root, x, D) && D.Some? && x.parent == D.value.0
      ensures var (p, s) := D.value;
              && p in cells && cells[p].Kid(!s) in cells && s == (x != p.left) && KidOf(p, !s) == cells[p].Kid(!s) && KidOf(p, !s) != nil
              && KidOf(p, !s).red == cells[cells[p].Kid(!s)].red
    {
      Sibling(cells, nil, root, x, D);
      var (p, s) := D.value;
      assert Mirrors(p) && Mirrors(cells[p].Kid(!s));
    }

    /** The case of a red sibling. */
    method RemoveTurnSibling(x: Node, w: Node, ghost D: Short) returns (w': Node)
      requires Linked() && RemoveFix(cells, nil, root, x, D) && D.Some? && !Red(cells, x) && x.parent == D.value.0
      requires w == cells[D.value.0].Kid(!D.value.1) && Red(cells, w)
      modifies this`root, this`cells, cells.Keys`left, cells.Keys`right, cells.Keys`parent, cells.Keys`red
      ensures Linked() && RemoveFix(cells, nil, root, x, D) && x.parent == D.value.0 && x != root && SamePlaces()
      ensures w' == cells[D.value.0].Kid(!D.value.1) && !Red(cells, w') && !Red(cells, x) && Beyond(cells, D) == old(Beyond(cells, D))
    {
      ghost var (p, s) := D.value;
      ShortSide(x, D);
      Sibling(cells, nil, root, x, D);
      assert CalmAt(cells, w);
      TurnSibling(cells, nil, root, x, D);
      TurnedPlaces(cells, p, !s);
      var side := x == x.parent.left;
      TurnOutLinks(w, x.parent, side);
      Sibling(cells, nil, root, x, D);
      assert Mirrors(p);
      if x in cells { assert Mirrors(x); }
      w' := KidOf(x.parent, side);
    }

    /** The case of a black sibling with black children. */
    method RemoveLower(x: Node, w: Node, ghost D: Short) returns (p: Node, ghost D': Short)
      requires Linked() && RemoveFix(cells, nil, root, x, D) && D.Some? && !Red(cells, x) && x.parent == D.value.0
      requires w == cells[D.value.0].Kid(!D.value.1) && w in cells && !Red(cells, w) && !Red(cells, cells[w].left) && !Red(cells, cells[w].right)
      modifies this`cells, cells.Keys`red
      ensures Linked() && RemoveFix(cells, nil, root, p, D') && SamePlaces() && Beyond(cells, D') < old(Beyond(cells, D))
      ensures D'.Some? ==> p.parent == D'.value.0
    {
      LowerCase(cells, nil, root, x, D);
      p, D' := x.parent, Upwards(cells, root, D.value.0);
      ghost var S' := cells[w := cells[w].(red := true)][p := cells[p].(bh := cells[p].bh - 1)];
      assert RemoveFix(S', nil, root, p, D') && Beyond(S', D') < Beyond(cells, D) && S'[p].parent == cells[p].parent;
      Paint(w, true);
      Recount(p, cells[p].bh - 1);
      assert cells == S' && Mirrors(p);
    }

    static lemma LoweredSteps(S: Cells, p: Node, w: Node)
      requires p in S && w in S && p != w && S[p].bh > 0
      ensures S[w := S[w].(red := true)][p := S[p].(bh := S[p].bh - 1)] == Lowered(S, p, w)
    {
      var S' := S[w := S[w].(red := true)][p := S[p].(bh := S[p].bh - 1)];
      forall n | n in S ensures S'[n] == Lowered(S, p, w)[n] {}
      assert S'.Keys == S.Keys == Lowered(S, p, w).Keys;
    }

    static lemma LowerCase(S: Cells, nil: Node, root: Node, x: Node, D: Short)
      requires RemoveFix(S, nil, root, x, D) && D.Some? && !Red(S, x)
      requires var w := S[D.value.0].Kid(!D.value.1); w in S && !Red(S, w) && !Red(S, S[w].left) && !Red(S, S[w].right)
      ensures var (p, s) := D.value;
              var w, D' := S[p].Kid(!s), Upwards(S, root, p);
              && p != w && S[p].bh > 0
              && var S' := S[w := S[w].(red := true)][p := S[p].(bh := S[p].bh - 1)];
              && RemoveFix(S', nil, root, p, D') && Beyond(S', D') < Beyond(S, D)
              && S'[p].parent == S[p].parent && (D'.Some? ==> D'.value.0 == S[p].parent)
              && S'.Keys == S.Keys && forall n :: n in S ==> S'[n].at == S[n].at
    {
      Sibling(S, nil, root, x, D);
      LowerSibling(S, nil, root, x, D);
      LoweredSteps(S, D.value.0, S[D.value.0].Kid(!D.value.1));
    }

    /** The case of a black sibling whose red child is on the near side. */
    method RemoveTurnNear(x: Node, w: Node, ghost D: Short) returns (w': Node)
      requires Linked() && RemoveFix(cells, nil, root, x, D) && D.Some? && !Red(cells, x) && x.parent == D.value.0
      requires w == cells[D.value.0].Kid(!D.value.1) && w in cells && !Red(cells, w)
      requires Red(cells, cells[w].Kid(D.value.1)) && !Red(cells, cells[w].Kid(!D.value.1))
      modifies this`root, this`cells, cells.Keys`left, cells.Keys`right, cells.Keys`parent, cells.Keys`red
      ensures Linked() && RemoveFix(cells, nil, root, x, D) && x.parent == D.value.0 && x != root && SamePlaces() && !Red(cells, x)
      ensures w' == cells[D.value.0].Kid(!D.value.1) && w' in cells && !Red(cells, w') && Red(cells, cells[w'].Kid(!D.value.1))
    {
      ghost var (p, s) := D.value;
      ghost var S', near := Turned(cells, w, s), cells[w].Kid(s);
      ShortSide(x, D);
      NearCase(cells, nil, root, x, D);
      assert Mirrors(w);
      var side := x == x.parent.left;
      TurnOutLinks(KidOf(w, !side), w, !side);
      assert cells == S';
      assert Mirrors(p);
      if x in cells { assert Mirrors(x); }
      w' := KidOf(x.parent, side);
    }

    static lemma NearCase(S: Cells, nil: Node, root: Node, x: Node, D: Short)
      requires RemoveFix(S, nil, root, x, D) && D.Some? && !Red(S, x) && S[D.value.0].Kid(!D.value.1) in S
      requires var w, s := S[D.value.0].Kid(!D.value.1), D.value.1; !Red(S, w) && Red(S, S[w].Kid(s)) && !Red(S, S[w].Kid(!s))
      ensures var (p, s) := D.value;
              var w := S[p].Kid(!s);
              var near, S' := S[w].Kid(s), Turned(S, w, s);
              && near != w && near in S' && p in S' && RotatedRoot(S, nil, root, w, s) == root && x != root
              && RemoveFix(S', nil, root, x, D) && !Red(S', x) && (x in S' ==> S'[x].parent == p)
              && S'[p].Kid(!s) == near && !Red(S', near) && Red(S', S'[near].Kid(!s))
              && S'.Keys == S.Keys && forall n :: n in S ==> S'[n].at == S[n].at
    {
      var (p, s) := D.value;
      var w := S[p].Kid(!s);
      Sibling(S, nil, root, x, D);
      TurnNear(S, nil, root, x, D);
      TurnedPlaces(S, w, s);
      KidsOf(S, nil, root, w);
      Sibling(Turned(S, w, s), nil, root, x, D);
    }

    /** The colour changes of the last case. */
    method LastPaint(p: Node, w: Node, far: Node, ghost s: bool)
      requires Linked() && p in cells && w in cells && far in cells && p != w && far != p && far != w
      requires w == cells[p].Kid(!s) && far == cells[w].Kid(!s)
      modifies this`cells, cells.Keys`red
      ensures Linked() && cells == LastPainted(old(cells), p, w, far)
      ensures SameStructure(old(cells), cells) && cells[p].Kid(!s) == w
    {
      LastPaintKeeps(cells, p, w, far, s);
      assert Mirrors(p);
      Paint(w, p.red);
      Paint(p, false);
      Paint(far, false);
    }

    /** The rotation of the last case, and the black nodes that it leaves below p and w. */
    method LastRotate(p: Node, w: Node, side: bool, ghost h: nat)
      requires Linked() && Turnable(cells, nil, p, side) && w == cells[p].Kid(side)
      modifies this`root, this`cells, cells.Keys`left, cells.Keys`right, cells.Keys`parent
      ensures old(w in cells && p in cells && w == cells[p].Kid(side))
      ensures Linked() && root == RotatedRoot(old(cells), nil, old(root), p, side)
      ensures cells == Recounted(Recounted(Rotated(old(cells), p, side), p, h), w, h + 1)
    {
      RotateHere(p, side);
      Recount(p, h);
      Recount(w, h + 1);
    }

    static lemma PaintedTurnable(S: Cells, S': Cells, nil: Node, x: Node, side: bool)
      requires Turnable(S, nil, x, side) && SameStructure(S, S')
      ensures Turnable(S', nil, x, side) && S'[x].parent == S[x].parent && S'[x].Kid(side) == S[x].Kid(side)
    {}

    /** The colour changes and the rotation of the last case. */
    method LastTurnLinks(p: Node, w: Node, far: Node, s: bool)
      requires Linked() && p in cells && w in cells && far in cells && p != w && far != p && far != w
      requires w == cells[p].Kid(!s) && far == cells[w].Kid(!s) && Turnable(cells, nil, p, !s)
      requires LastPainted(cells, p, w, far)[p].Kid(!s) == w
      modifies this`root, this`cells, cells.Keys`left, cells.Keys`right, cells.Keys`parent, cells.Keys`red
      ensures Linked() && root == RotatedRoot(old(cells), nil, old(root), p, !s)
      ensures var S := old(cells);
              cells == Recounted(Recounted(Rotated(LastPainted(S, p, w, far), p, !s), p, S[w].bh), w, S[w].bh + 1)
    {
      ghost var S := cells;
      LastPaint(p, w, far, s);
      assert cells.Keys == S.Keys;
      PaintedTurnable(S, cells, nil, p, !s);
      assert w in cells && cells[p].Kid(!s) == w;
      LastRotate(p, w, !s, S[w].bh);
    }

    /** The case of a black sibling whose red child is on the far side. */
    method RemoveLast(x: Node, w: Node, ghost D: Short)
      requires Linked() && RemoveFix(cells, nil, root, x, D) && D.Some? && !Red(cells, x) && x.parent == D.value.0
      requires w == cells[D.value.0].Kid(!D.value.1) && w in cells && !Red(cells, w) && Red(cells, cells[w].Kid(!D.value.1))
      modifies this`root, this`cells, cells.Keys`left, cells.Keys`right, cells.Keys`parent, cells.Keys`red
      ensures Linked() && RemoveFix(cells, nil, root, root, None) && SamePlaces()
    {
      LastCase(cells, nil, root, x, D);
      ShortSide(x, D);
      assert Mirrors(w);
      var side := x == x.parent.left;
      ghost var (p, s) := D.value;
      ghost var far, root' := cells[w].Kid(!s), RotatedRoot(cells, nil, root, p, !s);
      ghost var S' := Recounted(Recounted(Rotated(LastPainted(cells, p, w, far), p, !s), p, cells[w].bh), w, cells[w].bh + 1);
      assert RemoveFix(S', nil, root', root', None);
      assert x.parent == p && side == !s && KidOf(w, side) == far && Turnable(cells, nil, p, !s);
      LastTurnLinks(x.parent, w, KidOf(w, side), !side);
      assert cells == S';
      assert root == root';
    }

    /** The steps of the last case lead to a tree in order. */
    static lemma LastCase(S: Cells, nil: Node, root: Node, x: Node, D: Short)
      requires RemoveFix(S, nil, root, x, D) && D.Some? && !Red(S, x) && S[D.value.0].Kid(!D.value.1) in S
      requires var w, s := S[D.value.0].Kid(!D.value.1), D.value.1; !Red(S, w) && Red(S, S[w].Kid(!s))
      ensures var (p, s) := D.value;
              var w := S[p].Kid(!s);
              var far, root' := S[w].Kid(!s), RotatedRoot(S, nil, root, p, !s);
              && far in S && p != w && far != p && far != w && Turnable(S, nil, p, !s)
              && var P := LastPainted(S, p, w, far);
              && p in P && P[p].Kid(!s) == w
              && var S' := Recounted(Recounted(Rotated(P, p, !s), p, S[w].bh), w, S[w].bh + 1);
              RemoveFix(S', nil, root', root', None) && S'.Keys == S.Keys && forall n :: n in S ==> S'[n].at == S[n].at
    {
      var (p, s) := D.value;
      Sibling(S, nil, root, x, D);
      LastHeights(S, nil, root, x, D);
      LastTurnEnds(S, nil, root, x, D);
      IsTurnable(S, nil, root, p, !s);
      LastPlaces(S, p, s);
      LastSteps(S, p, S[p].Kid(!s), S[S[p].Kid(!s)].Kid(!s), s);
    }

    /** One round of the loop: x moves up, or the tree is in order. */
    method RebalanceOnce(x0: Node, ghost D0: Short) returns (x: Node, ghost D: Short)
      requires Linked() && RemoveFix(cells, nil, root, x0, D0) && D0.Some? && !Red(cells, x0) && x0.parent == D0.value.0
      modifies this`root, this`cells, cells.Keys`left, cells.Keys`right, cells.Keys`parent, cells.Keys`red
      ensures Linked() && RemoveFix(cells, nil, root, x, D) && SamePlaces() && Beyond(cells, D) < old(Beyond(cells, D0))
      ensures D.Some? ==> x.parent == D.value.0
    {
      x, D := x0, D0;
      ShortSide(x, D);
      var side := x == x.parent.left;
      var w := KidOf(x.parent, side);
      BeyondHasParent(x, D);
      if w.red {
        w := RemoveTurnSibling(x, w, D);
        ShortSide(x, D);
      }
      SiblingKids(x, w, D);
      if !w.left.red && !w.right.red {
        x, D := RemoveLower(x, w, D);
      } else {
        if !KidOf(w, side).red {
          w := RemoveTurnNear(x, w, D);
        }
        RemoveLast(x, w, D);
        x, D := root, None;
      }
    }

    lemma BeyondHasParent(x: Node, D: Short)
      requires RemoveFix(cells, nil, root, x, D) && D.Some?
      ensures D.value.0 in Beyond(cells, D) && {} < Beyond(cells, D)
    {
      assert D.value.0 in Beyond(cells, D);
    }

    /** The sibling is never the sentinel; the colours of its children are read from theirs. */
    lemma SiblingKids(x: Node, w: Node, D: Short)
      requires Linked() && RemoveFix(cells, nil, root, x, D) && D.Some? && w == cells[D.value.0].Kid(!D.value.1)
      ensures w in cells && w != nil && w.left == cells[w].left && w.right == cells[w].right
      ensures (w.left.red <==> Red(cells, cells[w].left)) && (w.right.red <==> Red(cells, cells[w].right))
    {
      Sibling(cells, nil, root, x, D);
      KidsOf(cells, nil, root, w);
      assert Mirrors(w) && w.left == cells[w].Kid(false) && w.right == cells[w].Kid(true);
      if w.left in cells { assert Mirrors(w.left); }
      if w.right in cells { assert Mirrors(w.right); }
    }

    /** std_rbtree_balanceonremove, for the node, or the sentinel, on the side that has lost a black node. */
    method BalanceOnRemove(x0: Node, ghost D0: Short)
      requires Linked() && RemoveFix(cells, nil, root, x0, D0) && (D0.Some? ==> x0.parent == D0.value.0)
      modifies this`root, this`cells, cells.Keys`left, cells.Keys`right, cells.Keys`parent, cells.Keys`red, nil`red
      ensures Linked() && RedBlack(cells, nil, root) && SamePlaces()
    {
      var x := x0;
      ghost var D := D0;
      IsShort(x, D);
      while x != root && !x.red
        invariant Linked() && RemoveFix(cells, nil, root, x, D) && SamePlaces() && (D.Some? ==> x.parent == D.value.0)
        invariant (x == root <==> D == None) && (x.red <==> Red(cells, x)) && (x in cells || x == nil)
        decreases Beyond(cells, D)
      {
        x, D := RebalanceOnce(x, D);
        IsShort(x, D);
      }
      End(cells, nil, root, x, D);
      PaintEnd(x);
    }

    /** The last line paints the node black, or the sentinel, which is black. */
    method PaintEnd(x: Node)
      requires Linked() && (x in cells || x == nil)
      modifies this`cells, cells.Keys`red, nil`red
      ensures Linked() && cells == Painted(old(cells), x) && SamePlaces()
    {
      x.red := false;
      cells := Painted(cells, x);
      forall n | n in cells ensures Mirrors(n) { assert old(Mirrors(n)); }
    }

    lemma IsShort(x: Node, D: Short)
      requires Linked() && RemoveFix(cells, nil, root, x, D)
      ensures (x == root <==> D == None) && (x.red <==> Red(cells, x)) && (x in cells || x == nil)
    {
      Sibling(cells, nil, root, x, D);
      if D.Some? { KidsOf(cells, nil, root, D.value.0); }
      if x in cells { assert Mirrors(x); }
    }

    // ----- the order -----

    /** r is the node in the next place after the place at, or null if there is none. */
    ghost predicate NextPlace(at: real, r: Node?)
      reads this`cells
    {
      if r == null then forall n :: n in cells ==> cells[n].at <= at
      else r in cells && at < cells[r].at && forall n :: n in cells && at < cells[n].at ==> cells[r].at <= cells[n].at
    }

    lemma KidFacts(x: Node)
      requires Linked() && Tree(cells, nil, root) && x in cells
      ensures Mirrors(x) && x != nil && 0.0 <= cells[x].lo < cells[x].at < cells[x].hi <= 1.0
      ensures KidOk(cells, nil, x, false) && KidOk(cells, nil, x, true)
      ensures x.left == cells[x].Kid(false) && x.right == cells[x].Kid(true)
      ensures x.left != nil ==> x.left in cells && Inside(cells, x.left) < Inside(cells, x)
      ensures x.right != nil ==> x.right in cells && Inside(cells, x.right) < Inside(cells, x)
      ensures x.parent == nil <==> x == root
      ensures x.parent == nil ==> cells[x].lo == 0.0 && cells[x].hi == 1.0
      ensures x.parent != nil ==>
                && x.parent in cells && Inside(cells, x) < Inside(cells, x.parent) <= cells.Keys
                && (if x == x.parent.right then cells[x].lo == cells[x.parent].at && cells[x].hi == cells[x.parent].hi
                    else x == x.parent.left && cells[x].lo == cells[x.parent].lo && cells[x].hi == cells[x.parent].at)
    {
      assert Mirrors(x);
      Above(cells, nil, root, x);
      InUnit(cells, nil, root, x);
      InsideSplits(cells, nil, root, x);
      if x.parent != nil {
        assert Mirrors(x.parent);
        InsideSplits(cells, nil, root, x.parent);
        assert cells[x.parent].Kid(SideOf(cells, x)) == x;
      }
    }

    /** The node with nothing on its left in the subtree of y. */
    method Leftmost(from: Node) returns (y: Node)
      requires Linked() && Tree(cells, nil, root) && from in cells
      ensures y in cells && cells[y].lo == cells[from].lo && cells[y].left == nil && Vacant(cells, cells[y].lo, cells[y].at)
      ensures cells[from].lo < cells[y].at <= cells[from].at
    {
      y := from;
      KidFacts(y);
      while y.left != nil
        invariant y in cells && cells[y].lo == cells[from].lo && y.left == cells[y].left && cells[y].lo < cells[y].at <= cells[from].at
        decreases Inside(cells, y)
      {
        KidFacts(y);
        y := y.left;
        KidFacts(y);
      }
      KidFacts(y);
    }

    /** _std_rbtree_getnext */
    method GetNext(x0: Node) returns (r: Node?)
      requires Linked() && Tree(cells, nil, root) && x0 in cells
      ensures NextPlace(cells[x0].at, r)
      ensures cells[x0].right != nil ==> r != null && cells[r].left == nil && r != x0
    {
      KidFacts(x0);
      if x0.right != nil {
        r := Leftmost(x0.right);
        return;
      }
      r := ClimbRight(x0);
    }

    /** Up to the first node that is reached from its left side. */
    method ClimbRight(x0: Node) returns (r: Node?)
      requires Linked() && Tree(cells, nil, root) && x0 in cells && cells[x0].right == nil
      ensures NextPlace(cells[x0].at, r)
    {
      var x := x0;
      KidFacts(x);
      var y := x.parent;
      while y != nil && x == y.right
        invariant x in cells && y == x.parent && cells[x].hi == cells[x0].hi && Vacant(cells, cells[x0].at, cells[x].hi)
        invariant cells[x0].at < cells[x].hi
        decreases Outside(cells, x)
      {
        KidFacts(x);
        x := y;
        KidFacts(x);
        y := x.parent;
      }
      KidFacts(x);
      if y == nil {
        forall n | n in cells ensures cells[n].at < 1.0 { InUnit(cells, nil, root, n); }
        return null;
      }
      return y;
    }

    // ----- the search for a free position, and insertion -----

    /** The places up to lo hold data that d may follow, those from hi on hold greater data. */
    ghost predicate Splits(d: Data, lo: real, hi: real)
      reads this`cells
    {
      && (forall n :: n in cells && cells[n].at <= lo ==> compare(d, n.data) >= 0)
      && (forall n :: n in cells && hi <= cells[n].at ==> compare(d, n.data) < 0)
    }

    /** Going left below x when d is smaller than its data, and right otherwise. */
    lemma SplitsBelow(x: Node, d: Data)
      requires Valid() && x in cells && Splits(d, cells[x].lo, cells[x].hi)
      ensures var side := compare(d, x.data) >= 0; Splits(d, cells[x].Lo(side), cells[x].Hi(side))
    {
      forall n | n in cells
        ensures compare(d, x.data) >= 0 && cells[n].at <= cells[x].at ==> compare(d, n.data) >= 0
        ensures compare(d, x.data) < 0 && cells[x].at <= cells[n].at ==> compare(d, n.data) < 0
      {
        assert !(n != x && SamePlace(cells, n, x));
        assert InOrder(cells, compare, n, x) && InOrder(cells, compare, x, n);
        OrderPasses(compare, d, x.data, n.data);
      }
    }

    static lemma OrderPasses(compare: Compare, d: Data, x: Data, n: Data)
      requires Orders(compare)
      ensures compare(d, x) >= 0 && compare(n, x) <= 0 ==> compare(d, n) >= 0
      ensures compare(d, x) < 0 && compare(x, n) <= 0 ==> compare(d, n) < 0
      ensures compare(d, x) == 0 ==> compare(x, d) == 0
    {
      assert Consistent(compare, n, x, d) && Consistent(compare, x, n, d) && Consistent(compare, d, x, n) && Consistent(compare, d, n, x) && Consistent(compare, x, d, x);
    }

    /** How many nodes a path from x down can have, at most. */
    ghost function Reach(x: Node): nat
      reads this`cells
    {
      if x in cells then 2 * cells[x].bh + (if cells[x].red then 1 else 2) else 0
    }

    lemma ReachBelow(x: Node, side: bool)
      requires RedBlack(cells, nil, root) && x in cells
      ensures Reach(cells[x].Kid(side)) < Reach(x)
    {
      var k := cells[x].Kid(side);
      KidsOf(cells, nil, root, x);
      assert EvenAt(cells, None, x) && Weight(cells, x, side, None) == cells[x].bh;
      if k in cells { assert CalmAt(cells, k); }
    }

    lemma ReachOfRoot()
      requires RedBlack(cells, nil, root)
      ensures Reach(root) == 2 * Height(cells, root) && Pow2(Height(cells, root)) <= |cells| + 1
    {
      HeightBound(cells, nil, root, root);
      if root in cells {
        RootCovers(cells, nil, root);
        assert |cells| == |cells.Keys|;
      }
    }

    static lemma Pow2Grows(m: nat, n: nat)
      requires m <= n
      ensures Pow2(m) <= Pow2(n)
    {
      if m < n { Pow2Grows(m, n - 1); }
    }

    /** The loop of _std_rbtree_insert. It looks at no more than 2 * log2(n + 1) nodes. */
    method FindLeaf(d: Data) returns (y: Node, ghost side: bool, ghost steps: nat)
      requires Valid()
      ensures if y == nil then cells == map[]
              else y in cells && cells[y].Kid(side) == nil && side == (compare(d, y.data) >= 0) && Splits(d, cells[y].Lo(side), cells[y].Hi(side))
      ensures Pow2((steps + 1) / 2) <= |cells| + 1
    {
      y := nil;
      var x := root;
      steps, side := 0, false;
      if x != nil { KidFacts(x); RootCovers(cells, nil, root); forall n | n in cells ensures 0.0 < cells[n].at < 1.0 { InUnit(cells, nil, root, n); } }
      while x != nil
        invariant x == nil || x in cells
        invariant steps + Reach(x) <= Reach(root)
        invariant y == nil ==> x == root && (x != nil ==> Splits(d, cells[x].lo, cells[x].hi))
        invariant y != nil ==> y in cells && cells[y].Kid(side) == x && side == (compare(d, y.data) >= 0) && Splits(d, cells[y].Lo(side), cells[y].Hi(side))
        invariant x != nil ==> Splits(d, cells[x].lo, cells[x].hi)
        decreases Reach(x)
      {
        KidFacts(x);
        SplitsBelow(x, d);
        y := x;
        side := compare(d, x.data) >= 0;
        ReachBelow(x, side);
        steps := steps + 1;
        if compare(d, x.data) < 0 {
          x := x.left;
        } else {
          x := x.right;
        }
      }
      ReachOfRoot();
      Pow2Grows((steps + 1) / 2, Height(cells, root));
    }

    /** The pointer updates that link z in as a leaf. */
    method LinkLeaf(y: Node, z: Node, ghost side: bool)
      requires Linked() && z !in cells && z != nil && (if y == nil then cells == map[] else y in cells && cells[y].Kid(side) == nil && side == (compare(z.data, y.data) >= 0))
      modifies this`root, this`cells, z`left, z`right, z`parent, Real(y)`left, Real(y)`right
      ensures cells == Attached(old(cells), nil, y, side, z) && root == if y == nil then z else old(root)
      ensures forall n :: n in cells && n != z ==> Mirrors(n)
      ensures z.left == cells[z].left && z.right == cells[z].right && z.parent == cells[z].parent
    {
      if y != nil { assert Mirrors(y); }
      z.parent := y;
      z.left, z.right := nil, nil;
      if y == nil {
        root := z;
      } else if compare(z.data, y.data) < 0 {
        y.left := z;
      } else {
        y.right := z;
      }
      cells := Attached(cells, nil, y, side, z);
      forall n | n in cells && n != z ensures Mirrors(n) { assert old(Mirrors(n)); }
    }

    /** S' is S with z behind everything that is not greater and before the rest. */
    static ghost predicate Placed(S: Cells, S': Cells, compare: Compare, z: Node) {
      && S'.Keys == S.Keys + {z}
      && (forall n :: n in S ==> S'[n].at == S[n].at)
      && forall n :: n in S ==> if compare(z.data, n.data) < 0 then S'[z].at < S[n].at else S[n].at < S'[z].at
    }

    /** _std_rbtree_insert: z goes behind everything that is not greater, and all else stays in order. */
    method Insert(z: Node) returns (ghost steps: nat)
      requires Valid() && z !in cells && z != nil
      modifies this`root, this`cells, this`numinserts, this`numinodes, z`left, z`right, z`parent, z`red
      modifies cells.Keys`left, cells.Keys`right, cells.Keys`parent, cells.Keys`red
      ensures Valid() && Placed(old(cells), cells, compare, z)
      ensures numinodes == old(numinodes) + 1 && numinserts == old(numinserts) + 1
      ensures Pow2((steps + 1) / 2) <= old(|cells|) + 1
    {
      var y;
      ghost var side;
      y, side, steps := FindLeaf(z.data);
      InsertAt(y, side, z);
      CountInsert();
    }

    method CountInsert()
      requires Linked() && RedBlack(cells, nil, root) && Ordered(cells, compare) && Orders(compare) && |cells| == numinodes + 1
      modifies this`numinserts, this`numinodes
      ensures Valid() && numinodes == old(numinodes) + 1 && numinserts == old(numinserts) + 1
    {
      numinserts := numinserts + 1;
      numinodes := numinodes + 1;
    }

    method InsertAt(y: Node, ghost side: bool, z: Node)
      requires Valid() && z !in cells && z != nil
      requires if y == nil then cells == map[]
               else y in cells && cells[y].Kid(side) == nil && side == (compare(z.data, y.data) >= 0) && Splits(z.data, cells[y].Lo(side), cells[y].Hi(side))
      modifies this`root, this`cells, z`left, z`right, z`parent, z`red
      modifies cells.Keys`left, cells.Keys`right, cells.Keys`parent, cells.Keys`red
      ensures Linked() && RedBlack(cells, nil, root) && Placed(old(cells), cells, compare, z)
      ensures Ordered(cells, compare) && |cells| == old(|cells|) + 1
    {
      AttachKeepsFix(cells, nil, root, y, side, z);
      PlacedBetween(y, side, z);
      LinkLeaf(y, z, side);
      BalanceOnInsert(z);
      PlacedIsOrdered(old(cells), cells, compare, z);
    }

    lemma PlacedBetween(y: Node, side: bool, z: Node)
      requires Valid() && z !in cells && z != nil
      requires if y == nil then cells == map[]
               else y in cells && cells[y].Kid(side) == nil && Splits(z.data, cells[y].Lo(side), cells[y].Hi(side))
      ensures Placed(cells, Attached(cells, nil, y, side, z), compare, z)
    {
      if y != nil {
        var lo, hi, at := cells[y].Lo(side), cells[y].Hi(side), (cells[y].Lo(side) + cells[y].Hi(side)) / 2.0;
        assert lo < at < hi && Vacant(cells, lo, hi) by { KidFacts(y); }
      }
    }

    static lemma PlacedIsOrdered(S: Cells, S': Cells, compare: Compare, z: Node)
      requires Ordered(S, compare) && Orders(compare) && z !in S && Placed(S, S', compare, z)
      ensures Ordered(S', compare) && |S'| == |S| + 1
    {
      assert |S'| == |S'.Keys| && |S| == |S.Keys|;
      forall m, n | m in S' && n in S' ensures InOrder(S', compare, m, n) {
        assert Consistent(compare, n.data, m.data, n.data);
        if m != z && n != z { assert InOrder(S, compare, m, n); }
      }
    }

    // ----- removal -----

    /** Takes y out of the parent chain; x, its only child or the sentinel, gets its parent. */
    method SpliceLinks(y: Node) returns (x: Node)
      requires Linked() && CanSplice(cells, nil, root, y)
      modifies this`root, this`cells, nil`parent, cells.Keys`left, cells.Keys`right, cells.Keys`parent
      ensures Linked() && y in old(cells) && cells == Spliced(old(cells), nil, y) && root == SplicedRoot(old(cells), nil, old(root), y)
      ensures x == OnlyKid(old(cells), nil, y) && x.parent == old(cells)[y].parent
      ensures y.red == old(y.red)
    {
      KidFacts(y);
      SoleLinks(cells, nil, root, y);
      OnlyKidIsLeaf(cells, nil, root, y);
      x := if y.left != nil then y.left else y.right;
      SpliceHere(y, x);
    }

    method SpliceHere(y: Node, x: Node)
      requires Linked() && y in cells && y != nil && Sole(cells, nil, y) && x == OnlyKid(cells, nil, y)
      modifies this`root, this`cells, x`parent, cells.Keys`left, cells.Keys`right, cells.Keys`parent
      ensures Linked() && y in old(cells) && cells == Spliced(old(cells), nil, y) && root == SplicedRoot(old(cells), nil, old(root), y)
      ensures x.parent == old(cells)[y].parent && y.red == old(y.red)
    {
      assert Mirrors(y);
      if cells[y].parent != nil { assert Mirrors(cells[y].parent); }
      UnlinkLinks(y, x);
      ghost var p := cells[y].parent;
      cells := Spliced(cells, nil, y);
      forall n | n in cells ensures Mirrors(n) {
        if n == p {
          assert Mirrors(p);
        } else if n == x {
          assert old(Mirrors(x)) && Mirrors(x);
        } else {
          assert old(Mirrors(n)) && cells[n] == old(cells)[n];
        }
      }
    }

    method UnlinkLinks(y: Node, x: Node)
      requires x != y && y.parent != y && (x != nil ==> x != y.parent)
      modifies this`root, x`parent, Real(y.parent)`left, Real(y.parent)`right
      ensures x.parent == old(y.parent) && y.parent == old(y.parent)
      ensures if old(y.parent) == nil then root == x
              else root == old(root) && y.parent.left == (if old(y.parent.left) == y then x else old(y.parent.left))
                   && y.parent.right == (if old(y.parent.left) == y then old(y.parent.right) else x)
    {
      x.parent := y.parent;
      if y.parent == nil {
        root := x;
      } else if y == y.parent.left {
        y.parent.left := x;
      } else {
        y.parent.right := x;
      }
    }

    /** Puts y, which has been taken out, in the position of z. */
    method ReplaceLinks(z: Node, y: Node)
      requires Linked() && RedBlack(cells, nil, root) && z in cells && y !in cells && y != nil
      modifies this`root, this`cells, y`left, y`right, y`parent, y`red, cells.Keys`left, cells.Keys`right, cells.Keys`parent
      ensures Linked() && z in old(cells) && cells == Renamed(old(cells), z, y) && root == Renaming(old(root), z, y)
    {
      SoleLinks(cells, nil, root, z);
      Relink(z, y);
    }

    method Relink(z: Node, y: Node)
      requires Linked() && z in cells && y !in cells && y != nil && Sole(cells, nil, z)
      modifies this`root, this`cells, y`left, y`right, y`parent, y`red, cells.Keys`left, cells.Keys`right, cells.Keys`parent
      ensures Linked() && z in old(cells) && cells == Renamed(old(cells), z, y) && root == Renaming(old(root), z, y)
    {
      ghost var l, r, p := cells[z].left, cells[z].right, cells[z].parent;
      assert Mirrors(z);
      if l != nil { assert Mirrors(l); }
      if r != nil { assert Mirrors(r); }
      if p != nil { assert Mirrors(p); }
      TakePosition(z, y, l, r, p);
      Relinked(z, y, l, r, p);
      Record(Renamed(cells, z, y));
    }

    static ghost predicate Shows(n: Node, c: Cell)
      reads n`left, n`right, n`parent, n`red
    {
      n.left == c.left && n.right == c.right && n.parent == c.parent && n.red == c.red
    }

    /** The nodes are as S says. */
    ghost method Record(S: Cells)
      requires nil !in S && !nil.red && forall n {:trigger Shows(n, S[n])} :: n in S ==> Shows(n, S[n])
      modifies this`cells
      ensures Linked() && cells == S
    {
      cells := S;
      forall n | n in cells ensures Mirrors(n) { assert Shows(n, S[n]); }
    }

    /** What TakePosition does, node by node. */
    twostate lemma Relinked(z: Node, new y: Node, new l: Node, new r: Node, new p: Node)
      requires old(Linked()) && cells == old(cells) && z in cells && y !in cells && y != nil && Sole(cells, nil, z)
      requires l == cells[z].left && r == cells[z].right && p == cells[z].parent
      requires y.left == l && y.right == r && y.parent == p && y.red == cells[z].red
      requires p != nil ==> p.left == Renaming(cells[p].left, z, y) && p.right == Renaming(cells[p].right, z, y)
      requires (l != nil ==> l.parent == y) && (r != nil ==> r.parent == y)
      requires forall n :: n in cells ==> n.red == old(n.red)
      requires forall n :: n in cells && n != p ==> n.left == old(n.left) && n.right == old(n.right)
      requires forall n :: n in cells && n != l && n != r ==> n.parent == old(n.parent)
      ensures nil !in Renamed(cells, z, y) && forall n {:trigger Shows(n, Renamed(cells, z, y)[n])} :: n in Renamed(cells, z, y) ==> Shows(n, Renamed(cells, z, y)[n])
    {
      var S := Renamed(cells, z, y);
      forall n | n in S ensures Shows(n, S[n]) {
        if n != y { assert old(Mirrors(n)); }
      }
    }

    /** Only the neighbours of z point to it. */
    static ghost predicate Sole(S: Cells, nil: Node, z: Node)
      requires z in S
    {
      var l, r, p := S[z].left, S[z].right, S[z].parent;
      && l != z && r != z && p != z && (l != nil && r != nil ==> l != r) && (p != nil ==> p != l && p != r)
      && (forall n :: n in S && S[n].parent == z ==> n == l || n == r)
      && (forall n :: n in S && n != p ==> S[n].left != z && S[n].right != z)
      && (p != nil ==> p in S && (S[p].left == z) != (S[p].right == z))
      && (l != nil ==> l in S && S[l].parent == z)
      && (r != nil ==> r in S && S[r].parent == z)
    }

    static lemma SoleLinks(S: Cells, nil: Node, root: Node, z: Node)
      requires RedBlack(S, nil, root) && z in S
      ensures Sole(S, nil, z)
    {
      Above(S, nil, root, z);
      KidsOf(S, nil, root, z);
      assert S[z].left == S[z].Kid(false) && S[z].right == S[z].Kid(true);
      if S[z].left != nil { Above(S, nil, root, S[z].left); }
      if S[z].right != nil { Above(S, nil, root, S[z].right); }
      forall n | n in S
        ensures S[n].parent == z ==> n == S[z].left || n == S[z].right
        ensures n != S[z].parent ==> S[n].left != z && S[n].right != z
      {
        Above(S, nil, root, n);
        KidsOf(S, nil, root, n);
        assert S[n].left == S[n].Kid(false) && S[n].right == S[n].Kid(true);
      }
    }

    method TakePosition(z: Node, y: Node, ghost l: Node, ghost r: Node, ghost p: Node)
      requires z.left == l && z.right == r && z.parent == p && z != nil && y != nil
      requires y != z && y != p && y != l && y != r && p != z && l != z && r != z
      requires p != nil ==> p != l && p != r && ((p.left == z) != (p.right == z))
      requires l != nil ==> l != r
      modifies this`root, y`left, y`right, y`parent, y`red, Real(p)`left, Real(p)`right, Real(l)`parent, Real(r)`parent
      ensures root == Renaming(old(root), z, y)
      ensures y.parent == p && y.left == l && y.right == r && y.red == z.red
      ensures p != nil ==> p.left == Renaming(old(p.left), z, y) && p.right == Renaming(old(p.right), z, y)
      ensures (l != nil ==> l.parent == y) && (r != nil ==> r.parent == y)
    {
      if root == z { root := y; }
      y.parent := z.parent;
      y.left := z.left;
      y.right := z.right;
      y.red := z.red;
      if y.parent != nil {
        if y.parent.left == z { y.parent.left := y; } else { y.parent.right := y; }
      }
      if y.left != nil { y.left.parent := y; }
      if y.right != nil { y.right.parent := y; }
    }

    /** S' is S without z, all else in the same order. */
    static ghost predicate Dropped(S: Cells, S': Cells, z: Node) {
      S'.Keys == S.Keys - {z} && forall m, n {:trigger SameOrder(S, S', m, n)} :: m in S' && n in S' && m in S && n in S ==> SameOrder(S, S', m, n)
    }

    static ghost predicate SameOrder(S: Cells, S': Cells, m: Node, n: Node)
      requires m in S && n in S && m in S' && n in S'
    {
      S'[m].at < S'[n].at <==> S[m].at < S[n].at
    }

    /** Takes out a node with at most one child and restores the colours. */
    method TakeOut(y: Node)
      requires Linked() && CanSplice(cells, nil, root, y)
      modifies this`root, this`cells, nil`parent, nil`red
      modifies cells.Keys`left, cells.Keys`right, cells.Keys`parent, cells.Keys`red
      ensures Linked() && RedBlack(cells, nil, root) && cells.Keys == old(cells.Keys) - {y}
      ensures forall n :: n in cells ==> cells[n].at == old(cells)[n].at
    {
      SpliceKeepsFix(cells, nil, root, y);
      ghost var S, D := cells, Upwards(cells, root, y);
      assert Mirrors(y);
      SplicedPlaces(S, nil, root, y);
      var x := SpliceLinks(y);
      if !y.red {
        BalanceOnRemove(x, D);
      }
    }

    static lemma SplicedPlaces(S: Cells, nil: Node, root: Node, y: Node)
      requires CanSplice(S, nil, root, y)
      ensures Spliced(S, nil, y).Keys == S.Keys - {y} && forall n :: n in S && n != y ==> Spliced(S, nil, y)[n].at == S[n].at
    {
      OnlyKidIsLeaf(S, nil, root, y);
    }

    /** _std_rbtree_remove: exactly z goes, and all else stays in order. */
    method Remove(z: Node)
      requires Valid() && z in cells
      modifies this`root, this`cells, this`numremoved, this`numinodes, nil`parent, nil`red
      modifies cells.Keys`left, cells.Keys`right, cells.Keys`parent, cells.Keys`red
      ensures Valid() && Dropped(old(cells), cells, z)
      ensures numinodes == old(numinodes) - 1 && numremoved == old(numremoved) + 1
      ensures z.left == z.right == z.parent == nil
    {
      RemoveLinks(z);
      z.left, z.right, z.parent := nil, nil, nil;
      CountRemove();
    }

    method RemoveLinks(z: Node)
      requires Valid() && z in cells
      modifies this`root, this`cells, nil`parent, nil`red
      modifies cells.Keys`left, cells.Keys`right, cells.Keys`parent, cells.Keys`red
      ensures Linked() && RedBlack(cells, nil, root) && Dropped(old(cells), cells, z) && z !in cells
      ensures Ordered(cells, compare) && |cells| == old(|cells|) - 1
    {
      KidFacts(z);
      if z.left == nil || z.right == nil {
        TakeOut(z);
        DroppedAlone(old(cells), cells, z);
      } else {
        RemoveInner(z);
      }
      DroppedIsOrdered(old(cells), cells, compare, z);
    }

    method CountRemove()
      requires Linked() && RedBlack(cells, nil, root) && Ordered(cells, compare) && Orders(compare) && numinodes == |cells| + 1
      modifies this`numremoved, this`numinodes
      ensures Valid() && numinodes == old(numinodes) - 1 && numremoved == old(numremoved) + 1
    {
      numremoved := numremoved + 1;
      numinodes := numinodes - 1;
    }

    /** A node with two children: its successor, which has no left child, is taken out and takes its position. */
    method RemoveInner(z: Node)
      requires Valid() && z in cells && cells[z].left != nil && cells[z].right != nil
      modifies this`root, this`cells, nil`parent, nil`red
      modifies cells.Keys`left, cells.Keys`right, cells.Keys`parent, cells.Keys`red
      ensures Linked() && RedBlack(cells, nil, root) && Dropped(old(cells), cells, z)
    {
      var next := GetNext(z);
      var y: Node := next;
      ghost var S := cells;
      TakeOut(y);
      ghost var S1 := cells;
      KidFacts(z);
      RenamedIsRedBlack(cells, nil, root, z, y);
      ReplaceLinks(z, y);
      DroppedBySuccessor(S, S1, cells, z, y);
    }

    static lemma DroppedAlone(S: Cells, S': Cells, z: Node)
      requires S'.Keys == S.Keys - {z} && forall n :: n in S' ==> S'[n].at == S[n].at
      ensures Dropped(S, S', z)
    {
      forall m, n | m in S' && n in S' ensures SameOrder(S, S', m, n) {}
    }

    static lemma DroppedBySuccessor(S: Cells, S1: Cells, S': Cells, z: Node, y: Node)
      requires z in S && y in S && y != z && PlacesApart(S)
      requires S[z].at < S[y].at && forall n :: n in S && S[z].at < S[n].at ==> S[y].at <= S[n].at
      requires S1.Keys == S.Keys - {y} && forall n :: n in S1 ==> S1[n].at == S[n].at
      requires z in S1 && S' == Renamed(S1, z, y)
      ensures Dropped(S, S', z)
    {
      forall m, n | m in S' && n in S' ensures SameOrder(S, S', m, n) {
        assert !(m != z && SamePlace(S, m, z)) && !(n != z && SamePlace(S, n, z));
        assert !(m != y && SamePlace(S, m, y)) && !(n != y && SamePlace(S, n, y));
      }
    }

    static lemma DroppedIsOrdered(S: Cells, S': Cells, compare: Compare, z: Node)
      requires Ordered(S, compare) && z in S && Dropped(S, S', z)
      ensures Ordered(S', compare) && |S'| == |S| - 1
    {
      assert |S'| == |S'.Keys| && |S| == |S.Keys|;
      forall m, n | m in S' && n in S' ensures InOrder(S', compare, m, n) {
        assert InOrder(S, compare, m, n) && SameOrder(S, S', m, n);
      }
    }
  }
}
