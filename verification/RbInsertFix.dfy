/** The fix-up after an insertion: a red node x whose parent may be red as well. */
module RbInsertFix {
  import opened Options
  import opened RbColor
  import opened RbShape

  ghost predicate InsertFix(S: Cells, nil: Node, root: Node, x: Node) {
    Tree(S, nil, root) && Even(S, None) && Calm(S, x) && Red(S, x) && (Red(S, root) ==> x == root)
  }

  /** x and its parent are both red. */
  ghost predicate RedRed(S: Cells, root: Node, x: Node) {
    x in S && x != root && Red(S, S[x].parent)
  }

  lemma Grandparent(S: Cells, nil: Node, root: Node, x: Node)
    requires InsertFix(S, nil, root, x) && RedRed(S, root, x)
    ensures var p := S[x].parent;
            && p in S && p != x && p != nil && p != root && S[p].Kid(SideOf(S, x)) == x
            && var g := S[p].parent;
            && g in S && g != nil && g != p && g != x && !S[g].red
            && S[g].Kid(SideOf(S, p)) == p && S[g].Kid(!SideOf(S, p)) != p && S[g].Kid(!SideOf(S, p)) != x
            && (S[g].Kid(!SideOf(S, p)) != nil ==> S[g].Kid(!SideOf(S, p)) in S)
  {
    var p := S[x].parent;
    Above(S, nil, root, x);
    Above(S, nil, root, p);
    var g := S[p].parent;
    Above(S, nil, root, g);
    assert CalmAt(S, p);
    assert KidOk(S, nil, g, !SideOf(S, p));
  }

  function Uncle(S: Cells, x: Node): Node
    requires x in S && S[x].parent in S && S[S[x].parent].parent in S
  {
    var p := S[x].parent;
    S[S[p].parent].Kid(!SideOf(S, p))
  }

  // ----- a red uncle -----

  /** g passes its black to its two children. */
  function Pushed(S: Cells, g: Node): Cells
    requires g in S
  {
    map n | n in S :: if n == g then S[n].(red := true, bh := S[n].bh + 1)
                      else if n == S[g].left || n == S[g].right then S[n].(red := false)
                      else S[n]
  }

  lemma PushedWeight(S: Cells, nil: Node, root: Node, g: Node, n: Node, s: bool)
    requires Tree(S, nil, root) && Even(S, None) && g in S && !S[g].red && Red(S, S[g].left) && Red(S, S[g].right) && n in S
    ensures Weight(Pushed(S, g), n, s, None) == Pushed(S, g)[n].bh
  {
    assert EvenAt(S, None, n) && Weight(S, n, s, None) == S[n].bh;
    Above(S, nil, root, n);
    Above(S, nil, root, g);
    assert KidOk(S, nil, n, s) && KidOk(S, nil, g, false) && KidOk(S, nil, g, true);
  }

  lemma PushKeepsFix(S: Cells, nil: Node, root: Node, x: Node)
    requires InsertFix(S, nil, root, x) && RedRed(S, root, x)
    ensures S[x].parent in S && S[S[x].parent].parent in S
    ensures Red(S, Uncle(S, x)) ==> InsertFix(Pushed(S, S[S[x].parent].parent), nil, root, S[S[x].parent].parent)
  {
    Grandparent(S, nil, root, x);
    var p := S[x].parent;
    var g, u := S[p].parent, Uncle(S, x);
    if Red(S, u) {
      var S' := Pushed(S, g);
      RecolouredIsTree(S, S', nil, root);
      Above(S, nil, root, u);
      assert EvenAt(S, None, g);
      forall n | n in S ensures EvenAt(S', None, n) {
        PushedWeight(S, nil, root, g, n, false);
        PushedWeight(S, nil, root, g, n, true);
      }
      forall n | n in S && n != g ensures CalmAt(S', n) {
        if n != x { assert CalmAt(S, n); }
        if S[n].parent == g { Above(S, nil, root, n); }
      }
    }
  }

  // ----- a black uncle -----

  /** x is turned up above its parent, which becomes the new x. */
  lemma TurnInward(S: Cells, nil: Node, root: Node, x: Node)
    requires InsertFix(S, nil, root, x) && RedRed(S, root, x)
    ensures S[x].parent in S && S[S[x].parent].parent in S && S[S[x].parent].Kid(SideOf(S, x)) == x
    ensures var p := S[x].parent;
            var g, S' := S[p].parent, Turned(S, p, SideOf(S, x));
            SideOf(S, x) != SideOf(S, p) ==>
              && InsertFix(S', nil, root, p) && RedRed(S', root, p) && S'[p].parent == x && S'[x].parent == g
              && SideOf(S', p) == SideOf(S', x) == SideOf(S, p) && Uncle(S', p) == Uncle(S, x) && (Red(S', Uncle(S, x)) <==> Red(S, Uncle(S, x)))
  {
    Grandparent(S, nil, root, x);
    var p, side := S[x].parent, SideOf(S, x);
    var g, S' := S[p].parent, Turned(S, p, side);
    if side != SideOf(S, p) {
      Above(S, nil, root, x);
      TurnIsTree(S, nil, root, p, side);
      TurnIsEven(S, nil, root, p, side, None);
      Above(S, nil, root, p);
      forall n | n in S' && n != p ensures CalmAt(S', n) { TurnedCalm(S, nil, root, p, side, n); }
      RotatedKids(S, nil, root, p, side, g, SideOf(S, p));
      RotatedKids(S, nil, root, p, side, g, !SideOf(S, p));
      RotatedKids(S, nil, root, p, side, x, !side);
      RotatedKids(S, nil, root, p, side, x, side);
    }
  }

  lemma TurnedCalm(S: Cells, nil: Node, root: Node, p: Node, side: bool, n: Node)
    requires Tree(S, nil, root) && p in S && S[p].Kid(side) != nil && S[p].Kid(side) in S && S[p].red && S[S[p].Kid(side)].red
    requires Calm(S, S[p].Kid(side)) && n in S && n != p
    ensures CalmAt(Turned(S, p, side), n)
  {
    var x := S[p].Kid(side);
    Around(S, nil, root, p, side);
    Above(S, nil, root, p);
    assert CalmAt(S, p);
    if n != x { assert CalmAt(S, n); }
  }

  /** The parent is turned up above the grandparent; nothing is left to fix. */
  lemma TurnOutward(S: Cells, nil: Node, root: Node, x: Node)
    requires InsertFix(S, nil, root, x) && RedRed(S, root, x)
    ensures S[x].parent in S && S[S[x].parent].parent in S
    ensures var p := S[x].parent;
            var g := S[p].parent;
            && S[g].Kid(SideOf(S, p)) == p
            && (SideOf(S, x) == SideOf(S, p) && !Red(S, Uncle(S, x)) ==>
                var S', root' := Turned(S, g, SideOf(S, p)), RotatedRoot(S, nil, root, g, SideOf(S, p));
                InsertFix(S', nil, root', x) && !RedRed(S', root', x))
  {
    Grandparent(S, nil, root, x);
    var p := S[x].parent;
    var g, side := S[p].parent, SideOf(S, p);
    if SideOf(S, x) == side && !Red(S, Uncle(S, x)) {
      var S', root' := Turned(S, g, side), RotatedRoot(S, nil, root, g, side);
      TurnIsTree(S, nil, root, g, side);
      TurnIsEven(S, nil, root, g, side, None);
      Above(S, nil, root, g);
      Around(S, nil, root, g, side);
      forall n | n in S' ensures CalmAt(S', n) { OutwardCalm(S, nil, root, x, n); }
    }
  }

  lemma OutwardCalm(S: Cells, nil: Node, root: Node, x: Node, n: Node)
    requires InsertFix(S, nil, root, x) && RedRed(S, root, x) && n in S
    requires S[x].parent in S && S[S[x].parent].parent in S
    requires var p := S[x].parent; var g := S[p].parent; S[g].Kid(SideOf(S, p)) == p
    requires SideOf(S, x) == SideOf(S, S[x].parent) && !Red(S, Uncle(S, x))
    ensures var g := S[S[x].parent].parent; CalmAt(Turned(S, g, SideOf(S, S[x].parent)), n)
  {
    Grandparent(S, nil, root, x);
    var p := S[x].parent;
    var g, side := S[p].parent, SideOf(S, p);
    Around(S, nil, root, g, side);
    Above(S, nil, root, x);
    Above(S, nil, root, n);
    if n != x { assert CalmAt(S, n); }
    assert CalmAt(S, p);
  }

  // ----- the end -----

  /** Painting the root black. */
  function Blackened(S: Cells, k: Node): Cells {
    map n | n in S :: if n == k then S[n].(red := false) else S[n]
  }

  lemma BlackRoot(S: Cells, nil: Node, root: Node, x: Node)
    requires InsertFix(S, nil, root, x) && !RedRed(S, root, x)
    ensures RedBlack(Blackened(S, root), nil, root)
  {
    var S' := Blackened(S, root);
    RecolouredIsTree(S, S', nil, root);
    Above(S, nil, root, x);
    forall n | n in S ensures EvenAt(S', None, n) {
      assert EvenAt(S, None, n);
      Above(S, nil, root, n);
    }
    forall n | n in S ensures CalmAt(S', n) { if n != x { assert CalmAt(S, n); } }
  }
}
