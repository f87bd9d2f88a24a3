/** The colours of a red-black tree: equal numbers of black nodes on all paths, and no red node
    below a red one. Each step of the two fix-up loops keeps both but for one stated exception. */
module RbColor {
  import opened Options
  import opened RbShape

  /** The number of black nodes on each path from k down. */
  function Height(S: Cells, k: Node): nat {
    if k in S then S[k].bh + (if S[k].red then 0 else 1) else 0
  }

  /** The side of a node that is one black node short, if any. */
  type Short = Option<(Node, bool)>

  function Weight(S: Cells, x: Node, side: bool, D: Short): nat
    requires x in S
  {
    Height(S, S[x].Kid(side)) + if D == Some((x, side)) then 1 else 0
  }

  ghost predicate EvenAt(S: Cells, D: Short, x: Node)
    requires x in S
  {
    Weight(S, x, false, D) == S[x].bh == Weight(S, x, true, D)
  }

  ghost predicate Even(S: Cells, D: Short) {
    forall x {:trigger EvenAt(S, D, x)} :: x in S ==> EvenAt(S, D, x)
  }

  predicate Red(S: Cells, k: Node) {
    k in S && S[k].red
  }

  ghost predicate CalmAt(S: Cells, x: Node)
    requires x in S
  {
    !(S[x].red && Red(S, S[x].parent))
  }

  /** No red node other than x is below a red one. */
  ghost predicate Calm(S: Cells, x: Node) {
    forall n {:trigger CalmAt(S, n)} :: n in S && n != x ==> CalmAt(S, n)
  }

  ghost predicate RedBlack(S: Cells, nil: Node, root: Node) {
    Tree(S, nil, root) && Even(S, None) && Calm(S, nil) && !Red(S, root)
  }

  // ----- recolouring -----

  ghost predicate SameStructure(S: Cells, S': Cells) {
    S'.Keys == S.Keys && forall n :: n in S ==> S'[n] == S[n].(red := S'[n].red, bh := S'[n].bh)
  }

  lemma RecolouredIsTree(S: Cells, S': Cells, nil: Node, root: Node)
    requires Tree(S, nil, root) && SameStructure(S, S')
    ensures Tree(S', nil, root)
  {
    forall n | n in S' ensures CellOk(S', nil, root, n) {
      assert CellOk(S, nil, root, n);
      SameVacancy(S, S', S[n].lo, S[n].at);
      SameVacancy(S, S', S[n].at, S[n].hi);
    }
    PlacesStayApart(S, S');
  }

  // ----- turning: a rotation that exchanges the two colours -----

  function TurnedCell(S: Cells, x: Node, side: bool, n: Node): Cell
    requires x in S && S[x].Kid(side) in S && n in S
  {
    RotatedCell(S, x, side, n).(red := if n == x then S[S[x].Kid(side)].red else if n == S[x].Kid(side) then S[x].red else S[n].red)
  }

  function Turned(S: Cells, x: Node, side: bool): Cells
    requires x in S && S[x].Kid(side) in S
  {
    map n | n in S :: TurnedCell(S, x, side, n)
  }

  lemma TurnIsTree(S: Cells, nil: Node, root: Node, x: Node, side: bool)
    requires Tree(S, nil, root) && x in S && S[x].Kid(side) != nil
    ensures S[x].Kid(side) in S
    ensures Tree(Turned(S, x, side), nil, RotatedRoot(S, nil, root, x, side))
  {
    RotationIsTree(S, nil, root, x, side);
    RecolouredIsTree(Rotated(S, x, side), Turned(S, x, side), nil, RotatedRoot(S, nil, root, x, side));
  }

  /** Turning a red child up keeps all heights. */
  lemma TurnIsEven(S: Cells, nil: Node, root: Node, x: Node, side: bool, D: Short)
    requires Tree(S, nil, root) && x in S && S[x].Kid(side) != nil && Red(S, S[x].Kid(side)) && Even(S, D)
    requires D.Some? ==> D.value == (x, !side) || (D.value.0 != x && D.value.0 != S[x].Kid(side))
    ensures Even(Turned(S, x, side), D)
    ensures Height(Turned(S, x, side), S[x].Kid(side)) == Height(S, x)
  {
    var S', y := Turned(S, x, side), S[x].Kid(side);
    Around(S, nil, root, x, side);
    assert EvenAt(S, D, x) && EvenAt(S, D, y);
    forall n | n in S' ensures EvenAt(S', D, n) {
      assert EvenAt(S, D, n);
      TurnedWeight(S, nil, root, x, side, D, n, false);
      TurnedWeight(S, nil, root, x, side, D, n, true);
    }
  }

  lemma TurnedHeights(S: Cells, nil: Node, root: Node, x: Node, side: bool, D: Short)
    requires Tree(S, nil, root) && x in S && S[x].Kid(side) != nil && Red(S, S[x].Kid(side)) && Even(S, D)
    requires D.Some? ==> D.value == (x, !side) || (D.value.0 != x && D.value.0 != S[x].Kid(side))
    ensures var S', y := Turned(S, x, side), S[x].Kid(side);
            && y != x && S'[x].bh == S[x].bh == S[y].bh == S'[y].bh
            && Height(S', x) == S[x].bh && Height(S', y) == Height(S, x)
            && forall k :: k != x && k != y ==> Height(S', k) == Height(S, k)
  {
    Around(S, nil, root, x, side);
    assert EvenAt(S, D, x) && EvenAt(S, D, S[x].Kid(side));
  }

  lemma TurnedWeight(S: Cells, nil: Node, root: Node, x: Node, side: bool, D: Short, n: Node, s: bool)
    requires Tree(S, nil, root) && x in S && S[x].Kid(side) != nil && Red(S, S[x].Kid(side)) && Even(S, D)
    requires D.Some? ==> D.value == (x, !side) || (D.value.0 != x && D.value.0 != S[x].Kid(side))
    requires n in S
    ensures Turned(S, x, side)[n].bh == S[n].bh && Weight(Turned(S, x, side), n, s, D) == S[n].bh
  {
    var y := S[x].Kid(side);
    TurnedHeights(S, nil, root, x, side, D);
    RotatedKids(S, nil, root, x, side, n, s);
    RotatedKids(S, nil, root, x, side, y, !side);
    assert EvenAt(S, D, n) && EvenAt(S, D, y) && EvenAt(S, D, x);
    var k := Turned(S, x, side)[n].Kid(s);
    if n == x {
      assert Weight(S, y, !side, D) == S[y].bh;
    } else if n != y {
      assert Weight(S, n, s, D) == S[n].bh;
    }
  }

  function Paint(S: Cells, n: Node, red: bool): Cells
    requires n in S
  {
    S[n := S[n].(red := red)]
  }

  /** A rotation of two nodes of the same colour is a turn, and so is one after the colours have been exchanged. */
  lemma RotationIsTurn(S: Cells, x: Node, side: bool)
    requires x in S && S[x].Kid(side) in S && S[x].Kid(side) != x
    ensures S[x].red == S[S[x].Kid(side)].red ==> Rotated(S, x, side) == Turned(S, x, side)
    ensures Rotated(Paint(Paint(S, S[x].Kid(side), S[x].red), x, S[S[x].Kid(side)].red), x, side) == Turned(S, x, side)
  {
    var S1 := Paint(Paint(S, S[x].Kid(side), S[x].red), x, S[S[x].Kid(side)].red);
    assert S1.Keys == S.Keys;
  }
}
