/** The fix-up after a removal: one side of a node is one black node short, and x, which may be the
    sentinel, is what hangs there. */
module RbRemoveFix {
  import opened Options
  import opened RbColor
  import opened RbShape

  /** No red node is below a red one, except that x and its children may be. */
  ghost predicate CalmAround(S: Cells, x: Node) {
    forall n {:trigger CalmAt(S, n)} :: n in S && n != x && S[n].parent != x ==> CalmAt(S, n)
  }

  ghost predicate RemoveFix(S: Cells, nil: Node, root: Node, x: Node, D: Short) {
    && Tree(S, nil, root) && Even(S, D) && CalmAround(S, x) && (Red(S, root) ==> x == root)
    && match D
       case None => x == root
       case Some(d) => d.0 in S && S[d.0].Kid(d.1) == x
  }

  /** What lies outside the short side; it shrinks as x moves up. */
  ghost function Beyond(S: Cells, D: Short): set<Node> {
    match D
    case None => {}
    case Some(d) => if d.0 in S then set n | n in S && !(S[d.0].Lo(d.1) < S[n].at < S[d.0].Hi(d.1)) else {}
  }

  /** While x is not the root it hangs on the short side, which has a sibling: the loop never
      finds the sentinel there. */
  lemma Sibling(S: Cells, nil: Node, root: Node, x: Node, D: Short)
    requires RemoveFix(S, nil, root, x, D)
    ensures x == root <==> D == None
    ensures D.Some? ==>
              var (p, s) := D.value;
              var w := S[p].Kid(!s);
              && p != nil && p != x && w in S && w != nil && w != x && w != p && S[w].parent == p
              && S[p].bh == Height(S, w) == Height(S, x) + 1
              && (x in S ==> S[x].parent == p && S[w].Kid(s) != x && S[w].Kid(!s) != x)
  {
    if D.Some? {
      var (p, s) := D.value;
      var w := S[p].Kid(!s);
      Above(S, nil, root, p);
      assert EvenAt(S, D, p);
      assert Weight(S, p, s, D) == Weight(S, p, !s, D) == S[p].bh;
      Above(S, nil, root, w);
      if x != nil { Above(S, nil, root, x); }
    }
  }

  lemma End(S: Cells, nil: Node, root: Node, x: Node, D: Short)
    requires RemoveFix(S, nil, root, x, D) && (x == root || Red(S, x))
    ensures RedBlack(Painted(S, x), nil, root)
  {
    var S' := Painted(S, x);
    Sibling(S, nil, root, x, D);
    RecolouredIsTree(S, S', nil, root);
    forall n | n in S ensures EvenAt(S', None, n) {
      assert EvenAt(S, D, n);
      Above(S, nil, root, n);
      PaintedWeight(S, nil, root, x, D, n, false);
      PaintedWeight(S, nil, root, x, D, n, true);
    }
    forall n | n in S ensures CalmAt(S', n) { if n != x && S[n].parent != x { assert CalmAt(S, n); } }
  }

  function Painted(S: Cells, x: Node): Cells {
    map n | n in S :: if n == x then S[n].(red := false) else S[n]
  }

  lemma PaintedWeight(S: Cells, nil: Node, root: Node, x: Node, D: Short, n: Node, s: bool)
    requires RemoveFix(S, nil, root, x, D) && (x == root || Red(S, x)) && n in S
    ensures Weight(Painted(S, x), n, s, None) == S[n].bh
  {
    assert EvenAt(S, D, n) && Weight(S, n, s, D) == S[n].bh;
    Sibling(S, nil, root, x, D);
    Above(S, nil, root, n);
    var k := S[n].Kid(s);
    if k != nil { Above(S, nil, root, k); }
    if x in S { Above(S, nil, root, x); }
  }

  lemma KidsOf(S: Cells, nil: Node, root: Node, n: Node)
    requires Tree(S, nil, root) && n in S
    ensures n != nil
    ensures forall s :: S[n].Kid(s) != nil ==> S[n].Kid(s) in S && S[S[n].Kid(s)].parent == n
    ensures S[n].left == S[n].right ==> S[n].left == nil
  {
    Above(S, nil, root, n);
  }

  // ----- a red sibling -----

  /** The sibling is turned up; the new sibling is black. */
  lemma TurnSibling(S: Cells, nil: Node, root: Node, x: Node, D: Short)
    requires RemoveFix(S, nil, root, x, D) && D.Some? && !Red(S, x)
    requires Red(S, S[D.value.0].Kid(!D.value.1))
    ensures var (p, s) := D.value;
            var S', root' := Turned(S, p, !s), RotatedRoot(S, nil, root, p, !s);
            RemoveFix(S', nil, root', x, D) && !Red(S', S'[p].Kid(!s)) && x != root' && Beyond(S', D) == Beyond(S, D)
  {
    Sibling(S, nil, root, x, D);
    var (p, s) := D.value;
    var w := S[p].Kid(!s);
    var S', root' := Turned(S, p, !s), RotatedRoot(S, nil, root, p, !s);
    TurnIsTree(S, nil, root, p, !s);
    TurnIsEven(S, nil, root, p, !s, D);
    RotatedKids(S, nil, root, p, !s, p, s);
    RotatedKids(S, nil, root, p, !s, p, !s);
    KidsOf(S, nil, root, p);
    KidsOf(S, nil, root, w);
    assert CalmAt(S, w);
    if S[w].Kid(s) in S { assert CalmAt(S, S[w].Kid(s)); }
    forall n | n in S' && n != x && S'[n].parent != x ensures CalmAt(S', n) { SiblingCalm(S, nil, root, x, D, n); }
    Above(S, nil, root, p);
    assert Beyond(S', D) == Beyond(S, D);
  }

  lemma SiblingCalm(S: Cells, nil: Node, root: Node, x: Node, D: Short, n: Node)
    requires RemoveFix(S, nil, root, x, D) && D.Some? && !Red(S, x) && n in S && n != x
    requires Red(S, S[D.value.0].Kid(!D.value.1))
    ensures CalmAt(Turned(S, D.value.0, !D.value.1), n)
  {
    Sibling(S, nil, root, x, D);
    var (p, s) := D.value;
    var w := S[p].Kid(!s);
    Around(S, nil, root, p, !s);
    KidsOf(S, nil, root, w);
    Above(S, nil, root, n);
    assert CalmAt(S, w);
    if S[n].parent != x { assert CalmAt(S, n); }
    Above(S, nil, root, p);
  }

  // ----- a black sibling with black children -----

  /** The sibling turns red, and the parent is short. */
  function Lowered(S: Cells, p: Node, w: Node): Cells
    requires p in S && S[p].bh > 0
  {
    map n | n in S :: if n == w then S[n].(red := true) else if n == p then S[n].(bh := S[n].bh - 1) else S[n]
  }

  function Upwards(S: Cells, root: Node, p: Node): Short
    requires p in S
  {
    if p == root || S[p].parent !in S then None else Some((S[p].parent, SideOf(S, p)))
  }

  lemma LowerSibling(S: Cells, nil: Node, root: Node, x: Node, D: Short)
    requires RemoveFix(S, nil, root, x, D) && D.Some? && !Red(S, x) && S[D.value.0].bh > 0
    requires var w := S[D.value.0].Kid(!D.value.1); w in S && !Red(S, w) && !Red(S, S[w].left) && !Red(S, S[w].right)
    ensures var (p, s) := D.value;
            var S', D' := Lowered(S, p, S[p].Kid(!s)), Upwards(S, root, p);
            RemoveFix(S', nil, root, p, D') && Beyond(S', D') < Beyond(S, D)
  {
    var (p, s) := D.value;
    var w := S[p].Kid(!s);
    Sibling(S, nil, root, x, D);
    LoweredColours(S, nil, root, x, D);
    RecolouredIsTree(S, Lowered(S, p, w), nil, root);
    GoesUp(S, nil, root, p, w);
    LoweredBeyond(S, nil, root, x, D);
  }

  lemma GoesUp(S: Cells, nil: Node, root: Node, p: Node, w: Node)
    requires Tree(S, nil, root) && p in S && S[p].bh > 0
    ensures match Upwards(S, root, p)
            case None => p == root
            case Some(d) => d.0 in S && Lowered(S, p, w)[d.0].Kid(d.1) == p
    ensures (Red(S, root) ==> root == p) && w in S && w != root ==> (Red(Lowered(S, p, w), root) ==> root == p)
  {
    Above(S, nil, root, p);
  }

  lemma LoweredBeyond(S: Cells, nil: Node, root: Node, x: Node, D: Short)
    requires RemoveFix(S, nil, root, x, D) && D.Some? && S[D.value.0].bh > 0 && S[D.value.0].Kid(!D.value.1) in S
    ensures var (p, s) := D.value;
            Beyond(Lowered(S, p, S[p].Kid(!s)), Upwards(S, root, p)) < Beyond(S, D)
  {
    var (p, s) := D.value;
    Above(S, nil, root, p);
    assert p in Beyond(S, D) && p !in Beyond(Lowered(S, p, S[p].Kid(!s)), Upwards(S, root, p));
  }

  lemma LoweredColours(S: Cells, nil: Node, root: Node, x: Node, D: Short)
    requires RemoveFix(S, nil, root, x, D) && D.Some? && !Red(S, x) && S[D.value.0].bh > 0
    requires var w := S[D.value.0].Kid(!D.value.1); w in S && !Red(S, w) && !Red(S, S[w].left) && !Red(S, S[w].right)
    ensures var (p, s) := D.value;
            var S' := Lowered(S, p, S[p].Kid(!s));
            Even(S', Upwards(S, root, p)) && CalmAround(S', p)
  {
    var (p, s) := D.value;
    var S', D' := Lowered(S, p, S[p].Kid(!s)), Upwards(S, root, p);
    forall n | n in S ensures EvenAt(S', D', n) {
      LoweredWeight(S, nil, root, x, D, n, false);
      LoweredWeight(S, nil, root, x, D, n, true);
    }
    forall n | n in S && n != p && S[n].parent != p ensures CalmAt(S', n) { LoweredCalm(S, nil, root, x, D, n); }
  }

  lemma LoweredCalm(S: Cells, nil: Node, root: Node, x: Node, D: Short, n: Node)
    requires RemoveFix(S, nil, root, x, D) && D.Some? && !Red(S, x) && n in S && S[D.value.0].bh > 0
    requires var w := S[D.value.0].Kid(!D.value.1); w in S && !Red(S, S[w].left) && !Red(S, S[w].right)
    requires n != D.value.0 && S[n].parent != D.value.0
    ensures CalmAt(Lowered(S, D.value.0, S[D.value.0].Kid(!D.value.1)), n)
  {
    Sibling(S, nil, root, x, D);
    var w := S[D.value.0].Kid(!D.value.1);
    Above(S, nil, root, n);
    if n != x && S[n].parent != x { assert CalmAt(S, n); }
    if S[n].parent == w { assert n == S[w].left || n == S[w].right; }
  }

  lemma LoweredWeight(S: Cells, nil: Node, root: Node, x: Node, D: Short, n: Node, t: bool)
    requires RemoveFix(S, nil, root, x, D) && D.Some? && !Red(S, x) && n in S && S[D.value.0].bh > 0
    requires S[D.value.0].Kid(!D.value.1) in S && !Red(S, S[D.value.0].Kid(!D.value.1))
    ensures var (p, s) := D.value;
            var S' := Lowered(S, p, S[p].Kid(!s));
            Weight(S', n, t, Upwards(S, root, p)) == S'[n].bh
  {
    Sibling(S, nil, root, x, D);
    var (p, s) := D.value;
    assert EvenAt(S, D, n) && Weight(S, n, t, D) == S[n].bh;
    KidsOf(S, nil, root, n);
    Above(S, nil, root, p);
    if S[n].Kid(t) != p { assert Upwards(S, root, p) != Some((n, t)); }
  }

  // ----- a black sibling with a red child -----

  /** A red child on the near side is turned up and becomes the sibling. */
  lemma TurnNear(S: Cells, nil: Node, root: Node, x: Node, D: Short)
    requires RemoveFix(S, nil, root, x, D) && D.Some? && !Red(S, x) && S[D.value.0].Kid(!D.value.1) in S
    requires var w, s := S[D.value.0].Kid(!D.value.1), D.value.1; !Red(S, w) && Red(S, S[w].Kid(s)) && !Red(S, S[w].Kid(!s))
    ensures var (p, s) := D.value;
            var w := S[p].Kid(!s);
            var near, S' := S[w].Kid(s), Turned(S, w, s);
            && RemoveFix(S', nil, root, x, D) && RotatedRoot(S, nil, root, w, s) == root && x != root
            && S'[p].Kid(!s) == near && !Red(S', near) && S'[near].Kid(!s) == w && S'[w].red && Beyond(S', D) == Beyond(S, D)
  {
    Sibling(S, nil, root, x, D);
    var (p, s) := D.value;
    var w := S[p].Kid(!s);
    var near, S' := S[w].Kid(s), Turned(S, w, s);
    Above(S, nil, root, near);
    Around(S, nil, root, w, s);
    TurnIsTree(S, nil, root, w, s);
    TurnIsEven(S, nil, root, w, s, D);
    RotatedKids(S, nil, root, w, s, p, s);
    RotatedKids(S, nil, root, w, s, p, !s);
    RotatedKids(S, nil, root, w, s, near, !s);
    Above(S, nil, root, p);
    Above(S, nil, root, w);
    forall n | n in S' && n != x && S'[n].parent != x ensures CalmAt(S', n) { NearCalm(S, nil, root, x, D, n); }
    assert Beyond(S', D) == Beyond(S, D);
  }

  lemma NearCalm(S: Cells, nil: Node, root: Node, x: Node, D: Short, n: Node)
    requires RemoveFix(S, nil, root, x, D) && D.Some? && !Red(S, x) && n in S && n != x
    requires S[D.value.0].Kid(!D.value.1) in S
    requires var w, s := S[D.value.0].Kid(!D.value.1), D.value.1; !Red(S, w) && Red(S, S[w].Kid(s)) && !Red(S, S[w].Kid(!s))
    ensures CalmAt(Turned(S, S[D.value.0].Kid(!D.value.1), D.value.1), n)
  {
    Sibling(S, nil, root, x, D);
    var (p, s) := D.value;
    var w := S[p].Kid(!s);
    var near := S[w].Kid(s);
    Above(S, nil, root, near);
    Around(S, nil, root, w, s);
    KidsOf(S, nil, root, w);
    KidsOf(S, nil, root, near);
    Above(S, nil, root, n);
    if S[near].parent != x { assert CalmAt(S, near); }
    if S[n].parent != x { assert CalmAt(S, n); }
    if S[n].parent == w { assert n == S[w].Kid(s) || n == S[w].Kid(!s); }
  }

  /** The last rotation: the sibling takes the parent's colour, and parent and far child turn black. */
  function LastTurned(S: Cells, p: Node, s: bool): Cells
    requires p in S && S[p].Kid(!s) in S
  {
    map n | n in S ::
      var w := S[p].Kid(!s);
      var c := RotatedCell(S, p, !s, n);
      if n == p then c.(red := false, bh := S[w].bh)
      else if n == w then c.(red := S[p].red, bh := S[w].bh + 1)
      else if n == S[w].Kid(!s) then c.(red := false)
      else c
  }

  lemma LastTurnEnds(S: Cells, nil: Node, root: Node, x: Node, D: Short)
    requires RemoveFix(S, nil, root, x, D) && D.Some? && !Red(S, x) && S[D.value.0].Kid(!D.value.1) in S
    requires var w, s := S[D.value.0].Kid(!D.value.1), D.value.1; !Red(S, w) && Red(S, S[w].Kid(!s))
    ensures var (p, s) := D.value;
            var root' := RotatedRoot(S, nil, root, p, !s);
            RemoveFix(LastTurned(S, p, s), nil, root', root', None)
  {
    Sibling(S, nil, root, x, D);
    var (p, s) := D.value;
    var S', root' := LastTurned(S, p, s), RotatedRoot(S, nil, root, p, !s);
    RotationIsTree(S, nil, root, p, !s);
    RecolouredIsTree(Rotated(S, p, !s), S', nil, root');
    Around(S, nil, root, p, !s);
    Above(S, nil, root, p);
    forall n | n in S' ensures EvenAt(S', None, n) {
      LastWeight(S, nil, root, x, D, n, false);
      LastWeight(S, nil, root, x, D, n, true);
    }
    forall n | n in S' ensures CalmAt(S', n) { LastCalm(S, nil, root, x, D, n); }
  }

  lemma LastHeights(S: Cells, nil: Node, root: Node, x: Node, D: Short)
    requires RemoveFix(S, nil, root, x, D) && D.Some? && !Red(S, x)
    requires S[D.value.0].Kid(!D.value.1) in S
    requires var w, s := S[D.value.0].Kid(!D.value.1), D.value.1; !Red(S, w) && Red(S, S[w].Kid(!s))
    ensures var (p, s) := D.value;
            var w := S[p].Kid(!s);
            var far, S' := S[w].Kid(!s), LastTurned(S, p, s);
            && far != p && far != w && far != x && p != w
            && S[p].bh == S[w].bh + 1 && Height(S, x) == S[w].bh && Height(S, far) == S[w].bh
            && Height(S', p) == S[w].bh + 1 && Height(S', far) == S[w].bh + 1 && Height(S', w) == Height(S, p)
            && forall k :: k != p && k != w && k != far ==> Height(S', k) == Height(S, k)
  {
    Sibling(S, nil, root, x, D);
    var (p, s) := D.value;
    var w := S[p].Kid(!s);
    KidsOf(S, nil, root, w);
    Around(S, nil, root, p, !s);
    Above(S, nil, root, w);
    assert EvenAt(S, D, w) && Weight(S, w, !s, D) == S[w].bh;
  }

  lemma LastWeightOfParent(S: Cells, nil: Node, root: Node, x: Node, D: Short, t: bool)
    requires RemoveFix(S, nil, root, x, D) && D.Some? && !Red(S, x)
    requires S[D.value.0].Kid(!D.value.1) in S
    requires var w, s := S[D.value.0].Kid(!D.value.1), D.value.1; !Red(S, w) && Red(S, S[w].Kid(!s))
    ensures var S' := LastTurned(S, D.value.0, D.value.1); Weight(S', D.value.0, t, None) == S'[D.value.0].bh
  {
    Sibling(S, nil, root, x, D);
    LastHeights(S, nil, root, x, D);
    var (p, s) := D.value;
    var w := S[p].Kid(!s);
    RotatedKids(S, nil, root, p, !s, p, t);
    RotatedKids(S, nil, root, p, !s, w, s);
    KidsOf(S, nil, root, w);
    assert EvenAt(S, D, p) && Weight(S, p, t, D) == S[p].bh;
    assert EvenAt(S, D, w) && Weight(S, w, s, D) == S[w].bh;
  }

  lemma LastWeightOfSibling(S: Cells, nil: Node, root: Node, x: Node, D: Short, t: bool)
    requires RemoveFix(S, nil, root, x, D) && D.Some? && !Red(S, x)
    requires S[D.value.0].Kid(!D.value.1) in S
    requires var w, s := S[D.value.0].Kid(!D.value.1), D.value.1; !Red(S, w) && Red(S, S[w].Kid(!s))
    ensures var S', w := LastTurned(S, D.value.0, D.value.1), S[D.value.0].Kid(!D.value.1); Weight(S', w, t, None) == S'[w].bh
  {
    Sibling(S, nil, root, x, D);
    LastHeights(S, nil, root, x, D);
    var (p, s) := D.value;
    RotatedKids(S, nil, root, p, !s, S[p].Kid(!s), t);
  }

  lemma LastWeightOfOther(S: Cells, nil: Node, root: Node, x: Node, D: Short, n: Node, t: bool)
    requires RemoveFix(S, nil, root, x, D) && D.Some? && !Red(S, x)
    requires S[D.value.0].Kid(!D.value.1) in S
    requires var w, s := S[D.value.0].Kid(!D.value.1), D.value.1; !Red(S, w) && Red(S, S[w].Kid(!s))
    requires n in S && n != D.value.0 && n != S[D.value.0].Kid(!D.value.1)
    ensures var S' := LastTurned(S, D.value.0, D.value.1); Weight(S', n, t, None) == S'[n].bh
  {
    Sibling(S, nil, root, x, D);
    LastHeights(S, nil, root, x, D);
    var (p, s) := D.value;
    var w := S[p].Kid(!s);
    RotatedKids(S, nil, root, p, !s, n, t);
    KidsOf(S, nil, root, n);
    KidsOf(S, nil, root, w);
    assert EvenAt(S, D, n) && Weight(S, n, t, D) == S[n].bh;
  }

  lemma LastWeight(S: Cells, nil: Node, root: Node, x: Node, D: Short, n: Node, t: bool)
    requires RemoveFix(S, nil, root, x, D) && D.Some? && !Red(S, x)
    requires S[D.value.0].Kid(!D.value.1) in S
    requires var w, s := S[D.value.0].Kid(!D.value.1), D.value.1; !Red(S, w) && Red(S, S[w].Kid(!s))
    requires n in S
    ensures var S' := LastTurned(S, D.value.0, D.value.1); Weight(S', n, t, None) == S'[n].bh
  {
    if n == D.value.0 {
      LastWeightOfParent(S, nil, root, x, D, t);
    } else if n == S[D.value.0].Kid(!D.value.1) {
      LastWeightOfSibling(S, nil, root, x, D, t);
    } else {
      LastWeightOfOther(S, nil, root, x, D, n, t);
    }
  }

  lemma LastCalm(S: Cells, nil: Node, root: Node, x: Node, D: Short, n: Node)
    requires RemoveFix(S, nil, root, x, D) && D.Some? && !Red(S, x) && n in S
    requires S[D.value.0].Kid(!D.value.1) in S
    requires var w, s := S[D.value.0].Kid(!D.value.1), D.value.1; !Red(S, w) && Red(S, S[w].Kid(!s))
    ensures CalmAt(LastTurned(S, D.value.0, D.value.1), n)
  {
    Sibling(S, nil, root, x, D);
    var (p, s) := D.value;
    var w := S[p].Kid(!s);
    var far := S[w].Kid(!s);
    KidsOf(S, nil, root, w);
    Around(S, nil, root, p, !s);
    if n == w {
      LastCalmTop(S, nil, root, x, D);
    } else if n != p && n != far {
      KidsOf(S, nil, root, p);
      Above(S, nil, root, n);
      if n != x && S[n].parent != x { assert CalmAt(S, n); }
      if S[n].parent == w { assert n == S[w].Kid(s); }
    }
  }

  lemma LastCalmTop(S: Cells, nil: Node, root: Node, x: Node, D: Short)
    requires RemoveFix(S, nil, root, x, D) && D.Some? && !Red(S, x) && S[D.value.0].Kid(!D.value.1) in S
    requires var w, s := S[D.value.0].Kid(!D.value.1), D.value.1; !Red(S, w) && Red(S, S[w].Kid(!s))
    ensures CalmAt(LastTurned(S, D.value.0, D.value.1), S[D.value.0].Kid(!D.value.1))
  {
    Sibling(S, nil, root, x, D);
    var (p, s) := D.value;
    Around(S, nil, root, p, !s);
    Above(S, nil, root, p);
    if x in S { Above(S, nil, root, x); }
    assert CalmAt(S, p);
  }

  function Recounted(S: Cells, n: Node, bh: nat): Cells
    requires n in S
  {
    S[n := S[n].(bh := bh)]
  }

  /** The colours before the last rotation. */
  function LastPainted(S: Cells, p: Node, w: Node, far: Node): Cells
    requires p in S && w in S && far in S
  {
    Paint(Paint(Paint(S, w, S[p].red), p, false), far, false)
  }

  lemma LastStepsAt(S: Cells, p: Node, w: Node, far: Node, s: bool, n: Node)
    requires p in S && w in S && far in S && p != w && far != p && far != w && n in S
    requires w == S[p].Kid(!s) && far == S[w].Kid(!s)
    ensures LastPainted(S, p, w, far)[p].Kid(!s) == w
    ensures LastTurned(S, p, s)[n] == Recounted(Recounted(Rotated(LastPainted(S, p, w, far), p, !s), p, S[w].bh), w, S[w].bh + 1)[n]
  {}

  /** The steps of the last case add up to it. */
  lemma LastSteps(S: Cells, p: Node, w: Node, far: Node, s: bool)
    requires p in S && w in S && far in S && p != w && far != p && far != w
    requires w == S[p].Kid(!s) && far == S[w].Kid(!s)
    ensures LastPainted(S, p, w, far)[p].Kid(!s) == w
    ensures Recounted(Recounted(Rotated(LastPainted(S, p, w, far), p, !s), p, S[w].bh), w, S[w].bh + 1) == LastTurned(S, p, s)
  {
    LastStepsAt(S, p, w, far, s, p);
    var T, T' := LastTurned(S, p, s), Recounted(Recounted(Rotated(LastPainted(S, p, w, far), p, !s), p, S[w].bh), w, S[w].bh + 1);
    forall n | n in S ensures T[n] == T'[n] { LastStepsAt(S, p, w, far, s, n); }
    assert T.Keys == S.Keys == T'.Keys;
  }

  lemma LastPaintKeeps(S: Cells, p: Node, w: Node, far: Node, s: bool)
    requires p in S && w in S && far in S && p != w && far != p && far != w
    requires w == S[p].Kid(!s) && far == S[w].Kid(!s)
    ensures SameStructure(S, LastPainted(S, p, w, far)) && LastPainted(S, p, w, far)[p].Kid(!s) == w
  {}

  lemma LastPlaces(S: Cells, p: Node, s: bool)
    requires p in S && S[p].Kid(!s) in S
    ensures LastTurned(S, p, s).Keys == S.Keys && forall n :: n in S ==> LastTurned(S, p, s)[n].at == S[n].at
  {}
}
