/** getnext: the next route in prefix-lexicographic order, starting from any address. */
module RadixNext {
  import opened Bits
  import opened Options
  import opened PrefixSet
  import opened Preorder
  import opened Radix
  import opened RadixLookup
  import opened RadixWalk
  import opened TrieShape

  /** r is the first route of those stored under the keys in W, or null if there is none. */
  ghost predicate FirstOf(routes: map<Bits, RtHead>, W: set<Bits>, r: RtHead?) {
    if r == null then W == {}
    else exists p :: p in W && p in routes && routes[p] == r && forall q :: q in W ==> q == p || Before(p, q)
  }

  /** The stored keys that a walk entering n still has ahead. */
  ghost function From(t: RtTable, n: RtNode?): set<Bits>
    reads t`routeAt
  {
    if n == null then {} else set q | q in t.routeAt && !Done(Down, n.key, q)
  }

  // ----- moving on in preorder -----

  /** The walking states (dir, m) and (dir0, n) have the same keys behind them. */
  ghost predicate SameDone(t: RtTable, dir: Direction, m: Bits, dir0: Direction, n: Bits)
    reads t`nodeAt
  {
    forall r :: r in t.nodeAt ==> (Done(dir, m, r) <==> Done(dir0, n, r))
  }

  /** Up from a node whose parent has nothing more on its right. */
  lemma PastRight(t: RtTable, y: RtNode)
    requires t.Valid() && t.Has(y) && y.parent != null && (y.parent.right == null || y.parent.right == y)
    ensures SameDone(t, Up, y.parent.key, Up, y.key)
  {
    var m := y.parent;
    t.ParentHolds(y);
    t.NodeLinks(m);
    forall r | r in t.nodeAt ensures Done(Up, m.key, r) <==> Done(Up, y.key, r) {
      StepUp(t.nodeAt.Keys, m.key, y.key, r);
      if m.right == null { StepRight(t.nodeAt.Keys, m.key, None, r); }
    }
  }

  /** From a left subtree over to the right sibling. */
  lemma IntoRight(t: RtTable, y: RtNode)
    requires t.Valid() && t.Has(y) && y.parent != null && y.parent.right != null && y.parent.right != y
    ensures t.Has(y.parent.right) && SameDone(t, Down, y.parent.right.key, Up, y.key)
  {
    var m := y.parent;
    t.ParentHolds(y);
    t.NodeLinks(m);
    forall r | r in t.nodeAt ensures Done(Down, m.right.key, r) <==> Done(Up, y.key, r) {
      StepUp(t.nodeAt.Keys, m.key, y.key, r);
      StepRight(t.nodeAt.Keys, m.key, Some(m.right.key), r);
    }
  }

  lemma AtRoot(t: RtTable, y: RtNode)
    requires t.Valid() && t.Has(y) && y.parent == null
    ensures forall r :: r in t.nodeAt ==> Done(Up, y.key, r)
  {
    t.NodeLinks(y);
  }

  /** From a finished subtree, up to the first ancestor with an unvisited right child. */
  method ClimbRight(t: RtTable, from: RtNode) returns (m: RtNode?)
    requires t.Valid() && t.Has(from)
    ensures m != null ==> t.Has(m) && SameDone(t, Down, m.key, Up, from.key)
    ensures m == null ==> forall r :: r in t.nodeAt ==> Done(Up, from.key, r)
  {
    var next: RtNode := from;
    m := from.parent;
    t.NodeLinks(from);
    while m != null && (m.right == null || m.right == next)
      invariant t.Has(next) && m == next.parent && (m != null ==> t.Has(m) && m.key < next.key)
      invariant SameDone(t, Up, next.key, Up, from.key)
      decreases |next.key|
    {
      PastRight(t, next);
      next := m;
      m := next.parent;
      t.NodeLinks(next);
    }
    if m == null {
      AtRoot(t, next);
    } else {
      IntoRight(t, next);
      m := m.right;
    }
  }

  /** m, if any, is the next node after n in preorder. */
  ghost predicate IsNextNode(t: RtTable, n: RtNode, m: RtNode?)
    reads t`nodeAt
  {
    && (m != null ==> t.Has(m) && forall r :: r in t.nodeAt ==> (Done(Down, m.key, r) <==> Done(Down, n.key, r) || r == n.key))
    && (m == null ==> forall r :: r in t.nodeAt ==> Done(Down, n.key, r) || r == n.key)
  }

  lemma ChildIsNext(t: RtTable, n: RtNode)
    requires t.Valid() && t.Has(n)
    ensures n.left != null ==> IsNextNode(t, n, n.left)
    ensures n.left == null && n.right != null ==> IsNextNode(t, n, n.right)
    ensures n.left == null && n.right == null ==>
              forall r :: r in t.nodeAt ==> (Done(Up, n.key, r) <==> Done(Down, n.key, r) || r == n.key)
  {
    t.NodeLinks(n);
    forall r | r in t.nodeAt
      ensures n.left != null ==> (Done(Down, n.left.key, r) <==> Done(Down, n.key, r) || r == n.key)
      ensures n.left == null && n.right != null ==> (Done(Down, n.right.key, r) <==> Done(Down, n.key, r) || r == n.key)
      ensures n.left == null && n.right == null ==> (Done(Up, n.key, r) <==> Done(Down, n.key, r) || r == n.key)
    {
      StepDown(t.nodeAt.Keys, n.key, RtTable.KeyOf(n.left), r);
      StepRight(t.nodeAt.Keys, n.key, RtTable.KeyOf(n.right), r);
    }
  }

  method NextNode(t: RtTable, n: RtNode) returns (m: RtNode?)
    requires t.Valid() && t.Has(n)
    ensures IsNextNode(t, n, m)
  {
    ChildIsNext(t, n);
    if n.left != null { return n.left; }
    if n.right != null { return n.right; }
    m := ClimbRight(t, n);
  }

  /** The search at the end of getnext: from a node on, the first one with a route. */
  method FirstRouteFrom(t: RtTable, n: RtNode?) returns (r: RtHead?)
    requires t.Valid() && (n != null ==> t.Has(n))
    ensures FirstOf(t.routeAt, From(t, n), r)
  {
    t.RoutesAreNodes();
    var rtn := n;
    while rtn != null
      invariant rtn != null ==> t.Has(rtn)
      invariant From(t, rtn) == From(t, n)
      decreases ToGo(t, rtn, Down)
    {
      assert t.Carries(rtn.key);
      BeforeTotal(rtn.key, rtn.key);
      if rtn.rth != null {
        FirstHere(t, rtn);
        return rtn.rth;
      }
      assert rtn.key in ToGo(t, rtn, Down);
      rtn := NextNode(t, rtn);
    }
    return null;
  }

  lemma FirstHere(t: RtTable, n: RtNode)
    requires t.Valid() && t.Has(n) && n.key in t.routeAt
    ensures FirstOf(t.routeAt, From(t, n), t.routeAt[n.key])
  {
    BeforeTotal(n.key, n.key);
    forall q | q in From(t, n) ensures q == n.key || Before(n.key, q) { BeforeTotal(q, n.key); }
    assert n.key in From(t, n);
  }

  // ----- where getnext starts -----

  lemma Upward(t: RtTable, n: RtNode)
    requires t.Valid() && t.Has(n)
    ensures n.parent != null ==> t.Has(n.parent) && n.parent.key < n.key && n.parent.bit == |n.parent.key|
  {
    t.NodeLinks(n);
    if n.parent != null { assert t.LinkedAt(Some(n.parent.key)); }
  }

  /** The do-while climb of getnext for a key that belongs after its branch: out of the subtree that
      starts at bit dbit, and on to the first unvisited right child. */
  method ClimbPast(t: RtTable, from: RtNode, dbit: nat) returns (m: RtNode?, ghost y: Bits)
    requires t.Valid() && t.Has(from) && dbit < |from.key| && NoneAt(t, from.key, dbit)
    ensures m != null ==> t.Has(m) && SameDone(t, Down, m.key, Up, y)
    ensures m == null ==> forall r :: r in t.nodeAt ==> Done(Up, y, r)
    ensures y in t.nodeAt && TopAt(t, from.key, y, dbit)
  {
    var next: RtNode := from;
    m := from.parent;
    y := from.key;
    Upward(t, from);
    if m == null || m.bit <= dbit { TopFound(t, from.key, next, dbit); }
    while m != null && (m.bit > dbit || m.right == null || m.right == next)
      invariant t.Has(next) && next.key <= from.key && next.parent == m
      invariant m != null ==> t.Has(m) && m.bit == |m.key| && m.key < next.key
      invariant y in t.nodeAt
      invariant m != null && m.bit > dbit ==> y == next.key && dbit < |y|
      invariant m == null || m.bit <= dbit ==> TopAt(t, from.key, y, dbit) && SameDone(t, Up, next.key, Up, y)
      decreases |next.key|
    {
      if m.bit <= dbit { PastRight(t, next); } else { y := m.key; }
      next := m;
      Upward(t, next);
      m := next.parent;
      if next.bit > dbit && (m == null || m.bit <= dbit) { TopFound(t, from.key, next, dbit); }
    }
    if m == null {
      AtRoot(t, next);
    } else {
      IntoRight(t, next);
      m := m.right;
    }
  }

  /** No key above his has exactly d bits (the assertion in the climb). */
  ghost predicate NoneAt(t: RtTable, his: Bits, d: nat)
    reads t`nodeAt
  {
    forall p :: p in t.nodeAt && p < his ==> |p| != d
  }

  /** y is the topmost key above or at his with more than d bits; all that shares its first d bits is below it. */
  ghost predicate TopAt(t: RtTable, his: Bits, y: Bits, d: nat)
    reads t`nodeAt
  {
    y <= his && d < |y| && forall r :: r in t.nodeAt && y[..d] <= r ==> y <= r
  }

  lemma TopFound(t: RtTable, his: Bits, n: RtNode, d: nat)
    requires t.Valid() && t.Has(n) && n.key <= his && d < |n.key| && NoneAt(t, his, d)
    requires n.parent != null ==> |n.parent.key| <= d
    ensures TopAt(t, his, n.key, d)
  {
    t.NodeLinks(n);
    forall r | r in t.nodeAt && r < n.key ensures |r| < d {
      if n.parent != null { PrefixCases(r, n.parent.key); }
    }
    t.AllBelowSpot(n.key, d);
  }

  // ----- what getnext finds -----

  /** Stored keys lie on both sides of g. */
  ghost predicate Branches(R: set<Bits>, g: Bits) {
    (exists q :: q in R && Below(g, false, q)) && (exists q :: q in R && Below(g, true, q))
  }

  /** The search for k ends at a stored prefix with keys on its 0 side only, while k is on its 1 side:
      getnext then returns a key that comes before k. */
  ghost predicate WrongTurn(R: set<Bits>, k: Bits) {
    exists p :: p in R && p < k && k[|p|] && (exists q :: q in R && Below(p, false, q)) &&
      forall q :: q in R ==> !Below(p, true, q)
  }

  /** k is not stored, and below it the bits of the address beyond k lead to the 1 side of a branching
      point g before a stored key is met: getnext then skips the keys on the 0 side. */
  ghost predicate HostBits(R: set<Bits>, k: Bits, a: Bits) {
    k !in R && exists g {:trigger Branches(R, g)} ::
      && k <= g && |g| < |a| && a[|g|] && Branches(R, g)
      && (forall p :: p in R && k <= p ==> !(p <= g))
      && (forall p {:trigger Branches(R, p)} :: k <= p && p < g && Branches(R, p) ==> g[|p|] == a[|p|])
  }

  ghost function After(R: set<Bits>, k: Bits): set<Bits> {
    set q | q in R && Before(k, q)
  }

  /** What getnext promises for the prefix k of the address a. */
  ghost predicate NextOf(routes: map<Bits, RtHead>, k: Bits, a: Bits, r: RtHead?) {
    && (FirstOf(routes, After(routes.Keys, k), r) <==> !WrongTurn(routes.Keys, k) && !HostBits(routes.Keys, k, a))
    && (r != null ==> exists p :: p in routes && routes[p] == r && !(p <= k))
    && (k !in routes && (exists q :: q in routes && k <= q) ==> exists p :: p in routes && routes[p] == r && k <= p)
  }

  lemma FirstIsLater(routes: map<Bits, RtHead>, k: Bits, r: RtHead?)
    requires FirstOf(routes, After(routes.Keys, k), r)
    ensures r != null ==> exists p :: p in routes && routes[p] == r && !(p <= k)
  {
    if r != null {
      var p :| p in After(routes.Keys, k) && routes[p] == r;
      BeforeTotal(k, p);
      if p <= k { PrefixCases(p, k); BelowBefore(p, k, k); }
    }
  }

  lemma BranchesAreNodes(t: RtTable, g: Bits)
    requires t.Valid() && Branches(t.routeAt.Keys, g)
    ensures g in t.nodeAt
  {
    t.RoutesAreNodes();
    assert t.LinkedAt(None);
    TrieIsMeetClosed(t.shape, RtTable.KeyOf(t.root));
    var p :| p in t.routeAt && Below(g, false, p);
    var q :| q in t.routeAt && Below(g, true, q);
    CommonUnique(p, q, |g|);
    assert Meet(p, q) == g;
  }

  /** The search left the table at bit d. */
  ghost predicate Leaves(t: RtTable, k: Bits, his: Bits, y: Bits, d: nat)
    reads t`nodeAt
  {
    && d < |k| && d < |his| && his in t.nodeAt && y in t.nodeAt
    && k[..d] == his[..d] && k[d] != his[d] && TopAt(t, his, y, d)
  }

  lemma LeavesBits(t: RtTable, k: Bits, his: Bits, y: Bits, d: nat, r: Bits)
    requires Leaves(t, k, his, y, d) && r in t.nodeAt
    ensures k[..d] < y && y[d] == his[d]
    ensures k[..d] <= r <==> y <= r
    ensures !(k <= r)
  {
    assert y[..d] == his[..d] == k[..d];
    if k[..d] <= r { assert y <= r && r[d] == y[d]; }
  }

  /** All that is below y is on the other side of k, and the rest compares with k as with y. */
  lemma LeavesOrder(t: RtTable, k: Bits, his: Bits, y: Bits, d: nat, r: Bits)
    requires Leaves(t, k, his, y, d) && r in t.nodeAt
    ensures Before(r, k) <==> Done(if k[d] then Up else Down, y, r)
  {
    LeavesBits(t, k, his, y, d, r);
    var x := k[..d];
    if y <= r {
      assert Below(x, y[d], r) && Below(x, k[d], k);
      BelowBefore(x, r, k);
      BelowBefore(x, k, r);
      BeforeTotal(r, k);
      PrefixCases(y, r);
      if y < r { BelowBefore(y, r, r); }
      BeforeTotal(r, y);
    } else {
      SubtreeContiguous(x, k, r);
      SubtreeContiguous(x, y, r);
    }
  }

  lemma LeavesExactly(t: RtTable, k: Bits, his: Bits, y: Bits, d: nat, a: Bits)
    requires t.Valid() && Leaves(t, k, his, y, d) && his in t.routeAt
    ensures !WrongTurn(t.routeAt.Keys, k) && !HostBits(t.routeAt.Keys, k, a)
    ensures After(t.routeAt.Keys, k) == set q | q in t.routeAt && !Done(if k[d] then Up else Down, y, q)
    ensures forall q :: q in t.routeAt ==> !(k <= q)
  {
    t.RoutesAreNodes();
    var R := t.routeAt.Keys;
    forall p | p in R && p < k && k[|p|] ensures exists q :: q in R && Below(p, true, q) {
      LeavesBits(t, k, his, y, d, p);
      assert |p| < d;
      assert p == k[..d][..|p|] == his[..d][..|p|] == his[..|p|];
      assert k[|p|] == k[..d][|p|] == his[..d][|p|] == his[|p|];
      assert Below(p, true, his);
    }
    forall q | q in R ensures !(k <= q) { LeavesBits(t, k, his, y, d, q); }
    forall q | q in R ensures Before(k, q) <==> !Done(if k[d] then Up else Down, y, q) {
      LeavesOrder(t, k, his, y, d, q);
      BeforeTotal(k, q);
    }
  }

  lemma StoredKeyIsSafe(t: RtTable, k: Bits, a: Bits)
    requires k in t.routeAt
    ensures !WrongTurn(t.routeAt.Keys, k) && !HostBits(t.routeAt.Keys, k, a)
  {
    forall p | p in t.routeAt && p < k && k[|p|] ensures Below(p, true, k) {}
  }

  lemma MatchEqual(t: RtTable, k: Bits, a: Bits, r: RtHead?)
    requires k in t.routeAt && FirstOf(t.routeAt, After(t.routeAt.Keys, k), r)
    ensures NextOf(t.routeAt, k, a, r)
  {
    StoredKeyIsSafe(t, k, a);
    FirstIsLater(t.routeAt, k, r);
  }

  /** The search ended at a shorter stored prefix his of k, with nothing on the side of k. */
  lemma MatchShorter(t: RtTable, his: Bits, k: Bits, a: Bits, r: RtHead?)
    requires t.Valid() && his in t.routeAt && his < k && NoChild(t.nodeAt.Keys, his, k[|his|])
    requires FirstOf(t.routeAt, After(t.routeAt.Keys, his), r)
    ensures NextOf(t.routeAt, k, a, r)
  {
    t.RoutesAreNodes();
    var R := t.routeAt.Keys;
    forall q | q in R ensures !Below(his, k[|his|], q) && !(k <= q) {}
    ShorterIsFirst(t, his, k, r);
    if r != null {
      var p :| p in After(R, his) && t.routeAt[p] == r;
      BelowAfter(his, k, p);
    }
  }

  lemma ShorterIsFirst(t: RtTable, his: Bits, k: Bits, r: RtHead?)
    requires t.Valid() && his in t.routeAt && his < k && forall q :: q in t.routeAt ==> !Below(his, k[|his|], q)
    requires FirstOf(t.routeAt, After(t.routeAt.Keys, his), r)
    ensures FirstOf(t.routeAt, After(t.routeAt.Keys, k), r) <==> !WrongTurn(t.routeAt.Keys, k)
  {
    var R := t.routeAt.Keys;
    WrongTurnHere(R, his, k);
    if WrongTurn(R, k) {
      var q0 :| q0 in R && Below(his, false, q0);
      BelowBefore(his, q0, q0);
      BelowBefore(his, q0, k);
      FirstIsBefore(t, R, his, k, q0, r);
    } else {
      SameSideOfShorter(R, his, k);
      assert After(R, his) == After(R, k);
    }
  }

  lemma SameSideOfShorter(R: set<Bits>, his: Bits, k: Bits)
    requires his < k && forall q :: q in R ==> !Below(his, k[|his|], q)
    ensures forall q :: q in R && (Below(his, false, q) ==> !k[|his|]) ==> (Before(his, q) <==> Before(k, q))
  {
    forall q | q in R && (Below(his, false, q) ==> !k[|his|])
      ensures Before(his, q) <==> Before(k, q)
    {
      if his <= q {
        PrefixCases(his, q);
        BelowBefore(his, q, q);
        BelowBefore(his, k, q);
        BeforeTotal(his, k);
        BeforeTotal(his, q);
        BelowBefore(his, k, k);
      } else {
        SubtreeContiguous(his, k, q);
      }
    }
  }

  lemma BelowAfter(his: Bits, k: Bits, p: Bits)
    requires his < k && Before(his, p) && !Below(his, k[|his|], p)
    ensures !(p <= k) && !(k <= p)
  {
    BeforeTotal(his, p);
    if p <= k {
      PrefixComparable(p, his, k);
      if p <= his { PrefixCases(p, his); BelowBefore(p, his, his); }
    }
  }

  lemma WrongTurnHere(R: set<Bits>, his: Bits, k: Bits)
    requires his in R && his < k && forall q :: q in R ==> !Below(his, k[|his|], q)
    ensures WrongTurn(R, k) <==> k[|his|] && exists q :: q in R && Below(his, false, q)
  {
    var b := k[|his|];
    forall p | p in R && p < k && k[|p|] && forall q :: q in R ==> !Below(p, true, q) ensures p == his {
      PrefixComparable(p, his, k);
      assert p < his ==> Below(p, true, his);
      assert his < p ==> Below(his, b, p);
      if p <= his { PrefixCases(p, his); } else { PrefixCases(his, p); }
    }
  }

  /** The first key after his is not the first after k when a key between them is stored. */
  lemma FirstIsBefore(t: RtTable, R: set<Bits>, his: Bits, k: Bits, q0: Bits, r: RtHead?)
    requires t.Valid() && R == t.routeAt.Keys && q0 in R && Before(his, q0) && Before(q0, k)
    requires FirstOf(t.routeAt, After(R, his), r)
    ensures !FirstOf(t.routeAt, After(R, k), r)
  {
    assert q0 in After(R, his);
    var p :| p in After(R, his) && t.routeAt[p] == r && (q0 == p || Before(p, q0));
    if p != q0 { BeforeTrans(p, q0, k); }
    BeforeTotal(p, k);
    forall q | q in After(R, k) ensures t.routeAt[q] != r {
      if t.routeAt[q] == r { t.RouteUnique(p, q); }
    }
  }

  /** The search ended at the first route below k that the address's bits beyond k lead to. */
  lemma MatchLonger(t: RtTable, his: Bits, k: Bits, a: Bits)
    requires t.Valid() && his in t.routeAt && k < his && t.OnPath(a, his) && t.ShortAbove(his, |k|)
    ensures NextOf(t.routeAt, k, a, t.routeAt[his])
  {
    t.RoutesAreNodes();
    var R := t.routeAt.Keys;
    forall p | p in R && p < k && k[|p|] ensures Below(p, true, his) {}
    BelowBefore(k, his, his);
    if HostBits(R, k, a) {
      SkipsSmaller(t, his, k, a);
    } else {
      forall q | q in After(R, k) ensures q == his || Before(his, q) {
        if Before(q, his) { SkippedIsHostBits(t, his, k, a, q); }
        BeforeTotal(q, his);
      }
    }
  }

  lemma SkipsSmaller(t: RtTable, his: Bits, k: Bits, a: Bits)
    requires t.Valid() && his in t.routeAt && k < his && t.OnPath(a, his) && HostBits(t.routeAt.Keys, k, a)
    ensures !FirstOf(t.routeAt, After(t.routeAt.Keys, k), t.routeAt[his])
  {
    var R := t.routeAt.Keys;
    var g: Bits :| k <= g && |g| < |a| && a[|g|] && Branches(R, g) &&
      (forall p :: p in R && k <= p ==> !(p <= g)) &&
      (forall p {:trigger Branches(R, p)} :: k <= p && p < g && Branches(R, p) ==> g[|p|] == a[|p|]);
    BranchesAreNodes(t, g);
    var m := Meet(g, his);
    MeetIsLongest(g, his, k);
    PrefixCases(m, g);
    PrefixCases(m, his);
    if m != g {
      assert m < his;
      var q :| q in R && Below(g, false, q);
      assert Below(m, g[|m|], q) && Below(m, his[|m|], his);
      assert Branches(R, m);
      BranchesAreNodes(t, m);
    }
    var q :| q in R && Below(g, false, q);
    BelowBefore(g, q, his);
    BelowBefore(k, q, q);
    NotFirst(t, After(R, k), his, q);
  }

  lemma NotFirst(t: RtTable, W: set<Bits>, his: Bits, q: Bits)
    requires t.Valid() && his in t.routeAt && q in W && Before(q, his)
    ensures !FirstOf(t.routeAt, W, t.routeAt[his])
  {
    BeforeTotal(q, his);
    forall p | p in W && p in t.routeAt && t.routeAt[p] == t.routeAt[his] ensures p == his { t.RouteUnique(p, his); }
  }

  lemma SkippedIsHostBits(t: RtTable, his: Bits, k: Bits, a: Bits, q: Bits)
    requires t.Valid() && his in t.routeAt && k < his && t.OnPath(a, his) && t.ShortAbove(his, |k|)
    requires q in t.routeAt && Before(k, q) && Before(q, his)
    ensures HostBits(t.routeAt.Keys, k, a)
  {
    var R := t.routeAt.Keys;
    BeforeTotal(k, q);
    BeforeTotal(q, his);
    if !(k <= q) { SubtreeContiguous(k, his, q); }
    var g := Meet(q, his);
    MeetIsLongest(q, his, k);
    if q <= his { PrefixCases(q, his); }
    assert Below(g, false, q) && Below(g, true, his);
    assert Branches(R, g);
    BranchesAreNodes(t, g);
    forall p | p in R && k <= p ensures !(p <= g) {}
    forall p | k <= p && p < g && Branches(R, p) ensures g[|p|] == a[|p|] { BranchesAreNodes(t, p); }
  }

  // ----- getnext -----

  /** The highest node below the first dbit bits of a found key, or what is after all that is below it. */
  method PassSpot(t: RtTable, found: RtNode, dbit: nat, past: bool) returns (rtn: RtNode?, ghost y: Bits)
    requires t.Valid() && t.Has(found) && dbit < |found.key| && NoneAt(t, found.key, dbit)
    ensures rtn != null ==> t.Has(rtn)
    ensures y in t.nodeAt && TopAt(t, found.key, y, dbit)
    ensures From(t, rtn) == set q | q in t.routeAt && !Done(if past then Up else Down, y, q)
  {
    t.RoutesAreNodes();
    if past {
      rtn, y := ClimbPast(t, found, dbit);
    } else {
      rtn := t.Climb(found, dbit + 1);
      y := rtn.key;
      t.AllBelowSpot(y, dbit);
    }
  }

  /** Where the search ended relative to k, for a key that is not found. */
  method StartAfter(t: RtTable, found: RtNode, dest: Address, dbit: nat, bitlen: nat, ghost a: Bits) returns (rtn: RtNode?)
    requires t.Valid() && t.Has(found) && found.key in t.routeAt && t.OnPath(a, found.key)
    requires Spells(dest, a) && dbit < bitlen <= |a| && dbit < |found.key| && a[..dbit] == found.key[..dbit] && a[dbit] != found.key[dbit]
    ensures rtn != null ==> t.Has(rtn)
    ensures var k, R := a[..bitlen], t.routeAt.Keys;
            !WrongTurn(R, k) && !HostBits(R, k, a) && After(R, k) == From(t, rtn)
    ensures forall q :: q in t.routeAt ==> !(a[..bitlen] <= q)
  {
    ghost var his, k := found.key, a[..bitlen];
    ghost var y;
    assert k[..dbit] == a[..dbit] && k[dbit] == a[dbit];
    forall p | p in t.nodeAt && p < his ensures |p| != dbit {}
    SpellsBit(dest, a, dbit);
    rtn, y := PassSpot(t, found, dbit, BitAt(dest, dbit));
    LeavesExactly(t, k, his, y, dbit, a);
  }

  /** From a route that is a prefix of k, the next route after it. */
  method NextPastMatch(t: RtTable, found: RtNode, ghost k: Bits, ghost a: Bits) returns (r: RtHead?)
    requires t.Valid() && t.Has(found) && found.key in t.routeAt && found.key <= k
    requires found.key == k || NoChild(t.nodeAt.Keys, found.key, k[|found.key|])
    ensures NextOf(t.routeAt, k, a, r)
  {
    var rtn := NextNode(t, found);
    NextIsAfter(t, found, rtn);
    r := FirstRouteFrom(t, rtn);
    if found.key == k { MatchEqual(t, k, a, r); } else { PrefixCases(found.key, k); MatchShorter(t, found.key, k, a, r); }
  }

  /** From a route that leaves k at bit dbit, the next route after k. */
  method NextPastBranch(t: RtTable, found: RtNode, dest: Address, dbit: nat, bitlen: nat, ghost a: Bits) returns (r: RtHead?)
    requires t.Valid() && t.Has(found) && found.key in t.routeAt && t.OnPath(a, found.key)
    requires Spells(dest, a) && dbit < bitlen <= |a| && dbit < |found.key|
    requires a[..dbit] == found.key[..dbit] && a[dbit] != found.key[dbit]
    ensures NextOf(t.routeAt, a[..bitlen], a, r)
  {
    var rtn := StartAfter(t, found, dest, dbit, bitlen, a);
    r := FirstRouteFrom(t, rtn);
    FirstIsLater(t.routeAt, a[..bitlen], r);
  }

  lemma NextIsAfter(t: RtTable, n: RtNode, m: RtNode?)
    requires t.Valid() && t.Has(n) && IsNextNode(t, n, m)
    ensures From(t, m) == After(t.routeAt.Keys, n.key)
  {
    t.RoutesAreNodes();
    forall q | q in t.routeAt ensures q in From(t, m) <==> Before(n.key, q) { BeforeTotal(n.key, q); }
  }

  method NextAfter(t: RtTable, dest: Address, bitlen: nat, ghost a: Bits) returns (r: RtHead?)
    requires t.Valid() && t.root != null && t.AddressFits(dest) && Spells(dest, a) && bitlen <= |a| == t.maxaddrlen
    ensures NextOf(t.routeAt, a[..bitlen], a, r)
  {
    ghost var k := a[..bitlen];
    var found := t.DescendToRoute(dest, bitlen, a);
    var dbit, _ := t.Diverges(found, dest, bitlen, a);
    assert t.Carries(found.key);
    if dbit < bitlen && dbit < found.bit {
      r := NextPastBranch(t, found, dest, dbit, bitlen, a);
    } else if found.bit <= bitlen {
      assert found.key == a[..found.bit];
      r := NextPastMatch(t, found, k, a);
    } else {
      r := found.rth;
      MatchLonger(t, found.key, k, a);
    }
  }

  /** The next route after an address and a length in prefix-lexicographic order, or, without an
      address, the first one. For a stored prefix it is the successor; for any other prefix it is
      the successor exactly if neither of two things happens. */
  method GetNext(t: RtTable, dest: Option<Address>, bitlen: nat) returns (r: RtHead?)
    requires t.Valid() && bitlen <= t.maxaddrlen && (dest.Some? ==> t.AddressFits(dest.value))
    ensures dest == None ==> FirstOf(t.routeAt, t.routeAt.Keys, r)
    ensures dest.Some? ==>
              NextOf(t.routeAt, Key(dest.value, bitlen), Key(dest.value, t.maxaddrlen), r)
  {
    t.RootHolds();
    t.RoutesAreNodes();
    if dest == None {
      r := FirstRouteFrom(t, t.root);
    } else if t.root == null {
      r := null;
    } else {
      ghost var a := AddressBits(t, dest.value, bitlen);
      SpellsKey(dest.value, a);
      r := NextAfter(t, dest.value, bitlen, a);
    }
  }
}
