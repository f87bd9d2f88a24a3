/** _std_radix_getsubtree and the power-walk macros of sonic/std_radix.h: the routes covered by a
    prefix, in order. */
module RadixSubtree {
  import opened Bits
  import opened Options
  import opened Preorder
  import opened Radix
  import opened RadixLookup
  import opened RadixNext
  import opened RadixWalk

  ghost function Covered(routes: map<Bits, RtHead>, k: Bits): set<Bits> {
    set q | q in routes && k <= q
  }

  /** n is the topmost node covered by k. */
  ghost predicate IsTop(t: RtTable, k: Bits, n: RtNode)
    reads t`nodeAt
  {
    t.Has(n) && forall q :: q in t.nodeAt ==> (k <= q <==> n.key <= q)
  }

  lemma Topmost(t: RtTable, k: Bits, n: RtNode)
    requires t.Has(n) && k <= n.key && forall q :: q in t.nodeAt && n.key[..|k|] <= q ==> n.key <= q
    ensures IsTop(t, k, n)
  {
    assert n.key[..|k|] == k;
  }

  /** The full comparison of two addresses over the first bitlen bits tells whether k covers a route. */
  method CoveredBy(t: RtTable, addr: Address, bitlen: nat, h: RtHead, ghost p: Bits) returns (yes: bool)
    requires t.Valid() && bitlen <= t.maxaddrlen && t.AddressFits(addr)
    requires p in t.routeAt && t.routeAt[p] == h && !(p < Key(addr, bitlen))
    ensures yes <==> Key(addr, bitlen) <= p
  {
    assert t.Carries(p);
    var his := h.rdxAddr.value;
    CompareIsKeyEquality(addr, his, bitlen);
    yes := !CompareAddress(addr, his, bitlen / 8, RnBit(bitlen));
    SpellsKey(his, p);
    ghost var k := Key(addr, bitlen);
    if |p| < bitlen { KeyPrefix(his, |p|, bitlen); } else { KeyPrefix(his, bitlen, |p|); }
    if k <= p { assert p[..bitlen] == k; }
  }

  /** The topmost node covered by the first bitlen bits of an address, or null if no stored route is. */
  method GetSubtree(t: RtTable, addr: Address, bitlen: nat) returns (rtn: RtNode?)
    requires t.Valid() && bitlen <= t.maxaddrlen && t.AddressFits(addr)
    ensures rtn == null <==> Covered(t.routeAt, Key(addr, bitlen)) == {}
    ensures rtn != null ==> IsTop(t, Key(addr, bitlen), rtn)
  {
    ghost var k := Key(addr, bitlen);
    t.RootHolds();
    t.RoutesAreNodes();
    if t.root == null { return null; }
    var exact := GetExact(t, addr, bitlen);
    if exact != null {
      assert t.Carries(k) && t.LinkedAt(Some(k)) && k in Covered(t.routeAt, k);
      return exact.rtn;
    }
    rtn := CoveredNext(t, addr, bitlen);
  }

  method CoveredNext(t: RtTable, addr: Address, bitlen: nat) returns (rtn: RtNode?)
    requires t.Valid() && bitlen <= t.maxaddrlen && t.AddressFits(addr) && Key(addr, bitlen) !in t.routeAt
    ensures rtn == null <==> Covered(t.routeAt, Key(addr, bitlen)) == {}
    ensures rtn != null ==> IsTop(t, Key(addr, bitlen), rtn)
  {
    ghost var k := Key(addr, bitlen);
    var next := GetNext(t, Some(addr), bitlen);
    NextTellsCovered(t, k, Key(addr, t.maxaddrlen), next);
    if next == null { return null; }
    ghost var p := NextKey(t, k, Key(addr, t.maxaddrlen), next);
    rtn := TopFrom(t, addr, bitlen, next, p);
    if rtn != null { assert p in Covered(t.routeAt, k); }
  }

  /** The topmost covered node, from a route after the given prefix. */
  method TopFrom(t: RtTable, addr: Address, bitlen: nat, next: RtHead, ghost p: Bits) returns (rtn: RtNode?)
    requires t.Valid() && bitlen <= t.maxaddrlen && t.AddressFits(addr)
    requires p in t.routeAt && t.routeAt[p] == next && !(p < Key(addr, bitlen))
    ensures rtn == null <==> !(Key(addr, bitlen) <= p)
    ensures rtn != null ==> IsTop(t, Key(addr, bitlen), rtn)
  {
    var covered := CoveredBy(t, addr, bitlen, next, p);
    if !covered { return null; }
    assert t.Carries(p) && t.LinkedAt(Some(p));
    rtn := ClimbToTop(t, next.rtn, bitlen, Key(addr, bitlen));
  }

  method ClimbToTop(t: RtTable, from: RtNode, bitlen: nat, ghost k: Bits) returns (rtn: RtNode)
    requires t.Valid() && t.Has(from) && k <= from.key && |k| == bitlen
    ensures IsTop(t, k, rtn)
  {
    rtn := t.Climb(from, bitlen);
    PrefixComparable(k, rtn.key, from.key);
    Topmost(t, k, rtn);
  }

  lemma NextKey(t: RtTable, k: Bits, a: Bits, r: RtHead) returns (p: Bits)
    requires t.Valid() && NextOf(t.routeAt, k, a, r)
    ensures p in t.routeAt && t.routeAt[p] == r && !(p <= k)
  {
    p :| p in t.routeAt && t.routeAt[p] == r && !(p <= k);
  }

  /** What is next after an absent prefix is covered by it if anything is. */
  lemma NextTellsCovered(t: RtTable, k: Bits, a: Bits, r: RtHead?)
    requires t.Valid() && NextOf(t.routeAt, k, a, r) && k !in t.routeAt
    ensures r == null ==> Covered(t.routeAt, k) == {}
    ensures forall p :: p in t.routeAt && t.routeAt[p] == r && !(k <= p) ==> Covered(t.routeAt, k) == {}
  {
    if q :| q in Covered(t.routeAt, k) {
      var p' :| p' in t.routeAt && t.routeAt[p'] == r && k <= p';
      forall p | p in t.routeAt && t.routeAt[p] == r ensures p == p' { t.RouteUnique(p, p'); }
    }
  }

  // ----- the power walk -----

  lemma TableRoot(t: RtTable, root: RtNode, m: RtNode)
    requires t.Valid() && t.Has(root) && t.Has(m) && root.key <= m.key && m.parent == null
    ensures m == root
  {
    t.NodeLinks(m);
    PrefixCases(root.key, m.key);
  }

  /** From a finished subtree below root, up to the next node to enter, or to root if none is left. */
  method ClimbWithin(t: RtTable, root: RtNode, from: RtNode) returns (m: RtNode)
    requires t.Valid() && t.Has(root) && t.Has(from) && root.key <= from.key
    ensures m == root ==> forall r :: r in t.nodeAt && root.key <= r ==> Done(Up, from.key, r)
    ensures m != root ==> t.Has(m) && root.key <= m.key && SameDone(t, Down, m.key, Up, from.key)
  {
    m := from;
    while m != root && m.parent != null && (m.parent.right == m || m.parent.right == null)
      invariant t.Has(m) && root.key <= m.key && SameDone(t, Up, m.key, Up, from.key)
      decreases |m.key|
    {
      StepsUp(t, root, m);
      PastRight(t, m);
      m := m.parent;
    }
    if m != root {
      if m.parent == null { TableRoot(t, root, m); }
      StepsUp(t, root, m);
      IntoRight(t, m);
      m := m.parent.right;
    }
  }

  lemma StepsUp(t: RtTable, root: RtNode, m: RtNode)
    requires t.Valid() && t.Has(root) && t.Has(m) && root.key <= m.key && m != root && m.parent != null
    ensures t.Has(m.parent) && root.key <= m.parent.key && m.parent.key < m.key
    ensures m.parent.right != null ==> root.key <= m.parent.right.key
    ensures m.parent.right != root
  {
    t.NodeLinks(m);
    t.NodeLinks(m.parent);
    PrefixCases(root.key, m.key);
  }

  /** One step of the power walk: the next node below root in preorder, or root again at the end. */
  method NextWithin(t: RtTable, root: RtNode, n: RtNode) returns (m: RtNode)
    requires t.Valid() && t.Has(root) && t.Has(n) && root.key <= n.key
    ensures m == root ==> forall r :: r in t.nodeAt && root.key <= r ==> Done(Down, n.key, r) || r == n.key
    ensures m != root ==> IsNextNode(t, n, m) && root.key <= m.key
  {
    ChildIsNext(t, n);
    t.NodeLinks(n);
    if n.left != null {
      m := n.left;
    } else if n.right != null {
      m := n.right;
    } else {
      m := ClimbWithin(t, root, n);
    }
  }

  lemma ShowsOne(t: RtTable, W: set<Bits>, keys: seq<Bits>, n: RtNode, m: RtNode)
    requires t.Valid() && t.Has(n) && W <= t.nodeAt.Keys && Behind(t, W, keys, n, Down)
    requires IsNextNode(t, n, m) || forall r :: r in W ==> Done(Down, n.key, r) || r == n.key
    ensures IsNextNode(t, n, m) ==> Behind(t, W, if n.key in W then keys + [n.key] else keys, m, Down)
    ensures !IsNextNode(t, n, m) ==> Lists(if n.key in W then keys + [n.key] else keys, W)
  {
    if IsNextNode(t, n, m) {
      ListedBehind(t, W, keys, n, m, Down);
    } else {
      BeforeTotal(n.key, n.key);
      if n.key in W {
        ListsNext(keys, DoneSet(W, Down, n.key), n.key);
        assert W == DoneSet(W, Down, n.key) + {n.key};
      } else {
        assert W == DoneSet(W, Down, n.key);
      }
    }
  }

  lemma NothingBefore(W: set<Bits>, n: Bits)
    requires forall k :: k in W ==> n <= k
    ensures DoneSet(W, Down, n) == {}
  {
    forall k | k in W ensures !Done(Down, n, k) {
      PrefixCases(n, k);
      BelowBefore(n, k, k);
      BeforeTotal(n, k);
    }
  }

  /** Visiting a node and moving on. */
  method WalkStep(t: RtTable, root: RtNode, n: RtNode, before: seq<RtHead>, ghost ks: seq<Bits>, ghost W: set<Bits>)
    returns (m: RtNode, visited: seq<RtHead>, ghost keys: seq<Bits>)
    requires t.Valid() && t.Has(root) && t.Has(n) && root.key <= n.key && W == Covered(t.routeAt, root.key)
    requires StoredAt(t.routeAt, ks, before) && Behind(t, W, ks, n, Down)
    ensures t.Has(m) && root.key <= m.key && StoredAt(t.routeAt, keys, visited)
    ensures if m != root then Behind(t, W, keys, m, Down) && ToGo(t, m, Down) < ToGo(t, n, Down) else Lists(keys, W)
  {
    t.RoutesAreNodes();
    assert t.Carries(n.key);
    visited, keys := before, ks;
    if n.rth != null {
      visited := visited + [n.rth];
      keys := keys + [n.key];
    }
    m := NextWithin(t, root, n);
    ShowsOne(t, W, ks, n, m);
    BeforeTotal(n.key, n.key);
    assert n.key in ToGo(t, n, Down);
    assert m == root ==> !IsNextNode(t, n, m);
  }

  /** The loop of the power walk over the subtree of a node. */
  method WalkSubtree(t: RtTable, root: RtNode) returns (visited: seq<RtHead>, ghost keys: seq<Bits>)
    requires t.Valid() && t.Has(root)
    ensures Lists(keys, Covered(t.routeAt, root.key)) && StoredAt(t.routeAt, keys, visited)
  {
    ghost var W := Covered(t.routeAt, root.key);
    var rtn, more := root, true;
    visited, keys := [], [];
    NothingBefore(W, root.key);
    while more
      invariant t.Has(rtn) && root.key <= rtn.key && StoredAt(t.routeAt, keys, visited)
      invariant if more then Behind(t, W, keys, rtn, Down) else Lists(keys, W)
      decreases more, ToGo(t, rtn, Down)
    {
      rtn, visited, keys := WalkStep(t, root, rtn, visited, keys, W);
      more := rtn != root;
    }
  }

  /** The whole power walk: every route covered by the given prefix (or every route) once, in order. */
  method PowerWalk(t: RtTable, rootaddr: Option<Address>, rootlen: nat) returns (visited: seq<RtHead>, ghost keys: seq<Bits>)
    requires t.Valid() && rootlen <= t.maxaddrlen && (rootaddr.Some? ==> t.AddressFits(rootaddr.value))
    ensures StoredAt(t.routeAt, keys, visited)
    ensures Lists(keys, if rootaddr == None then t.routeAt.Keys else Covered(t.routeAt, Key(rootaddr.value, rootlen)))
  {
    t.RootHolds();
    t.RoutesAreNodes();
    var root := t.root;
    if rootaddr.Some? { root := GetSubtree(t, rootaddr.value, rootlen); }
    if root == null { return [], []; }
    visited, keys := WalkSubtree(t, root);
    if rootaddr == None {
      assert Covered(t.routeAt, root.key) == t.routeAt.Keys;
    } else {
      assert Covered(t.routeAt, root.key) == Covered(t.routeAt, Key(rootaddr.value, rootlen));
    }
  }
}
