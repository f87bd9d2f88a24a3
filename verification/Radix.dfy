/** The path-compressed radix table of src/std_radix.c: nodes with child and parent links,
    changed in place by insert and remove. */
module Radix {
  import opened Bits
  import opened Options
  import opened PrefixSet
  import opened TrieShape
  import opened Versions

  /** struct _std_rt_head: the caller's route. */
  class RtHead {
    const addr: Address
    var rdxAddr: Option<Address>
    var rtn: RtNode?
    var version: Version

    constructor (addr: Address)
      ensures this.addr == addr && rdxAddr == None && rtn == null && version == 0
    {
      this.addr := addr;
      rdxAddr, rtn, version := None, null, 0;
    }
  }

  /** struct _rt_node; a node without a route is glue. */
  class RtNode {
    const bit: nat
    const tbit: bv8
    ghost const key: Bits
    var left: RtNode?
    var right: RtNode?
    var parent: RtNode?
    var version: Version
    var rth: RtHead?

    constructor (bit: nat, ghost key: Bits)
      ensures this.bit == bit && tbit == RnBit(bit) && this.key == key
      ensures left == null && right == null && parent == null && version == 0 && rth == null
    {
      this.bit, this.tbit, this.key := bit, RnBit(bit), key;
      left, right, parent, version, rth := null, null, null, 0, null;
    }

    /** BIT_TEST(addr[RNBYTE(rtn->rtn_bit)], rtn->rtn_tbit) */
    method TestBit(addr: Address, ghost a: Bits) returns (isSet: bool)
      requires Spells(addr, a) && bit < |a| && tbit == RnBit(bit)
      ensures isSet == a[bit]
    {
      SpellsBit(addr, a, bit);
      isSet := addr[bit / 8] & tbit != 0;
    }
  }

  class RtTable {
    const maxaddrlen: nat
    var root: RtNode?
    var inodes: nat
    var routes: nat
    var ninserts: nat
    var nremoves: nat
    var nmalloc: nat
    var nfree: nat
    var nwraps: nat
    var version: Version

    /** The nodes, their links and the stored routes, by key. */
    ghost var nodeAt: map<Bits, RtNode>
    ghost var shape: Shape
    ghost var routeAt: map<Bits, RtHead>

    // ----- the invariant -----

    ghost predicate Has(n: RtNode)
      reads this`nodeAt
    {
      n.key in nodeAt && nodeAt[n.key] == n
    }

    static ghost function KeyOf(n: RtNode?): Option<Bits> {
      if n == null then None else Some(n.key)
    }

    static ghost function Maybe(n: RtNode?): set<RtNode> {
      if n == null then {} else {n}
    }

    /** The pointer c is the link k. */
    static ghost predicate PointsIn(nodes: map<Bits, RtNode>, c: RtNode?, k: Option<Bits>) {
      match k
      case None => c == null
      case Some(q) => q in nodes && nodes[q] == c
    }

    ghost predicate Points(c: RtNode?, k: Option<Bits>)
      reads this`nodeAt
    {
      PointsIn(nodeAt, c, k)
    }

    ghost predicate NodeOk(p: Bits)
      requires p in nodeAt
      reads this`nodeAt, this`shape, nodeAt.Values`left, nodeAt.Values`right, nodeAt.Values`parent
    {
      var n := nodeAt[p];
      && n.key == p && n.bit == |p| && n.tbit == RnBit(n.bit) && |p| <= maxaddrlen
      && p in shape
      && Points(n.left, shape[p].left) && Points(n.right, shape[p].right) && Points(n.parent, shape[p].parent)
    }

    /** None: the links are those of a trie. Some(p): the node at p has its links. The explicit
        trigger below keeps all of this folded until a proof names the part it needs. */
    ghost predicate LinkedAt(p: Option<Bits>)
      reads this`nodeAt, this`shape, this`root, nodeAt.Values`left, nodeAt.Values`right, nodeAt.Values`parent
    {
      match p
      case None => shape.Keys == nodeAt.Keys && Trie(shape, KeyOf(root))
      case Some(q) => q in nodeAt ==> NodeOk(q)
    }

    ghost predicate Linked()
      reads this`nodeAt, this`shape, this`root, nodeAt.Values`left, nodeAt.Values`right, nodeAt.Values`parent
    {
      (root != null ==> Has(root)) && forall p {:trigger LinkedAt(p)} :: LinkedAt(p)
    }

    /** One spare byte, because a comparison at a whole number of bytes reads the next one. */
    predicate AddressFits(addr: Address) {
      maxaddrlen / 8 < |addr|
    }

    /** The key is made of the first bits of the address. */
    ghost predicate KeyFits(addr: Address, k: Bits) {
      AddressFits(addr) && |k| <= maxaddrlen && Spells(addr, k)
    }

    /** Glue has two children, and every other node carries the route stored under its key. */
    ghost predicate Carries(p: Bits)
      reads this`nodeAt, this`routeAt, nodeAt.Values`rth, nodeAt.Values`left, nodeAt.Values`right
      reads routeAt.Values`rtn, routeAt.Values`rdxAddr
    {
      if p in routeAt then p in nodeAt && RouteOk(routeAt[p], p)
      else p in nodeAt ==> nodeAt[p].rth == null && nodeAt[p].left != null && nodeAt[p].right != null
    }

    ghost predicate Routes()
      reads this`nodeAt, this`routeAt, nodeAt.Values`rth, nodeAt.Values`left, nodeAt.Values`right
      reads routeAt.Values`rtn, routeAt.Values`rdxAddr
    {
      forall p {:trigger Carries(p)} :: Carries(p)
    }

    ghost predicate Stores(h: RtHead)
      reads this`routeAt
    {
      exists p :: p in routeAt && routeAt[p] == h
    }

    ghost predicate RouteOk(h: RtHead, p: Bits)
      requires p in nodeAt
      reads this`nodeAt, nodeAt.Values`rth, h`rtn, h`rdxAddr
    {
      && nodeAt[p].rth == h && h.rtn == nodeAt[p] && h.rdxAddr == Some(h.addr)
      && KeyFits(h.addr, p)
    }

    ghost predicate Counted()
      reads this`inodes, this`routes, this`nmalloc, this`nfree, this`nodeAt, this`routeAt
    {
      inodes == |nodeAt| && routes == |routeAt| && inodes + nfree == nmalloc
    }

    ghost predicate Valid()
      reads this, nodeAt.Values, routeAt.Values
    {
      Linked() && Routes() && Counted()
    }

    constructor (maxaddrlen: nat)
      ensures Valid() && nodeAt == map[] && routeAt == map[] && version == 0
      ensures this.maxaddrlen == maxaddrlen
    {
      this.maxaddrlen := maxaddrlen;
      root, version := null, 0;
      inodes, routes, ninserts, nremoves, nmalloc, nfree, nwraps := 0, 0, 0, 0, 0, 0, 0;
      nodeAt, routeAt, shape := map[], map[], map[];
    }

    /** What the links of a node mean. */
    lemma NodeLinks(n: RtNode)
      requires Linked() && Has(n)
      ensures n.left != null ==> Has(n.left) && n.key < n.left.key
      ensures n.right != null ==> Has(n.right) && n.key < n.right.key
      ensures n.parent != null ==> Has(n.parent) && n.parent.key < n.key
      ensures ChildIs(nodeAt.Keys, n.key, false, KeyOf(n.left))
      ensures ChildIs(nodeAt.Keys, n.key, true, KeyOf(n.right))
      ensures ParentIs(nodeAt.Keys, n.key, KeyOf(n.parent))
    {
      assert LinkedAt(None) && LinkedAt(Some(n.key));
      assert NodeIs(nodeAt.Keys, n.key, shape[n.key]);
      LinkKey(n.left, shape[n.key].left);
      LinkKey(n.right, shape[n.key].right);
      LinkKey(n.parent, shape[n.key].parent);
    }

    lemma LinkKey(c: RtNode?, k: Option<Bits>)
      requires Linked() && Points(c, k)
      ensures KeyOf(c) == k
    {
      if k.Some? { assert LinkedAt(k); }
    }

    lemma KeysMatch()
      requires Linked()
      ensures forall p :: p in nodeAt ==> nodeAt[p].key == p
    {
      forall p | p in nodeAt ensures nodeAt[p].key == p { assert LinkedAt(Some(p)); }
    }

    lemma ParentLink(n: RtNode)
      requires Linked() && Has(n)
      ensures n.key in shape && shape[n.key].parent == KeyOf(n.parent)
      ensures n.parent != null ==> n.parent.key in shape
    {
      assert LinkedAt(None) && LinkedAt(Some(n.key));
      LinkKey(n.parent, shape[n.key].parent);
    }

    lemma RoutesAreNodes()
      requires Routes()
      ensures routeAt.Keys <= nodeAt.Keys
    {
      forall p | p in routeAt ensures p in nodeAt { assert Carries(p); }
    }

    lemma RootHolds()
      requires Linked()
      ensures root == null <==> nodeAt == map[]
      ensures root != null ==> IsRoot(nodeAt.Keys, root.key)
    {
      assert LinkedAt(None);
    }

    lemma ParentHolds(n: RtNode)
      requires Linked() && Has(n) && n.parent != null
      ensures var p := n.parent;
              && Has(p) && p.key < n.key
              && (p.right == n <==> n.key[|p.key|]) && (p.left == n <==> !n.key[|p.key|])
              && IsChild(nodeAt.Keys, p.key, n.key[|p.key|], n.key)
    {
      NodeLinks(n);
      NodeLinks(n.parent);
      assert LinkedAt(None) && LinkedAt(Some(n.key)) && LinkedAt(Some(n.parent.key));
      LinkKey(n.parent, shape[n.key].parent);
      HangsFromParent(shape, KeyOf(root), n.key);
      var p := n.parent;
      assert Points(if n.key[|p.key|] then p.right else p.left, shape[p.key].Child(n.key[|p.key|]));
    }

    // ----- search -----

    /** Every turn taken above q followed the address a. */
    ghost predicate OnPath(a: Bits, q: Bits)
      reads this`nodeAt
    {
      forall p :: p in nodeAt && p < q ==> |p| < |a| && q[|p|] == a[|p|]
    }

    /** No route above q is long enough to end the descent. */
    ghost predicate ShortAbove(q: Bits, bitlen: nat)
      reads this`routeAt
    {
      forall p :: p in routeAt && p < q ==> |p| < bitlen
    }

    lemma PathStep(a: Bits, q: Bits, c: Bits, bitlen: nat)
      requires routeAt.Keys <= nodeAt.Keys && q in nodeAt && |q| < |a| && IsChild(nodeAt.Keys, q, a[|q|], c)
      requires OnPath(a, q) && ShortAbove(q, bitlen) && (q in routeAt ==> |q| < bitlen)
      ensures OnPath(a, c) && ShortAbove(c, bitlen)
    {
      ChildHasParent(nodeAt.Keys, q, a[|q|], c);
      forall p | p in nodeAt && p < c ensures |p| < |a| && c[|p|] == a[|p|] {
        PrefixCases(p, q);
      }
      forall p | p in routeAt && p < c ensures |p| < bitlen {
        PrefixCases(p, q);
      }
    }

    /** One step down: the child on the side of the address's bit. */
    method ChildToward(rtn: RtNode, addr: Address, ghost a: Bits) returns (c: RtNode?)
      requires Linked() && Has(rtn) && Spells(addr, a) && |rtn.key| < |a|
      ensures ChildIs(nodeAt.Keys, rtn.key, a[|rtn.key|], KeyOf(c))
      ensures c != null ==> Has(c) && rtn.bit < c.bit == |c.key| <= maxaddrlen
    {
      NodeLinks(rtn);
      assert LinkedAt(Some(rtn.key));
      var isSet := rtn.TestBit(addr, a);
      c := if isSet then rtn.right else rtn.left;
      if c != null { assert LinkedAt(Some(c.key)); }
    }

    lemma GlueIsShort(n: RtNode)
      requires Linked() && Has(n) && n.left != null
      ensures |n.key| < maxaddrlen
    {
      NodeLinks(n);
      assert LinkedAt(Some(n.left.key));
    }

    /** The descent of insert and getnext: down by address bits to a route with a bit number
        of at least bitlen, or to a route without a child on the address's side. */
    method DescendToRoute(addr: Address, bitlen: nat, ghost a: Bits) returns (rtn: RtNode)
      requires Valid() && root != null && Spells(addr, a) && bitlen <= |a| == maxaddrlen
      ensures Has(rtn) && rtn.key in routeAt && OnPath(a, rtn.key)
      ensures rtn.bit == |rtn.key| && ShortAbove(rtn.key, bitlen)
      ensures rtn.bit >= bitlen || NoChild(nodeAt.Keys, rtn.key, a[rtn.bit])
    {
      rtn := root;
      RootHolds();
      RoutesAreNodes();
      assert LinkedAt(Some(rtn.key));
      while rtn.bit < bitlen || rtn.rth == null
        invariant Has(rtn) && rtn.bit == |rtn.key| <= maxaddrlen && OnPath(a, rtn.key)
        invariant ShortAbove(rtn.key, bitlen)
        decreases maxaddrlen - rtn.bit
      {
        assert Carries(rtn.key);
        if rtn.rth == null { GlueIsShort(rtn); }
        var c := ChildToward(rtn, addr, a);
        if c == null {
          NodeLinks(rtn);
          break;
        }
        PathStep(a, rtn.key, c.key, bitlen);
        rtn := c;
      }
      assert Carries(rtn.key);
    }

    /** Where the new key k belongs: at or above the node q, which shares its first d bits. */
    ghost predicate Spot(k: Bits, q: Bits, d: nat)
      reads this`nodeAt
    {
      && q in nodeAt && d <= |k| && d <= |q| && k[..d] == q[..d]
      && (forall r :: r in nodeAt && r < q ==> |r| < d)
      && (forall r :: r in nodeAt && k[..d] <= r ==> q <= r)
      && (d == |q| && d < |k| ==> NoChild(nodeAt.Keys, q, k[d]))
      && (d < |q| && d < |k| ==> k[d] != q[d])
    }

    /** Everything below the first d bits of q hangs below q when no shorter key reaches d. */
    lemma AllBelowSpot(q: Bits, d: nat)
      requires Linked() && q in nodeAt && d <= |q|
      requires forall r :: r in nodeAt && r < q ==> |r| < d
      ensures forall r :: r in nodeAt && q[..d] <= r ==> q <= r
    {
      var n := nodeAt[q];
      assert LinkedAt(Some(q));
      NodeLinks(n);
      if n.parent != null {
        ParentHolds(n);
        var p := n.parent.key;
        forall r | r in nodeAt && q[..d] <= r ensures q <= r {
          assert r[|p|] == q[..d][|p|] == q[|p|];
          assert p <= q[..d];
          assert Below(p, q[|p|], r);
        }
      }
    }

    /** Up to the topmost ancestor (or the node itself) with a bit number of at least dbit. */
    method Climb(from: RtNode, dbit: nat) returns (rtn: RtNode)
      requires Linked() && Has(from) && dbit <= |from.key|
      ensures Has(rtn) && rtn.key <= from.key && dbit <= |rtn.key|
      ensures forall r :: r in nodeAt && r < rtn.key ==> |r| < dbit
      ensures forall r :: r in nodeAt && rtn.key[..dbit] <= r ==> rtn.key <= r
    {
      rtn := from;
      var prev := rtn.parent;
      assert LinkedAt(Some(rtn.key));
      NodeLinks(rtn);
      while prev != null && prev.bit >= dbit
        invariant Has(rtn) && rtn.key <= from.key && dbit <= |rtn.key| && prev == rtn.parent
        invariant prev != null ==> prev.key < rtn.key
        invariant rtn.bit == |rtn.key| && (prev != null ==> Has(prev))
        decreases rtn.bit
      {
        NodeLinks(prev);
        assert LinkedAt(Some(prev.key));
        rtn := prev;
        prev := rtn.parent;
      }
      NodeLinks(rtn);
      forall r | r in nodeAt && r < rtn.key ensures |r| < dbit {
        assert prev != null ==> LinkedAt(Some(prev.key));
      }
      AllBelowSpot(rtn.key, dbit);
    }

    lemma SpotFound(a: Bits, k: Bits, his: Bits, q: Bits, d: nat)
      requires his in nodeAt && q in nodeAt && OnPath(a, his) && k <= a
      requires |his| >= |k| || NoChild(nodeAt.Keys, his, a[|his|])
      requires q <= his && d <= |q| && d <= |k| && his[..d] == k[..d]
      requires d < |his| && d < |k| ==> k[d] != his[d]
      requires forall r :: r in nodeAt && r < q ==> |r| < d
      requires forall r :: r in nodeAt && q[..d] <= r ==> q <= r
      ensures Spot(k, q, d)
    {
      assert q[..d] == his[..d];
      PrefixCases(q, his);
    }

    /** The first bit, up to the shorter length, in which an address leaves a stored route. */
    method Diverges(found: RtNode, addr: Address, bitlen: nat, ghost a: Bits) returns (dbit: nat, hisAddr: Address)
      requires Valid() && Has(found) && found.key in routeAt && found.bit == |found.key|
      requires Spells(addr, a) && bitlen <= |a|
      ensures dbit <= bitlen && dbit <= |found.key| && KeyFits(hisAddr, found.key) && a[..dbit] == found.key[..dbit]
      ensures dbit < bitlen && dbit < |found.key| ==> a[dbit] != found.key[dbit]
    {
      assert Carries(found.key);
      var bits2chk := if found.bit < bitlen then found.bit else bitlen;
      hisAddr := found.rth.rdxAddr.value;
      dbit := FirstDifference(addr, hisAddr, bits2chk, a, found.key);
      if dbit > bits2chk { dbit := bits2chk; }
    }

    method FindSpot(addr: Address, bitlen: nat, ghost a: Bits) returns (rtn: RtNode, dbit: nat, hisAddr: Address)
      requires Valid() && root != null && Spells(addr, a) && bitlen <= |a| == maxaddrlen
      ensures Has(rtn) && Spot(a[..bitlen], rtn.key, dbit) && KeyFits(hisAddr, rtn.key)
    {
      var found := DescendToRoute(addr, bitlen, a);
      ghost var his := found.key;
      dbit, hisAddr := Diverges(found, addr, bitlen, a);
      rtn := Climb(found, dbit);
      SpellsPrefix(hisAddr, his, |rtn.key|);
      assert rtn.key == his[..|rtn.key|];
      assert a[..bitlen][..dbit] == a[..dbit];
      SpotFound(a, a[..bitlen], his, rtn.key, dbit);
    }

    /** A node whose fields and links are as before stays well formed while nodes are added. */
    twostate lemma StaysOk(q: Bits)
      requires old(Linked() && q in nodeAt)
      requires forall r :: r in old(nodeAt) ==> r in nodeAt && nodeAt[r] == old(nodeAt)[r]
      requires unchanged(nodeAt[q]) && q in shape && q in old(shape) && shape[q] == old(shape)[q]
      ensures LinkedAt(Some(q))
    {
      assert old(LinkedAt(Some(q)));
    }

    /** No route is newer than a node above it. */
    ghost predicate Dominated()
      reads this`nodeAt, this`routeAt, nodeAt.Values`version, routeAt.Values`version
    {
      forall p, q :: p in nodeAt && q in routeAt && p <= q ==> routeAt[q].version <= nodeAt[p].version
    }

    /** Storing a route of version 0 keeps every route dominated when new nodes have the version
        of the topmost old node below them. */
    twostate lemma DominatedGrows(new k: Bits, new rth: RtHead, new q: Bits)
      requires routeAt == old(routeAt)[k := rth] && q in old(nodeAt)
      requires forall p :: p in old(nodeAt) ==>
                 p in nodeAt && nodeAt[p] == old(nodeAt)[p] && nodeAt[p].version == old(nodeAt[p].version)
      requires forall p :: p in old(routeAt) ==> old(routeAt)[p].version == old(routeAt[p].version)
      requires forall p, r :: p in nodeAt && p !in old(nodeAt) && r in old(routeAt) && p <= r ==>
                 q <= r && nodeAt[p].version == old(nodeAt[q].version)
      ensures old(Dominated()) && rth.version == 0 ==> Dominated()
    {}

    // ----- insert -----

    /** What hanging the new node add below rtn does to the table. */
    twostate lemma HungBelow(rtn: RtNode, new add: RtNode)
      requires old(Linked() && Has(rtn)) && root == old(root)
      requires var p, x := rtn.key, add.key;
               && FitsBelow(old(nodeAt).Keys, p, x) && p in old(shape)
               && nodeAt == old(nodeAt)[x := add]
               && shape == old(shape)[p := old(shape)[p].WithChild(x[|p|], Some(x))][x := Links(None, None, Some(p))]
               && rtn.left == (if x[|p|] then old(rtn.left) else add)
               && rtn.right == (if x[|p|] then add else old(rtn.right))
      requires rtn.parent == old(rtn.parent)
      requires forall q :: q in old(nodeAt) && q != rtn.key ==> unchanged(old(nodeAt)[q])
      requires add.left == null && add.right == null && add.parent == rtn
      requires add.bit == |add.key| <= maxaddrlen && add.tbit == RnBit(add.bit)
      ensures Linked()
    {
      var p, x := rtn.key, add.key;
      assert old(LinkedAt(None)) && old(LinkedAt(Some(p)));
      PrefixSet.HangBelow(old(shape), KeyOf(root), p, x);
      assert LinkedAt(None);
      forall r: Option<Bits> ensures LinkedAt(r) {
        if r.Some? && r.value in nodeAt && r.value != p && r.value != x { StaysOk(r.value); }
      }
    }

    /** Hangs the new node below rtn, which has no child on that side. */
    method HangBelow(rtn: RtNode, add: RtNode, addr: Address)
      requires Linked() && Has(rtn) && KeyFits(addr, add.key) && FitsBelow(nodeAt.Keys, rtn.key, add.key)
      requires add.left == null && add.right == null
      requires add.bit == |add.key| <= maxaddrlen && add.tbit == RnBit(add.bit)
      modifies this`nodeAt, this`shape, rtn`left, rtn`right, add`parent
      ensures Linked() && nodeAt == old(nodeAt)[add.key := add]
      ensures rtn.left == (if add.key[|rtn.key|] then old(rtn.left) else add)
      ensures rtn.right == (if add.key[|rtn.key|] then add else old(rtn.right))
    {
      ghost var p, x := rtn.key, add.key;
      KeysMatch();
      assert LinkedAt(Some(p));
      NodeLinks(rtn);
      add.parent := rtn;
      var isSet := rtn.TestBit(addr, x);
      if isSet {
        assert rtn.right == null;
        rtn.right := add;
      } else {
        assert rtn.left == null;
        rtn.left := add;
      }
      nodeAt := nodeAt[x := add];
      shape := shape[p := shape[p].WithChild(x[|p|], Some(x))][x := Links(None, None, Some(p))];
      HungBelow(rtn, add);
    }

    /** What putting the new node rtnNew in rtn's place does to the table. */
    twostate lemma SplicedAbove(rtn: RtNode, new rtnNew: RtNode)
      requires old(Linked() && Has(rtn)) && FitsAbove(old(nodeAt).Keys, rtn.key, rtnNew.key)
      requires nodeAt == old(nodeAt)[rtnNew.key := rtnNew]
      requires rtn.left == old(rtn.left) && rtn.right == old(rtn.right) && rtn.parent == rtnNew
      requires var q, prev := rtn.key, old(rtn.parent);
               if prev == null then root == rtnNew
               else
                 && root == old(root) && prev.parent == old(prev.parent)
                 && old(Has(prev)) && prev.key < q
                 && old(prev.right == rtn <==> q[|prev.key|]) && old(prev.left == rtn <==> !q[|prev.key|])
                 && prev.left == (if old(prev.left) == rtn then rtnNew else old(prev.left))
                 && prev.right == (if old(prev.right) == rtn then rtnNew else old(prev.right))
      requires forall r :: r in old(nodeAt) && r != rtn.key && (old(rtn.parent) != null ==> r != old(rtn.parent).key) ==>
                 unchanged(old(nodeAt)[r])
      requires rtnNew.left == (if rtn.key[|rtnNew.key|] then null else rtn)
      requires rtnNew.right == (if rtn.key[|rtnNew.key|] then rtn else null)
      requires rtnNew.parent == old(rtn.parent)
      requires rtnNew.bit == |rtnNew.key| <= maxaddrlen && rtnNew.tbit == RnBit(rtnNew.bit)
      requires rtn.key in old(shape)
      requires var k := old(shape)[rtn.key].parent; k.Some? ==> k.value in old(shape) && k.value < rtn.key
      requires shape == Spliced(old(shape), rtn.key, rtnNew.key)
      ensures Linked()
    {
      var q, x := rtn.key, rtnNew.key;
      assert old(LinkedAt(None)) && old(LinkedAt(Some(q)));
      var k := old(shape)[q].parent;
      if k.Some? {
        assert old(LinkedAt(Some(k.value)));
        HangsFromParent(old(shape), KeyOf(old(root)), q);
      }
      PrefixSet.SpliceAbove(old(shape), KeyOf(old(root)), q, x);
      assert LinkedAt(None);
      forall r: Option<Bits> ensures LinkedAt(r) {
        if r == None {
        } else if r.value == q {
        } else if r.value == x {
        } else if r == k {
        } else if r.value in nodeAt {
          StaysOk(r.value);
        }
      }
    }

    /** Points whatever pointed at rn (its parent prev, or the table) at next. */
    method ReplaceChild(prev: RtNode?, rn: RtNode, next: RtNode?)
      requires prev != null ==> (prev.left == rn) != (prev.right == rn)
      modifies this`root, Maybe(prev)`left, Maybe(prev)`right
      ensures prev == null ==> root == next
      ensures prev != null ==>
                && root == old(root)
                && prev.left == (if old(prev.left) == rn then next else old(prev.left))
                && prev.right == (if old(prev.right) == rn then next else old(prev.right))
    {
      if prev == null {
        root := next;
      } else if prev.right == rn {
        prev.right := next;
      } else {
        assert prev.left == rn;
        prev.left := next;
      }
    }

    /** The pointer updates that put rtnNew in rtn's place. */
    method RewireAbove(rtn: RtNode, rtnNew: RtNode)
      requires rtn != rtnNew && rtn.parent != rtn && rtn.parent != rtnNew
      requires rtn.parent != null ==> (rtn.parent.left == rtn) != (rtn.parent.right == rtn)
      modifies this`root, Maybe(rtn.parent)`left, Maybe(rtn.parent)`right, rtn`parent, rtnNew`parent, rtnNew`version
      ensures rtn.parent == rtnNew && rtnNew.parent == old(rtn.parent) && rtnNew.version == old(rtn.version)
      ensures var prev := old(rtn.parent);
              if prev == null then root == rtnNew
              else
                && root == old(root)
                && prev.left == (if old(prev.left) == rtn then rtnNew else old(prev.left))
                && prev.right == (if old(prev.right) == rtn then rtnNew else old(prev.right))
    {
      var prev := rtn.parent;
      rtn.parent := rtnNew;
      rtnNew.version := rtn.version;
      rtnNew.parent := prev;
      ReplaceChild(prev, rtn, rtnNew);
    }

    /** Puts the new node in rtn's place, with rtn as its only child. */
    method SpliceAbove(rtn: RtNode, rtnNew: RtNode)
      requires Linked() && Has(rtn) && FitsAbove(nodeAt.Keys, rtn.key, rtnNew.key)
      requires rtnNew.bit == |rtnNew.key| <= maxaddrlen && rtnNew.tbit == RnBit(rtnNew.bit)
      requires rtnNew.left == (if rtn.key[|rtnNew.key|] then null else rtn)
      requires rtnNew.right == (if rtn.key[|rtnNew.key|] then rtn else null)
      modifies this`nodeAt, this`shape, this`root
      modifies Maybe(rtn.parent)`left, Maybe(rtn.parent)`right, rtn`parent, rtnNew`parent, rtnNew`version
      ensures Linked() && nodeAt == old(nodeAt)[rtnNew.key := rtnNew]
      ensures old(rtn.parent) != null ==>
                var n := old(rtn.parent);
                (n.left == null <==> old(n.left) == null) && (n.right == null <==> old(n.right) == null)
      ensures rtnNew.version == old(rtn.version)
    {
      ghost var q, x := rtn.key, rtnNew.key;
      KeysMatch();
      var prev := rtn.parent;
      ParentLink(rtn);
      if prev != null { ParentHolds(rtn); }
      RewireAbove(rtn, rtnNew);
      nodeAt := nodeAt[x := rtnNew];
      shape := Spliced(shape, q, x);
      SplicedAbove(rtn, rtnNew);
    }

    /** Storing the route rth under the new key k. */
    twostate lemma RoutesGrow(new k: Bits, new rth: RtHead)
      requires old(Routes()) && k !in old(routeAt)
      requires routeAt == old(routeAt)[k := rth] && k in nodeAt && RouteOk(rth, k)
      requires forall p :: p in old(routeAt) ==> unchanged(old(routeAt)[p])
      requires forall p :: p in old(nodeAt) ==>
                 && p in nodeAt && nodeAt[p] == old(nodeAt)[p]
                 && (p != k ==> nodeAt[p].rth == old(nodeAt[p].rth))
                 && (nodeAt[p].left == null ==> old(nodeAt[p].left) == null)
                 && (nodeAt[p].right == null ==> old(nodeAt[p].right) == null)
      requires forall p :: p in nodeAt && p !in old(nodeAt) && p != k ==>
                 nodeAt[p].rth == null && nodeAt[p].left != null && nodeAt[p].right != null
      ensures Routes()
    {
      forall p: Bits ensures Carries(p) {
        if p != k { assert old(Carries(p)); }
      }
    }

    method LinkRoute(rtn: RtNode, rth: RtHead)
      modifies rtn`rth, rth`rtn
      ensures rtn.rth == rth && rth.rtn == rtn
    {
      rtn.rth := rth;
      rth.rtn := rtn;
    }

    /** Stores the route in a node that has none. */
    method AttachRoute(rtn: RtNode, rth: RtHead)
      requires Valid() && Has(rtn) && rtn.key !in routeAt && !Stores(rth)
      requires rth.rdxAddr == Some(rth.addr) && KeyFits(rth.addr, rtn.key)
      modifies this`routeAt, this`routes, rth`rtn, rtn`rth
      ensures Valid() && routeAt == old(routeAt)[rtn.key := rth]
      ensures old(Dominated()) && rth.version == 0 ==> Dominated()
    {
      assert Carries(rtn.key);
      KeysMatch();
      LinkRoute(rtn, rth);
      routes := routes + 1;
      routeAt := routeAt[rtn.key := rth];
      RoutesGrow(rtn.key, rth);
      DominatedGrows(rtn.key, rth, rtn.key);
    }

    method SetAddress(rth: RtHead)
      requires Valid()
      modifies rth`rdxAddr
      ensures Valid() && rth.rdxAddr == Some(rth.addr)
    {
      if Stores(rth) {
        var p :| p in routeAt && routeAt[p] == rth;
        assert Carries(p);
      }
      rth.rdxAddr := Some(rth.addr);
    }

    /** The four ways in which a key can relate to its spot. */
    lemma SpotCases(k: Bits, q: Bits, d: nat)
      requires Linked() && Spot(k, q, d)
      ensures d == |k| == |q| ==> k == q
      ensures !(d == |k| == |q|) ==> k !in nodeAt
      ensures d == |q| && d < |k| ==> FitsBelow(nodeAt.Keys, q, k)
      ensures d == |k| && d < |q| ==> FitsAbove(nodeAt.Keys, q, k)
      ensures d < |k| && d < |q| ==> FitsAbove(nodeAt.Keys, q, k[..d]) && q[d] != k[d]
    {
      if d == |q| { assert q == q[..d] == k[..d]; }
      if d == |k| { assert k == q[..d]; }
      if d < |k| { assert k[..d] <= k && (d == |q| ==> Below(q, k[d], k)); }
    }

    lemma SingleNode(n: RtNode, h: RtHead)
      requires root == n && nodeAt == map[n.key := n] && shape == map[n.key := Links(None, None, None)]
      requires n.left == null && n.right == null && n.parent == null && routeAt == map[n.key := h]
      requires n.bit == |n.key| && n.tbit == RnBit(n.bit) && RouteOk(h, n.key)
      ensures Linked() && Routes()
    {
      assert NodeIs(nodeAt.Keys, n.key, shape[n.key]);
      forall r: Option<Bits> ensures LinkedAt(r) {}
      forall p: Bits ensures Carries(p) {}
    }

    method InsertFirst(rth: RtHead, bitlen: nat, ghost k: Bits)
      requires Valid() && nodeAt == map[] && rth.rdxAddr == Some(rth.addr) && |k| == bitlen && KeyFits(rth.addr, k)
      modifies this`root, this`inodes, this`routes, this`nmalloc, this`nodeAt, this`routeAt, this`shape, rth`rtn
      ensures Valid() && Grown() && routeAt == map[k := rth]
    {
      RoutesAreNodes();
      var rtn := new RtNode(bitlen, k);
      root := rtn;
      rth.rtn := rtn;
      rtn.rth := rth;
      inodes := inodes + 1;
      routes := routes + 1;
      nmalloc := nmalloc + 1;
      nodeAt, routeAt, shape := map[k := rtn], map[k := rth], map[k := Links(None, None, None)];
      SingleNode(rtn, rth);
    }

    /** add is a new node that carries the new route rth. */
    ghost predicate Pending(add: RtNode, rth: RtHead)
      reads this`nodeAt, this`routeAt, add, rth
    {
      && add.key !in nodeAt && add.key !in routeAt && !Stores(rth)
      && add.bit == |add.key| <= maxaddrlen && add.tbit == RnBit(add.bit)
      && add.left == null && add.right == null && add.rth == rth
      && rth.rtn == add && rth.rdxAddr == Some(rth.addr) && KeyFits(rth.addr, add.key)
    }

    method PlaceBelow(rtn: RtNode, add: RtNode, rth: RtHead)
      requires Linked() && Routes() && Has(rtn) && Pending(add, rth) && FitsBelow(nodeAt.Keys, rtn.key, add.key)
      modifies this`nodeAt, this`shape, this`routes, this`routeAt, rtn`left, rtn`right, add`parent
      ensures Linked() && Routes()
      ensures nodeAt == old(nodeAt)[add.key := add] && routeAt == old(routeAt)[add.key := rth] && routes == old(routes) + 1
      ensures old(Dominated()) && rth.version == 0 ==> Dominated()
    {
      KeysMatch();
      RoutesAreNodes();
      forall q | q in nodeAt ensures !(add.key <= q) { BelowNothing(nodeAt.Keys, rtn.key, add.key, q); }
      HangBelow(rtn, add, rth.addr);
      routeAt := routeAt[add.key := rth];
      routes := routes + 1;
      RoutesGrow(add.key, rth);
      DominatedGrows(add.key, rth, rtn.key);
    }

    /** The new node takes rtn as its child, on the side that the address at rtn says. */
    method AdoptChild(add: RtNode, rtn: RtNode, hisAddr: Address)
      requires KeyFits(hisAddr, rtn.key) && add.key < rtn.key
      requires add.bit == |add.key| && add.tbit == RnBit(add.bit) && add.left == null && add.right == null
      modifies add`left, add`right
      ensures add.left == (if rtn.key[|add.key|] then null else rtn)
      ensures add.right == (if rtn.key[|add.key|] then rtn else null)
    {
      var isSet := add.TestBit(hisAddr, rtn.key);
      if isSet {
        add.right := rtn;
      } else {
        add.left := rtn;
      }
    }

    method SpliceOver(rtn: RtNode, rtnNew: RtNode, hisAddr: Address)
      requires Linked() && Has(rtn) && FitsAbove(nodeAt.Keys, rtn.key, rtnNew.key) && KeyFits(hisAddr, rtn.key)
      requires rtnNew.bit == |rtnNew.key| <= maxaddrlen && rtnNew.tbit == RnBit(rtnNew.bit)
      requires rtnNew.left == null && rtnNew.right == null
      modifies this`nodeAt, this`shape, this`root, Maybe(rtn.parent)`left, Maybe(rtn.parent)`right, rtn`parent
      modifies rtnNew`parent, rtnNew`version, rtnNew`left, rtnNew`right
      ensures Linked() && nodeAt == old(nodeAt)[rtnNew.key := rtnNew]
      ensures NoChild(nodeAt.Keys, rtnNew.key, !rtn.key[|rtnNew.key|])
      ensures (if rtn.key[|rtnNew.key|] then rtnNew.right else rtnNew.left) == rtn
      ensures old(rtn.parent) != null ==>
                var n := old(rtn.parent);
                (n.left == null <==> old(n.left) == null) && (n.right == null <==> old(n.right) == null)
      ensures rtnNew.version == old(rtn.version)
    {
      KeysMatch();
      NodeLinks(rtn);
      AdoptChild(rtnNew, rtn, hisAddr);
      ghost var left, right := rtnNew.left, rtnNew.right;
      SpliceAbove(rtn, rtnNew);
      assert rtnNew.left == left && rtnNew.right == right;
      NodeLinks(rtnNew);
    }

    method PlaceAbove(rtn: RtNode, add: RtNode, rth: RtHead, hisAddr: Address)
      requires Linked() && Routes() && Has(rtn) && Pending(add, rth) && FitsAbove(nodeAt.Keys, rtn.key, add.key)
      requires KeyFits(hisAddr, rtn.key)
      modifies this`nodeAt, this`shape, this`root, this`routes, this`routeAt
      modifies Maybe(rtn.parent)`left, Maybe(rtn.parent)`right, rtn`parent, add`parent, add`version, add`left, add`right
      ensures Linked() && Routes()
      ensures nodeAt == old(nodeAt)[add.key := add] && routeAt == old(routeAt)[add.key := rth] && routes == old(routes) + 1
      ensures add.version == old(rtn.version)
      ensures old(Dominated()) && rth.version == 0 ==> Dominated()
    {
      KeysMatch();
      RoutesAreNodes();
      SpliceOver(rtn, add, hisAddr);
      routeAt := routeAt[add.key := rth];
      routes := routes + 1;
      RoutesGrow(add.key, rth);
      DominatedGrows(add.key, rth, rtn.key);
    }

    /** Puts the glue node in rtn's place with rtn on one side and add on the other. */
    method Fork(rtn: RtNode, add: RtNode, glue: RtNode, addr: Address, hisAddr: Address)
      requires Linked() && Has(rtn) && FitsAbove(nodeAt.Keys, rtn.key, glue.key)
      requires add.key !in nodeAt && glue.key < add.key && add.key[|glue.key|] != rtn.key[|glue.key|]
      requires glue.bit == |glue.key| <= maxaddrlen && glue.tbit == RnBit(glue.bit)
      requires add.bit == |add.key| <= maxaddrlen && add.tbit == RnBit(add.bit)
      requires glue.left == null && glue.right == null && add.left == null && add.right == null
      requires KeyFits(hisAddr, rtn.key) && KeyFits(addr, add.key)
      modifies this`nodeAt, this`shape, this`root, Maybe(rtn.parent)`left, Maybe(rtn.parent)`right, rtn`parent
      modifies add`parent, glue`parent, glue`version, glue`left, glue`right
      ensures Linked() && nodeAt == old(nodeAt)[glue.key := glue][add.key := add]
      ensures glue.left != null && glue.right != null && glue.version == old(rtn.version)
      ensures old(rtn.parent) != null ==>
                var n := old(rtn.parent);
                (n.left == null <==> old(n.left) == null) && (n.right == null <==> old(n.right) == null)
    {
      KeysMatch();
      NodeLinks(rtn);
      SpliceOver(rtn, glue, hisAddr);
      HangBelow(glue, add, addr);
    }

    method LinkFork(rtn: RtNode, add: RtNode, rth: RtHead, glue: RtNode, hisAddr: Address)
      requires Linked() && Routes() && Has(rtn) && Pending(add, rth) && FitsAbove(nodeAt.Keys, rtn.key, glue.key)
      requires glue.key < add.key && add.key[|glue.key|] != rtn.key[|glue.key|]
      requires glue.bit == |glue.key| <= maxaddrlen && glue.tbit == RnBit(glue.bit)
      requires glue.left == null && glue.right == null && glue.rth == null && KeyFits(hisAddr, rtn.key)
      modifies this`nodeAt, this`shape, this`root, this`routes, this`routeAt
      modifies Maybe(rtn.parent)`left, Maybe(rtn.parent)`right, rtn`parent
      modifies add`parent, glue`parent, glue`version, glue`left, glue`right
      ensures Linked() && Routes()
      ensures nodeAt == old(nodeAt)[glue.key := glue][add.key := add] && routeAt == old(routeAt)[add.key := rth] && routes == old(routes) + 1
      ensures glue.version == old(rtn.version)
    {
      Fork(rtn, add, glue, rth.addr, hisAddr);
      routeAt := routeAt[add.key := rth];
      routes := routes + 1;
      RoutesGrow(add.key, rth);
    }

    method PlaceFork(rtn: RtNode, add: RtNode, rth: RtHead, glue: RtNode, hisAddr: Address)
      requires Linked() && Routes() && Has(rtn) && Pending(add, rth) && FitsAbove(nodeAt.Keys, rtn.key, glue.key)
      requires glue.key < add.key && add.key[|glue.key|] != rtn.key[|glue.key|]
      requires glue.bit == |glue.key| <= maxaddrlen && glue.tbit == RnBit(glue.bit)
      requires glue.left == null && glue.right == null && glue.rth == null && KeyFits(hisAddr, rtn.key)
      modifies this`nodeAt, this`shape, this`root, this`routes, this`routeAt
      modifies Maybe(rtn.parent)`left, Maybe(rtn.parent)`right, rtn`parent
      modifies add`parent, glue`parent, glue`version, glue`left, glue`right
      ensures Linked() && Routes()
      ensures nodeAt == old(nodeAt)[glue.key := glue][add.key := add] && routeAt == old(routeAt)[add.key := rth] && routes == old(routes) + 1
      ensures glue.version == old(rtn.version)
      ensures old(Dominated()) && rth.version == 0 ==> Dominated()
    {
      KeysMatch();
      RoutesAreNodes();
      LinkFork(rtn, add, rth, glue, hisAddr);
      DominatedGrows(add.key, rth, rtn.key);
    }

    /** A successful allocation of the node for a new route. */
    method NewNode(rth: RtHead, bitlen: nat, ghost k: Bits) returns (add: RtNode)
      requires Linked() && Routes() && !Stores(rth) && k !in nodeAt && k !in routeAt
      requires rth.rdxAddr == Some(rth.addr) && KeyFits(rth.addr, k) && |k| == bitlen
      modifies this`inodes, this`nmalloc, rth`rtn
      ensures Linked() && Routes() && Pending(add, rth) && add.key == k && fresh(add) && add.version == 0
      ensures inodes == old(inodes) + 1 && nmalloc == old(nmalloc) + 1
    {
      add := new RtNode(bitlen, k);
      inodes := inodes + 1;
      nmalloc := nmalloc + 1;
      add.rth := rth;
      rth.rtn := add;
    }

    /** The table has kept its nodes and gained only newly allocated ones. */
    twostate predicate Grown()
      reads this`nodeAt
    {
      && (forall p :: p in old(nodeAt) ==> p in nodeAt && nodeAt[p] == old(nodeAt)[p])
      && (forall p :: p in nodeAt && p !in old(nodeAt) ==> fresh(nodeAt[p]))
    }

    /** rth is ready to be stored under the new key k. */
    ghost predicate Ready(rth: RtHead, k: Bits)
      reads this`nodeAt, this`routeAt, rth`rdxAddr
    {
      !Stores(rth) && k !in routeAt && rth.rdxAddr == Some(rth.addr) && KeyFits(rth.addr, k)
    }

    method FreeNode()
      requires inodes > 0
      modifies this`inodes, this`nfree
      ensures inodes == old(inodes) - 1 && nfree == old(nfree) + 1
    {
      nfree := nfree + 1;
      inodes := inodes - 1;
    }

    /** A successful allocation of a node without a route. */
    method NewGlue(dbit: nat, ghost k: Bits, ghost add: RtNode, ghost rth: RtHead) returns (glue: RtNode)
      requires Linked() && Routes() && Pending(add, rth) && |k| == dbit
      modifies this`inodes, this`nmalloc
      ensures Linked() && Routes() && Pending(add, rth) && fresh(glue) && glue.key == k
      ensures glue.bit == |glue.key| && glue.tbit == RnBit(glue.bit)
      ensures glue.left == null && glue.right == null && glue.rth == null
      ensures inodes == old(inodes) + 1 && nmalloc == old(nmalloc) + 1
    {
      glue := new RtNode(dbit, k);
      inodes := inodes + 1;
      nmalloc := nmalloc + 1;
    }

    method InsertBelow(rtn: RtNode, rth: RtHead, bitlen: nat, ghost k: Bits)
      requires Valid() && Has(rtn) && Ready(rth, k) && |k| == bitlen && FitsBelow(nodeAt.Keys, rtn.key, k)
      modifies this`inodes, this`routes, this`nmalloc, this`nodeAt, this`routeAt, this`shape
      modifies rth`rtn, rtn`left, rtn`right
      ensures Valid() && Grown() && routeAt == old(routeAt)[k := rth]
      ensures old(Dominated()) && rth.version == 0 ==> Dominated()
    {
      BelowNewNode(nodeAt.Keys, rtn.key, k);
      var add := NewNode(rth, bitlen, k);
      assert old(Dominated()) ==> Dominated();
      PlaceBelow(rtn, add, rth);
      assert Grown();
    }

    method InsertAbove(rtn: RtNode, rth: RtHead, bitlen: nat, hisAddr: Address, ghost k: Bits)
      requires Valid() && Has(rtn) && Ready(rth, k) && |k| == bitlen && FitsAbove(nodeAt.Keys, rtn.key, k)
      requires KeyFits(hisAddr, rtn.key)
      modifies this`inodes, this`routes, this`nmalloc, this`nodeAt, this`routeAt, this`shape, this`root
      modifies rth`rtn, Maybe(rtn.parent)`left, Maybe(rtn.parent)`right, rtn`parent
      ensures Valid() && Grown() && routeAt == old(routeAt)[k := rth]
      ensures old(Dominated()) && rth.version == 0 ==> Dominated()
    {
      var add := NewNode(rth, bitlen, k);
      assert old(Dominated()) ==> Dominated();
      assert Has(rtn);
      PlaceAbove(rtn, add, rth, hisAddr);
    }

    static lemma TwoMore(S: map<Bits, RtNode>, a: Bits, x: RtNode, b: Bits, y: RtNode)
      requires a !in S && b !in S && a != b
      ensures var S' := S[a := x][b := y];
              && S.Keys <= S'.Keys && |S'| == |S| + 2 && (forall p :: p in S ==> S'[p] == S[p])
              && forall p :: p in S' && p !in S ==> S'[p] == x || S'[p] == y
    {}

    method CompleteFork(rtn: RtNode, add: RtNode, rth: RtHead, dbit: nat, hisAddr: Address)
      requires Linked() && Routes() && Has(rtn) && Pending(add, rth) && KeyFits(hisAddr, rtn.key)
      requires dbit < |add.key| && dbit < |rtn.key| && add.key[dbit] != rtn.key[dbit]
      requires FitsAbove(nodeAt.Keys, rtn.key, add.key[..dbit])
      modifies this`inodes, this`nmalloc, this`routes, this`nodeAt, this`routeAt, this`shape, this`root
      modifies Maybe(rtn.parent)`left, Maybe(rtn.parent)`right, rtn`parent, add`parent
      ensures Linked() && Routes() && routeAt == old(routeAt)[add.key := rth]
      ensures routes == old(routes) + 1 && inodes == old(inodes) + 1 && nmalloc == old(nmalloc) + 1
      ensures old(nodeAt).Keys <= nodeAt.Keys && |nodeAt| == |old(nodeAt)| + 2
      ensures forall p :: p in old(nodeAt) ==> nodeAt[p] == old(nodeAt)[p]
      ensures forall p :: p in nodeAt && p !in old(nodeAt) ==> nodeAt[p] == add || fresh(nodeAt[p])
      ensures old(Dominated()) && rth.version == 0 ==> Dominated()
    {
      var glue := NewGlue(dbit, add.key[..dbit], add, rth);
      TwoMore(nodeAt, glue.key, glue, add.key, add);
      PlaceFork(rtn, add, rth, glue, hisAddr);
    }

    method InsertFork(rtn: RtNode, rth: RtHead, bitlen: nat, dbit: nat, hisAddr: Address, alloc2: bool, ghost k: Bits)
      returns (ok: bool)
      requires Valid() && Has(rtn) && Ready(rth, k) && dbit < |k| == bitlen && dbit < |rtn.key|
      requires FitsAbove(nodeAt.Keys, rtn.key, k[..dbit]) && k !in nodeAt && k[dbit] != rtn.key[dbit]
      requires KeyFits(hisAddr, rtn.key)
      modifies this`inodes, this`routes, this`nmalloc, this`nfree, this`nodeAt, this`routeAt, this`shape, this`root
      modifies rth`rtn, Maybe(rtn.parent)`left, Maybe(rtn.parent)`right, rtn`parent
      ensures Valid() && ok == alloc2
      ensures if ok then Grown() && routeAt == old(routeAt)[k := rth]
              else routeAt == old(routeAt) && nodeAt == old(nodeAt)
      ensures old(Dominated()) && (ok ==> rth.version == 0) ==> Dominated()
    {
      var add := NewNode(rth, bitlen, k);
      assert old(Dominated()) ==> Dominated();
      if !alloc2 {
        FreeNode();
        return false;
      }
      CompleteFork(rtn, add, rth, dbit, hisAddr);
      return true;
    }

    /** The part of insert that follows the search. */
    method InsertAt(rtn: RtNode, dbit: nat, hisAddr: Address, rth: RtHead, bitlen: nat, alloc1: bool, alloc2: bool,
                    ghost k: Bits)
      returns (r: RtHead?)
      requires Valid() && Has(rtn) && KeyFits(hisAddr, rtn.key) && Ready(rth, k) && |k| == bitlen
      requires Spot(k, rtn.key, dbit)
      modifies this`root, this`inodes, this`routes, this`nmalloc, this`nfree, this`nodeAt, this`routeAt, this`shape
      modifies rth`rtn, Maybe(rtn.parent)`left, Maybe(rtn.parent)`right
      modifies rtn`parent, rtn`rth, rtn`left, rtn`right
      ensures Valid()
      ensures r == null <==> k !in old(nodeAt) && (!alloc1 || (!alloc2 && NeedsFork(old(nodeAt).Keys, k)))
      ensures if r == null then routeAt == old(routeAt) && nodeAt == old(nodeAt)
              else r == rth && Grown() && routeAt == old(routeAt)[k := rth]
      ensures old(Dominated()) && (r == null || rth.version == 0) ==> Dominated()
    {
      assert LinkedAt(None) && LinkedAt(Some(rtn.key)) && Carries(rtn.key);
      RoutesAreNodes();
      SpotCases(k, rtn.key, dbit);
      if dbit == bitlen && rtn.bit == bitlen {
        AttachRoute(rtn, rth);
        return rth;
      }
      if !alloc1 { return null; }
      if rtn.bit == dbit {
        assert dbit < bitlen;
        BelowNeedsNoFork(shape, KeyOf(root), rtn.key, k);
        InsertBelow(rtn, rth, bitlen, k);
      } else if dbit == bitlen {
        AboveNeedsNoFork(shape, KeyOf(root), rtn.key, k);
        InsertAbove(rtn, rth, bitlen, hisAddr, k);
      } else {
        ForkIsNeeded(nodeAt.Keys, rtn.key, k, dbit);
        var ok := InsertFork(rtn, rth, bitlen, dbit, hisAddr, alloc2, k);
        if !ok { return null; }
      }
      return rth;
    }

    method InsertStart(rth: RtHead)
      requires Valid()
      modifies rth`rdxAddr, this`ninserts
      ensures Valid() && rth.rdxAddr == Some(rth.addr) && ninserts == old(ninserts) + 1
      ensures old(Dominated()) ==> Dominated()
    {
      SetAddress(rth);
      ninserts := ninserts + 1;
    }

    method InsertSearched(rth: RtHead, bitlen: nat, alloc1: bool, alloc2: bool, ghost a: Bits, ghost k: Bits)
      returns (r: RtHead?)
      requires Valid() && root != null && Spells(rth.addr, a) && bitlen <= |a| == maxaddrlen && k == a[..bitlen]
      requires KeyFits(rth.addr, k) && rth.rdxAddr == Some(rth.addr)
      requires Stores(rth) ==> k in routeAt
      modifies this`root, this`inodes, this`routes, this`nmalloc, this`nfree, this`nodeAt, this`routeAt, this`shape
      modifies nodeAt.Values`left, nodeAt.Values`right, nodeAt.Values`parent, nodeAt.Values`rth, rth`rtn
      ensures Valid() && Grown()
      ensures k in old(routeAt) ==> r == old(routeAt)[k] && routeAt == old(routeAt) && nodeAt == old(nodeAt)
      ensures k !in old(routeAt) && r == null ==> routeAt == old(routeAt) && nodeAt == old(nodeAt)
      ensures k !in old(routeAt) && r != null ==> r == rth && routeAt == old(routeAt)[k := rth]
      ensures r == null <==> k !in old(nodeAt) && (!alloc1 || (!alloc2 && NeedsFork(old(nodeAt).Keys, k)))
      ensures old(Dominated()) && (r != rth || k in old(routeAt) || rth.version == 0) ==> Dominated()
    {
      RoutesAreNodes();
      var rtn, dbit, hisAddr := FindSpot(rth.addr, bitlen, a);
      assert LinkedAt(Some(rtn.key)) && Carries(rtn.key);
      SpotCases(k, rtn.key, dbit);
      if dbit == bitlen && rtn.bit == bitlen && rtn.rth != null { return rtn.rth; }
      NodeLinks(rtn);
      r := InsertAt(rtn, dbit, hisAddr, rth, bitlen, alloc1, alloc2, k);
    }

    method InsertKey(rth: RtHead, bitlen: nat, alloc1: bool, alloc2: bool, ghost a: Bits, ghost k: Bits)
      returns (r: RtHead?)
      requires Valid() && Spells(rth.addr, a) && bitlen <= |a| == maxaddrlen && k == a[..bitlen]
      requires KeyFits(rth.addr, k) && rth.rdxAddr == Some(rth.addr)
      requires Stores(rth) ==> k in routeAt
      modifies this`root, this`inodes, this`routes, this`nmalloc, this`nfree, this`nodeAt, this`routeAt, this`shape
      modifies nodeAt.Values`left, nodeAt.Values`right, nodeAt.Values`parent, nodeAt.Values`rth, rth`rtn
      ensures Valid() && Grown()
      ensures k in old(routeAt) ==> r == old(routeAt)[k] && routeAt == old(routeAt) && nodeAt == old(nodeAt)
      ensures k !in old(routeAt) && r == null ==> routeAt == old(routeAt) && nodeAt == old(nodeAt)
      ensures k !in old(routeAt) && r != null ==> r == rth && routeAt == old(routeAt)[k := rth]
      ensures r == null <==> k !in old(nodeAt) && (!alloc1 || (!alloc2 && NeedsFork(old(nodeAt).Keys, k)))
      ensures old(Dominated()) && (r != rth || k in old(routeAt) || rth.version == 0) ==> Dominated()
    {
      RootHolds();
      RoutesAreNodes();
      if root == null {
        if !alloc1 { return null; }
        InsertFirst(rth, bitlen, k);
        return rth;
      }
      r := InsertSearched(rth, bitlen, alloc1, alloc2, a, k);
    }

    /** Inserts a caller's route under the first bitlen bits of its address. alloc1 and alloc2 are
        the outcomes of the (at most two) allocations. The result is the stored route: rth itself,
        the one already there, or null when memory ran out. */
    method Insert(rth: RtHead, bitlen: nat, alloc1: bool, alloc2: bool) returns (r: RtHead?)
      requires Valid() && bitlen <= maxaddrlen && AddressFits(rth.addr)
      requires Stores(rth) ==> Key(rth.addr, bitlen) in routeAt && routeAt[Key(rth.addr, bitlen)] == rth
      modifies this`root, this`inodes, this`routes, this`nmalloc, this`nfree, this`ninserts, this`nodeAt, this`routeAt, this`shape
      modifies nodeAt.Values`left, nodeAt.Values`right, nodeAt.Values`parent, nodeAt.Values`rth, rth`rtn, rth`rdxAddr
      ensures Valid() && Grown() && ninserts == old(ninserts) + 1
      ensures var k := Key(rth.addr, bitlen); k in old(routeAt) ==> r == old(routeAt)[k] && routeAt == old(routeAt) && nodeAt == old(nodeAt)
      ensures var k := Key(rth.addr, bitlen); k !in old(routeAt) && r == null ==> routeAt == old(routeAt) && nodeAt == old(nodeAt)
      ensures var k := Key(rth.addr, bitlen); k !in old(routeAt) && r != null ==> r == rth && routeAt == old(routeAt)[k := rth]
      ensures var k := Key(rth.addr, bitlen); r == null <==> k !in old(nodeAt) && (!alloc1 || (!alloc2 && NeedsFork(old(nodeAt).Keys, k)))
      ensures var k := Key(rth.addr, bitlen); old(Dominated()) && (r != rth || k in old(routeAt) || rth.version == 0) ==> Dominated()
    {
      ghost var a, k := Key(rth.addr, maxaddrlen), Key(rth.addr, bitlen);
      SpellsKey(rth.addr, a);
      KeyPrefix(rth.addr, bitlen, maxaddrlen);
      SpellsPrefix(rth.addr, a, bitlen);
      InsertStart(rth);
      r := InsertKey(rth, bitlen, alloc1, alloc2, a, k);
    }

    // ----- remove -----

    /** What taking out rn, which had at most one child next, does to the table. */
    twostate predicate TakenOut(new rn: RtNode, new prev: RtNode?, new next: RtNode?)
      reads this, nodeAt.Values
    {
      var S, x := old(shape), rn.key;
      && x in old(nodeAt) && old(nodeAt)[x] == rn && x in S && (S[x].left.None? || S[x].right.None?)
      && PointsIn(old(nodeAt), prev, S[x].parent)
      && PointsIn(old(nodeAt), next, if S[x].left.Some? then S[x].left else S[x].right)
      && (forall p :: p in old(nodeAt) ==> old(nodeAt)[p].key == p)
      && (S[x].parent.Some? ==> S[x].parent.value in S && S[x].parent.value < x)
      && nodeAt == old(nodeAt) - {x} && shape == Pruned(S, x)
      && root == (if prev == null then next else old(root))
      && forall p :: p in nodeAt ==>
           var n := nodeAt[p];
           && n.parent == (if n == next then prev else old(n.parent))
           && n.left == (if n == prev && old(n.left) == rn then next else old(n.left))
           && n.right == (if n == prev && old(n.right) == rn then next else old(n.right))
    }

    twostate lemma TakenOutNode(new rn: RtNode, new prev: RtNode?, new next: RtNode?, new q: Bits)
      requires old(Linked()) && TakenOut(rn, prev, next) && q in nodeAt
      ensures LinkedAt(Some(q))
    {
      var S, x := old(shape), rn.key;
      assert old(LinkedAt(None)) && old(LinkedAt(Some(q))) && old(LinkedAt(Some(x)));
      PrunedLinks(S, KeyOf(old(root)), x, q);
      var c := if S[x].left.Some? then S[x].left else S[x].right;
      if c.Some? { ChildKnowsParent(S, KeyOf(old(root)), x, S[x].left.None?, c.value); }
    }

    twostate lemma TakenOutLinked(new rn: RtNode, new prev: RtNode?, new next: RtNode?)
      requires old(Linked()) && TakenOut(rn, prev, next)
      ensures Linked()
    {
      var S, x := old(shape), rn.key;
      assert old(LinkedAt(None)) && old(LinkedAt(Some(x)));
      var c := if S[x].left.Some? then S[x].left else S[x].right;
      if c.Some? { assert old(LinkedAt(Some(c.value))); ChildKnowsParent(S, KeyOf(old(root)), x, S[x].left.None?, c.value); }
      Prune(S, KeyOf(old(root)), x);
      assert LinkedAt(None);
      forall r: Option<Bits> ensures LinkedAt(r) {
        if r.Some? && r.value in nodeAt { TakenOutNode(rn, prev, next, r.value); }
      }
    }

    /** The pointer updates that take rn out and promote its only child, if any. */
    method UnwireNode(rn: RtNode) returns (next: RtNode?)
      requires rn.left == null || rn.right == null
      requires rn.left != rn && rn.right != rn && rn.parent != rn
      requires rn.parent != null ==> (rn.parent.left == rn) != (rn.parent.right == rn)
      modifies this`root, Maybe(rn.parent)`left, Maybe(rn.parent)`right, Maybe(rn.left)`parent, Maybe(rn.right)`parent
      ensures next == (if old(rn.left) != null then old(rn.left) else old(rn.right))
      ensures next != null ==> next.parent == old(rn.parent)
      ensures root == (if old(rn.parent) == null then next else old(root))
      ensures old(rn.parent) != null ==>
                var prev := old(rn.parent);
                && prev.left == (if old(prev.left) == rn then next else old(prev.left))
                && prev.right == (if old(prev.right) == rn then next else old(prev.right))
    {
      var prev := rn.parent;
      next := if rn.left != null then rn.left else rn.right;
      if next != null { next.parent := prev; }
      ReplaceChild(prev, rn, next);
    }

    method UnlinkNode(rn: RtNode)
      requires Linked() && Has(rn) && (rn.left == null || rn.right == null)
      modifies this`root, this`nodeAt, this`shape
      modifies Maybe(rn.parent)`left, Maybe(rn.parent)`right, Maybe(rn.left)`parent, Maybe(rn.right)`parent
      ensures Linked() && nodeAt == old(nodeAt) - {rn.key}
      ensures old(rn.parent) != null ==>
                var prev, next := old(rn.parent), if old(rn.left) != null then old(rn.left) else old(rn.right);
                && prev.left == (if old(prev.left) == rn then next else old(prev.left))
                && prev.right == (if old(prev.right) == rn then next else old(prev.right))
    {
      KeysMatch();
      ParentLink(rn);
      NodeLinks(rn);
      if rn.parent != null { ParentHolds(rn); }
      assert LinkedAt(Some(rn.key));
      ghost var prev := rn.parent;
      var next := UnwireNode(rn);
      nodeAt := nodeAt - {rn.key};
      shape := Pruned(shape, rn.key);
      TakenOutLinked(rn, prev, next);
    }

    /** A stored route belongs to one node only. */
    lemma RouteUnique(p: Bits, q: Bits)
      requires Linked() && Routes() && p in routeAt && q in routeAt && routeAt[p] == routeAt[q]
      ensures p == q
    {
      assert Carries(p) && Carries(q) && LinkedAt(Some(p)) && LinkedAt(Some(q));
    }

    /** Routes is broken at x at most. */
    ghost predicate RoutesBut(x: Option<Bits>)
      reads this`nodeAt, this`routeAt, nodeAt.Values`rth, nodeAt.Values`left, nodeAt.Values`right
      reads routeAt.Values`rtn, routeAt.Values`rdxAddr
    {
      forall p {:trigger Carries(p)} :: Some(p) != x ==> Carries(p)
    }

    /** The table gives up the route stored under rn's key. */
    method ForgetRoute(rn: RtNode, ghost rth: RtHead)
      requires Linked() && Routes() && Has(rn) && rn.key in routeAt && routeAt[rn.key] == rth
      modifies this`routeAt, rth`rdxAddr
      ensures Linked() && RoutesBut(Some(rn.key)) && routeAt == old(routeAt) - {rn.key} && rth.rdxAddr == None
    {
      ghost var k := rn.key;
      assert Carries(k);
      forall p | p in routeAt && p != k ensures routeAt[p] != rth {
        if routeAt[p] == rth { RouteUnique(p, k); }
      }
      rn.rth.rdxAddr := None;
      routeAt := routeAt - {k};
      forall p: Bits | p != k ensures Carries(p) { assert old(Carries(p)); }
    }

    /** Takes out a node that carries nothing and has at most one child. Only the node above it
        can become one-way. */
    method UnlinkBare(rn: RtNode)
      requires Linked() && Has(rn) && rn.key !in routeAt && RoutesBut(Some(rn.key))
      requires rn.left == null || rn.right == null
      modifies this`root, this`nodeAt, this`shape
      modifies Maybe(rn.parent)`left, Maybe(rn.parent)`right, Maybe(rn.left)`parent, Maybe(rn.right)`parent
      ensures Linked() && nodeAt == old(nodeAt) - {rn.key}
      ensures var prev := old(rn.parent);
              && (prev != null ==> Has(prev) && prev != rn)
              && (if prev != null && old(rn.left) == null && old(rn.right) == null && prev.key !in routeAt
                  then RoutesBut(Some(prev.key)) && (prev.left == null) != (prev.right == null)
                  else Routes())
    {
      ghost var k, prev := rn.key, rn.parent;
      KeysMatch();
      NodeLinks(rn);
      if prev != null { ParentHolds(rn); assert Carries(prev.key); }
      UnlinkNode(rn);
      forall p: Bits | prev == null || old(rn.left) != null || old(rn.right) != null || p != prev.key || p in routeAt
        ensures Carries(p)
      {
        if p != k { assert old(Carries(p)); }
      }
    }

    method FreeBare(rn: RtNode)
      requires Linked() && Has(rn) && rn.key !in routeAt && RoutesBut(Some(rn.key))
      requires (rn.left == null || rn.right == null) && inodes == |nodeAt|
      modifies this`root, this`nodeAt, this`shape, this`inodes, this`nfree
      modifies Maybe(rn.parent)`left, Maybe(rn.parent)`right, Maybe(rn.left)`parent, Maybe(rn.right)`parent
      ensures Linked() && nodeAt == old(nodeAt) - {rn.key}
      ensures inodes == |nodeAt| == old(inodes) - 1 && nfree == old(nfree) + 1
      ensures var prev := old(rn.parent);
              && (prev != null ==> Has(prev) && prev != rn)
              && (if prev != null && old(rn.left) == null && old(rn.right) == null && prev.key !in routeAt
                  then RoutesBut(Some(prev.key)) && (prev.left == null) != (prev.right == null)
                  else Routes())
    {
      NodeLinks(rn);
      UnlinkBare(rn);
      FreeNode();
    }

    /** A node with two children stays, as glue. */
    method ClearRoute(rn: RtNode, ghost rth: RtHead)
      requires Linked() && Routes() && Has(rn) && rn.key in routeAt && routeAt[rn.key] == rth
      requires rn.left != null && rn.right != null
      modifies this`routeAt, rn`rth, rth`rdxAddr
      ensures Linked() && Routes() && routeAt == old(routeAt) - {rn.key} && rth.rdxAddr == None
    {
      ghost var k := rn.key;
      KeysMatch();
      ForgetRoute(rn, rth);
      label forgotten:
      rn.rth := null;
      forall p: Bits ensures Carries(p) {
        if p != k { assert old@forgotten(Carries(p)); }
      }
    }

    /** What remove keeps of the nodes. */
    twostate predicate Shrunk()
      reads this`nodeAt
    {
      forall p :: p in nodeAt ==> p in old(nodeAt) && nodeAt[p] == old(nodeAt)[p]
    }

    /** Takes out a node whose route has been forgotten, and its parent if that is left one-way. */
    method PruneNode(rn: RtNode)
      requires Linked() && Has(rn) && rn.key !in routeAt && RoutesBut(Some(rn.key)) && inodes == |nodeAt|
      requires (rn.left == null || rn.right == null) && inodes + nfree == nmalloc
      modifies this`root, this`inodes, this`nfree, this`nodeAt, this`shape, nodeAt.Values`left, nodeAt.Values`right
      modifies nodeAt.Values`parent
      ensures Linked() && Routes() && Shrunk() && inodes == |nodeAt| && inodes + nfree == nmalloc
    {
      NodeLinks(rn);
      var prev := rn.parent;
      var leaf := rn.left == null && rn.right == null;
      if prev != null { assert Carries(prev.key); }
      FreeBare(rn);
      if !leaf || prev == null || prev.rth != null { return; }
      NodeLinks(prev);
      if prev.parent != null { assert Carries(prev.parent.key); }
      FreeBare(prev);
    }

    lemma StoredNode(rth: RtHead) returns (k: Bits)
      requires Linked() && Routes() && Stores(rth)
      ensures rth.rtn != null && Has(rth.rtn) && k == rth.rtn.key && k in routeAt && routeAt[k] == rth
    {
      k :| k in routeAt && routeAt[k] == rth;
      assert Carries(k) && LinkedAt(Some(k));
    }

    twostate lemma DominatedShrinks()
      requires Shrunk() && (forall q :: q in routeAt ==> q in old(routeAt) && routeAt[q] == old(routeAt)[q])
      requires forall p :: p in nodeAt ==> nodeAt[p].version == old(nodeAt[p].version)
      requires forall q :: q in routeAt ==> routeAt[q].version == old(routeAt[q].version)
      ensures old(Dominated()) ==> Dominated()
    {}

    /** Takes a stored route out of a node with at most one child, and the node with it. */
    method CutOut(rn: RtNode, ghost rth: RtHead)
      requires Linked() && Routes() && Has(rn) && rn.key in routeAt && routeAt[rn.key] == rth
      requires (rn.left == null || rn.right == null) && inodes == |nodeAt| && inodes + nfree == nmalloc
      modifies this`root, this`inodes, this`nfree, this`nodeAt, this`routeAt, this`shape, nodeAt.Values`left
      modifies nodeAt.Values`right, nodeAt.Values`parent, rth`rdxAddr
      ensures Linked() && Routes() && Shrunk() && inodes == |nodeAt| && inodes + nfree == nmalloc
      ensures routeAt == old(routeAt) - {rn.key} && rth.rdxAddr == None
    {
      ForgetRoute(rn, rth);
      PruneNode(rn);
    }

    method TakeRoute(rn: RtNode, ghost rth: RtHead)
      requires Linked() && Routes() && Has(rn) && rn.key in routeAt && routeAt[rn.key] == rth
      requires inodes == |nodeAt| && inodes + nfree == nmalloc
      modifies this`root, this`inodes, this`nfree, this`nodeAt, this`routeAt, this`shape, nodeAt.Values`left
      modifies nodeAt.Values`right, nodeAt.Values`parent, nodeAt.Values`rth, rth`rdxAddr
      ensures Linked() && Routes() && Shrunk() && inodes == |nodeAt| && inodes + nfree == nmalloc
      ensures routeAt == old(routeAt) - {rn.key} && rth.rdxAddr == None
    {
      if rn.left != null && rn.right != null {
        ClearRoute(rn, rth);
      } else {
        CutOut(rn, rth);
      }
    }

    /** The deletion itself (_std_radix_remove). */
    method RemoveNode(rn: RtNode, ghost rth: RtHead)
      requires Valid() && Has(rn) && rn.key in routeAt && routeAt[rn.key] == rth
      modifies this`root, this`inodes, this`nfree, this`routes, this`nodeAt, this`routeAt, this`shape
      modifies nodeAt.Values`left, nodeAt.Values`right, nodeAt.Values`parent, nodeAt.Values`rth, rth`rdxAddr
      ensures Valid() && Shrunk() && routeAt == old(routeAt) - {rn.key}
      ensures rth.rdxAddr == None
      ensures old(Dominated()) ==> Dominated()
    {
      routes := routes - 1;
      TakeRoute(rn, rth);
      DominatedShrinks();
    }

    /** Removes a stored route; exactly its key leaves the table. */
    method Remove(rth: RtHead)
      requires Valid() && Stores(rth)
      modifies this`root, this`inodes, this`nfree, this`routes, this`nremoves, this`nodeAt, this`routeAt, this`shape
      modifies nodeAt.Values`left, nodeAt.Values`right, nodeAt.Values`parent, nodeAt.Values`rth, rth`rdxAddr
      ensures old(rth.rtn) != null && Valid() && Shrunk() && rth.rdxAddr == None && nremoves == old(nremoves) + 1
      ensures var k := old(rth.rtn).key; k in old(routeAt) && old(routeAt)[k] == rth && routeAt == old(routeAt) - {k}
      ensures old(Dominated()) ==> Dominated()
    {
      ghost var k := StoredNode(rth);
      nremoves := nremoves + 1;
      assert Valid() && (old(Dominated()) ==> Dominated());
      RemoveNode(rth.rtn, rth);
    }

    // ----- versions -----

    /** The version of every route is one that the table has given out. */
    ghost predicate RoutesBounded()
      reads this`routeAt, this`version, routeAt.Values`version
    {
      forall q :: q in routeAt ==> routeAt[q].version <= version
    }

    /** Among the keys above k, those below n's parent are n and what is below n. */
    lemma AboveOnPath(n: RtNode, k: Bits)
      requires Linked() && Has(n) && n.key <= k
      ensures forall p :: p in nodeAt && p <= k ==>
                ((n.parent == null || n.parent.key < p) <==> n.key <= p)
    {
      NodeLinks(n);
      forall p | p in nodeAt && p <= k
        ensures (n.parent == null || n.parent.key < p) <==> n.key <= p
      {
        PrefixComparable(p, n.key, k);
        if p <= n.key { PrefixCases(p, n.key); }
      }
    }

    /** The upward loop of setversion. */
    method RaiseVersions(from: RtNode, ver: Version)
      requires Linked() && Has(from)
      modifies nodeAt.Values`version
      ensures forall p :: p in nodeAt ==>
                nodeAt[p].version == if p <= from.key then ver else old(nodeAt[p].version)
    {
      ghost var k := from.key;
      KeysMatch();
      var rtn: RtNode? := from;
      while rtn != null
        invariant Linked() && (rtn != null ==> Has(rtn) && rtn.key <= k)
        invariant forall p :: p in nodeAt ==>
                    nodeAt[p].version ==
                      if p <= k && (rtn == null || rtn.key < p) then ver else old(nodeAt[p].version)
        decreases if rtn == null then 0 else 1 + |rtn.key|
      {
        ghost var n := rtn;
        NodeLinks(n);
        AboveOnPath(n, k);
        rtn.version := ver;
        rtn := rtn.parent;
        assert forall p :: p in nodeAt && p <= k && n.key <= p ==> p == n.key || n.key < p by {
          forall p | p in nodeAt && n.key <= p ensures p == n.key || n.key < p { PrefixCases(n.key, p); }
        }
      }
    }

    /** No route below a node above k, other than the one at k, is newer than ver. */
    ghost predicate NoneNewer(k: Bits, ver: Version)
      reads this`nodeAt, this`routeAt, routeAt.Values`version
    {
      forall p, q :: p in nodeAt && p <= k && q in routeAt && p <= q && q != k ==> routeAt[q].version <= ver
    }

    /** What raising the versions of k and everything above it means for Dominated. */
    twostate lemma Raised(new k: Bits, new ver: Version)
      requires nodeAt == old(nodeAt) && routeAt == old(routeAt) && k in routeAt && k in nodeAt
      requires routeAt[k].version == ver == version && (ver != 0 ==> old(version) < ver)
      requires forall q :: q in routeAt && q != k ==> routeAt[q].version == old(routeAt[q].version)
      requires forall p :: p in nodeAt ==> nodeAt[p].version == if p <= k then ver else old(nodeAt[p].version)
      ensures old(Dominated()) ==> (Dominated() <==> NoneNewer(k, ver))
      ensures old(Dominated() && RoutesBounded()) && ver != 0 ==> Dominated() && RoutesBounded()
    {
      if old(Dominated()) && NoneNewer(k, ver) {
        forall p, q | p in nodeAt && q in routeAt && p <= q ensures routeAt[q].version <= nodeAt[p].version {}
      }
    }

    method TakeVersion(rth: RtHead) returns (ver: Version)
      modifies this`version, this`nwraps, rth`version
      ensures ver == (old(version) + 1) % VERSIONS && rth.version == ver == version
      ensures nwraps == old(nwraps) + if ver == 0 then 1 else 0
    {
      ver := if version == VERSIONS - 1 then 0 else version + 1;
      version := ver;
      rth.version := ver;
      if ver == 0 { nwraps := nwraps + 1; }
    }

    /** Gives a stored route, and every node above it, the next version of the table. The route
        versions stay dominated exactly if no other route below one of these nodes is newer than
        the new version, which can only be so when the version wraps to zero. */
    method SetVersion(rth: RtHead) returns (ver: Version)
      requires Valid() && Stores(rth)
      modifies this`version, this`nwraps, nodeAt.Values`version, rth`version
      ensures Valid() && rth.rtn != null && rth.version == ver == version
      ensures ver == if old(version) == 0xffff_ffff_ffff_ffff then 0 else old(version) + 1
      ensures nwraps == old(nwraps) + if ver == 0 then 1 else 0
      ensures forall p :: p in nodeAt ==>
                nodeAt[p].version == if p <= rth.rtn.key then ver else old(nodeAt[p].version)
      ensures old(Dominated()) ==> (Dominated() <==> NoneNewer(rth.rtn.key, ver))
      ensures old(Dominated() && RoutesBounded()) && ver != 0 ==> Dominated() && RoutesBounded()
    {
      ghost var k := StoredNode(rth);
      forall p | p in routeAt && p != k ensures routeAt[p] != rth {
        if routeAt[p] == rth { RouteUnique(p, k); }
      }
      ver := TakeVersion(rth);
      assert Valid();
      RaiseVersions(rth.rtn, ver);
      assert Valid();
      Raised(k, ver);
    }
  }
}
