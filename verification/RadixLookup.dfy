/** The lookups of src/std_radix.c. They follow child pointers down by address bits and parent
    pointers back up; each is specified by the stored prefixes alone. */
module RadixLookup {
  import opened Bits
  import opened Options
  import opened PrefixSet
  import opened Radix

  /** r is the route with the longest stored prefix of k of a length below limit, or null if none. */
  ghost predicate LongestMatch(routes: map<Bits, RtHead>, k: Bits, limit: nat, r: RtHead?) {
    if r == null then forall q :: q in routes && q <= k ==> |q| >= limit
    else exists p :: p in routes && routes[p] == r && p <= k && |p| < limit &&
           forall q :: q in routes && q <= k && |q| < limit ==> q <= p
  }

  /** Descends to the first node with a bit number of at least bitlen, or as far as possible. */
  method DescendToBit(t: RtTable, addr: Address, bitlen: nat, ghost a: Bits) returns (rtn: RtNode)
    requires t.Valid() && t.root != null && Spells(addr, a) && bitlen <= |a| == t.maxaddrlen
    ensures t.Has(rtn) && rtn.bit == |rtn.key|
    ensures forall p :: p in t.nodeAt && p <= a[..bitlen] ==> p <= rtn.key
    ensures forall p :: p in t.nodeAt && p < rtn.key ==> |p| < bitlen
  {
    rtn := t.root;
    t.RootHolds();
    assert t.LinkedAt(Some(rtn.key));
    while rtn.bit < bitlen
      invariant t.Has(rtn) && rtn.bit == |rtn.key| <= t.maxaddrlen
      invariant forall p :: p in t.nodeAt && p <= a[..bitlen] ==> p <= rtn.key || rtn.key <= p
      invariant forall p :: p in t.nodeAt && p < rtn.key ==> |p| < bitlen
      decreases t.maxaddrlen - rtn.bit
    {
      var c := t.ChildToward(rtn, addr, a);
      Narrows(t, rtn.key, KeyOf(c), a, bitlen);
      if c == null { return; }
      rtn := c;
    }
    forall p | p in t.nodeAt && p <= a[..bitlen] ensures p <= rtn.key {
      if rtn.key <= p { PrefixCases(rtn.key, p); }
    }
  }

  ghost function KeyOf(n: RtNode?): Option<Bits> {
    RtTable.KeyOf(n)
  }

  /** Stepping to the child on the side of a loses no prefix of a. */
  lemma Narrows(t: RtTable, q: Bits, c: Option<Bits>, a: Bits, bitlen: nat)
    requires q in t.nodeAt && |q| < bitlen <= |a| && ChildIs(t.nodeAt.Keys, q, a[|q|], c)
    requires forall p :: p in t.nodeAt && p <= a[..bitlen] ==> p <= q || q <= p
    ensures c.None? ==> forall p :: p in t.nodeAt && p <= a[..bitlen] ==> p <= q
    ensures c.Some? ==> forall p :: p in t.nodeAt && p <= a[..bitlen] ==> p <= c.value || c.value <= p
    ensures c.Some? ==> forall p :: p in t.nodeAt && p < c.value ==> p <= q
  {
    if c.Some? { ChildHasParent(t.nodeAt.Keys, q, a[|q|], c.value); }
    forall p | p in t.nodeAt && p <= a[..bitlen]
      ensures c.None? ==> p <= q
      ensures c.Some? ==> p <= c.value || c.value <= p
    {
      if q <= p {
        PrefixCases(q, p);
        assert q < p ==> Below(q, a[|q|], p);
      }
    }
  }

  /** Whether the route in rtn covers the address. */
  method Covers(t: RtTable, rtn: RtNode, addr: Address, ghost a: Bits) returns (yes: bool)
    requires t.Valid() && t.Has(rtn) && rtn.key in t.routeAt
    requires t.AddressFits(addr) && Spells(addr, a) && |a| == t.maxaddrlen
    ensures yes <==> rtn.key <= a
  {
    assert t.LinkedAt(Some(rtn.key)) && t.Carries(rtn.key);
    CompareSpells(addr, rtn.rth.rdxAddr.value, rtn.bit, a, rtn.key);
    yes := !CompareAddress(addr, rtn.rth.rdxAddr.value, rtn.bit / 8, rtn.tbit);
  }

  /** Backtracks towards the root to the first route that covers the address within bitlen bits. */
  method ClimbToMatch(t: RtTable, from: RtNode?, addr: Address, bitlen: nat, ghost a: Bits) returns (rtn: RtNode?)
    requires t.Valid() && (from != null ==> t.Has(from))
    requires t.AddressFits(addr) && Spells(addr, a) && bitlen <= |a| == t.maxaddrlen
    ensures rtn != null ==> from != null && t.Has(rtn) && rtn.key in t.routeAt && rtn.key <= a[..bitlen] && rtn.key <= from.key
    ensures forall q :: from != null && q in t.routeAt && q <= a[..bitlen] && q <= from.key ==>
              rtn != null && q <= rtn.key
  {
    rtn := from;
    while rtn != null
      invariant rtn != null ==> from != null && t.Has(rtn) && rtn.key <= from.key
      invariant forall q :: from != null && q in t.routeAt && q <= a[..bitlen] && q <= from.key ==>
                  rtn != null && q <= rtn.key
      decreases if rtn == null then 0 else 1 + |rtn.key|
    {
      assert t.LinkedAt(Some(rtn.key)) && t.Carries(rtn.key);
      if rtn.bit <= bitlen && rtn.rth != null {
        var covers := Covers(t, rtn, addr, a);
        if covers { return; }
      }
      t.NodeLinks(rtn);
      t.RoutesAreNodes();
      forall q | q in t.routeAt && q <= a[..bitlen] && q <= from.key ensures rtn.parent != null && q <= rtn.parent.key {
        PrefixCases(q, rtn.key);
      }
      rtn := rtn.parent;
    }
  }

  /** The node of the longest match, and every other match above it. */
  method FindBest(t: RtTable, addr: Address, bitlen: nat, ghost a: Bits) returns (rtn: RtNode?)
    requires t.Valid() && bitlen <= t.maxaddrlen && t.AddressFits(addr) && Spells(addr, a) && |a| == t.maxaddrlen
    ensures rtn != null ==> t.Has(rtn) && rtn.key in t.routeAt && rtn.key <= a[..bitlen]
    ensures forall q :: q in t.routeAt && q <= a[..bitlen] ==> rtn != null && q <= rtn.key
  {
    t.RootHolds();
    t.RoutesAreNodes();
    if t.root == null { return null; }
    var low := DescendToBit(t, addr, bitlen, a);
    rtn := ClimbToMatch(t, low, addr, bitlen, a);
  }

  /** From the node of a match, the node of the next shorter one. */
  method FindNextBest(t: RtTable, best: RtNode, addr: Address, bitlen: nat, ghost a: Bits) returns (rtn: RtNode?)
    requires t.Valid() && bitlen <= t.maxaddrlen && t.AddressFits(addr) && Spells(addr, a) && |a| == t.maxaddrlen
    requires t.Has(best) && best.key <= a[..bitlen]
    ensures rtn != null ==> t.Has(rtn) && rtn.key in t.routeAt && rtn.key < best.key
    ensures forall q :: q in t.routeAt && q < best.key ==> rtn != null && q <= rtn.key
  {
    t.NodeLinks(best);
    t.RoutesAreNodes();
    rtn := ClimbToMatch(t, best.parent, addr, bitlen, a);
  }

  lemma AddressBits(t: RtTable, addr: Address, bitlen: nat) returns (a: Bits)
    requires t.AddressFits(addr) && bitlen <= t.maxaddrlen
    ensures Spells(addr, a) && |a| == t.maxaddrlen && a[..bitlen] == Key(addr, bitlen)
  {
    a := Key(addr, t.maxaddrlen);
    SpellsKey(addr, a);
    KeyPrefix(addr, bitlen, t.maxaddrlen);
  }

  lemma NodeRoute(t: RtTable, rtn: RtNode)
    requires t.Valid() && t.Has(rtn) && rtn.key in t.routeAt
    ensures rtn.rth != null && t.routeAt[rtn.key] == rtn.rth
  {
    assert t.Carries(rtn.key);
  }

  /** The longest stored prefix of the first bitlen bits of the address. */
  method GetBest(t: RtTable, addr: Option<Address>, bitlen: nat) returns (r: RtHead?)
    requires t.Valid() && bitlen <= t.maxaddrlen && (addr.Some? ==> t.AddressFits(addr.value))
    ensures addr == None ==> r == null
    ensures addr.Some? ==> LongestMatch(t.routeAt, Key(addr.value, bitlen), bitlen + 1, r)
  {
    if addr == None { return null; }
    ghost var a := AddressBits(t, addr.value, bitlen);
    var rtn := FindBest(t, addr.value, bitlen, a);
    if rtn == null { return null; }
    NodeRoute(t, rtn);
    return rtn.rth;
  }

  /** The longest and the second longest stored prefix. lessIn is what the caller's variable for the
      second holds before the call: an empty table or a missing address leaves it as it is. */
  method GetBestAndPrev(t: RtTable, addr: Option<Address>, bitlen: nat, lessIn: RtHead?)
    returns (best: RtHead?, less: RtHead?)
    requires t.Valid() && bitlen <= t.maxaddrlen && (addr.Some? ==> t.AddressFits(addr.value))
    ensures addr == None || t.root == null ==> best == null && less == lessIn
    ensures addr.Some? ==> LongestMatch(t.routeAt, Key(addr.value, bitlen), bitlen + 1, best)
    ensures addr.Some? && t.root != null && best == null ==> less == null
    ensures addr.Some? && best != null ==>
              && best.rtn != null && best.rtn.key in t.routeAt && t.routeAt[best.rtn.key] == best
              && LongestMatch(t.routeAt, Key(addr.value, bitlen), |best.rtn.key|, less)
  {
    t.RootHolds();
    t.RoutesAreNodes();
    if addr == None || t.root == null { return null, lessIn; }
    ghost var a := AddressBits(t, addr.value, bitlen);
    var rtn := FindBest(t, addr.value, bitlen, a);
    if rtn == null { return null, null; }
    NodeRoute(t, rtn);
    assert t.Carries(rtn.key);
    best := rtn.rth;
    less := SecondMatch(t, rtn, addr.value, bitlen, a);
  }

  method SecondMatch(t: RtTable, rtn: RtNode, addr: Address, bitlen: nat, ghost a: Bits) returns (less: RtHead?)
    requires t.Valid() && bitlen <= t.maxaddrlen && t.AddressFits(addr) && Spells(addr, a) && |a| == t.maxaddrlen
    requires t.Has(rtn) && rtn.key <= a[..bitlen]
    ensures LongestMatch(t.routeAt, a[..bitlen], |rtn.key|, less)
  {
    var next := FindNextBest(t, rtn, addr, bitlen, a);
    forall q | q in t.routeAt && q <= a[..bitlen] && |q| < |rtn.key| ensures q < rtn.key {
      PrefixComparable(q, rtn.key, a[..bitlen]);
    }
    if next == null { return null; }
    NodeRoute(t, next);
    less := next.rth;
  }

  /** The second longest stored prefix alone. */
  method GetNextBest(t: RtTable, addr: Option<Address>, bitlen: nat) returns (r: RtHead?)
    requires t.Valid() && bitlen <= t.maxaddrlen && (addr.Some? ==> t.AddressFits(addr.value))
    ensures addr == None ==> r == null
    ensures addr.Some? ==>
              if exists p :: p in t.routeAt && p <= Key(addr.value, bitlen)
              then exists p :: p in t.routeAt && LongestMatch(t.routeAt, Key(addr.value, bitlen), bitlen + 1, t.routeAt[p])
                               && LongestMatch(t.routeAt, Key(addr.value, bitlen), |p|, r)
              else r == null
  {
    if addr == None { return null; }
    ghost var a := AddressBits(t, addr.value, bitlen);
    var rtn := FindBest(t, addr.value, bitlen, a);
    if rtn == null { return null; }
    NodeRoute(t, rtn);
    r := SecondMatch(t, rtn, addr.value, bitlen, a);
  }

  /** The route stored under exactly this prefix. */
  method GetExact(t: RtTable, addr: Address, bitlen: nat) returns (r: RtHead?)
    requires t.Valid() && bitlen <= t.maxaddrlen && t.AddressFits(addr)
    ensures r == if Key(addr, bitlen) in t.routeAt then t.routeAt[Key(addr, bitlen)] else null
  {
    ghost var a := AddressBits(t, addr, bitlen);
    t.RootHolds();
    t.RoutesAreNodes();
    if t.root == null { return null; }
    var rtn := DescendToBit(t, addr, bitlen, a);
    assert t.Carries(rtn.key);
    ghost var k := a[..bitlen];
    if k in t.routeAt { PrefixCases(k, rtn.key); }
    if rtn.bit != bitlen || rtn.rth == null { return null; }
    var covers := Covers(t, rtn, addr, a);
    if !covers { return null; }
    assert rtn.key == k;
    return rtn.rth;
  }

  /** std_radix_getparent and std_radix_getlessspecific: the longest strictly shorter stored prefix
      of a stored route. */
  method GetLessSpecific(t: RtTable, rth: RtHead) returns (r: RtHead?)
    requires t.Valid() && t.Stores(rth)
    ensures rth.rtn != null && LongestMatch(t.routeAt, rth.rtn.key, |rth.rtn.key|, r)
  {
    ghost var k := t.StoredNode(rth);
    t.RoutesAreNodes();
    t.NodeLinks(rth.rtn);
    var rtn := rth.rtn.parent;
    while rtn != null
      invariant rtn != null ==> t.Has(rtn) && rtn.key < k
      invariant forall q :: q in t.routeAt && q < k ==> rtn != null && q <= rtn.key
      decreases if rtn == null then 0 else 1 + |rtn.key|
    {
      assert t.Carries(rtn.key);
      if rtn.rth != null { return rtn.rth; }
      t.NodeLinks(rtn);
      forall q | q in t.routeAt && q < k ensures rtn.parent != null && q <= rtn.parent.key {
        PrefixCases(q, rtn.key);
      }
      rtn := rtn.parent;
    }
    return null;
  }
}
