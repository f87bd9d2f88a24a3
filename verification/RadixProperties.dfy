/** What holds of every table that inserts and removes can reach, beyond single calls. */
module RadixProperties {
  import opened Bits
  import opened Options
  import opened PrefixSet
  import opened Preorder
  import opened Radix
  import opened RadixNext
  import opened RadixWalk
  import opened TrieShape

  lemma TableIsCompressed(t: RtTable)
    requires t.Valid()
    ensures CompressedTrie(t.shape, RtTable.KeyOf(t.root), t.routeAt.Keys)
  {
    t.RoutesAreNodes();
    assert t.LinkedAt(None);
    forall p | p in t.shape && p !in t.routeAt ensures t.shape[p].left.Some? && t.shape[p].right.Some? {
      assert t.Carries(p) && t.LinkedAt(Some(p));
    }
  }

  /** Two tables that store the same prefixes have the same nodes, links and root, whatever was
      inserted and removed before. */
  lemma TablesAreCanonical(t: RtTable, u: RtTable)
    requires t.Valid() && u.Valid() && t.routeAt.Keys == u.routeAt.Keys
    ensures t.nodeAt.Keys == u.nodeAt.Keys && t.inodes == u.inodes && t.routes == u.routes
    ensures RtTable.KeyOf(t.root) == RtTable.KeyOf(u.root)
    ensures forall p :: p in t.nodeAt ==>
              && RtTable.KeyOf(t.nodeAt[p].left) == RtTable.KeyOf(u.nodeAt[p].left)
              && RtTable.KeyOf(t.nodeAt[p].right) == RtTable.KeyOf(u.nodeAt[p].right)
              && RtTable.KeyOf(t.nodeAt[p].parent) == RtTable.KeyOf(u.nodeAt[p].parent)
              && t.nodeAt[p].bit == u.nodeAt[p].bit && (t.nodeAt[p].rth == null <==> u.nodeAt[p].rth == null)
  {
    TableIsCompressed(t);
    TableIsCompressed(u);
    Canonical(t.shape, RtTable.KeyOf(t.root), u.shape, RtTable.KeyOf(u.root), t.routeAt.Keys);
    assert t.LinkedAt(None) && u.LinkedAt(None);
    assert |t.nodeAt| == |t.nodeAt.Keys| && |u.nodeAt| == |u.nodeAt.Keys|;
    assert |t.routeAt| == |t.routeAt.Keys| && |u.routeAt| == |u.routeAt.Keys|;
    forall p | p in t.nodeAt
      ensures SameFields(t, u, p)
    {
      NodeFields(t, p);
      NodeFields(u, p);
    }
  }

  ghost predicate SameFields(t: RtTable, u: RtTable, p: Bits)
    requires p in t.nodeAt && p in u.nodeAt
    reads t`nodeAt, u`nodeAt, t.nodeAt[p], u.nodeAt[p]
  {
    && RtTable.KeyOf(t.nodeAt[p].left) == RtTable.KeyOf(u.nodeAt[p].left)
    && RtTable.KeyOf(t.nodeAt[p].right) == RtTable.KeyOf(u.nodeAt[p].right)
    && RtTable.KeyOf(t.nodeAt[p].parent) == RtTable.KeyOf(u.nodeAt[p].parent)
    && t.nodeAt[p].bit == u.nodeAt[p].bit && (t.nodeAt[p].rth == null <==> u.nodeAt[p].rth == null)
  }

  lemma NodeFields(t: RtTable, p: Bits)
    requires t.Valid() && p in t.nodeAt
    ensures var n := t.nodeAt[p];
            && p in t.shape && t.shape[p] == Links(RtTable.KeyOf(n.left), RtTable.KeyOf(n.right), RtTable.KeyOf(n.parent))
            && n.bit == |p| && (n.rth == null <==> p !in t.routeAt)
  {
    var n := t.nodeAt[p];
    assert t.LinkedAt(Some(p)) && t.Carries(p);
    t.LinkKey(n.left, t.shape[p].left);
    t.LinkKey(n.right, t.shape[p].right);
    t.LinkKey(n.parent, t.shape[p].parent);
  }

  /** The counters: every node allocated and not freed is in the table, and there are fewer than
      twice as many nodes as routes. */
  lemma NodesAreBounded(t: RtTable)
    requires t.Valid()
    ensures t.inodes == t.nmalloc - t.nfree
    ensures t.routes <= t.inodes && (t.routes > 0 ==> t.inodes <= 2 * t.routes - 1) && (t.routes == 0 ==> t.inodes == 0)
  {
    TableIsCompressed(t);
    assert t.LinkedAt(None);
    assert |t.nodeAt| == |t.nodeAt.Keys| && |t.routeAt| == |t.routeAt.Keys| && |t.shape| == |t.shape.Keys|;
    if t.shape != map[] { CountNodes(t.shape, RtTable.KeyOf(t.root), t.routeAt.Keys); }
    if t.nodeAt == map[] { t.RoutesAreNodes(); }
  }

  // ----- enumeration by getnext -----

  /** A stored route asks for its own successor with its address and the bit number of its node. */
  lemma OwnKey(t: RtTable, p: Bits)
    requires t.Valid() && p in t.routeAt
    ensures var h := t.routeAt[p]; h.rtn != null && h.rtn.bit <= t.maxaddrlen && t.AddressFits(h.addr) && Key(h.addr, h.rtn.bit) == p
  {
    assert t.Carries(p) && t.LinkedAt(Some(p));
    SpellsKey(t.routeAt[p].addr, p);
  }

  lemma AnswerIsSuccessor(t: RtTable, W: set<Bits>, r: RtHead) returns (p: Bits)
    requires t.Valid() && FirstOf(t.routeAt, W, r)
    ensures p in W && p in t.routeAt && t.routeAt[p] == r && forall q :: q in W ==> q == p || Before(p, q)
  {
    p :| p in W && p in t.routeAt && t.routeAt[p] == r && forall q :: q in W ==> q == p || Before(p, q);
  }

  ghost function UpTo(R: set<Bits>, k: Bits): set<Bits> {
    set q | q in R && (q == k || Before(q, k))
  }

  lemma UpToNext(R: set<Bits>, k: Bits, n: Bits)
    requires n in After(R, k) && forall q :: q in After(R, k) ==> q == n || Before(n, q)
    ensures UpTo(R, n) == UpTo(R, k) + {n}
    ensures forall q :: q in UpTo(R, k) ==> Before(q, n)
  {
    forall q | q in R ensures q in UpTo(R, n) <==> q in UpTo(R, k) || q == n {
      BeforeTotal(k, q);
      BeforeTotal(q, n);
      if Before(q, k) { BeforeTrans(q, k, n); }
    }
    forall q | q in UpTo(R, k) ensures Before(q, n) { if q != k { BeforeTrans(q, k, n); } }
  }

  /** What an enumeration still has to come. */
  ghost function ToCome(R: set<Bits>, keys: seq<Bits>): set<Bits> {
    if keys == [] then R else After(R, keys[|keys| - 1])
  }

  /** keys lists what is stored up to its last key. */
  ghost predicate ListsBegin(R: set<Bits>, keys: seq<Bits>) {
    if keys == [] then true else Lists(keys, UpTo(R, keys[|keys| - 1]))
  }

  lemma ListsOneMore(R: set<Bits>, keys: seq<Bits>, p: Bits)
    requires ListsBegin(R, keys) && p in ToCome(R, keys) && forall q :: q in ToCome(R, keys) ==> q == p || Before(p, q)
    ensures ListsBegin(R, keys + [p]) && ToCome(R, keys + [p]) < ToCome(R, keys)
  {
    if keys == [] {
      forall q | q in R ensures q in [p] <==> q == p || Before(q, p) { BeforeTotal(q, p); }
    } else {
      var k := keys[|keys| - 1];
      UpToNext(R, k, p);
      ListsNext(keys, UpTo(R, k), p);
      forall q | q in After(R, p) ensures q in After(R, k) { BeforeTrans(k, p, q); }
    }
    BeforeTotal(p, p);
    assert p !in After(R, p);
  }

  lemma ListsAll(R: set<Bits>, keys: seq<Bits>)
    requires ListsBegin(R, keys) && ToCome(R, keys) == {}
    ensures Lists(keys, R)
  {
    if keys != [] {
      var k := keys[|keys| - 1];
      forall q | q in R ensures q == k || Before(q, k) {
        assert q !in After(R, k);
        BeforeTotal(q, k);
      }
      assert R == UpTo(R, k);
    }
  }

  /** The question that is asked after the answer r, stored under p. */
  method AskNext(t: RtTable, r: RtHead, ghost p: Bits) returns (r': RtHead?)
    requires t.Valid() && p in t.routeAt && t.routeAt[p] == r
    ensures FirstOf(t.routeAt, After(t.routeAt.Keys, p), r')
  {
    OwnKey(t, p);
    ghost var a := Key(r.addr, t.maxaddrlen);
    r' := GetNext(t, Some(r.addr), r.rtn.bit);
    StoredKeyIsSafe(t, p, a);
  }

  /** One more answer. */
  method EnumerateOnce(t: RtTable, heads: seq<RtHead>, r: RtHead, ghost keys: seq<Bits>) returns (r': RtHead?, ghost p: Bits)
    requires t.Valid() && StoredAt(t.routeAt, keys, heads) && ListsBegin(t.routeAt.Keys, keys)
    requires FirstOf(t.routeAt, ToCome(t.routeAt.Keys, keys), r)
    ensures StoredAt(t.routeAt, keys + [p], heads + [r]) && ListsBegin(t.routeAt.Keys, keys + [p])
    ensures FirstOf(t.routeAt, ToCome(t.routeAt.Keys, keys + [p]), r')
    ensures ToCome(t.routeAt.Keys, keys + [p]) < ToCome(t.routeAt.Keys, keys)
  {
    p := AnswerIsSuccessor(t, ToCome(t.routeAt.Keys, keys), r);
    ListsOneMore(t.routeAt.Keys, keys, p);
    r' := AskNext(t, r, p);
  }

  /** Asking for the first route, and then for the one after each answer, enumerates every stored
      prefix once, in prefix-lexicographic order. */
  method Enumerate(t: RtTable) returns (heads: seq<RtHead>, ghost keys: seq<Bits>)
    requires t.Valid()
    ensures StoredAt(t.routeAt, keys, heads) && Lists(keys, t.routeAt.Keys)
  {
    heads, keys := [], [];
    var r := GetNext(t, None, 0);
    while r != null
      invariant StoredAt(t.routeAt, keys, heads) && ListsBegin(t.routeAt.Keys, keys)
      invariant FirstOf(t.routeAt, ToCome(t.routeAt.Keys, keys), r)
      decreases ToCome(t.routeAt.Keys, keys)
    {
      var next;
      ghost var p;
      next, p := EnumerateOnce(t, heads, r, keys);
      heads, keys, r := heads + [r], keys + [p], next;
    }
    ListsAll(t.routeAt.Keys, keys);
  }

  /** Any two enumerations of all that is stored, by getnext or by a walk, give the same routes in the
      same order. */
  lemma EnumerationsAgree(t: RtTable, keys: seq<Bits>, heads: seq<RtHead>, keys': seq<Bits>, heads': seq<RtHead>)
    requires StoredAt(t.routeAt, keys, heads) && Lists(keys, t.routeAt.Keys)
    requires StoredAt(t.routeAt, keys', heads') && Lists(keys', t.routeAt.Keys)
    ensures heads == heads'
  {
    ListsUnique(keys, keys', t.routeAt.Keys);
  }

  // ----- where getnext fails -----

  /** A table of eight-bit addresses with two routes. */
  method TwoRoutes(a: Address, m: nat, b: Address, n: nat) returns (t: RtTable, h: RtHead, h': RtHead)
    requires |a| == |b| == 2 && m <= 8 && n <= 8 && Key(a, m) != Key(b, n)
    ensures t.Valid() && t.maxaddrlen == 8 && t.routeAt == map[Key(a, m) := h, Key(b, n) := h'] && h != h'
  {
    t := new RtTable(8);
    h := new RtHead(a);
    h' := new RtHead(b);
    var r := t.Insert(h, m, true, true);
    assert t.routeAt == map[Key(a, m) := h];
    r := t.Insert(h', n, true, true);
  }

  lemma Addresses(zero: Address, one: Address)
    requires zero == [0, 0] && one == [0x80, 0]
    ensures Key(zero, 0) == Key(one, 0) == [] && Key(zero, 1) == [false] && Key(one, 1) == [true] && Key(one, 8)[0]
  {}

  method AskWrongTurn(t: RtTable, one: Address) returns (r: RtHead?)
    requires t.Valid() && t.maxaddrlen == 8 && t.routeAt.Keys == {[], [false]} && |one| == 2 && Key(one, 1) == [true]
    ensures r == t.routeAt[[false]] && Before([false], [true]) && After(t.routeAt.Keys, [true]) == {}
  {
    r := GetNext(t, Some(one), 1);
    assert [] in t.routeAt && Below([], false, [false]);
    assert WrongTurn(t.routeAt.Keys, [true]);
    assert After(t.routeAt.Keys, [true]) == {};
  }

  /** The empty prefix and 0 are stored: the answer for 1 is 0, which comes before it. */
  method WrongTurnExample() returns (t: RtTable, r: RtHead?)
    ensures t.Valid() && t.routeAt.Keys == {[], [false]} && After(t.routeAt.Keys, [true]) == {}
    ensures r == t.routeAt[[false]] && Before([false], [true])
  {
    var zero: Address, one: Address := [0, 0], [0x80, 0];
    Addresses(zero, one);
    var h, h';
    t, h, h' := TwoRoutes(zero, 0, zero, 1);
    r := AskWrongTurn(t, one);
  }

  lemma HostBitsAhead(R: set<Bits>, a: Bits)
    requires R == {[false], [true]} && a != [] && a[0]
    ensures HostBits(R, [], a) && After(R, []) == R
  {
    assert [false] in R && [true] in R && Below([], false, [false]) && Below([], true, [true]);
    assert Branches(R, []);
  }

  lemma NotTheFirst(routes: map<Bits, RtHead>, a: Bits, r: RtHead?)
    requires routes.Keys == {[false], [true]} && a != [] && a[0] && NextOf(routes, [], a, r)
    ensures r == routes[[true]] && FirstOf(routes, After(routes.Keys, []), routes[[false]])
  {
    HostBitsAhead(routes.Keys, a);
    var R := routes.Keys;
    assert [false] in R && Before([false], [true]);
    assert FirstOf(routes, R, routes[[false]]);
    assert exists q :: q in routes && [] <= q;
  }

  method AskHostBits(t: RtTable, one: Address) returns (r: RtHead?)
    requires t.Valid() && t.maxaddrlen == 8 && t.routeAt.Keys == {[false], [true]} && |one| == 2 && Key(one, 0) == [] && Key(one, 8)[0]
    ensures r == t.routeAt[[true]] && FirstOf(t.routeAt, After(t.routeAt.Keys, []), t.routeAt[[false]])
  {
    r := GetNext(t, Some(one), 0);
    NotTheFirst(t.routeAt, Key(one, 8), r);
  }

  /** 0 and 1 are stored: the answer for the empty prefix of the address 1 is 1, not 0. */
  method HostBitsExample() returns (t: RtTable, r: RtHead?)
    ensures t.Valid() && t.routeAt.Keys == {[false], [true]}
    ensures r == t.routeAt[[true]] && FirstOf(t.routeAt, After(t.routeAt.Keys, []), t.routeAt[[false]])
  {
    var zero: Address, one: Address := [0, 0], [0x80, 0];
    Addresses(zero, one);
    var h, h';
    t, h, h' := TwoRoutes(zero, 1, one, 1);
    r := AskHostBits(t, one);
  }
}
