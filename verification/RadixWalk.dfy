/** The two walkers of src/std_radix.c, as loops over a node and a direction. */
module RadixWalk {
  import opened Bits
  import opened Options
  import opened PrefixSet
  import opened Preorder
  import opened Radix
  import opened Versions

  // ----- what a walk delivers -----

  /** keys is the beginning of the ordered listing of W. */
  ghost predicate Begins(keys: seq<Bits>, W: set<Bits>) {
    && Ordered(keys)
    && (forall k :: k in keys ==> k in W)
    && (forall k, w :: k in keys && w in W && w !in keys ==> Before(k, w))
  }

  /** The visited routes are those stored under keys. */
  ghost predicate StoredAt(routes: map<Bits, RtHead>, keys: seq<Bits>, visited: seq<RtHead>) {
    |keys| == |visited| && forall i :: 0 <= i < |keys| ==> keys[i] in routes && routes[keys[i]] == visited[i]
  }

  /** The callback ended the walk, or the number of callbacks was reached. */
  ghost predicate Stopped(visited: seq<RtHead>, stop: RtHead -> bool, limit: nat) {
    |visited| == limit || (visited != [] && stop(visited[|visited| - 1]))
  }

  /** The callbacks visited the keys of W in order, once each, until the walk was stopped. */
  ghost predicate Delivers(routes: map<Bits, RtHead>, W: set<Bits>, keys: seq<Bits>, visited: seq<RtHead>,
                           stop: RtHead -> bool, limit: nat) {
    && StoredAt(routes, keys, visited) && Begins(keys, W) && |visited| <= limit
    && (forall i :: 0 <= i < |visited| - 1 ==> !stop(visited[i]))
    && (!Stopped(visited, stop, limit) ==> Lists(keys, W))
  }

  /** cnt callbacks, where zero means 0xffffffff. */
  function Limit(cnt: nat): nat {
    if cnt == 0 then 0xffff_ffff else cnt
  }

  /** A count of zero is no limit below 0xffffffff routes; any other count limits the callbacks, and is used
      up if nothing else ends the walk. */
  ghost predicate KeepsCount(routes: map<Bits, RtHead>, W: set<Bits>, keys: seq<Bits>, visited: seq<RtHead>, r: RtHead?,
                             stop: RtHead -> bool, cnt: nat) {
    if cnt == 0 then
      |routes| < 0xffff_ffff && (forall p :: p in routes ==> !stop(routes[p])) ==> Lists(keys, W) && r == null
    else
      && |visited| <= cnt
      && (|visited| < cnt && (visited == [] || !stop(visited[|visited| - 1])) ==> Lists(keys, W) && r == null)
  }

  lemma {:induction false} OrderedFits(keys: seq<Bits>, S: set<Bits>)
    requires Ordered(keys) && forall k :: k in keys ==> k in S
    ensures |keys| <= |S|
  {
    if keys != [] {
      var init, k := keys[..|keys| - 1], keys[|keys| - 1];
      forall q | q in init ensures q in S - {k} {
        assert Before(q, k);
        BeforeTotal(q, k);
      }
      OrderedFits(init, S - {k});
    }
  }

  lemma CountIsKept(routes: map<Bits, RtHead>, W: set<Bits>, keys: seq<Bits>, visited: seq<RtHead>, r: RtHead?,
                    stop: RtHead -> bool, cnt: nat)
    requires Delivers(routes, W, keys, visited, stop, Limit(cnt)) && W <= routes.Keys
    requires !Stopped(visited, stop, Limit(cnt)) ==> r == null
    ensures KeepsCount(routes, W, keys, visited, r, stop, cnt)
  {
    OrderedFits(keys, routes.Keys);
    if visited != [] { assert routes[keys[|keys| - 1]] == visited[|visited| - 1]; }
  }

  // ----- single moves -----

  ghost function DoneSet(W: set<Bits>, dir: Direction, n: Bits): set<Bits> {
    set k | k in W && Done(dir, n, k)
  }

  /** Moves with the same or fewer keys ahead go up in this order. */
  function Rank(dir: Direction, bit: nat): nat {
    match dir
    case Down => 0
    case Up => 2 * bit + 1
    case Right => 2 * bit + 2
  }

  /** The keys that a walk has entered on its way to this state and not yet left upwards. */
  predicate Entered(dir: Direction, n: Bits, p: Bits) {
    p < n || (dir == Right && p == n)
  }

  /** A move from the second state to the first enters nothing new. */
  ghost predicate EntersOnly(t: RtTable, dir: Direction, m: Bits, dir0: Direction, n: Bits)
    reads t`nodeAt
  {
    forall p {:trigger Entered(dir, m, p)} :: p in t.nodeAt && Entered(dir, m, p) ==> Entered(dir0, n, p)
  }

  lemma ChildEntered(t: RtTable, n: Bits, b: bool, c: Option<Bits>)
    requires n in t.nodeAt && ChildIs(t.nodeAt.Keys, n, b, c)
    ensures c.Some? ==> forall p :: p in t.nodeAt && p < c.value ==> p < n || p == n
  {
    if c.Some? {
      ChildHasParent(t.nodeAt.Keys, n, b, c.value);
      forall p | p in t.nodeAt && p < c.value ensures p < n || p == n { PrefixCases(p, n); }
    }
  }

  method MoveDown(t: RtTable, n: RtNode) returns (m: RtNode, dir: Direction)
    requires t.Valid() && t.Has(n)
    ensures t.Has(m) && m == if n.left != null then n.left else n
    ensures forall r :: r in t.nodeAt ==> (Done(dir, m.key, r) <==> Done(Down, n.key, r) || r == n.key)
    ensures EntersOnly(t, dir, m.key, Right, n.key)
  {
    t.NodeLinks(n);
    ChildEntered(t, n.key, false, RtTable.KeyOf(n.left));
    forall r | r in t.nodeAt
      ensures match RtTable.KeyOf(n.left)
              case Some(q) => Done(Down, q, r) <==> Done(Down, n.key, r) || r == n.key
              case None => Done(Right, n.key, r) <==> Done(Down, n.key, r) || r == n.key
    {
      StepDown(t.nodeAt.Keys, n.key, RtTable.KeyOf(n.left), r);
    }
    if n.left != null {
      m, dir := n.left, Down;
    } else {
      m, dir := n, Right;
    }
  }

  method MoveRight(t: RtTable, n: RtNode) returns (m: RtNode, dir: Direction)
    requires t.Valid() && t.Has(n)
    ensures t.Has(m) && Rank(dir, |m.key|) < Rank(Right, |n.key|)
    ensures forall r :: r in t.nodeAt ==> (Done(dir, m.key, r) <==> Done(Right, n.key, r))
    ensures EntersOnly(t, dir, m.key, Right, n.key)
  {
    t.NodeLinks(n);
    ChildEntered(t, n.key, true, RtTable.KeyOf(n.right));
    forall r | r in t.nodeAt
      ensures match RtTable.KeyOf(n.right)
              case Some(q) => Done(Down, q, r) <==> Done(Right, n.key, r)
              case None => Done(Up, n.key, r) <==> Done(Right, n.key, r)
    {
      StepRight(t.nodeAt.Keys, n.key, RtTable.KeyOf(n.right), r);
    }
    if n.right == null {
      m, dir := n, Up;
    } else {
      m, dir := n.right, Down;
    }
  }

  method MoveUp(t: RtTable, y: RtNode) returns (m: RtNode?, dir: Direction)
    requires t.Valid() && t.Has(y)
    ensures m != null ==> t.Has(m) && Rank(dir, |m.key|) < Rank(Up, |y.key|)
    ensures m != null ==> forall r :: r in t.nodeAt ==> (Done(dir, m.key, r) <==> Done(Up, y.key, r))
    ensures m != null ==> EntersOnly(t, dir, m.key, Up, y.key)
    ensures m == null ==> forall r :: r in t.nodeAt ==> Done(Up, y.key, r)
  {
    t.NodeLinks(y);
    m, dir := y.parent, Up;
    if m != null {
      t.ParentHolds(y);
      forall r | r in t.nodeAt
        ensures Done(Up, y.key, r) <==> Done(if y.key[|m.key|] then Up else Right, m.key, r)
      {
        StepUp(t.nodeAt.Keys, m.key, y.key, r);
      }
      if y == m.left { dir := Right; }
    }
  }

  // ----- walks -----

  /** What lies ahead of a walk that starts (with Some) right after the left subtree of a key. */
  ghost function Ahead(P: set<Bits>, s: Option<Bits>): set<Bits> {
    set k | k in P && (s.Some? ==> !Done(Right, s.value, k))
  }

  /** keys lists what a walk has left behind of W. */
  ghost predicate Behind(t: RtTable, W: set<Bits>, keys: seq<Bits>, rtn: RtNode?, dir: Direction) {
    Lists(keys, if rtn == null then W else DoneSet(W, dir, rtn.key))
  }

  lemma BehindBegins(t: RtTable, W: set<Bits>, keys: seq<Bits>, rtn: RtNode?, dir: Direction)
    requires Behind(t, W, keys, rtn, dir)
    ensures Begins(keys, W)
  {
    if rtn != null {
      forall k, w | k in keys && w in W && w !in keys ensures Before(k, w) { DoneComesFirst(dir, rtn.key, k, w); }
    }
  }

  /** A move that leaves the same keys behind. */
  lemma SameBehind(t: RtTable, W: set<Bits>, keys: seq<Bits>, n: RtNode, dir: Direction, m: RtNode?, dir': Direction)
    requires W <= t.nodeAt.Keys && Behind(t, W, keys, n, dir)
    requires m != null ==> forall r :: r in t.nodeAt ==> (Done(dir', m.key, r) <==> Done(dir, n.key, r))
    requires m == null ==> forall r :: r in t.nodeAt ==> Done(dir, n.key, r)
    ensures Behind(t, W, keys, m, dir')
  {
    if m == null { assert DoneSet(W, dir, n.key) == W; } else { assert DoneSet(W, dir', m.key) == DoneSet(W, dir, n.key); }
  }

  /** A move down from a node, with its key listed if it belongs to W. */
  lemma ListedBehind(t: RtTable, W: set<Bits>, keys: seq<Bits>, n: RtNode, m: RtNode, dir': Direction)
    requires W <= t.nodeAt.Keys && Behind(t, W, keys, n, Down)
    requires forall r :: r in t.nodeAt ==> (Done(dir', m.key, r) <==> Done(Down, n.key, r) || r == n.key)
    ensures Behind(t, W, if n.key in W then keys + [n.key] else keys, m, dir')
  {
    BeforeTotal(n.key, n.key);
    if n.key in W {
      ListsNext(keys, DoneSet(W, Down, n.key), n.key);
      assert DoneSet(W, dir', m.key) == DoneSet(W, Down, n.key) + {n.key};
    } else {
      assert DoneSet(W, dir', m.key) == DoneSet(W, Down, n.key);
    }
  }

  /** The keys ahead of a walk, for its termination. */
  ghost function ToGo(t: RtTable, rtn: RtNode?, dir: Direction): set<Bits>
    reads t`nodeAt
  {
    if rtn == null then {} else set k | k in t.nodeAt && !Done(dir, rtn.key, k)
  }

  /** lcnt counts the callbacks that are left; a callback that returns non-zero sets it to zero. */
  ghost predicate Counting(visited: seq<RtHead>, stop: RtHead -> bool, limit: nat, lcnt: nat) {
    && |visited| <= limit && (forall i :: 0 <= i < |visited| - 1 ==> !stop(visited[i]))
    && (lcnt > 0 ==> lcnt == limit - |visited| && !Stopped(visited, stop, limit))
    && (lcnt == 0 ==> visited != [] && Stopped(visited, stop, limit))
  }

  method Visit(h: RtHead, stop: RtHead -> bool, ghost limit: nat, before: seq<RtHead>, left: nat)
    returns (visited: seq<RtHead>, lcnt: nat)
    requires Counting(before, stop, limit, left) && left > 0
    ensures visited == before + [h] && Counting(visited, stop, limit, lcnt)
  {
    lcnt := left - 1;
    visited := before + [h];
    if stop(h) { lcnt := 0; }
  }

  /** Where a walk is: keys lists what of W is behind it, and it has not gone back before its start. */
  ghost predicate Tracking(t: RtTable, W: set<Bits>, s: Option<Bits>, keys: seq<Bits>, rtn: RtNode?, dir: Direction)
    reads t`nodeAt
  {
    && (rtn != null ==> t.Has(rtn)) && Behind(t, W, keys, rtn, dir)
    && (rtn != null && s.Some? ==> forall k :: k in t.nodeAt && Done(Right, s.value, k) ==> Done(dir, rtn.key, k))
  }

  /** The node left behind by a stopped walk: below or at the last one visited. */
  ghost predicate JustAfter(visited: seq<RtHead>, rtn: RtNode?)
    requires visited != []
    reads visited, if visited[|visited| - 1].rtn == null then {} else {visited[|visited| - 1].rtn}
  {
    var n := visited[|visited| - 1].rtn;
    n != null && rtn == if n.left != null then n.left else n
  }

  ghost function LastNodes(visited: seq<RtHead>): set<RtNode?>
    reads visited, if visited == [] || visited[|visited| - 1].rtn == null then {} else {visited[|visited| - 1].rtn}
  {
    if visited == [] || visited[|visited| - 1].rtn == null then {}
    else {visited[|visited| - 1].rtn, visited[|visited| - 1].rtn.left}
  }

  /** A walk that was stopped returns the route of the left child of the last node visited, or of that
      node itself; any other walk returns null. */
  ghost predicate Returned(visited: seq<RtHead>, r: RtHead?, stop: RtHead -> bool, limit: nat)
    reads visited, LastNodes(visited)
  {
    if Stopped(visited, stop, limit)
    then visited != [] && var n := visited[|visited| - 1].rtn;
         n != null && r == if n.left != null then n.left.rth else n.rth
    else r == null
  }

  lemma WalkStarts(t: RtTable, W: set<Bits>, s: Option<Bits>, rtn: RtNode?)
    requires t.Valid() && W == Ahead(W, s) && W <= t.nodeAt.Keys
    requires if s.Some? then rtn != null && t.Has(rtn) && rtn.key == s.value else rtn == t.root
    ensures Tracking(t, W, s, [], rtn, if s.Some? then Right else Down)
  {
    t.RootHolds();
    if rtn != null {
      if s.None? { forall k | k in W ensures !Done(Down, rtn.key, k) { DownAtRoot(t.nodeAt.Keys, rtn.key, k); } }
      assert DoneSet(W, if s.Some? then Right else Down, rtn.key) == {};
    }
  }

  /** Moving right or up tracks the same keys, with fewer moves to go. */
  method MoveOn(t: RtTable, n: RtNode, dir: Direction, ghost W: set<Bits>, ghost s: Option<Bits>, ghost keys: seq<Bits>)
    returns (m: RtNode?, dir': Direction)
    requires t.Valid() && Tracking(t, W, s, keys, n, dir) && W <= t.nodeAt.Keys && dir != Down
    ensures Tracking(t, W, s, keys, m, dir')
    ensures m == null || (ToGo(t, m, dir') == ToGo(t, n, dir) && Rank(dir', |m.key|) < Rank(dir, |n.key|))
    ensures m != null ==> EntersOnly(t, dir', m.key, dir, n.key)
  {
    if dir == Right { m, dir' := MoveRight(t, n); } else { m, dir' := MoveUp(t, n); }
    SameBehind(t, W, keys, n, dir, m, dir');
  }

  /** Moving down from a node that has been visited if it belongs to W. */
  method MoveInto(t: RtTable, n: RtNode, ghost W: set<Bits>, ghost s: Option<Bits>, ghost keys: seq<Bits>)
    returns (m: RtNode, dir': Direction)
    requires t.Valid() && Tracking(t, W, s, keys, n, Down) && W <= t.nodeAt.Keys
    ensures Tracking(t, W, s, if n.key in W then keys + [n.key] else keys, m, dir')
    ensures ToGo(t, m, dir') < ToGo(t, n, Down) && m == if n.left != null then n.left else n
    ensures EntersOnly(t, dir', m.key, Right, n.key)
  {
    m, dir' := MoveDown(t, n);
    ListedBehind(t, W, keys, n, m, dir');
    BeforeTotal(n.key, n.key);
    assert n.key in ToGo(t, n, Down);
  }

  /** A node entered from above lies ahead of the start. */
  lemma AheadOfStart(t: RtTable, W: set<Bits>, s: Option<Bits>, keys: seq<Bits>, n: RtNode, R: set<Bits>)
    requires t.Has(n) && Tracking(t, W, s, keys, n, Down)
    ensures n.key in R <==> n.key in Ahead(R, s)
    ensures s.Some? ==> !(n.key <= s.value)
  {
    BeforeTotal(n.key, n.key);
    if s.Some? && n.key <= s.value {
      PrefixCases(n.key, s.value);
      BeforeTotal(n.key, s.value);
      BelowBefore(n.key, s.value, s.value);
    }
  }

  /** Entering a node: its route is visited if it belongs to W, and the walk moves on below. */
  method Enter(t: RtTable, n: RtNode, take: bool, stop: RtHead -> bool, ghost limit: nat, before: seq<RtHead>, left: nat,
               ghost W: set<Bits>, ghost s: Option<Bits>, ghost ks: seq<Bits>)
    returns (visited: seq<RtHead>, lcnt: nat, m: RtNode, dir: Direction, ghost keys: seq<Bits>)
    requires t.Valid() && Tracking(t, W, s, ks, n, Down) && W <= t.routeAt.Keys && W <= t.nodeAt.Keys
    requires take <==> n.key in W
    requires Counting(before, stop, limit, left) && left > 0 && StoredAt(t.routeAt, ks, before)
    ensures Tracking(t, W, s, keys, m, dir) && ToGo(t, m, dir) < ToGo(t, n, Down)
    ensures Counting(visited, stop, limit, lcnt) && StoredAt(t.routeAt, keys, visited)
    ensures lcnt == 0 ==> JustAfter(visited, m)
    ensures EntersOnly(t, dir, m.key, Right, n.key)
  {
    assert t.Carries(n.key);
    visited, lcnt, keys := before, left, ks;
    if take {
      visited, lcnt := Visit(n.rth, stop, limit, before, left);
      keys := ks + [n.key];
    }
    m, dir := MoveInto(t, n, W, s, ks);
  }

  /** What a walk that has come to its end has done, and the route that it returns. */
  lemma WalkEnds(t: RtTable, W: set<Bits>, s: Option<Bits>, keys: seq<Bits>, visited: seq<RtHead>, rtn: RtNode?, dir: Direction,
                 stop: RtHead -> bool, limit: nat, lcnt: nat)
    requires t.Valid() && Tracking(t, W, s, keys, rtn, dir) && StoredAt(t.routeAt, keys, visited) && W <= t.routeAt.Keys
    requires Counting(visited, stop, limit, lcnt) && (lcnt == 0 ==> JustAfter(visited, rtn)) && (lcnt == 0 || rtn == null)
    ensures Delivers(t.routeAt, W, keys, visited, stop, limit)
    ensures Returned(visited, if rtn == null then null else rtn.rth, stop, limit)
  {
    BehindBegins(t, W, keys, rtn, dir);
  }

  /** The walk has moved on. */
  ghost predicate Closer(t: RtTable, m: RtNode?, dir': Direction, n: RtNode, dir: Direction)
    reads t`nodeAt
  {
    m == null || ToGo(t, m, dir') < ToGo(t, n, dir) || (ToGo(t, m, dir') == ToGo(t, n, dir) && Rank(dir', |m.key|) < Rank(dir, |n.key|))
  }

  /** One round of the loop. */
  method Step(t: RtTable, n: RtNode, dir: Direction, stop: RtHead -> bool, ghost limit: nat, before: seq<RtHead>, left: nat,
              ghost W: set<Bits>, ghost s: Option<Bits>, ghost ks: seq<Bits>)
    returns (visited: seq<RtHead>, lcnt: nat, m: RtNode?, dir': Direction, ghost keys: seq<Bits>)
    requires t.Valid() && Tracking(t, W, s, ks, n, dir) && W == Ahead(t.routeAt.Keys, s)
    requires Counting(before, stop, limit, left) && left > 0 && StoredAt(t.routeAt, ks, before)
    ensures Tracking(t, W, s, keys, m, dir') && StoredAt(t.routeAt, keys, visited) && Counting(visited, stop, limit, lcnt)
    ensures Closer(t, m, dir', n, dir) && (lcnt == 0 ==> JustAfter(visited, m))
  {
    t.RoutesAreNodes();
    visited, lcnt, keys := before, left, ks;
    if dir == Down {
      assert t.Carries(n.key);
      AheadOfStart(t, W, s, keys, n, t.routeAt.Keys);
      visited, lcnt, m, dir', keys := Enter(t, n, n.rth != null, stop, limit, before, left, W, s, ks);
    } else {
      m, dir' := MoveOn(t, n, dir, W, s, ks);
    }
  }

  method WalkFrom(t: RtTable, from: RtNode?, dir0: Direction, stop: RtHead -> bool, cnt: nat, ghost s: Option<Bits>)
    returns (visited: seq<RtHead>, r: RtHead?, ghost keys: seq<Bits>)
    requires t.Valid() && dir0 == (if s.Some? then Right else Down)
    requires if s.Some? then from != null && t.Has(from) && from.key == s.value else from == t.root
    ensures Delivers(t.routeAt, Ahead(t.routeAt.Keys, s), keys, visited, stop, Limit(cnt))
    ensures Returned(visited, r, stop, Limit(cnt))
  {
    t.RoutesAreNodes();
    var lcnt, rtn, dir := Limit(cnt), from, dir0;
    ghost var W := Ahead(t.routeAt.Keys, s);
    visited, keys := [], [];
    WalkStarts(t, W, s, rtn);
    while lcnt > 0 && rtn != null
      invariant Tracking(t, W, s, keys, rtn, dir) && StoredAt(t.routeAt, keys, visited)
      invariant Counting(visited, stop, Limit(cnt), lcnt)
      invariant lcnt == 0 ==> JustAfter(visited, rtn)
      decreases rtn != null, ToGo(t, rtn, dir), if rtn == null then 0 else Rank(dir, |rtn.key|)
    {
      visited, lcnt, rtn, dir, keys := Step(t, rtn, dir, stop, Limit(cnt), visited, lcnt, W, s, keys);
    }
    WalkEnds(t, W, s, keys, visited, rtn, dir, stop, Limit(cnt), lcnt);
    r := if rtn == null then null else rtn.rth;
  }

  /** Walks the whole table, or what comes after the left subtree of a given route, in preorder.
      stop says for which routes the callback returns non-zero. The returned route is the left
      child of the last one visited, or that one itself, when the walk was stopped. */
  method Walk(t: RtTable, start: RtHead?, stop: RtHead -> bool, cnt: nat)
    returns (visited: seq<RtHead>, r: RtHead?, ghost keys: seq<Bits>)
    requires t.Valid() && (start != null ==> t.Stores(start))
    ensures start != null ==> start.rtn != null
    ensures Delivers(t.routeAt, Ahead(t.routeAt.Keys, if start == null then None else Some(start.rtn.key)),
                     keys, visited, stop, Limit(cnt))
    ensures Returned(visited, r, stop, Limit(cnt))
    ensures KeepsCount(t.routeAt, Ahead(t.routeAt.Keys, if start == null then None else Some(start.rtn.key)), keys, visited, r, stop, cnt)
  {
    if start == null {
      visited, r, keys := WalkFrom(t, t.root, Down, stop, cnt, None);
    } else {
      ghost var k := t.StoredNode(start);
      visited, r, keys := WalkFrom(t, start.rtn, Right, stop, cnt, Some(k));
    }
    CountIsKept(t.routeAt, Ahead(t.routeAt.Keys, if start == null then None else Some(start.rtn.key)), keys, visited, r, stop, cnt);
  }

  // ----- version walks -----

  /** A version walk that starts at the root, or after s, meets no node that is too old on the way to k. */
  ghost predicate Reached(t: RtTable, s: Option<Bits>, k: Bits, minVer: Version)
    reads t`nodeAt, t.nodeAt.Values`version
  {
    forall p :: p in t.nodeAt && p <= k && (s.Some? ==> !(p <= s.value)) ==> t.nodeAt[p].version >= minVer
  }

  ghost function InRange(t: RtTable, s: Option<Bits>, minVer: Version, maxVer: Version): set<Bits>
    reads t`nodeAt, t`routeAt, t.nodeAt.Values`version, t.routeAt.Values`version
  {
    set k | k in t.routeAt && minVer <= t.routeAt[k].version <= maxVer && Reached(t, s, k, minVer)
  }

  /** No entered node that is not above the start is too old. */
  ghost predicate NewEnough(t: RtTable, s: Option<Bits>, dir: Direction, n: Bits, minVer: Version)
    reads t`nodeAt, t.nodeAt.Values`version
  {
    forall p {:trigger Entered(dir, n, p)} ::
      p in t.nodeAt && Entered(dir, n, p) && (s.Some? ==> !(p <= s.value)) ==> t.nodeAt[p].version >= minVer
  }

  lemma EnteredIsReached(t: RtTable, s: Option<Bits>, n: Bits, minVer: Version)
    requires n in t.nodeAt && NewEnough(t, s, Down, n, minVer) && t.nodeAt[n].version >= minVer
    ensures Reached(t, s, n, minVer) && NewEnough(t, s, Right, n, minVer)
  {
    forall p | p in t.nodeAt && p <= n && (s.Some? ==> !(p <= s.value)) ensures t.nodeAt[p].version >= minVer {
      PrefixCases(p, n);
      assert p != n ==> Entered(Down, n, p);
    }
    forall p | p in t.nodeAt && Entered(Right, n, p) && (s.Some? ==> !(p <= s.value))
      ensures t.nodeAt[p].version >= minVer
    {
      assert p != n ==> Entered(Down, n, p);
    }
  }

  lemma StaysNewEnough(t: RtTable, s: Option<Bits>, dir: Direction, m: Bits, dir0: Direction, n: Bits, minVer: Version)
    requires NewEnough(t, s, dir0, n, minVer) && EntersOnly(t, dir, m, dir0, n)
    ensures NewEnough(t, s, dir, m, minVer)
  {}

  lemma StartsNewEnough(t: RtTable, s: Option<Bits>, rtn: RtNode, minVer: Version)
    requires t.Valid() && (if s.Some? then t.Has(rtn) && rtn.key == s.value else rtn == t.root)
    ensures NewEnough(t, s, if s.Some? then Right else Down, rtn.key, minVer)
  {
    t.RootHolds();
    if s.None? {
      forall p | p in t.nodeAt ensures !Entered(Down, rtn.key, p) { assert rtn.key <= p; }
    }
  }

  /** Turning back at a node that is too old leaves out nothing of W. */
  method TurnBack(t: RtTable, n: RtNode, ghost W: set<Bits>, ghost s: Option<Bits>, ghost keys: seq<Bits>)
    returns (dir: Direction)
    requires t.Valid() && Tracking(t, W, s, keys, n, Down) && W <= t.nodeAt.Keys
    requires forall k :: k in W ==> !(n.key <= k)
    ensures Tracking(t, W, s, keys, n, dir) && ToGo(t, n, dir) < ToGo(t, n, Down)
    ensures EntersOnly(t, dir, n.key, Down, n.key)
  {
    dir := Up;
    assert DoneSet(W, Up, n.key) == DoneSet(W, Down, n.key);
    BeforeTotal(n.key, n.key);
    assert n.key in ToGo(t, n, Down);
    if s.Some? {
      forall k | k in t.nodeAt && Done(Right, s.value, k) ensures Done(Up, n.key, k) {}
    }
  }

  /** Entering a node of a version walk: it turns back, or looks at the route and moves on below. */
  method EnterByVersion(t: RtTable, n: RtNode, minVer: Version, maxVer: Version, stop: RtHead -> bool, ghost limit: nat,
                        before: seq<RtHead>, left: nat, ghost W: set<Bits>, ghost s: Option<Bits>, ghost ks: seq<Bits>)
    returns (visited: seq<RtHead>, lcnt: nat, m: RtNode, dir: Direction, ghost keys: seq<Bits>)
    requires t.Valid() && Tracking(t, W, s, ks, n, Down) && NewEnough(t, s, Down, n.key, minVer)
    requires W == Ahead(InRange(t, s, minVer, maxVer), s)
    requires Counting(before, stop, limit, left) && left > 0 && StoredAt(t.routeAt, ks, before)
    ensures Tracking(t, W, s, keys, m, dir) && ToGo(t, m, dir) < ToGo(t, n, Down) && NewEnough(t, s, dir, m.key, minVer)
    ensures Counting(visited, stop, limit, lcnt) && StoredAt(t.routeAt, keys, visited)
    ensures lcnt == 0 ==> JustAfter(visited, m)
  {
    t.RoutesAreNodes();
    AheadOfStart(t, W, s, ks, n, InRange(t, s, minVer, maxVer));
    if n.version < minVer {
      visited, lcnt, m, keys := before, left, n, ks;
      dir := TurnBack(t, n, W, s, ks);
      StaysNewEnough(t, s, dir, n.key, Down, n.key, minVer);
    } else {
      EnteredIsReached(t, s, n.key, minVer);
      assert t.Carries(n.key);
      var take := n.rth != null && n.rth.version >= minVer && n.rth.version <= maxVer;
      visited, lcnt, m, dir, keys := Enter(t, n, take, stop, limit, before, left, W, s, ks);
      StaysNewEnough(t, s, dir, m.key, Right, n.key, minVer);
    }
  }

  /** One round of the loop. */
  method StepByVersion(t: RtTable, n: RtNode, dir: Direction, minVer: Version, maxVer: Version, stop: RtHead -> bool, ghost limit: nat,
                       before: seq<RtHead>, left: nat, ghost W: set<Bits>, ghost s: Option<Bits>, ghost ks: seq<Bits>)
    returns (visited: seq<RtHead>, lcnt: nat, m: RtNode?, dir': Direction, ghost keys: seq<Bits>)
    requires t.Valid() && Tracking(t, W, s, ks, n, dir) && NewEnough(t, s, dir, n.key, minVer)
    requires W == Ahead(InRange(t, s, minVer, maxVer), s)
    requires Counting(before, stop, limit, left) && left > 0 && StoredAt(t.routeAt, ks, before)
    ensures Tracking(t, W, s, keys, m, dir') && StoredAt(t.routeAt, keys, visited) && Counting(visited, stop, limit, lcnt)
    ensures Closer(t, m, dir', n, dir) && (lcnt == 0 ==> JustAfter(visited, m))
    ensures m != null ==> NewEnough(t, s, dir', m.key, minVer)
  {
    t.RoutesAreNodes();
    visited, lcnt, keys := before, left, ks;
    if dir == Down {
      visited, lcnt, m, dir', keys := EnterByVersion(t, n, minVer, maxVer, stop, limit, before, left, W, s, ks);
    } else {
      m, dir' := MoveOn(t, n, dir, W, s, ks);
      if m != null { StaysNewEnough(t, s, dir', m.key, dir, n.key, minVer); }
    }
  }

  lemma VersionWalkStarts(t: RtTable, W: set<Bits>, s: Option<Bits>, rtn: RtNode?, minVer: Version, maxVer: Version)
    requires t.Valid() && W == Ahead(InRange(t, s, minVer, maxVer), s)
    requires if s.Some? then rtn != null && t.Has(rtn) && rtn.key == s.value else rtn == t.root
    ensures W <= t.routeAt.Keys && Tracking(t, W, s, [], rtn, if s.Some? then Right else Down)
    ensures rtn != null ==> NewEnough(t, s, if s.Some? then Right else Down, rtn.key, minVer)
  {
    t.RoutesAreNodes();
    WalkStarts(t, W, s, rtn);
    if rtn != null { StartsNewEnough(t, s, rtn, minVer); }
  }

  method VersionWalkFrom(t: RtTable, from: RtNode?, dir0: Direction, stop: RtHead -> bool, cnt: nat, minVer: Version, maxVer: Version, ghost s: Option<Bits>)
    returns (visited: seq<RtHead>, r: RtHead?, ghost keys: seq<Bits>)
    requires t.Valid() && dir0 == (if s.Some? then Right else Down)
    requires if s.Some? then from != null && t.Has(from) && from.key == s.value else from == t.root
    ensures Delivers(t.routeAt, Ahead(InRange(t, s, minVer, maxVer), s), keys, visited, stop, Limit(cnt))
    ensures Returned(visited, r, stop, Limit(cnt))
  {
    ghost var W := Ahead(InRange(t, s, minVer, maxVer), s);
    var lcnt, rtn, dir := Limit(cnt), from, dir0;
    visited, keys := [], [];
    VersionWalkStarts(t, W, s, rtn, minVer, maxVer);
    while lcnt > 0 && rtn != null
      invariant Tracking(t, W, s, keys, rtn, dir) && StoredAt(t.routeAt, keys, visited)
      invariant Counting(visited, stop, Limit(cnt), lcnt)
      invariant lcnt == 0 ==> JustAfter(visited, rtn)
      invariant rtn == null || NewEnough(t, s, dir, rtn.key, minVer)
      decreases rtn != null, ToGo(t, rtn, dir), if rtn == null then 0 else Rank(dir, |rtn.key|)
    {
      visited, lcnt, rtn, dir, keys := StepByVersion(t, rtn, dir, minVer, maxVer, stop, Limit(cnt), visited, lcnt, W, s, keys);
    }
    WalkEnds(t, W, s, keys, visited, rtn, dir, stop, Limit(cnt), lcnt);
    r := if rtn == null then null else rtn.rth;
  }

  /** Walks the routes with versions from minVer to maxVer, turning back at nodes older than minVer. */
  method VersionWalk(t: RtTable, start: RtHead?, stop: RtHead -> bool, cnt: nat, minVer: Version, maxVer: Version)
    returns (visited: seq<RtHead>, r: RtHead?, ghost keys: seq<Bits>)
    requires t.Valid() && (start != null ==> t.Stores(start))
    ensures start != null ==> start.rtn != null
    ensures var s := if start == null then None else Some(start.rtn.key);
            && Delivers(t.routeAt, Ahead(InRange(t, s, minVer, maxVer), s), keys, visited, stop, Limit(cnt))
            && KeepsCount(t.routeAt, Ahead(InRange(t, s, minVer, maxVer), s), keys, visited, r, stop, cnt)
    ensures Returned(visited, r, stop, Limit(cnt))
  {
    if start == null {
      visited, r, keys := VersionWalkFrom(t, t.root, Down, stop, cnt, minVer, maxVer, None);
    } else {
      ghost var k := t.StoredNode(start);
      visited, r, keys := VersionWalkFrom(t, start.rtn, Right, stop, cnt, minVer, maxVer, Some(k));
    }
    ghost var s := if start == null then None else Some(start.rtn.key);
    CountIsKept(t.routeAt, Ahead(InRange(t, s, minVer, maxVer), s), keys, visited, r, stop, cnt);
  }

  /** While the versions are dominated, turning back at old nodes is the same as filtering. */
  lemma PruningIsFiltering(t: RtTable, minVer: Version, maxVer: Version)
    requires t.Valid() && t.Dominated()
    ensures Ahead(InRange(t, None, minVer, maxVer), None) ==
            set k | k in t.routeAt && minVer <= t.routeAt[k].version <= maxVer
  {
    t.RoutesAreNodes();
  }
}
