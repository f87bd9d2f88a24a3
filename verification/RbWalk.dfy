/** The in-order walk of src/std_rbtree.c: a loop over a node and a direction, in chunks. */
module RbWalk {
  import opened Options
  import opened RbLookup
  import opened RbShape
  import opened RbTree
  import opened RbUpdate

  datatype Direction = Down | Right | Up

  /** The places that a walk in this state has left behind. */
  ghost predicate Done(S: Cells, dir: Direction, x: Node, at: real)
    requires x in S
  {
    match dir
    case Down => at <= S[x].lo
    case Right => at <= S[x].at
    case Up => at < S[x].hi
  }

  /** s visits, in their order, nodes behind the place from, and leaves out none that is before another. */
  ghost predicate Begins(S: Cells, from: real, s: seq<Node>) {
    && (forall i :: 0 <= i < |s| ==> s[i] in S && from < S[s[i]].at)
    && (forall i, j {:trigger Later(S, s, i, j)} :: Later(S, s, i, j))
    && forall n :: n in S && from < S[n].at && n !in s ==> Behind(S, s, n)
  }

  ghost predicate Later(S: Cells, s: seq<Node>, i: int, j: int) {
    0 <= i < j < |s| && s[i] in S && s[j] in S ==> S[s[i]].at < S[s[j]].at
  }

  /** n is behind all that s visits. */
  ghost predicate Behind(S: Cells, s: seq<Node>, n: Node)
    requires n in S
  {
    forall m :: m in s && m in S ==> S[m].at < S[n].at
  }

  /** s visits all nodes behind the place from. */
  ghost predicate Visits(S: Cells, from: real, s: seq<Node>) {
    Begins(S, from, s) && forall n :: n in S && from < S[n].at ==> n in s
  }

  /** The walk has visited exactly what is behind from and done. */
  ghost predicate Tracking(t: RbTable, from: real, s: seq<Node>, x: Node, dir: Direction)
    reads t`cells
  {
    && Begins(t.cells, from, s) && (x == t.nil || x in t.cells)
    && forall n :: n in t.cells ==> (n in s <==> from < t.cells[n].at && (x == t.nil || Done(t.cells, dir, x, t.cells[n].at)))
  }

  lemma VisitNext(S: Cells, from: real, s: seq<Node>, x: Node)
    requires Begins(S, from, s) && x in S && from < S[x].at && PlacesApart(S)
    requires forall n :: n in S && from < S[n].at < S[x].at ==> n in s
    requires forall n :: n in s && n in S ==> S[n].at < S[x].at
    ensures Begins(S, from, s + [x])
  {
    var s' := s + [x];
    forall i, j ensures Later(S, s', i, j) {
      assert Later(S, s, i, j);
      if 0 <= i < j == |s| { assert s[i] in s; }
    }
    forall n | n in S && from < S[n].at && n !in s' ensures Behind(S, s', n) {
      assert x in s';
      assert !(n != x && SamePlace(S, n, x));
    }
  }

  // ----- moves -----

  /** The place up to which a walk entering here has everything done changes only at visits. */
  lemma DownLeft(t: RbTable, from: real, s: seq<Node>, x: Node)
    requires t.Valid() && Tracking(t, from, s, x, Down) && x in t.cells
    ensures x.left != t.nil ==> Tracking(t, from, s, x.left, Down) && Inside(t.cells, x.left) < Inside(t.cells, x)
    ensures x.left == t.nil ==> forall n :: n in t.cells ==> (n in s <==> from < t.cells[n].at < t.cells[x].at)
  {
    t.KidFacts(x);
    forall n | n in t.cells ensures x.left == t.nil ==> (t.cells[n].at <= t.cells[x].lo <==> t.cells[n].at < t.cells[x].at) {
      assert !(n != x && SamePlace(t.cells, n, x));
    }
  }

  lemma RightDown(t: RbTable, from: real, s: seq<Node>, x: Node)
    requires t.Valid() && Tracking(t, from, s, x, Right) && x in t.cells && x.right != t.nil
    ensures Tracking(t, from, s, x.right, Down)
  {
    t.KidFacts(x);
  }

  /** From the right side of a node without a right child, or from a finished subtree. */
  lemma GoUp(t: RbTable, from: real, s: seq<Node>, x: Node, dir: Direction)
    requires t.Valid() && Tracking(t, from, s, x, dir) && x in t.cells
    requires dir == Up || (dir == Right && x.right == t.nil)
    ensures x.parent == t.nil ==> Tracking(t, from, s, t.nil, Up)
    ensures x.parent != t.nil && x == x.parent.left ==>
              x.parent in t.cells && forall n :: n in t.cells ==> (n in s <==> from < t.cells[n].at < t.cells[x.parent].at)
    ensures x.parent != t.nil && x != x.parent.left ==>
              Tracking(t, from, s, x.parent, Up) && RbTable.Outside(t.cells, x.parent) < RbTable.Outside(t.cells, x)
  {
    t.KidFacts(x);
    forall n | n in t.cells ensures t.cells[n].at < 1.0 && (Done(t.cells, dir, x, t.cells[n].at) <==> t.cells[n].at < t.cells[x].hi) {
      InUnit(t.cells, t.nil, t.root, n);
    }
    if x.parent != t.nil && x == x.parent.left { LeftKid(t, x); }
  }

  /** A visit: the node is next, and the walk goes on at its right. */
  lemma Visited(t: RbTable, from: real, s: seq<Node>, x: Node)
    requires t.Valid() && Begins(t.cells, from, s) && x in t.cells && from < t.cells[x].at
    requires forall n :: n in t.cells ==> (n in s <==> from < t.cells[n].at < t.cells[x].at)
    ensures Tracking(t, from, s + [x], x, Right)
  {
    VisitNext(t.cells, from, s, x);
    forall n | n in t.cells ensures n in s + [x] <==> from < t.cells[n].at <= t.cells[x].at {
      assert x in s + [x];
      assert !(n != x && SamePlace(t.cells, n, x));
    }
  }

  // ----- the walk -----

  /** The callback ended the walk, or the number of callbacks was reached. */
  ghost predicate Stopped(s: seq<Node>, stop: Data -> bool, limit: nat) {
    |s| == limit || (s != [] && stop(s[|s| - 1].data))
  }

  /** lcnt counts the callbacks that are left; a callback that returns non-zero sets it to zero. */
  ghost predicate Counting(s: seq<Node>, stop: Data -> bool, limit: nat, lcnt: nat) {
    && |s| <= limit && (forall i :: 0 <= i < |s| - 1 ==> !stop(s[i].data))
    && (lcnt > 0 ==> lcnt == limit - |s| && !Stopped(s, stop, limit))
    && (lcnt == 0 ==> s != [] && Stopped(s, stop, limit))
  }

  /** cnt callbacks, where zero means 0xffffffff. */
  function Limit(cnt: nat): nat {
    if cnt == 0 then 0xffff_ffff else cnt
  }

  /** A count of zero is no limit below 0xffffffff nodes; any other count limits the callbacks, and is used
      up if nothing else ends the walk. */
  ghost predicate KeepsCount(S: Cells, from: real, visited: seq<Node>, ended: bool, stop: Data -> bool, cnt: nat) {
    if cnt == 0 then
      |S| < 0xffff_ffff && (forall n :: n in S ==> !stop(n.data)) ==> Visits(S, from, visited) && ended
    else
      && |visited| <= cnt
      && (|visited| < cnt && (visited == [] || !stop(visited[|visited| - 1].data)) ==> Visits(S, from, visited) && ended)
  }

  lemma {:induction false} VisitedFit(S: Cells, s: seq<Node>, T: set<Node>)
    requires (forall i :: 0 <= i < |s| ==> s[i] in S && s[i] in T)
    requires forall i, j {:trigger Later(S, s, i, j)} :: Later(S, s, i, j)
    ensures |s| <= |T|
  {
    if s != [] {
      var init, n := s[..|s| - 1], s[|s| - 1];
      forall i | 0 <= i < |init| ensures init[i] in S && init[i] in T - {n} { assert Later(S, s, i, |s| - 1); }
      forall i, j ensures Later(S, init, i, j) { assert Later(S, s, i, j); }
      VisitedFit(S, init, T - {n});
    }
  }

  lemma CountIsKept(S: Cells, from: real, visited: seq<Node>, ended: bool, stop: Data -> bool, cnt: nat)
    requires Begins(S, from, visited) && |visited| <= Limit(cnt)
    requires !Stopped(visited, stop, Limit(cnt)) ==> ended && Visits(S, from, visited)
    ensures KeepsCount(S, from, visited, ended, stop, cnt)
  {
    VisitedFit(S, visited, S.Keys);
  }

  ghost function NotDone(t: RbTable, x: Node, dir: Direction): set<Node>
    reads t`cells
  {
    if x in t.cells then set n | n in t.cells && !Done(t.cells, dir, x, t.cells[n].at) else {}
  }

  ghost function Rest(t: RbTable, x: Node, dir: Direction): set<Node>
    reads t`cells
  {
    match dir
    case Down => Inside(t.cells, x)
    case Right => {}
    case Up => RbTable.Outside(t.cells, x)
  }

  /** The user callback for a node: RBTUSERCALLBACK. */
  method CallBack(x: Node, stop: Data -> bool, ghost limit: nat, before: seq<Node>, left: nat)
    returns (visited: seq<Node>, lcnt: nat)
    requires Counting(before, stop, limit, left) && left > 0
    ensures visited == before + [x] && Counting(visited, stop, limit, lcnt)
  {
    lcnt := left - 1;
    visited := before + [x];
    if stop(x.data) { lcnt := 0; }
  }

  /** The walk has not gone back before its start. */
  ghost predicate Past(t: RbTable, from: real, x: Node, dir: Direction)
    reads t`cells
  {
    x in t.cells ==>
      match dir
      case Down => from <= t.cells[x].lo
      case Right => from <= t.cells[x].at
      case Up => from < t.cells[x].hi
  }

  /** Fewer nodes to come, or a move in between: right first, then down or up. */
  ghost predicate Advances(t: RbTable, x: Node, dir: Direction, x0: Node, dir0: Direction)
    reads t`cells
  {
    || NotDone(t, x, dir) < NotDone(t, x0, dir0)
    || (NotDone(t, x, dir) == NotDone(t, x0, dir0) && dir0 == Right && dir != Right)
    || (NotDone(t, x, dir) == NotDone(t, x0, dir0) && dir == dir0 != Right && Rest(t, x, dir) < Rest(t, x0, dir0))
  }

  lemma DownAdvances(t: RbTable, from: real, x: Node)
    requires t.Valid() && x in t.cells && Past(t, from, x, Down)
    ensures if x.left != t.nil then x.left in t.cells && Past(t, from, x.left, Down) && Advances(t, x.left, Down, x, Down)
            else from < t.cells[x].at && Advances(t, x, Right, x, Down)
  {
    t.KidFacts(x);
    if x.left != t.nil {
      t.KidFacts(x.left);
    } else {
      assert x in NotDone(t, x, Down);
    }
  }

  lemma UpAdvances(t: RbTable, from: real, x: Node, dir: Direction)
    requires t.Valid() && x in t.cells && Past(t, from, x, dir) && (dir == Up || (dir == Right && x.right == t.nil))
    requires x.parent != t.nil
    ensures x.parent in t.cells
    ensures if x == x.parent.left
            then from < t.cells[x.parent].at && Advances(t, x.parent, Right, x, dir)
            else Past(t, from, x.parent, Up) && Advances(t, x.parent, Up, x, dir)
  {
    t.KidFacts(x);
    t.KidFacts(x.parent);
    if x == x.parent.left {
      LeftKid(t, x);
      assert x.parent in NotDone(t, x, dir);
    }
  }

  /** RBT_WALKDOWN */
  method StepDown(t: RbTable, x0: Node, stop: Data -> bool, ghost limit: nat, before: seq<Node>, left: nat, ghost from: real)
    returns (x: Node, dir: Direction, visited: seq<Node>, lcnt: nat)
    requires t.Valid() && x0 in t.cells && Tracking(t, from, before, x0, Down) && Past(t, from, x0, Down)
    requires Counting(before, stop, limit, left) && left > 0
    ensures x in t.cells && Tracking(t, from, visited, x, dir) && Past(t, from, x, dir) && Counting(visited, stop, limit, lcnt)
    ensures lcnt == 0 ==> visited[|visited| - 1] == x
    ensures Advances(t, x, dir, x0, Down)
  {
    x, dir, visited, lcnt := x0, Down, before, left;
    DownLeft(t, from, before, x);
    DownAdvances(t, from, x);
    if x.left != t.nil {
      x := x.left;
    } else {
      visited, lcnt := CallBack(x, stop, limit, visited, lcnt);
      Visited(t, from, before, x);
      dir := Right;
    }
  }

  /** RBT_WALKRIGHT and RBT_WALKUP */
  method StepOn(t: RbTable, x0: Node, dir0: Direction, stop: Data -> bool, ghost limit: nat, before: seq<Node>, left: nat, ghost from: real)
    returns (x: Node, dir: Direction, visited: seq<Node>, lcnt: nat)
    requires t.Valid() && x0 in t.cells && dir0 != Down && Tracking(t, from, before, x0, dir0) && Past(t, from, x0, dir0)
    requires Counting(before, stop, limit, left) && left > 0
    ensures Tracking(t, from, visited, x, dir) && Past(t, from, x, dir) && Counting(visited, stop, limit, lcnt)
    ensures lcnt == 0 ==> visited[|visited| - 1] == x
    ensures x != t.nil ==> Advances(t, x, dir, x0, dir0)
  {
    x, dir, visited, lcnt := x0, dir0, before, left;
    t.KidFacts(x);
    if dir == Right && x.right != t.nil {
      RightDown(t, from, before, x);
      x, dir := x.right, Down;
      t.KidFacts(x);
    } else {
      x, dir, visited, lcnt := StepUp(t, x, dir, stop, limit, before, left, from);
    }
  }

  method StepUp(t: RbTable, x0: Node, dir0: Direction, stop: Data -> bool, ghost limit: nat, before: seq<Node>, left: nat, ghost from: real)
    returns (x: Node, dir: Direction, visited: seq<Node>, lcnt: nat)
    requires t.Valid() && x0 in t.cells && Tracking(t, from, before, x0, dir0) && Past(t, from, x0, dir0)
    requires dir0 == Up || (dir0 == Right && x0.right == t.nil)
    requires Counting(before, stop, limit, left) && left > 0
    ensures Tracking(t, from, visited, x, dir) && Past(t, from, x, dir) && Counting(visited, stop, limit, lcnt)
    ensures lcnt == 0 ==> visited[|visited| - 1] == x
    ensures x != t.nil ==> Advances(t, x, dir, x0, dir0)
  {
    visited, lcnt, dir := before, left, Up;
    t.KidFacts(x0);
    GoUp(t, from, before, x0, dir0);
    x := x0.parent;
    if x == t.nil { return; }
    UpAdvances(t, from, x0, dir0);
    if x0 == x.left {
      visited, lcnt := CallBack(x, stop, limit, visited, lcnt);
      Visited(t, from, before, x);
      dir := Right;
    }
  }

  /** _std_rbtree_walk in order: from the first node, or from behind a given one. A walk that was
      stopped returns the node it visited last. */
  method WalkFrom(t: RbTable, start: Node?, stop: Data -> bool, cnt: nat) returns (visited: seq<Node>, r: Node?)
    requires t.Valid() && (start != null ==> start in t.cells)
    ensures Begins(t.cells, if start == null then 0.0 else t.cells[start].at, visited)
    ensures |visited| <= Limit(cnt) && forall i :: 0 <= i < |visited| - 1 ==> !stop(visited[i].data)
    ensures if Stopped(visited, stop, Limit(cnt)) then visited != [] && r == visited[|visited| - 1]
            else r == null && Visits(t.cells, if start == null then 0.0 else t.cells[start].at, visited)
    ensures KeepsCount(t.cells, if start == null then 0.0 else t.cells[start].at, visited, r == null, stop, cnt)
  {
    ghost var from := if start == null then 0.0 else t.cells[start].at;
    var lcnt := Limit(cnt);
    var x: Node := if start == null then t.root else start;
    var dir := if start == null then Down else Right;
    visited := [];
    Starts(t, start);
    while lcnt > 0 && x != t.nil
      invariant Tracking(t, from, visited, x, dir) && Past(t, from, x, dir) && Counting(visited, stop, Limit(cnt), lcnt)
      invariant lcnt == 0 ==> visited[|visited| - 1] == x
      decreases NotDone(t, x, dir), x != t.nil, if dir == Right then 1 else 0, Rest(t, x, dir)
    {
      x, dir, visited, lcnt := Step(t, x, dir, stop, Limit(cnt), visited, lcnt, from);
    }
    r := if lcnt == 0 then x else null;
    CountIsKept(t.cells, from, visited, r == null, stop, cnt);
  }

  method Step(t: RbTable, x0: Node, dir0: Direction, stop: Data -> bool, ghost limit: nat, before: seq<Node>, left: nat, ghost from: real)
    returns (x: Node, dir: Direction, visited: seq<Node>, lcnt: nat)
    requires t.Valid() && x0 in t.cells && Tracking(t, from, before, x0, dir0) && Past(t, from, x0, dir0)
    requires Counting(before, stop, limit, left) && left > 0
    ensures Tracking(t, from, visited, x, dir) && Past(t, from, x, dir) && Counting(visited, stop, limit, lcnt)
    ensures lcnt == 0 ==> visited[|visited| - 1] == x
    ensures if x in t.cells then Advances(t, x, dir, x0, dir0) else x == t.nil && NotDone(t, x, dir) <= NotDone(t, x0, dir0)
  {
    if dir0 == Down {
      x, dir, visited, lcnt := StepDown(t, x0, stop, limit, before, left, from);
    } else {
      x, dir, visited, lcnt := StepOn(t, x0, dir0, stop, limit, before, left, from);
    }
  }

  lemma Starts(t: RbTable, start: Node?)
    requires t.Valid() && (start != null ==> start in t.cells)
    ensures start == null ==> Tracking(t, 0.0, [], t.root, Down) && Past(t, 0.0, t.root, Down)
    ensures start != null ==> Tracking(t, t.cells[start].at, [], start, Right)
  {
    forall n | n in t.cells ensures 0.0 < t.cells[n].at < 1.0 { InUnit(t.cells, t.nil, t.root, n); }
    if t.root != t.nil { RootCovers(t.cells, t.nil, t.root); }
    var none: seq<Node> := [];
    forall i, j ensures Later(t.cells, none, i, j) {}
  }

  /** std_rbtree_walk: the start is given by data, as the first node that is not smaller. */
  method Walk(t: RbTable, data: Option<Data>, stop: Data -> bool, cnt: nat) returns (visited: seq<Node>, r: Option<Data>, ghost from: real)
    requires t.Valid()
    ensures Begins(t.cells, from, visited) && |visited| <= Limit(cnt)
    ensures r == if Stopped(visited, stop, Limit(cnt)) then Some(visited[|visited| - 1].data) else None
    ensures r == None ==> Visits(t.cells, from, visited)
    ensures KeepsCount(t.cells, from, visited, r == None, stop, cnt)
    ensures if data.Some? && exists n :: n in t.cells && t.compare(data.value, n.data) <= 0
            then exists n :: n in t.cells && LeastAtLeast(t, data.value, n) && from == t.cells[n].at
                   && ((exists m :: m in t.cells && t.compare(data.value, m.data) == 0) ==> t.compare(data.value, n.data) == 0)
            else from == 0.0
  {
    var start: Node? := null;
    if data.Some? { start := GetExactOrNext(t, data.value); }
    from := if start == null then 0.0 else t.cells[start].at;
    var last;
    visited, last := WalkFrom(t, start, stop, cnt);
    r := if last == null then None else Some(last.data);
  }

  // ----- walks in chunks -----

  ghost predicate DistinctKeys(t: RbTable)
    reads t`cells
  {
    forall m, n :: m in t.cells && n in t.cells && t.compare(m.data, n.data) == 0 ==> m == n
  }

  /** With distinct keys a walk that is resumed with the data it returned goes on behind that node. */
  lemma ResumesBehind(t: RbTable, last: Node, n: Node)
    requires t.Valid() && DistinctKeys(t) && last in t.cells && n in t.cells
    requires (exists m :: m in t.cells && t.compare(last.data, m.data) == 0) ==> t.compare(last.data, n.data) == 0
    ensures n == last
  {
    assert Consistent(t.compare, last.data, last.data, last.data);
    assert t.compare(last.data, last.data) == 0;
  }

  /** What two walks visit, the second from behind the last node of the first, is what one visits. */
  lemma ChunksJoin(S: Cells, from: real, s: seq<Node>, s': seq<Node>)
    requires PlacesApart(S) && Begins(S, from, s) && s != [] && Begins(S, S[s[|s| - 1]].at, s')
    ensures Begins(S, from, s + s')
    ensures Visits(S, S[s[|s| - 1]].at, s') ==> Visits(S, from, s + s')
  {
    var l, k := s[|s| - 1], s + s';
    forall m | m in s && m in S ensures S[m].at <= S[l].at {
      var i :| 0 <= i < |s| && s[i] == m;
      assert Later(S, s, i, |s| - 1);
    }
    forall i, j ensures Later(S, k, i, j) {
      assert Later(S, s, i, j) && Later(S, s', i - |s|, j - |s|);
      if 0 <= i < |s| <= j < |k| { assert s[i] in s && s'[j - |s|] in s'; }
    }
    forall n | n in S && from < S[n].at && n !in s ensures S[l].at < S[n].at { assert Behind(S, s, n) && l in s; }
    forall n | n in S && from < S[n].at && n !in k ensures Behind(S, k, n) {
      assert n !in s && n !in s';
      assert Behind(S, s, n) && Behind(S, s', n);
    }
  }

  /** The walk that goes on with the data that the last one returned starts behind its node. */
  lemma ChunkStart(t: RbTable, last: Node, from: real)
    requires t.Valid() && DistinctKeys(t) && last in t.cells
    requires exists n :: n in t.cells && LeastAtLeast(t, last.data, n) && from == t.cells[n].at
               && ((exists m :: m in t.cells && t.compare(last.data, m.data) == 0) ==> t.compare(last.data, n.data) == 0)
    ensures from == t.cells[last].at
  {
    var n :| n in t.cells && LeastAtLeast(t, last.data, n) && from == t.cells[n].at
      && ((exists m :: m in t.cells && t.compare(last.data, m.data) == 0) ==> t.compare(last.data, n.data) == 0);
    ResumesBehind(t, last, n);
  }

  lemma HasNext(t: RbTable, last: Node)
    requires t.Valid() && last in t.cells
    ensures exists n :: n in t.cells && t.compare(last.data, n.data) <= 0
  {
    assert Consistent(t.compare, last.data, last.data, last.data);
    assert t.compare(last.data, last.data) <= 0;
  }

  method FirstChunk(t: RbTable, stop: Data -> bool, cnt: nat) returns (all: seq<Node>, r: Option<Data>)
    requires t.Valid()
    ensures Begins(t.cells, 0.0, all)
    ensures if r == None then Visits(t.cells, 0.0, all) else all != [] && r == Some(all[|all| - 1].data)
  {
    ghost var from;
    all, r, from := Walk(t, None, stop, cnt);
  }

  /** One more chunk, from the data that the last one returned. */
  method NextChunk(t: RbTable, data: Data, stop: Data -> bool, cnt: nat, before: seq<Node>)
    returns (visited: seq<Node>, r: Option<Data>)
    requires t.Valid() && DistinctKeys(t) && Begins(t.cells, 0.0, before)
    requires before != [] && before[|before| - 1] in t.cells && data == before[|before| - 1].data
    ensures Begins(t.cells, 0.0, before + visited)
    ensures if r == None then Visits(t.cells, 0.0, before + visited) else visited != [] && r == Some(visited[|visited| - 1].data)
  {
    ghost var last := before[|before| - 1];
    HasNext(t, last);
    ghost var from;
    visited, r, from := Walk(t, Some(data), stop, cnt);
    ChunkStart(t, last, from);
    ChunksJoin(t.cells, 0.0, before, visited);
  }

  ghost function Unvisited(t: RbTable, s: seq<Node>): set<Node>
    reads t`cells
  {
    set n | n in t.cells && n !in s
  }

  lemma MoreVisited(t: RbTable, s: seq<Node>, s': seq<Node>)
    requires Begins(t.cells, 0.0, s') && s < s'
    ensures Unvisited(t, s') < Unvisited(t, s)
  {
    var n := s'[|s|];
    forall i | 0 <= i < |s| ensures s[i] != n { assert s'[i] == s[i] && Later(t.cells, s', i, |s|); }
    assert n in s' && n in t.cells && n in Unvisited(t, s) && n !in Unvisited(t, s');
    assert forall m :: m in s ==> m in s';
  }

  /** A walk in chunks: as long as data is returned the next walk goes on with it. Together they visit all
      nodes, in order and once each. */
  method WalkInChunks(t: RbTable, stop: Data -> bool, cnt: nat) returns (all: seq<Node>)
    requires t.Valid() && DistinctKeys(t)
    ensures Visits(t.cells, 0.0, all)
  {
    var r;
    all, r := FirstChunk(t, stop, cnt);
    while r != None
      invariant Begins(t.cells, 0.0, all)
      invariant if r == None then Visits(t.cells, 0.0, all) else all != [] && r == Some(all[|all| - 1].data)
      decreases Unvisited(t, all), r != None
    {
      ghost var before := all;
      assert all[|all| - 1] in all;
      var visited;
      visited, r := NextChunk(t, r.value, stop, cnt, all);
      all := all + visited;
      if r != None { MoreVisited(t, before, all); }
    }
  }
}
