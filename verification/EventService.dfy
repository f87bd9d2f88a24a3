/** The subscriptions of src/std_event_service.cpp: a tree of maps in place, with one set of clients at
    every node, against the relation between keys and clients that it stands for. */
module EventService {
  type Part = x: nat | x < 0x1_0000_0000
  type Path = seq<Part>
  type Fd = nat

  /** std_node_t. The path from the head is fixed when a node is made. */
  class Node {
    ghost const path: Path
    var nodes: map<Part, Node>
    var clients: set<Fd>

    constructor (ghost path: Path)
      ensures this.path == path && nodes == map[] && clients == {}
    {
      this.path, nodes, clients := path, map[], {};
    }
  }

  /** A message to a client's connection or the end of that connection. */
  datatype Op = Reg(fd: Fd, key: Path) | Dereg(fd: Fd, key: Path) | Gone(fd: Fd)

  type Relation = set<(Path, Fd)>

  ghost function After(r: Relation, op: Op): Relation {
    match op
    case Reg(fd, key) => r + {(key, fd)}
    case Dereg(fd, key) => r - {(key, fd)}
    case Gone(fd) => set x | x in r && x.1 != fd
  }

  /** std_client_tree */
  class ClientTree {
    const head: Node

    /** The nodes of the tree by their paths. */
    ghost var at: map<Path, Node>

    ghost predicate KidsAt(p: Path)
      requires p in at
      reads this`at, at.Values`nodes
    {
      && at[p].path == p && (p != [] ==> p[..|p| - 1] in at)
      && (forall k: Part :: k in at[p].nodes <==> p + [k] in at)
      && forall k :: k in at[p].nodes ==> at[p + [k]] == at[p].nodes[k]
    }

    ghost predicate Valid()
      reads this`at, at.Values`nodes
    {
      [] in at && at[[]] == head && forall p {:trigger KidsAt(p)} :: p in at ==> KidsAt(p)
    }

    /** The subscriptions. */
    ghost function Subs(): Relation
      reads this`at, at.Values`clients
    {
      set p, fd | p in at && fd in at[p].clients :: (p, fd)
    }

    constructor ()
      ensures Valid() && Subs() == {} && fresh(at.Values)
    {
      head := new Node([]);
      at := map[[] := head];
    }

    lemma {:induction false} ClosedUpward(p: Path, q: Path)
      requires Valid() && q in at && p <= q
      ensures p in at
      decreases |q|
    {
      if p != q {
        assert KidsAt(q);
        ClosedUpward(p, q[..|q| - 1]);
      }
    }

    lemma NodesDiffer(p: Path)
      requires Valid() && p in at
      ensures forall q :: q in at && q != p ==> at[q] != at[p]
    {
      forall q | q in at ensures at[q].path == q { assert KidsAt(q); }
    }

    /** create_node, which fails when there is no memory. */
    method CreateNode(cur: Node, part: Part, memory: bool) returns (ok: bool)
      requires Valid() && cur.path in at && at[cur.path] == cur && part !in cur.nodes
      modifies this`at, cur`nodes
      ensures Valid() && ok == memory
      ensures var p := cur.path + [part];
              if ok then p !in old(at) && p in at && at == old(at)[p := at[p]] && fresh(at[p]) && at[p].clients == {} && part in cur.nodes
              else at == old(at) && cur.nodes == old(cur.nodes)
    {
      if !memory { return false; }
      ghost var p := cur.path + [part];
      assert KidsAt(cur.path);
      var n := new Node(p);
      assert forall k: Part :: p + [k] !in at by {
        forall k: Part | p + [k] in at ensures false {
          ClosedUpward(p, p + [k]);
        }
      }
      cur.nodes := cur.nodes[part := n];
      at := at[p := n];
      forall q | q in at ensures KidsAt(q) {
        if q != p {
          assert old(KidsAt(q));
          assert forall k: Part :: q + [k] == p ==> q == cur.path && k == part by {
            forall k: Part | q + [k] == p ensures q == cur.path && k == part {
              assert q == (q + [k])[..|q|] && cur.path == p[..|cur.path|];
            }
          }
        } else {
          assert p[..|p| - 1] == cur.path;
        }
      }
      ok := true;
    }

    /** What may be added on the way to a key: nodes without clients. */
    twostate predicate OnlyBare(key: Path)
      reads this`at, at.Values`clients
    {
      && (forall p :: p in old(at) ==> p in at && at[p] == old(at[p]))
      && forall p :: p in at && p !in old(at) ==> p <= key && fresh(at[p]) && at[p].clients == {}
    }

    /** There is memory for every node on the way to a key that is not there yet. */
    ghost predicate Affords(key: Path, memory: nat -> bool)
      reads this`at
    {
      forall i: nat :: i < |key| ==> key[..i + 1] in at || memory(i)
    }

    /** The step of find from one node to the next. */
    method FindStep(cur: Node, part: Part, create: bool, memory: bool) returns (next: Node?)
      requires Valid() && cur.path in at && at[cur.path] == cur
      modifies this`at, cur`nodes
      ensures Valid() && (next != null <==> cur.path + [part] in old(at) || (create && memory))
      ensures var p := cur.path + [part];
              if next == null || p in old(at) then at == old(at)
              else p in at && at == old(at)[p := at[p]] && fresh(at[p]) && at[p].clients == {}
      ensures next != null ==> cur.path + [part] in at && next == at[cur.path + [part]] && next.path == cur.path + [part]
    {
      assert KidsAt(cur.path);
      if part !in cur.nodes {
        if !create { return null; }
        var ok := CreateNode(cur, part, memory);
        if !ok { return null; }
        assert KidsAt(cur.path);
      }
      next := cur.nodes[part];
      assert KidsAt(cur.path + [part]);
    }

    /** find. memory tells for each node on the way if there is memory to make it. */
    method Find(key: Path, create: bool, memory: nat -> bool) returns (cur: Node?)
      requires Valid()
      modifies this`at, at.Values`nodes
      ensures Valid() && OnlyBare(key) && (!create ==> at == old(at))
      ensures cur != null ==> key in at && cur == at[key]
      ensures cur == null ==> key !in at
      ensures create ==> (cur != null <==> old(Affords(key, memory)))
    {
      var n: Node := head;
      var ix := 0;
      assert KidsAt([]);
      while ix < |key|
        invariant ix <= |key| && Valid() && n.path == key[..ix] && key[..ix] in at && at[key[..ix]] == n
        invariant OnlyBare(key) && (!create ==> at == old(at))
        invariant forall p :: p in at && p !in old(at) ==> |p| <= ix
        invariant create ==> forall i: nat :: i < ix ==> key[..i + 1] in old(at) || memory(i)
      {
        assert key[..ix + 1] == key[..ix] + [key[ix]];
        var next := FindStep(n, key[ix], create, memory(ix));
        if next == null {
          if key in at { ClosedUpward(key[..ix + 1], key); }
          return null;
        }
        n := next;
        ix := ix + 1;
      }
      assert key[..ix] == key;
      cur := n;
    }

    /** reg_client, with a last allocation for a client that is new in its set. */
    method RegClient(fd: Fd, key: Path, memory: nat -> bool) returns (ok: bool)
      requires Valid()
      modifies this`at, at.Values`nodes, at.Values`clients
      ensures Valid() && fresh(at.Values - old(at.Values))
      ensures Subs() == if ok then After(old(Subs()), Reg(fd, key)) else old(Subs())
      ensures ok <==> old(Affords(key, memory)) && ((key, fd) in old(Subs()) || memory(|key|))
    {
      var cur := Find(key, true, memory);
      assert Subs() == old(Subs());
      if cur == null || (fd !in cur.clients && !memory(|key|)) { return false; }
      NodesDiffer(key);
      label found:
      cur.clients := cur.clients + {fd};
      OnlyAt@found(key);
      ok := true;
    }

    /** Only the clients at one node have changed. */
    twostate lemma OnlyAt(key: Path)
      requires old(Valid()) && key in at && at == old(at)
      requires forall p :: p in at && p != key ==> at[p].clients == old(at[p].clients)
      ensures forall p, fd :: (p, fd) in Subs() <==> if p == key then fd in at[key].clients else (p, fd) in old(Subs())
    {}

    /** dereg_client */
    method DeregClient(fd: Fd, key: Path) returns (ok: bool)
      requires Valid()
      modifies this`at, at.Values`nodes, at.Values`clients
      ensures Valid() && at == old(at) && ok
      ensures Subs() == After(old(Subs()), Dereg(fd, key))
    {
      var cur := Find(key, false, _ => true);
      if cur != null {
        NodesDiffer(key);
        cur.clients := cur.clients - {fd};
        OnlyAt(key);
      }
      ok := true;
    }

    ghost function Under(p: Path): set<Path>
      reads this`at
    {
      set q | q in at && p <= q
    }

    lemma UnderKid(p: Path, k: Part)
      requires Valid() && p in at && k in at[p].nodes
      ensures |Under(p + [k])| < |Under(p)| && p + [k] in at && at[p + [k]] == at[p].nodes[k] && at[p + [k]].path == p + [k]
      ensures forall q :: q in at ==> (p + [k] <= q <==> p < q && q[|p|] == k)
    {
      assert KidsAt(p);
      assert KidsAt(p + [k]);
      var a, b := Under(p + [k]), Under(p);
      assert p in b && p !in a && a <= b;
      assert b == a + (b - a) && b - a != {};
    }

    lemma KidsLead(p: Path)
      requires Valid() && p in at
      ensures forall q :: q in at && p < q ==> q[|p|] in at[p].nodes
    {
      assert KidsAt(p);
      forall q | q in at && p < q ensures q[|p|] in at[p].nodes {
        ClosedUpward(p + [q[|p|]], q);
      }
    }

    /** std_node_t::remove_from_tree: the client goes from the nodes below this one, then from this one. */
    method RemoveBelow(n: Node, fd: Fd)
      requires Valid() && n.path in at && at[n.path] == n
      modifies at.Values`clients
      ensures forall q {:trigger at[q]} :: q in at ==> forall f :: f in at[q].clients <==> f in old(at[q].clients) && !(f == fd && n.path <= q)
      decreases |Under(n.path)|
    {
      ghost var p := n.path;
      KidsLead(p);
      NodesDiffer(p);
      var todo := n.nodes.Keys;
      while todo != {}
        invariant todo <= n.nodes.Keys
        invariant forall q {:trigger at[q]} :: q in at ==>
          forall f :: f in at[q].clients <==> f in old(at[q].clients) && !(f == fd && p < q && q[|p|] !in todo)
      {
        var k :| k in todo;
        UnderKid(p, k);
        RemoveBelow(n.nodes[k], fd);
        todo := todo - {k};
      }
      label below:
      n.clients := n.clients - {fd};
      forall q | q in at
        ensures forall f :: f in at[q].clients <==> f in old(at[q].clients) && !(f == fd && p <= q)
      {
        assert q != p ==> at[q].clients == old@below(at[q].clients);
        assert p <= q <==> q == p || p < q;
      }
    }

    /** remove_from_tree */
    method RemoveFromTree(fd: Fd)
      requires Valid()
      modifies at.Values`clients
      ensures Valid() && Subs() == After(old(Subs()), Gone(fd))
    {
      assert KidsAt([]);
      RemoveBelow(head, fd);
    }

    /** std_node_t::publish: one attempt to send for each client that has had none. */
    method PublishAt(n: Node, sent: seq<Fd>) returns (sent': seq<Fd>)
      requires NoneTwice(sent)
      ensures NoneTwice(sent') && sent <= sent' && forall fd :: fd in sent' <==> fd in sent || fd in n.clients
    {
      sent' := sent;
      var todo := n.clients;
      while todo != {}
        invariant todo <= n.clients && sent <= sent'
        invariant forall fd :: fd in sent' <==> fd in sent || fd in n.clients - todo
        invariant NoneTwice(sent')
      {
        var fd :| fd in todo;
        todo := todo - {fd};
        if fd !in sent' { sent' := sent' + [fd]; }
      }
    }

    static ghost predicate NoneTwice(s: seq<Fd>) {
      forall i, j :: 0 <= i < j < |s| ==> s[i] != s[j]
    }

    /** There is a subscription of this client to one of the first n prefixes. */
    ghost predicate Within(key: Path, n: nat, fd: Fd)
      reads this`at, at.Values`clients
    {
      exists m: nat :: 0 < m <= n && m <= |key| && (key[..m], fd) in Subs()
    }

    /** A client with a subscription to a shorter prefix comes before one without. */
    ghost predicate ShortestFirst(key: Path, sent: seq<Fd>)
      reads this`at, at.Values`clients
    {
      forall i, j, n: nat {:trigger sent[i], Within(key, n, sent[j])} :: 0 <= i < j < |sent| && Within(key, n, sent[j]) ==> Within(key, n, sent[i])
    }

    lemma {:induction false} LaterIsLonger(key: Path, sent: seq<Fd>, sent': seq<Fd>, ix: nat)
      requires ShortestFirst(key, sent) && NoneTwice(sent') && sent <= sent'
      requires forall fd :: fd in sent <==> Within(key, ix, fd)
      requires forall fd :: fd in sent' <==> Within(key, ix + 1, fd)
      ensures ShortestFirst(key, sent')
    {
      forall i, j, n: nat | 0 <= i < j < |sent'| && Within(key, n, sent'[j]) ensures Within(key, n, sent'[i]) {
        if j < |sent| {
          assert Within(key, n, sent[j]) && Within(key, n, sent[i]);
        } else {
          assert sent'[j] !in sent && !Within(key, ix, sent'[j]);
          assert sent'[i] in sent' && n > ix;
        }
      }
    }

    /** publish: sends to every client that has subscribed to a non-empty prefix of the key, once each,
        and to no other client. */
    method Publish(key: Path) returns (sent: seq<Fd>)
      requires Valid()
      ensures NoneTwice(sent) && ShortestFirst(key, sent)
      ensures forall fd :: fd in sent <==> Within(key, |key|, fd)
    {
      var ix := 0;
      var cur := head;
      sent := [];
      while ix < |key|
        invariant ix <= |key| && key[..ix] in at && at[key[..ix]] == cur && NoneTwice(sent) && ShortestFirst(key, sent)
        invariant forall fd :: fd in sent <==> Within(key, ix, fd)
      {
        assert KidsAt(key[..ix]) && key[..ix + 1] == key[..ix] + [key[ix]];
        if key[ix] !in cur.nodes {
          forall n: nat | ix < n <= |key| ensures key[..n] !in at {
            if key[..n] in at { ClosedUpward(key[..ix + 1], key[..n]); }
          }
          return;
        }
        cur := cur.nodes[key[ix]];
        ghost var before := sent;
        sent := PublishAt(cur, sent);
        assert forall fd :: fd in cur.clients <==> (key[..ix + 1], fd) in Subs();
        LaterIsLonger(key, before, sent, ix);
        ix := ix + 1;
      }
    }

    /** Any operation, with enough memory or not. */
    method Perform(op: Op, memory: nat -> bool) returns (ok: bool)
      requires Valid()
      modifies this`at, at.Values`nodes, at.Values`clients
      ensures Valid() && fresh(at.Values - old(at.Values))
      ensures Subs() == if ok then After(old(Subs()), op) else old(Subs())
      ensures !ok ==> op.Reg? && exists i: nat :: !memory(i)
    {
      match op
      case Reg(fd, key) => ok := RegClient(fd, key, memory);
      case Dereg(fd, key) => ok := DeregClient(fd, key);
      case Gone(fd) => RemoveFromTree(fd); ok := true;
    }
  }

  // ----- what a history leaves -----

  /** The subscriptions after these operations, of which those marked ok have succeeded. */
  ghost function History(ops: seq<Op>, ok: seq<bool>): Relation
    requires |ok| == |ops|
  {
    if ops == [] then {}
    else
      var l := |ops| - 1;
      if ok[l] then After(History(ops[..l], ok[..l]), ops[l]) else History(ops[..l], ok[..l])
  }

  /** A service that performs one operation after the other; memory says which allocations succeed. */
  method Serve(ops: seq<Op>, memory: (nat, nat) -> bool) returns (tree: ClientTree, ok: seq<bool>)
    ensures tree.Valid() && |ok| == |ops| && tree.Subs() == History(ops, ok)
    ensures forall i :: 0 <= i < |ops| && !ok[i] ==> ops[i].Reg? && exists k: nat :: !memory(i, k)
  {
    tree := new ClientTree();
    ok := [];
    var i := 0;
    while i < |ops|
      invariant i == |ok| <= |ops| && tree.Valid() && fresh(tree) && fresh(tree.at.Values)
      invariant tree.Subs() == History(ops[..i], ok)
      invariant forall j :: 0 <= j < i && !ok[j] ==> ops[j].Reg? && exists k: nat :: !memory(j, k)
    {
      var step: nat := i;
      var done := tree.Perform(ops[step], (k: nat) => memory(step, k));
      assert ops[..i + 1][..i] == ops[..i] && (ok + [done])[..i] == ok;
      ok := ok + [done];
      i := i + 1;
    }
    assert ops[..i] == ops;
  }

  /** The operation ends this subscription. */
  predicate Ends(op: Op, fd: Fd, key: Path) {
    op == Dereg(fd, key) || op == Gone(fd)
  }

  /** The i-th operation has made this subscription, and none has ended it since. */
  ghost predicate RegisteredAt(ops: seq<Op>, ok: seq<bool>, fd: Fd, key: Path, i: nat)
    requires |ok| == |ops|
  {
    i < |ops| && ops[i] == Reg(fd, key) && ok[i] && forall j :: i < j < |ops| && ok[j] ==> !Ends(ops[j], fd, key)
  }

  /** A subscription is live exactly if it was registered and has not been ended since. */
  lemma {:induction false} LiveSubscriptions(ops: seq<Op>, ok: seq<bool>, fd: Fd, key: Path)
    requires |ok| == |ops|
    ensures (key, fd) in History(ops, ok) <==> exists i: nat :: RegisteredAt(ops, ok, fd, key, i)
  {
    if ops != [] {
      var l := |ops| - 1;
      var init, initOk, op := ops[..l], ok[..l], ops[l];
      LiveSubscriptions(init, initOk, fd, key);
      if i: nat :| RegisteredAt(init, initOk, fd, key, i) && !(ok[l] && Ends(op, fd, key)) {
        assert RegisteredAt(ops, ok, fd, key, i);
      }
      if i: nat :| RegisteredAt(ops, ok, fd, key, i) {
        if i == l { assert op == Reg(fd, key); } else { assert RegisteredAt(init, initOk, fd, key, i); }
      }
      if op == Reg(fd, key) && ok[l] { assert RegisteredAt(ops, ok, fd, key, l); }
    }
  }
}
