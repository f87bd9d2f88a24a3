/** The change list of src/std_radical.c: changed routes in the order of their versions, with the
    markers of any number of walkers between them. */
module Radical {
  import opened LinkedList
  import opened Options
  import opened Versions

  /** The part of a route, or of a walker's marker, that the change list uses: rth_version and the
      RDCL_INCL and RDCL_DUMMY flags. */
  datatype RadicalHead = RadicalHead(version: Version, incl: bool, dummy: bool)

  type Entry = Dll<RadicalHead>
  type MaybeEntry = Dll?<RadicalHead>

  /** A position on the list: a route at its version, or a marker that separates the routes at or
      below its level from those above it. */
  datatype Row = Row(dummy: bool, level: Version)

  predicate Fits(a: Row, b: Row) {
    (a.dummy && b.dummy) || if b.dummy then a.level <= b.level else a.level < b.level
  }

  /** What a walk's callback may do to the change list before it returns. It does not touch the
      marker of its own walk, and does not append when the version is about to wrap. */
  datatype Action =
    | Change(x: Entry)
    | Unlist(x: Entry)
    | StartWalk(d: Entry)
    | StartWalkAfter(after: Entry, d: Entry)
    | EndWalk(d: Entry)

  datatype Reaction = Reaction(acts: seq<Action>, ret: int)

  /** The reaction of a callback to its n-th call, for an entry. */
  type Script = (nat, Entry) -> Reaction

  /** What the users of the table see: its version, and the routes on the list with theirs. */
  datatype Picture = Picture(version: Version, at: map<Entry, Version>) {
    /** r is the route on the list with the lowest version above v, or null if there is none. */
    ghost predicate LowestAbove(v: int, r: MaybeEntry) {
      if r == null then forall x :: x in at ==> at[x] <= v
      else r in at && v < at[r] && forall x :: x in at && v < at[x] ==> at[r] <= at[x]
    }

    /** No route on the list has a version strictly between these. */
    ghost predicate NoneBetween(lo: int, hi: int) {
      forall x :: x in at ==> !(lo < at[x] < hi)
    }

    /** Every route on the list with a version above lo and up to hi has been visited at that version. */
    ghost predicate Heard(visited: seq<(Entry, Version)>, lo: int, hi: int) {
      forall x :: x in at && lo < at[x] <= hi ==> (x, at[x]) in visited
    }
  }

  /** These actions lead from p to q. A route keeps its version or gets a new one by a change. It stays
      unless it is unlisted, and a change does move it until the versions are about to wrap. */
  ghost predicate Leads(p: Picture, acts: seq<Action>, q: Picture) {
    && p.version <= q.version <= p.version + |acts| && (acts == [] ==> q == p)
    && (forall x :: x in q.at ==> (x in p.at && p.at[x] == q.at[x]) || (Change(x) in acts && p.version < q.at[x] <= q.version))
    && (forall x :: x in p.at && Unlist(x) !in acts ==> x in q.at)
    && (forall x :: x in p.at && Unlist(x) !in acts && Change(x) in acts && q.version < VERSIONS - 1 ==> q.at[x] > p.version)
  }

  lemma LeadsOn(p: Picture, a: seq<Action>, q: Picture, b: seq<Action>, r: Picture)
    requires Leads(p, a, q) && Leads(q, b, r)
    ensures Leads(p, a + b, r)
  {}

  /** One change, or the end of one route's stay. */
  lemma OneLeads(p: Picture, q: Picture, x: Entry)
    requires q.at - {x} == p.at - {x}
    ensures p.version + 1 == q.version && x in q.at && q.at[x] == q.version ==> Leads(p, [Change(x)], q)
    ensures p.version == q.version && x !in q.at ==> Leads(p, [Unlist(x)], q)
  {
    assert forall y :: y in q.at && y != x ==> y in p.at - {x};
    assert forall y :: y in p.at && y != x ==> y in q.at - {x};
    assert forall y :: y in p.at && y != x && y in q.at ==> (p.at - {x})[y] == p.at[y] && (q.at - {x})[y] == q.at[y];
  }

  lemma {:induction false} DistinctFit<T>(a: seq<T>, s: seq<T>)
    requires (forall i, j :: 0 <= i < j < |a| ==> a[i] != a[j]) && forall i :: 0 <= i < |a| ==> a[i] in s
    ensures |a| <= |s|
  {
    if a != [] {
      var l := |a| - 1;
      var k :| 0 <= k < |s| && s[k] == a[l];
      var s' := s[..k] + s[k + 1..];
      forall i | 0 <= i < l ensures a[..l][i] in s' {
        var j :| 0 <= j < |s| && s[j] == a[i];
        assert s'[if j < k then j else j - 1] == a[i];
      }
      DistinctFit(a[..l], s');
    }
  }

  class ChangeList {
    const clhead: DllHead<RadicalHead>

    /** The routes and markers of the table's users, on the list or not. */
    ghost const entries: set<Entry>
    var version: Version
    var nwraps: nat
    var inuse: int

    /** A marker that a walk has moved ahead and whose version it has yet to write, with that version. */
    ghost var pending: Option<(Entry, Version)>

    // ----- the invariant -----

    ghost predicate EntryOk(x: Entry)
      reads clhead`items, x
    {
      && x != clhead.head && x != clhead.tail
      && (x in clhead.items || (x.next == null && x.back == null))
      && (x.data.incl <==> x in clhead.items && !x.data.dummy)
    }

    ghost predicate Valid()
      reads clhead`items, clhead.head`next, clhead.head`back, clhead.tail`next, clhead.tail`back
      reads clhead.items`next, clhead.items`back, entries
    {
      && clhead.Valid() && (forall x :: x in clhead.items ==> x in entries)
      && forall x {:trigger EntryOk(x)} :: x in entries ==> EntryOk(x)
    }

    ghost function Level(x: Entry): Version
      reads this`pending, x`data
    {
      if x.data.dummy && pending.Some? && pending.value.0 == x then pending.value.1 else x.data.version
    }

    ghost function RowOf(x: Entry): Row
      reads this`pending, x`data
    {
      Row(x.data.dummy, Level(x))
    }

    ghost predicate FitsAt(i: int, j: int)
      reads this`pending, clhead`items, clhead.items`data
    {
      0 <= i < j < |clhead.items| ==> Fits(RowOf(clhead.items[i]), RowOf(clhead.items[j]))
    }

    ghost predicate Within(x: Entry)
      reads this`pending, this`version, x`data
    {
      Level(x) <= version && (!x.data.dummy ==> 0 < Level(x))
    }

    /** Every marker separates the routes before it from those after it, and versions go up. */
    ghost predicate Apart()
      reads this`pending, clhead`items, clhead.items`data
    {
      forall i, j {:trigger FitsAt(i, j)} :: FitsAt(i, j)
    }

    /** The routes are in the order of their versions, all of which the table has given out, and
        every marker separates the versions up to its own from those above it. */
    ghost predicate Sound()
      reads this`pending, this`version, clhead`items, clhead.items`data
    {
      Apart() && forall x {:trigger Within(x)} :: x in clhead.items ==> Within(x)
    }

    constructor (ghost entries: set<Entry>)
      requires forall x :: x in entries ==> x.next == null && x.back == null && !x.data.incl
      ensures Valid() && Sound() && clhead.items == [] && version == 0 && this.entries == entries && pending == None
      ensures fresh(clhead) && fresh(clhead.head) && fresh(clhead.tail)
    {
      this.entries := entries;
      clhead := new DllHead(RadicalHead(0, false, false), None);
      version, nwraps, inuse, pending := 0, 0, 0, None;
    }

    /** Taking an entry off the list. */
    twostate lemma SoundWithout(new x: Entry)
      requires old(Sound()) && old(clhead.Distinct()) && clhead.items == Without(old(clhead.items), x)
      requires forall y :: y in clhead.items ==> RowOf(y) == old(RowOf(y))
      requires version >= old(version)
      ensures Sound()
    {
      var s := old(clhead.items);
      var i := if x in s then Index(s, x) else |s|;
      assert forall j :: 0 <= j < |clhead.items| ==> clhead.items[j] == s[if j < i then j else j + 1];
      forall j, k ensures FitsAt(j, k) {
        assert old(FitsAt(if j < i then j else j + 1, if k < i then k else k + 1));
      }
      forall y | y in clhead.items ensures Within(y) { assert old(Within(y)); }
    }

    twostate lemma FitsWith(new i: nat, new x: Entry, new j: int, new k: int)
      requires old(Sound()) && i <= |old(clhead.items)| && clhead.items == InsertedAt(old(clhead.items), i, x)
      requires forall y :: y in old(clhead.items) ==> RowOf(y) == old(RowOf(y))
      requires forall j :: 0 <= j < i ==> Fits(RowOf(old(clhead.items)[j]), RowOf(x))
      requires forall j :: i <= j < |old(clhead.items)| ==> Fits(RowOf(x), RowOf(old(clhead.items)[j]))
      ensures FitsAt(j, k)
    {
      if 0 <= j < k < |clhead.items| {
        var s := old(clhead.items);
        if j == i {
          assert clhead.items[k] == s[k - 1];
        } else if k == i {
          assert clhead.items[j] == s[j];
        } else {
          var j', k' := if j < i then j else j - 1, if k < i then k else k - 1;
          assert clhead.items[j] == s[j'] && clhead.items[k] == s[k'];
          assert old(FitsAt(j', k'));
        }
      }
    }

    /** Putting an entry on the list at position i. */
    twostate lemma SoundWith(i: nat, new x: Entry)
      requires old(Sound()) && i <= |old(clhead.items)| && clhead.items == InsertedAt(old(clhead.items), i, x)
      requires forall y :: y in old(clhead.items) ==> RowOf(y) == old(RowOf(y))
      requires version >= old(version) && Within(x)
      requires forall j :: 0 <= j < i ==> Fits(RowOf(old(clhead.items)[j]), RowOf(x))
      requires forall j :: i <= j < |old(clhead.items)| ==> Fits(RowOf(x), RowOf(old(clhead.items)[j]))
      ensures Sound()
    {
      forall j, k ensures FitsAt(j, k) { FitsWith(i, x, j, k); }
      forall y | y in clhead.items ensures Within(y) { if y != x { assert old(Within(y)); } }
    }

    /** All entries but x are in order, and x is off the list. */
    ghost predicate Loose(x: Entry)
      reads clhead`items, clhead.head`next, clhead.head`back, clhead.tail`next, clhead.tail`back
      reads clhead.items`next, clhead.items`back, entries
    {
      && x in entries && clhead.Valid() && clhead.Outside(x) && (forall y :: y in clhead.items ==> y in entries)
      && forall y {:trigger EntryOk(y)} :: y in entries && y != x ==> EntryOk(y)
    }

    /** Only x has come onto the list or left it. */
    twostate predicate SameButFor(new x: Entry)
      reads clhead`items
    {
      forall y :: y in entries && y != x ==> (y in clhead.items <==> y in old(clhead.items))
    }

    /** Takes an entry off the list, if it is on it. */
    method Detach(x: Entry)
      requires Valid() && x in entries
      modifies clhead`items, clhead.head`next, clhead.tail`back, entries`next, entries`back
      ensures Loose(x) && clhead.items == Without(old(clhead.items), x) && (old(Sound()) ==> Sound())
      ensures SameButFor(x)
    {
      WithoutMembers(clhead.items, x);
      assert EntryOk(x);
      if x in clhead.items { clhead.LinkedIsIn(x); }
      if x.IsLinked() { clhead.Remove(x); }
      if old(Sound()) { SoundWithout(x); }
      forall y | y in entries && y != x ensures EntryOk(y) { assert old(EntryOk(y)); }
    }

    /** What an operation leaves alone: the data of every entry but x. */
    twostate predicate OnlyData(new x: Entry)
      reads entries`data
    {
      forall y :: y in entries && y != x ==> y.data == old(y.data)
    }

    /** A change: the route goes to the back of the list with the next version. A version that wraps
        to zero breaks the order. */
    method AppendToChangeList(x: Entry) returns (ver: Version)
      requires Valid() && x in entries && !x.data.dummy
      modifies this`version, this`nwraps, clhead`items, clhead.head`next, clhead.tail`back, entries`next, entries`back, x`data
      ensures Valid() && clhead.items == Without(old(clhead.items), x) + [x]
      ensures ver == version == (if old(version) == 0xffff_ffff_ffff_ffff then 0 else old(version) + 1) && x.data == RadicalHead(ver, true, false) && OnlyData(x) && SameButFor(x)
      ensures nwraps == old(nwraps) + if ver == 0 then 1 else 0
      ensures old(Sound()) ==> (Sound() <==> ver != 0)
    {
      assert EntryOk(x);
      if x.data.incl {
        Detach(x);
      }
      ver := PutAtBack(x);
    }

    method PutAtBack(x: Entry) returns (ver: Version)
      requires Loose(x) && !x.data.dummy
      modifies this`version, this`nwraps, clhead`items, clhead.head`next, clhead.tail`back, entries`next, entries`back, x`data
      ensures Valid() && clhead.items == old(clhead.items) + [x]
      ensures ver == version == (old(version) + 1) % VERSIONS && x.data == RadicalHead(ver, true, false)
      ensures nwraps == old(nwraps) + if ver == 0 then 1 else 0
      ensures old(Sound()) ==> (Sound() <==> ver != 0)
    {
      clhead.InsertAtBack(x);
      x.data := x.data.(incl := true);
      version := if version == VERSIONS - 1 then 0 else version + 1;
      x.data := x.data.(version := version);
      if version == 0 { nwraps := nwraps + 1; }
      ver := x.data.version;
      assert clhead.items == InsertedAt(old(clhead.items), |old(clhead.items)|, x);
      forall y | y in entries && y != x ensures EntryOk(y) { assert old(EntryOk(y)); }
      if old(Sound()) { AppendedIsLast(x); }
    }

    twostate lemma AppendedIsLast(new x: Entry)
      requires old(Sound()) && clhead.items == InsertedAt(old(clhead.items), |old(clhead.items)|, x)
      requires forall y :: y in old(clhead.items) ==> RowOf(y) == old(RowOf(y))
      requires !x.data.dummy && x.data.version == version == (old(version) + 1) % VERSIONS
      ensures Sound() <==> version != 0
    {
      forall y | y in old(clhead.items) ensures Level(y) <= old(version) { assert old(Within(y)); }
      if version != 0 { SoundWith(|old(clhead.items)|, x); } else { assert x in clhead.items && !Within(x); }
    }

    /** A route leaves the change list when std_radix_remove takes it out of the table. */
    method Drop(x: Entry)
      requires Valid() && x in entries && !x.data.dummy
      modifies clhead`items, clhead.head`next, clhead.tail`back, entries`next, entries`back, x`data
      ensures Valid() && clhead.items == Without(old(clhead.items), x) && OnlyData(x) && SameButFor(x)
      ensures x.data == old(x.data).(incl := false) && (old(Sound()) ==> Sound())
    {
      assert EntryOk(x);
      Detach(x);
      label detached:
      if x.data.incl { x.data := x.data.(incl := false); }
      forall y | y in entries && y != x ensures EntryOk(y) { assert old@detached(EntryOk(y)); }
      if old(Sound()) { SoundWithout@detached(x); }
    }

    // ----- markers -----

    /** x may become, or already is, the marker of a walk. */
    ghost predicate CanMark(x: Entry)
      reads this`pending, clhead`items, x`data
    {
      x in entries && (x.data.dummy || x !in clhead.items) && (pending.Some? ==> pending.value.0 != x)
    }

    /** Starts a walk, or starts it anew, in front of all changes. */
    method WalkConstructor(d: Entry)
      requires Valid() && CanMark(d)
      modifies this`inuse, clhead`items, clhead.head`next, clhead.tail`back, entries`next, entries`back, d`data
      ensures Valid() && clhead.items == [d] + Without(old(clhead.items), d) && OnlyData(d) && SameButFor(d)
      ensures d.data == RadicalHead(0, false, true) && inuse == old(inuse) + 1
      ensures old(Sound()) ==> Sound()
    {
      assert EntryOk(d);
      Detach(d);
      PutAtFront(d);
    }

    method PutAtFront(d: Entry)
      requires Loose(d) && !d.data.incl && (pending.Some? ==> pending.value.0 != d)
      modifies this`inuse, clhead`items, clhead.head`next, clhead.tail`back, entries`next, entries`back, d`data
      ensures Valid() && clhead.items == [d] + old(clhead.items) && d.data == RadicalHead(0, false, true) && inuse == old(inuse) + 1
      ensures old(Sound()) ==> Sound()
    {
      d.data := d.data.(dummy := true);
      clhead.InsertAtFront(d);
      d.data := d.data.(version := 0);
      inuse := inuse + 1;
      forall y | y in entries && y != d ensures EntryOk(y) { assert old(EntryOk(y)); }
      if old(Sound()) { MarkerFits(0, d); }
    }

    /** A marker at a position where it separates the versions. */
    twostate lemma MarkerFits(i: nat, new d: Entry)
      requires old(Sound()) && i <= |old(clhead.items)| && clhead.items == InsertedAt(old(clhead.items), i, d)
      requires forall y :: y in old(clhead.items) ==> RowOf(y) == old(RowOf(y))
      requires version == old(version) && d.data.dummy && Level(d) <= version
      requires forall j :: 0 <= j < i && !old(clhead.items)[j].data.dummy ==> old(clhead.items)[j].data.version <= Level(d)
      requires forall j :: i <= j < |old(clhead.items)| && !old(clhead.items)[j].data.dummy ==> Level(d) < old(clhead.items)[j].data.version || i == 0 == Level(d)
      ensures Sound()
    {
      forall y | y in old(clhead.items) && !y.data.dummy ensures 0 < Level(y) { assert old(Within(y)); assert RowOf(y) == old(RowOf(y)); }
      SoundWith(i, d);
    }

    /** Starts a walk at the point that another walk has reached. */
    method WalkConstructorAfter(after: Entry, d: Entry)
      requires Valid() && CanMark(d) && after in clhead.items && after.data.dummy && after != d
      requires pending.Some? ==> pending.value.0 != after
      modifies this`inuse, clhead`items, clhead.head`next, clhead.tail`back, entries`next, entries`back, d`data
      ensures Valid() && OnlyData(d) && SameButFor(d) && d.data == RadicalHead(after.data.version, false, true) && inuse == old(inuse) + 1
      ensures after in Without(old(clhead.items), d)
      ensures var s := Without(old(clhead.items), d); clhead.items == InsertedAt(s, Index(s, after) + 1, d)
      ensures old(Sound()) ==> Sound()
    {
      assert EntryOk(d);
      Detach(d);
      PutAfter(after, d);
    }

    method PutAfter(after: Entry, d: Entry)
      requires Loose(d) && after in clhead.items && after.data.dummy && !d.data.incl
      requires pending.Some? ==> pending.value.0 != after && pending.value.0 != d
      modifies this`inuse, clhead`items, clhead.tail`back, entries`next, entries`back, d`data
      ensures Valid() && d.data == RadicalHead(after.data.version, false, true) && inuse == old(inuse) + 1
      ensures clhead.items == InsertedAt(old(clhead.items), old(Index(clhead.items, after)) + 1, d)
      ensures old(Sound()) ==> Sound()
    {
      ghost var k := clhead.IndexOf(after);
      if Sound() { AroundMarker(k); }
      LinkAfter(after, d);
      if old(Sound()) { MarkerFits(k + 1, d); }
    }

    method LinkAfter(after: Entry, d: Entry)
      requires Loose(d) && after in clhead.items && !d.data.incl
      requires pending.Some? ==> pending.value.0 != d
      modifies this`inuse, clhead`items, clhead.tail`back, entries`next, entries`back, d`data
      ensures Valid() && d.data == RadicalHead(after.data.version, false, true) && inuse == old(inuse) + 1
      ensures clhead.items == InsertedAt(old(clhead.items), old(Index(clhead.items, after)) + 1, d)
    {
      d.data := d.data.(dummy := true);
      clhead.InsertAfter(after, d);
      d.data := d.data.(version := after.data.version);
      inuse := inuse + 1;
      forall y | y in entries && y != d ensures EntryOk(y) { assert old(EntryOk(y)); }
    }

    /** What a marker on the list separates. */
    lemma AroundMarker(k: nat)
      requires Sound() && k < |clhead.items| && clhead.items[k].data.dummy
      ensures var s, v := clhead.items, Level(clhead.items[k]);
              && v <= version
              && (forall j :: 0 <= j < k && !s[j].data.dummy ==> s[j].data.version <= v)
              && forall j :: k < j < |s| && !s[j].data.dummy ==> v < s[j].data.version
    {
      assert Within(clhead.items[k]);
      forall j | 0 <= j < |clhead.items| && !clhead.items[j].data.dummy
        ensures j < k ==> clhead.items[j].data.version <= Level(clhead.items[k])
        ensures j > k ==> Level(clhead.items[k]) < clhead.items[j].data.version
      {
        assert FitsAt(j, k) && FitsAt(k, j);
      }
    }

    /** Ends a walk. */
    method WalkDestructor(d: Entry)
      requires Valid() && d in entries && d.data.dummy && (pending.Some? ==> pending.value.0 != d)
      modifies this`inuse, clhead`items, clhead.head`next, clhead.tail`back, entries`next, entries`back, d`data
      ensures Valid() && clhead.items == Without(old(clhead.items), d) && OnlyData(d) && SameButFor(d)
      ensures d.data == old(d.data).(dummy := false) && inuse == old(inuse) - 1
      ensures old(Sound()) ==> Sound()
    {
      assert EntryOk(d);
      Detach(d);
      label detached:
      d.data := d.data.(dummy := false);
      inuse := inuse - 1;
      forall y | y in entries && y != d ensures EntryOk(y) { assert old@detached(EntryOk(y)); }
      if old(Sound()) { SoundWithout@detached(d); }
    }

    // ----- looking ahead -----

    ghost function Now(): Picture
      reads this`version, clhead`items, clhead.items`data
    {
      Picture(version, map x | x in clhead.items && !x.data.dummy :: x.data.version)
    }

    ghost function ItemAt(i: nat): MaybeEntry
      reads clhead`items
    {
      if i < |clhead.items| then clhead.items[i] else null
    }

    /** From the item at i, past the markers, to the next route. */
    method SkipMarkers(x: MaybeEntry, ghost i: nat) returns (r: MaybeEntry, ghost k: nat)
      requires clhead.Valid() && i <= |clhead.items| && x == ItemAt(i)
      ensures i <= k <= |clhead.items| && r == ItemAt(k) && (r != null ==> !r.data.dummy)
      ensures forall j :: i <= j < k ==> clhead.items[j].data.dummy
    {
      r, k := x, i;
      while r != null && r.data.dummy
        invariant i <= k <= |clhead.items| && r == ItemAt(k)
        invariant forall j :: i <= j < k ==> clhead.items[j].data.dummy
        decreases |clhead.items| - k
      {
        clhead.LinkedIsIn(r);
        r := clhead.GetNext(r);
        k := k + 1;
      }
    }

    /** A route on the list. */
    ghost predicate Live(x: Entry)
      reads clhead`items, x`data
    {
      x in clhead.items && !x.data.dummy
    }

    /** The first route after a point that separates the versions at v. */
    lemma FirstIsLowest(v: int, i: nat, k: nat)
      requires Sound() && i <= k <= |clhead.items| && (k < |clhead.items| ==> !clhead.items[k].data.dummy)
      requires forall j :: i <= j < k ==> clhead.items[j].data.dummy
      requires forall j :: 0 <= j < i && !clhead.items[j].data.dummy ==> clhead.items[j].data.version <= v
      requires forall j :: i <= j < |clhead.items| && !clhead.items[j].data.dummy ==> v < clhead.items[j].data.version
      ensures Now().LowestAbove(v, ItemAt(k))
    {
      forall j | k < j < |clhead.items| && k < |clhead.items| && !clhead.items[j].data.dummy
        ensures clhead.items[k].data.version < clhead.items[j].data.version
      {
        assert FitsAt(k, j);
      }
    }

    /** The version of the next change that a walk will deliver, or zero. */
    method NextVersion(d: Entry) returns (ver: Version)
      requires Valid() && d in clhead.items && d.data.dummy
      ensures Sound() && pending == None ==>
                if ver == 0 then Now().LowestAbove(d.data.version, null)
                else exists r :: r in clhead.items && Now().LowestAbove(d.data.version, r) && r.data.version == ver
    {
      ghost var i := clhead.IndexOf(d);
      var rth, k := SkipMarkers(d, i);
      if Sound() && pending == None {
        AroundMarker(i);
        FirstIsLowest(d.data.version, i, k);
        if rth != null { assert Within(rth); }
      }
      return if rth != null then rth.data.version else 0;
    }

    /** The oldest change. */
    method GetFirst() returns (r: MaybeEntry)
      requires Valid()
      ensures Sound() ==> Now().LowestAbove(0, r)
    {
      var first := clhead.GetFirst();
      ghost var k;
      r, k := SkipMarkers(first, 0);
      if Sound() {
        forall j | 0 <= j < |clhead.items| && !clhead.items[j].data.dummy ensures 0 < clhead.items[j].data.version {
          assert Within(clhead.items[j]);
        }
        FirstIsLowest(0, 0, k);
      }
    }

    /** The change after a given one. */
    method GetNext(x: Entry) returns (r: MaybeEntry)
      requires Valid() && Live(x)
      ensures Sound() ==> Now().LowestAbove(x.data.version, r)
    {
      clhead.LinkedIsIn(x);
      ghost var i := clhead.IndexOf(x);
      var next := clhead.GetNext(x);
      ghost var k;
      r, k := SkipMarkers(next, i + 1);
      if Sound() {
        forall j | 0 <= j < |clhead.items| && !clhead.items[j].data.dummy
          ensures j < i ==> clhead.items[j].data.version <= x.data.version
          ensures j > i ==> x.data.version < clhead.items[j].data.version
        {
          assert FitsAt(j, i) && FitsAt(i, j);
        }
        FirstIsLowest(x.data.version, i + 1, k);
      }
    }

    // ----- renumbering -----

    /** The first k items are numbered: their routes have the versions 1 to ver, in order. */
    ghost predicate Numbered(k: nat, ver: nat)
      reads this`pending, clhead`items, clhead.items`data
    {
      && k <= |clhead.items|
      && (forall i, j {:trigger FitsAt(i, j)} :: j < k ==> FitsAt(i, j))
      && (forall i :: 0 <= i < k ==> clhead.items[i].data.version <= ver && (!clhead.items[i].data.dummy ==> 0 < clhead.items[i].data.version))
      && (forall v {:trigger Used(k, v)} :: 1 <= v <= ver ==> Used(k, v))
    }

    ghost predicate Used(k: nat, v: int)
      requires k <= |clhead.items|
      reads clhead`items, clhead.items`data
    {
      exists i :: 0 <= i < k && !clhead.items[i].data.dummy && clhead.items[i].data.version == v
    }

    /** Renumbers the list after the versions have wrapped, from any state: the routes get the
        versions 1 to ver in the order of the list, and the markers separate them as they stand. */
    method ProcVerWrap() returns (ver: Version)
      requires Valid() && pending == None && |clhead.items| < VERSIONS
      modifies clhead.items`data
      ensures Valid() && Apart() && Numbered(|clhead.items|, ver)
      ensures OnlyVersions() && (Sound() <==> ver <= version)
    {
      ver := 0;
      ghost var k := 0;
      var rth := clhead.GetFirst();
      while rth != null
        invariant Valid() && k <= |clhead.items| && rth == ItemAt(k) && ver <= k && Numbered(k, ver) && OnlyVersions()
        decreases |clhead.items| - k
      {
        ver, rth := PaintNext(rth, k, ver);
        k := k + 1;
      }
      NumberedIsApart(ver);
      NumberedIsSound(ver);
    }

    /** rtt_version stays as it was: the list is sound again only if it is not below the last number. */
    lemma NumberedIsSound(ver: nat)
      requires Numbered(|clhead.items|, ver) && Apart() && pending == None
      ensures Sound() <==> ver <= version
    {
      if ver <= version {
        forall y | y in clhead.items ensures Within(y) {}
      } else {
        assert Used(|clhead.items|, ver);
        var i :| 0 <= i < |clhead.items| && !clhead.items[i].data.dummy && clhead.items[i].data.version == ver;
        assert !Within(clhead.items[i]);
      }
    }

    lemma NumberedIsApart(ver: nat)
      requires Numbered(|clhead.items|, ver)
      ensures Apart()
    {
      forall i, j ensures FitsAt(i, j) {}
    }

    /** Nothing but the versions of the entries on the list has changed. */
    twostate predicate OnlyVersions()
      reads clhead`items, clhead.items`data
    {
      clhead.items == old(clhead.items) && forall i :: 0 <= i < |clhead.items| ==>
        clhead.items[i].data == old(clhead.items[i].data).(version := clhead.items[i].data.version)
    }

    method PaintNext(rth: Entry, ghost k: nat, from: Version) returns (ver: Version, next: MaybeEntry)
      requires Valid() && pending == None && k < |clhead.items| && rth == clhead.items[k] && Numbered(k, from)
      requires from <= k < VERSIONS - 1
      modifies rth`data
      ensures Valid() && Numbered(k + 1, ver) && from <= ver <= k + 1 && next == ItemAt(k + 1) && OnlyVersions()
    {
      ver := Paint(rth, k, from);
      clhead.LinkedIsIn(rth);
      next := clhead.GetNext(rth);
    }

    method Paint(rth: Entry, ghost k: nat, from: Version) returns (ver: Version)
      requires Valid() && pending == None && k < |clhead.items| && rth == clhead.items[k] && Numbered(k, from)
      requires from <= k < VERSIONS - 1
      modifies rth`data
      ensures Valid() && Numbered(k + 1, ver) && from <= ver <= k + 1
      ensures rth.data == old(rth.data).(version := rth.data.version)
    {
      ver := from;
      if rth.data.dummy {
        rth.data := rth.data.(version := ver);
      } else {
        ver := ver + 1;
        rth.data := rth.data.(version := ver);
      }
      NumberedOneMore(k, from, ver);
      forall y | y in entries ensures EntryOk(y) { assert old(EntryOk(y)); }
    }

    twostate lemma NumberedOneMore(k: nat, new ver: nat, new ver': nat)
      requires old(clhead.Valid() && Numbered(k, ver)) && clhead.items == old(clhead.items) && k < |clhead.items| && pending == None
      requires forall i :: 0 <= i < |clhead.items| && i != k ==> clhead.items[i].data == old(clhead.items[i].data)
      requires clhead.items[k].data.dummy == old(clhead.items[k].data.dummy) && clhead.items[k].data.version == ver'
      requires ver' == if clhead.items[k].data.dummy then ver else ver + 1
      requires pending == old(pending)
      ensures Numbered(k + 1, ver')
    {
      forall i, j | j < k + 1 ensures FitsAt(i, j) { if j < k { assert old(FitsAt(i, j)); } }
      forall v {:trigger Used(k + 1, v)} | 1 <= v <= ver' ensures Used(k + 1, v) {
        if v <= ver {
          assert old(Used(k, v));
          var i :| 0 <= i < k && !old(clhead.items[i].data.dummy) && old(clhead.items[i].data.version) == v;
          assert !clhead.items[i].data.dummy && clhead.items[i].data.version == v;
        } else {
          assert !clhead.items[k].data.dummy && clhead.items[k].data.version == v;
        }
      }
    }

    // ----- callbacks -----

    ghost predicate Mine(a: Action) {
      match a
      case Change(x) => x in entries
      case Unlist(x) => x in entries
      case StartWalk(d) => d in entries
      case StartWalkAfter(after, d) => after in entries && d in entries
      case EndWalk(d) => d in entries
    }

    /** Nothing but x has come or gone or got a new version. */
    twostate lemma OnlyOne(new x: Entry)
      requires SameButFor(x) && (forall y :: y in clhead.items ==> y in entries) && (forall y :: y in old(clhead.items) ==> y in entries)
      requires forall y :: y in entries && y != x ==> y.data == old(y.data)
      ensures Now().at - {x} == old(Now()).at - {x}
    {}

    /** Nothing but markers has come or gone. */
    twostate lemma OnlyMarker(new d: Entry)
      requires version == old(version) && SameButFor(d)
      requires (d in clhead.items ==> d.data.dummy) && (d in old(clhead.items) ==> old(d.data.dummy))
      requires (forall y :: y in clhead.items ==> y in entries) && (forall y :: y in old(clhead.items) ==> y in entries)
      requires forall y :: y in entries && y != d ==> y.data == old(y.data)
      ensures Now() == old(Now())
    {}

    twostate predicate Advanced()
      reads this, clhead`items, clhead.items`data, entries`data
    {
      pending == old(pending) && (old(Sound()) ==> Sound())
    }

    /** Another walk starts. */
    method StartOther(d: Entry)
      requires Valid() && d in entries && (d.data.dummy || !d.data.incl) && (pending.Some? ==> pending.value.0 != d)
      modifies this`inuse, clhead`items, clhead.head`next, clhead.tail`back, entries`next, entries`back, d`data
      ensures Valid() && SameButFor(d) && Advanced() && Now() == old(Now())
    {
      assert EntryOk(d);
      WalkConstructor(d);
      OnlyMarker(d);
    }

    /** Another walk starts where a third one is. */
    method StartOtherAfter(after: Entry, d: Entry)
      requires Valid() && d in entries && (d.data.dummy || !d.data.incl) && after in clhead.items && after.data.dummy && after != d
      requires pending.Some? ==> pending.value.0 != d && pending.value.0 != after
      modifies this`inuse, clhead`items, clhead.head`next, clhead.tail`back, entries`next, entries`back, d`data
      ensures Valid() && SameButFor(d) && Advanced() && Now() == old(Now())
    {
      assert EntryOk(d);
      WalkConstructorAfter(after, d);
      OnlyMarker(d);
    }

    /** Another walk ends. */
    method EndOther(d: Entry)
      requires Valid() && d in entries && d.data.dummy && (pending.Some? ==> pending.value.0 != d)
      modifies this`inuse, clhead`items, clhead.head`next, clhead.tail`back, entries`next, entries`back, d`data
      ensures Valid() && SameButFor(d) && Advanced() && Now() == old(Now())
    {
      WalkDestructor(d);
      OnlyMarker(d);
    }

    /** Another walk starts or ends. */
    method PerformMarker(a: Action, walker: Entry)
      requires Valid() && Mine(a) && !a.Change? && !a.Unlist? && walker in clhead.items && walker.data.dummy
      requires pending.Some? && pending.value.0 == walker
      modifies this`inuse, clhead`items, clhead.head`next, clhead.tail`back, entries
      ensures Valid() && walker in clhead.items && walker.data == old(walker.data) && Advanced()
      ensures Now() == old(Now())
    {
      match a
      case StartWalk(d) =>
        if d != walker && (d.data.dummy || !d.data.incl) { StartOther(d); }
      case StartWalkAfter(after, d) =>
        assert EntryOk(after);
        if after.IsLinked() { clhead.LinkedIsIn(after); }
        if d != walker && after != walker && after != d && after.data.dummy && after.IsLinked() && (d.data.dummy || !d.data.incl) {
          StartOtherAfter(after, d);
        }
      case EndWalk(d) =>
        if d != walker && d.data.dummy { EndOther(d); }
    }

    /** A route changes, unless the versions are about to wrap. */
    method PerformChange(x: Entry, walker: Entry)
      requires Valid() && x in entries && walker in clhead.items && walker.data.dummy
      modifies this`version, this`nwraps, clhead`items, clhead.head`next, clhead.tail`back, entries
      ensures Valid() && walker in clhead.items && walker.data == old(walker.data) && Advanced()
      ensures Leads(old(Now()), [Change(x)], Now())
    {
      if !x.data.dummy && version < VERSIONS - 1 {
        var ver := AppendToChangeList(x);
        OnlyOne(x);
        OneLeads(old(Now()), Now(), x);
      }
    }

    method PerformUnlist(x: Entry, walker: Entry)
      requires Valid() && x in entries && walker in clhead.items && walker.data.dummy
      modifies clhead`items, clhead.head`next, clhead.tail`back, entries
      ensures Valid() && walker in clhead.items && walker.data == old(walker.data) && Advanced()
      ensures Leads(old(Now()), [Unlist(x)], Now())
    {
      if !x.data.dummy {
        Drop(x);
        OnlyOne(x);
        OneLeads(old(Now()), Now(), x);
      }
    }

    method Perform(a: Action, walker: Entry)
      requires Valid() && Mine(a) && walker in clhead.items && walker.data.dummy
      requires pending.Some? && pending.value.0 == walker
      modifies this`version, this`nwraps, this`inuse, clhead`items, clhead.head`next, clhead.tail`back, entries
      ensures Valid() && walker in clhead.items && walker.data == old(walker.data) && Advanced()
      ensures Leads(old(Now()), [a], Now())
    {
      match a
      case Change(x) => PerformChange(x, walker);
      case Unlist(x) => PerformUnlist(x, walker);
      case _ => PerformMarker(a, walker);
    }

    /** All that a callback does, one action after the other. */
    method PerformAll(acts: seq<Action>, walker: Entry)
      requires Valid() && (forall a :: a in acts ==> Mine(a)) && walker in clhead.items && walker.data.dummy
      requires pending.Some? && pending.value.0 == walker
      modifies this`version, this`nwraps, this`inuse, clhead`items, clhead.head`next, clhead.tail`back, entries
      ensures Valid() && walker in clhead.items && walker.data == old(walker.data) && Advanced()
      ensures Leads(old(Now()), acts, Now())
    {
      var i := 0;
      while i < |acts|
        invariant i <= |acts| && Valid() && walker in clhead.items && walker.data == old(walker.data) && Advanced()
        invariant Leads(old(Now()), acts[..i], Now())
      {
        ghost var now := Now();
        Perform(acts[i], walker);
        LeadsOn(old(Now()), acts[..i], now, [acts[i]], Now());
        assert acts[..i + 1] == acts[..i] + [acts[i]];
        i := i + 1;
      }
      assert acts[..i] == acts;
    }

    // ----- the walk -----

    /** Where an item is; null is the end of the list. */
    ghost function Pos(t: MaybeEntry): nat
      requires t != null ==> t in clhead.items
      reads clhead`items
    {
      if t == null then |clhead.items| else Index(clhead.items, t)
    }

    /** The marker d is off the list, and t is the item at the point that it separates. */
    ghost predicate Gap(d: Entry, t: MaybeEntry)
      reads this`pending, this`version, clhead`items, clhead.head`next, clhead.head`back, clhead.tail`next, clhead.tail`back
      reads clhead.items`next, clhead.items`back, clhead.items`data, entries
    {
      && Loose(d) && d.data.dummy && !d.data.incl && d.data.version <= version && Sound() && pending == None
      && (t != null ==> t in clhead.items)
      && forall k :: 0 <= k < |clhead.items| && !clhead.items[k].data.dummy ==>
           (clhead.items[k].data.version <= d.data.version <==> k < Pos(t))
    }

    /** What the marker at k separated is now apart at the item that followed it. */
    twostate lemma GapLeft(new k: nat, new v: Version, new t: MaybeEntry)
      requires old(clhead.Distinct()) && k < |old(clhead.items)|
      requires clhead.items == old(clhead.items)[..k] + old(clhead.items)[k + 1..] && t == old(ItemAt(k + 1))
      requires forall x :: x in clhead.items ==> x.data == old(x.data)
      requires forall j :: 0 <= j < k && !old(clhead.items[j].data.dummy) ==> old(clhead.items[j].data.version) <= v
      requires forall j :: k < j < |old(clhead.items)| && !old(clhead.items[j].data.dummy) ==> v < old(clhead.items[j].data.version)
      ensures t == ItemAt(k) && (t != null ==> t in clhead.items) && Pos(t) == k
      ensures forall j :: 0 <= j < |clhead.items| && !clhead.items[j].data.dummy ==> (clhead.items[j].data.version <= v <==> j < Pos(t))
    {
      var s := old(clhead.items);
      if t != null {
        var i := Index(clhead.items, t);
        assert s[if i < k then i else i + 1] == t == s[k + 1];
      }
      forall j | 0 <= j < |clhead.items| && !clhead.items[j].data.dummy
        ensures clhead.items[j].data.version <= v <==> j < k
      {
        assert clhead.items[j] == if j < k then s[j] else s[j + 1];
      }
    }

    /** Takes the marker off the list, to look at what is next. */
    method StepOff(d: Entry) returns (t: MaybeEntry)
      requires Valid() && Sound() && pending == None && d in clhead.items && d.data.dummy
      modifies clhead`items, clhead.head`next, clhead.tail`back, entries`next, entries`back
      ensures Gap(d, t) && SameButFor(d) && Now() == old(Now())
    {
      ghost var k := clhead.IndexOf(d);
      AroundMarker(k);
      assert EntryOk(d);
      t := clhead.GetNext(d);
      TakeOff(d);
      OnlyMarker(d);
      GapLeft(k, d.data.version, t);
    }

    method TakeOff(d: Entry)
      requires Valid() && Sound() && d in clhead.items && d.data.dummy && d in entries
      modifies clhead`items, clhead.head`next, clhead.tail`back, entries`next, entries`back
      ensures var k := old(clhead.IndexOf(d)); clhead.items == old(clhead.items)[..k] + old(clhead.items)[k + 1..]
      ensures Loose(d) && Sound() && SameButFor(d)
    {
      Detach(d);
    }

    /** Past another walk's marker. */
    method StepOver(d: Entry, t: Entry) returns (t': MaybeEntry)
      requires Gap(d, t) && t.data.dummy
      ensures Gap(d, t') && Pos(t') == Pos(t) + 1
    {
      clhead.LinkedIsIn(t);
      t' := clhead.GetNext(t);
      if t' != null { clhead.LinkedIsIn(t'); }
    }

    /** A route at the gap is the next change. */
    lemma GapNext(d: Entry, t: Entry)
      requires Gap(d, t) && !t.data.dummy
      ensures Now().LowestAbove(d.data.version, t)
      ensures forall x :: x in clhead.items && Live(x) && x.data.version == t.data.version ==> x == t
    {
      var k := Index(clhead.items, t);
      forall j | 0 <= j < |clhead.items| && !clhead.items[j].data.dummy
        ensures j > k ==> t.data.version < clhead.items[j].data.version
        ensures j < k ==> clhead.items[j].data.version < t.data.version
      {
        assert FitsAt(k, j) && FitsAt(j, k);
      }
    }

    /** Puts the marker behind the route that the callback is called for, and calls it. */
    method Announce(d: Entry, t: Entry, acts: seq<Action>)
      requires Gap(d, t) && !t.data.dummy && forall a :: a in acts ==> Mine(a)
      modifies this`version, this`nwraps, this`inuse, this`pending, clhead`items, clhead.head`next, clhead.tail`back, entries
      ensures Valid() && d in clhead.items && d.data == old(d.data)
      ensures pending == Some((d, old(t.data.version))) && Sound() && Leads(old(Now()), acts, Now())
    {
      PutBehind(d, t);
      PerformAll(acts, d);
    }

    /** The marker behind t at its version. */
    twostate lemma BehindRoute(new k: nat, new d: Entry, new t: Entry)
      requires old(Sound()) && k < |old(clhead.items)| && old(clhead.items)[k] == t && !old(t.data.dummy)
      requires clhead.items == InsertedAt(old(clhead.items), k + 1, d) && version == old(version)
      requires forall y :: y in old(clhead.items) ==> RowOf(y) == old(RowOf(y))
      requires d.data.dummy && Level(d) == t.data.version
      ensures Sound()
    {
      var s := old(clhead.items);
      assert old(Within(t));
      forall j | 0 <= j < |s| && !s[j].data.dummy
        ensures j <= k ==> s[j].data.version <= t.data.version
        ensures j > k ==> s[j].data.version > t.data.version
      {
        assert old(FitsAt(k, j)) && old(FitsAt(j, k));
        assert RowOf(s[j]) == old(RowOf(s[j]));
      }
      MarkerFits(k + 1, d);
    }

    method PutBehind(d: Entry, t: Entry)
      requires Gap(d, t) && !t.data.dummy
      modifies this`pending, clhead`items, clhead.tail`back, entries`next, entries`back
      ensures Valid() && d in clhead.items && SameButFor(d) && pending == Some((d, t.data.version)) && Sound() && Now() == old(Now())
    {
      ghost var k := Pos(t);
      clhead.InsertAfter(t, d);
      pending := Some((d, t.data.version));
      forall y | y in entries ensures EntryOk(y) { if y != d { assert old(EntryOk(y)); } }
      BehindRoute(k, d, t);
      OnlyMarker(d);
    }

    // ----- what a walk delivers -----

    /** The visits went up through the versions above lo and up to hi. */
    static ghost predicate Ascending(visited: seq<(Entry, Version)>, lo: int, hi: int) {
      forall i, j {:trigger InTurn(visited, lo, hi, i, j)} :: InTurn(visited, lo, hi, i, j)
    }

    static ghost predicate InTurn(visited: seq<(Entry, Version)>, lo: int, hi: int, i: int, j: int) {
      && (0 <= i < j < |visited| ==> visited[i].1 < visited[j].1)
      && (0 <= i < |visited| ==> lo < visited[i].1 <= hi)
    }

    static lemma OneMore(visited: seq<(Entry, Version)>, lo: int, hi: int, t: Entry, v: Version)
      requires Ascending(visited, lo, hi) && lo <= hi < v
      ensures Ascending(visited + [(t, v)], lo, v)
    {
      var s := visited + [(t, v)];
      forall i, j ensures InTurn(s, lo, v, i, j) { assert InTurn(visited, lo, hi, i, j) && InTurn(visited, lo, hi, i, i); }
    }

    static lemma Higher(visited: seq<(Entry, Version)>, lo: int, hi: int, hi': int)
      requires Ascending(visited, lo, hi) && hi <= hi'
      ensures Ascending(visited, lo, hi')
    {
      forall i, j ensures InTurn(visited, lo, hi', i, j) { assert InTurn(visited, lo, hi, i, j); }
    }

    static lemma NoVisits(lo: int, hi: int)
      ensures Ascending([], lo, hi)
    {
      forall i, j ensures InTurn([], lo, hi, i, j) {}
    }

    /** A visit at a version that the table had given out before was to a route that had it then. */
    ghost predicate Origins(visited: seq<(Entry, Version)>, p: Picture) {
      && (forall i :: 0 <= i < |visited| ==> visited[i].0 in entries)
      && forall i :: 0 <= i < |visited| && visited[i].1 <= p.version ==> (visited[i].0 in p.at && p.at[visited[i].0] == visited[i].1)
    }

    /** The callback does nothing to the list. */
    static ghost predicate Quiet(script: Script, known: set<Entry>) {
      forall n: nat, x :: x in known ==> script(n, x).acts == []
    }

    /** The callback answered every visit but the last with zero. */
    static ghost predicate Answered(visited: seq<(Entry, Version)>, script: Script, ret: int) {
      && (forall i :: 0 <= i < |visited| - 1 ==> script(i, visited[i].0).ret == 0)
      && ret == if visited == [] then 0 else script(|visited| - 1, visited[|visited| - 1].0).ret
    }

    /** The callback asks neither for a stop nor for a revisit. */
    static ghost predicate Patient(script: Script, known: set<Entry>) {
      forall n: nat, x :: x in known ==> script(n, x).ret == 0
    }

    /** All that the callbacks of the visits have done. */
    static function Done(script: Script, visited: seq<(Entry, Version)>): seq<Action> {
      if visited == [] then []
      else
        var last := |visited| - 1;
        Done(script, visited[..last]) + script(last, visited[last].0).acts
    }

    static lemma {:induction false} QuietDoesNothing(script: Script, visited: seq<(Entry, Version)>, known: set<Entry>)
      requires Quiet(script, known) && forall i :: 0 <= i < |visited| ==> visited[i].0 in known
      ensures Done(script, visited) == []
    {
      if visited != [] { QuietDoesNothing(script, visited[..|visited| - 1], known); }
    }

    /** maxnodes calls, where zero means 0xffffffff. */
    static function Limit(maxnodes: nat): nat {
      if maxnodes == 0 then 0xffff_ffff else maxnodes
    }

    /** What the source demands of a callback that asks for a revisit: it does not take its route off the list. */
    ghost predicate Legal(r: Reaction, t: Entry) {
      (forall a :: a in r.acts ==> Mine(a)) && (r.ret < 0 ==> Unlist(t) !in r.acts)
    }

    /** The marker stands directly in front of t. */
    ghost predicate InFront(d: Entry, t: Entry)
      reads clhead`items
    {
      d in clhead.items && t in clhead.items && clhead.IndexOf(t) == clhead.IndexOf(d) + 1
    }

    /** The versions of the routes go up, wherever the markers are. */
    ghost predicate RoutesAt(i: int, j: int)
      reads clhead`items, clhead.items`data
    {
      0 <= i < j < |clhead.items| && !clhead.items[i].data.dummy && !clhead.items[j].data.dummy ==>
        clhead.items[i].data.version < clhead.items[j].data.version
    }

    ghost predicate RoutesInOrder()
      reads clhead`items, clhead.items`data
    {
      forall i, j {:trigger RoutesAt(i, j)} :: RoutesAt(i, j)
    }

    static function Max(a: int, b: int): int {
      if a < b then b else a
    }

    /** What a walk leaves whose callback has asked for a revisit of t. The marker stands in front of t
        again, but separates the versions only if t is still the next route after the marker's version. */
    ghost predicate SteppedBack(d: Entry, t: Entry)
      reads this`pending, this`version, clhead`items, clhead.items`data, d`data, t`data
    {
      Live(t) && InFront(d, t) && d.data.version < t.data.version && RoutesInOrder() && (Sound() <==> Now().NoneBetween(d.data.version, t.data.version))
    }

    /** What a callback for the next route t leaves of the routes up to its version. */
    lemma Overtaken(p: Picture, acts: seq<Action>, q: Picture, visited: seq<(Entry, Version)>, lo: int, f: int, t: Entry)
      requires Leads(p, acts, q) && p.LowestAbove(f, t) && p.Heard(visited, lo, f) && p.at[t] <= p.version
      requires forall x :: x in p.at && p.at[x] == p.at[t] ==> x == t
      ensures q.NoneBetween(f, p.at[t]) && q.Heard(visited + [(t, p.at[t])], lo, p.at[t])
      ensures t in q.at ==> q.at[t] == p.at[t] || q.at[t] > p.version
    {}

    /** One call of the callback, and what the walk does with its answer. */
    method Visit(d: Entry, t: Entry, r: Reaction, ghost visited: seq<(Entry, Version)>, ghost lo: int)
      requires Gap(d, t) && !t.data.dummy && Legal(r, t) && Now().Heard(visited, lo, d.data.version)
      modifies this`version, this`nwraps, this`inuse, this`pending, clhead`items, clhead.head`next, clhead.tail`back, entries
      ensures Valid() && d in clhead.items && d.data.dummy && pending == None && Leads(old(Now()), r.acts, Now())
      ensures r.ret >= 0 ==> Sound() && d.data.version == old(t.data.version)
      ensures r.ret < 0 ==> d.data == old(d.data) && SteppedBack(d, t) && (Change(t) !in r.acts ==> Now().LowestAbove(d.data.version, t) && t.data.version == old(t.data.version))
      ensures Now().Heard(visited + [(t, old(t.data.version))], lo, old(t.data.version))
    {
      GapNext(d, t);
      ghost var p, f := Now(), d.data.version;
      var rthVersion := t.data.version;
      assert Within(t) && p.LowestAbove(f, t);
      Announce(d, t, r.acts);
      Overtaken(p, r.acts, Now(), visited, lo, f, t);
      if r.ret >= 0 {
        Acknowledge(d, rthVersion);
      } else {
        StepBack(d, t);
      }
    }

    /** The marker takes the version of the route that was visited. */
    method Acknowledge(d: Entry, ver: Version)
      requires Valid() && d in clhead.items && d.data.dummy && pending == Some((d, ver)) && Sound()
      modifies this`pending, d`data
      ensures Valid() && pending == None && Sound() && d.data == old(d.data).(version := ver) && Now() == old(Now())
    {
      d.data := d.data.(version := ver);
      pending := None;
      forall y | y in entries ensures EntryOk(y) { assert old(EntryOk(y)); }
      forall y | y in clhead.items ensures RowOf(y) == old(RowOf(y)) {}
      forall i, j ensures FitsAt(i, j) { assert old(FitsAt(i, j)); }
      forall y | y in clhead.items ensures Within(y) { assert old(Within(y)); }
    }

    /** The marker is back in front of t. */
    twostate lemma BackInFront(new k: nat, new d: Entry, new t: Entry)
      requires old(Sound()) && old(clhead.Distinct()) && k < |old(clhead.items)| && old(clhead.items)[k] == t && !old(t.data.dummy)
      requires clhead.items == InsertedAt(old(clhead.items), k, d) && d !in old(clhead.items)
      requires forall y :: y in old(clhead.items) ==> RowOf(y) == old(RowOf(y))
      requires version == old(version) && d.data.dummy && Level(d) == d.data.version <= version && d.data.version < t.data.version
      ensures RoutesInOrder() && (Sound() <==> Now().NoneBetween(d.data.version, t.data.version))
    {
      var s := old(clhead.items);
      forall j | 0 <= j < |s| && !s[j].data.dummy
        ensures j < k ==> s[j].data.version <= t.data.version - 1
        ensures j >= k ==> s[j].data.version >= t.data.version
      {
        assert old(FitsAt(k, j)) && old(FitsAt(j, k));
      }
      forall i, j ensures RoutesAt(i, j) {
        assert old(FitsAt(if i < k then i else i - 1, if j < k then j else j - 1));
      }
      Finished(k, d, t.data.version - 1);
    }

    /** The marker goes in front of t. */
    method PutInFront(d: Entry, t: Entry)
      requires Loose(d) && !d.data.incl && d.data.dummy && t in clhead.items
      modifies clhead`items, clhead.head`next, clhead.tail`back, entries`next, entries`back
      ensures Valid() && SameButFor(d) && InFront(d, t)
      ensures clhead.items == InsertedAt(old(clhead.items), old(Index(clhead.items, t)), d) && Now() == old(Now())
    {
      ghost var k := clhead.IndexOf(t);
      clhead.InsertBefore(t, d);
      forall y | y in entries ensures EntryOk(y) { if y != d { assert old(EntryOk(y)); } }
      assert clhead.items[k] == d && clhead.items[k + 1] == t;
      OnlyMarker(d);
    }

    /** The marker goes back in front of the route that was visited. */
    method StepBack(d: Entry, t: Entry)
      requires Valid() && d in clhead.items && d.data.dummy && Live(t) && pending.Some? && pending.value.0 == d && Sound()
      requires d.data.version < t.data.version && d.data.version <= version
      modifies this`pending, clhead`items, clhead.head`next, clhead.tail`back, entries`next, entries`back
      ensures Valid() && d in clhead.items && SameButFor(d) && pending == None && SteppedBack(d, t) && Now() == old(Now())
    {
      assert EntryOk(d);
      Detach(d);
      OnlyMarker(d);
      label detached:
      ghost var k := clhead.IndexOf(t);
      pending := None;
      PutInFront(d, t);
      BackInFront@detached(k, d, t);
    }

    /** A visit, with the record of all visits. */
    method VisitNext(d: Entry, t: Entry, script: Script, before: seq<(Entry, Version)>, ghost lo: int)
      returns (visited: seq<(Entry, Version)>, ret: int)
      requires Gap(d, t) && !t.data.dummy && Legal(script(|before|, t), t)
      requires Ascending(before, lo, d.data.version) && Now().Heard(before, lo, d.data.version) && lo <= d.data.version
      requires Answered(before, script, 0)
      modifies this`version, this`nwraps, this`inuse, this`pending, clhead`items, clhead.head`next, clhead.tail`back, entries
      ensures visited == before + [(t, old(t.data.version))] && Answered(visited, script, ret) && ret == script(|before|, t).ret
      ensures Valid() && d in clhead.items && d.data.dummy && pending == None && Leads(old(Now()), script(|before|, t).acts, Now())
      ensures Ascending(visited, lo, old(t.data.version)) && Now().Heard(visited, lo, old(t.data.version))
      ensures ret >= 0 ==> Sound() && d.data.version == old(t.data.version)
      ensures ret < 0 ==> d.data == old(d.data) && SteppedBack(d, t)
      ensures ret < 0 && Change(t) !in script(|before|, t).acts ==> Now().LowestAbove(d.data.version, t) && t.data.version == old(t.data.version)
      ensures old(d.data.version) < old(t.data.version)
    {
      GapNext(d, t);
      var r, v := script(|before|, t), t.data.version;
      Visit(d, t, r, before, lo);
      visited, ret := before + [(t, v)], r.ret;
      OneMore(before, lo, old(d.data.version), t, v);
    }

    /** A marker fits between the routes up to f and those above f exactly if no route up to f is above it. */
    twostate lemma Finished(k: nat, new d: Entry, new f: int)
      requires old(Sound()) && k <= |old(clhead.items)| && clhead.items == InsertedAt(old(clhead.items), k, d)
      requires forall y :: y in old(clhead.items) ==> RowOf(y) == old(RowOf(y))
      requires version == old(version) && d.data.dummy && Level(d) <= version
      requires forall j :: 0 <= j < k && !old(clhead.items)[j].data.dummy ==> old(clhead.items)[j].data.version <= f
      requires forall j :: k <= j < |old(clhead.items)| && !old(clhead.items)[j].data.dummy ==>
                 f < old(clhead.items)[j].data.version && Level(d) < old(clhead.items)[j].data.version
      ensures Sound() <==> Now().NoneBetween(Level(d), f + 1)
    {
      var s := old(clhead.items);
      assert clhead.items[k] == d && forall j :: 0 <= j < k ==> clhead.items[j] == s[j];
      if Sound() {
        forall j | 0 <= j < k && !s[j].data.dummy ensures s[j].data.version <= Level(d) { assert FitsAt(j, k); }
      }
      if Now().NoneBetween(Level(d), f + 1) {
        forall j | 0 <= j < k && !s[j].data.dummy ensures s[j].data.version <= Level(d) {
          assert s[j] in Now().at;
        }
        MarkerFits(k, d);
      }
    }

    /** The walk has reached the end of the list. */
    method FinishAtEnd(d: Entry, ghost visited: seq<(Entry, Version)>, ghost lo: int)
      requires Gap(d, null) && Now().Heard(visited, lo, d.data.version)
      modifies clhead`items, clhead.head`next, clhead.tail`back, entries`next, entries`back, d`data
      ensures Valid() && d in clhead.items && Now() == old(Now()) && d.data == old(d.data).(version := version) && Sound()
      ensures forall hi: int :: Now().Heard(visited, lo, hi)
    {
      d.data := d.data.(version := version);
      clhead.InsertAtBack(d);
      forall y | y in entries ensures EntryOk(y) { if y != d { assert old(EntryOk(y)); } }
      MarkerFits(|old(clhead.items)|, d);
      OnlyMarker(d);
    }

    /** The marker at maxVer, in front of the first route above f. */
    twostate lemma BeforeNewer(new k: nat, new d: Entry, new f: int, new maxVer: Version)
      requires old(Sound()) && k < |old(clhead.items)| && clhead.items == InsertedAt(old(clhead.items), k, d)
      requires forall y :: y in old(clhead.items) ==> RowOf(y) == old(RowOf(y))
      requires version == old(version) && d.data.dummy && Level(d) == maxVer
      requires var t := old(clhead.items)[k]; !old(t.data.dummy) && maxVer < old(t.data.version)
      requires forall j :: 0 <= j < |old(clhead.items)| && !old(clhead.items[j].data.dummy) ==>
                 (old(clhead.items[j].data.version) <= f <==> j < k)
      ensures Sound() <==> Now().NoneBetween(maxVer, f + 1)
    {
      var s := old(clhead.items);
      assert old(Within(s[k]));
      forall j | k <= j < |s| && !s[j].data.dummy ensures maxVer < s[j].data.version {
        assert old(FitsAt(k, j));
      }
      assert forall j :: 0 <= j < |s| ==> RowOf(s[j]) == old(RowOf(s[j])) && s[j].data.dummy == old(s[j].data.dummy);
      Finished(k, d, f);
    }

    lemma HeardBefore(p: Picture, visited: seq<(Entry, Version)>, lo: int, f: int, t: Entry, maxVer: Version)
      requires p.Heard(visited, lo, f) && p.LowestAbove(f, t) && maxVer < p.at[t]
      ensures p.Heard(visited, lo, maxVer)
    {}

    /** The walk has reached a route that is newer than maxVer. */
    method FinishBefore(d: Entry, t: Entry, maxVer: Version, ghost visited: seq<(Entry, Version)>, ghost lo: int)
      requires Gap(d, t) && !t.data.dummy && t.data.version > maxVer && Now().Heard(visited, lo, d.data.version)
      modifies clhead`items, clhead.head`next, clhead.tail`back, entries`next, entries`back, d`data
      ensures Valid() && d in clhead.items && Now() == old(Now()) && d.data == old(d.data).(version := maxVer)
      ensures Sound() <==> Now().NoneBetween(maxVer, old(d.data.version) + 1)
      ensures Now().Heard(visited, lo, maxVer)
    {
      ghost var k, f, p := Pos(t), d.data.version, Now();
      GapNext(d, t);
      HeardBefore(p, visited, lo, f, t, maxVer);
      d.data := d.data.(version := maxVer);
      PutInFront(d, t);
      BeforeNewer(k, d, f, maxVer);
    }

    /** The visits so far, with the marker off the list. */
    ghost predicate UnderWay(d: Entry, t: MaybeEntry, script: Script, visited: seq<(Entry, Version)>, lo: int, maxVer: Version)
      reads this`pending, this`version, clhead`items, clhead.head`next, clhead.head`back, clhead.tail`next, clhead.tail`back
      reads clhead.items`next, clhead.items`back, clhead.items`data, entries
    {
      && Gap(d, t) && Ascending(visited, lo, d.data.version) && Now().Heard(visited, lo, d.data.version) && lo <= d.data.version
      && Answered(visited, script, 0) && if visited == [] then d.data.version == lo else d.data.version <= maxVer
    }

    /** What a walk that was ended by the callback or by the number of calls leaves. */
    ghost predicate Halted(d: Entry, script: Script, visited: seq<(Entry, Version)>, ret: int, lo: int, maxVer: Version)
      reads this`pending, this`version, clhead`items, clhead.items`data, entries
    {
      && d in clhead.items && d.data.dummy && pending == None && visited != [] && Answered(visited, script, ret)
      && var (t, v) := visited[|visited| - 1];
      && Ascending(visited, lo, v) && Now().Heard(visited, lo, v) && v <= maxVer && t in entries
      && (ret >= 0 ==> Sound() && d.data.version == v)
      && (ret < 0 ==>
            && lo <= d.data.version < v && Ascending(visited[..|visited| - 1], lo, d.data.version) && SteppedBack(d, t)
            && (|visited| == 1 ==> d.data.version == lo)
            && (Change(t) !in script(|visited| - 1, t).acts ==> Now().LowestAbove(d.data.version, t) && t.data.version == v))
    }

    /** A visit, and the step to what is next unless the walk ends here. */
    method Deliver(d: Entry, t: Entry, script: Script, before: seq<(Entry, Version)>, ghost lo: int, left: nat, ghost maxVer: Version)
      returns (visited: seq<(Entry, Version)>, ret: int, t': MaybeEntry, left': nat)
      requires UnderWay(d, t, script, before, lo, maxVer) && !t.data.dummy && t.data.version <= maxVer
      requires Legal(script(|before|, t), t) && left > 0
      modifies this`version, this`nwraps, this`inuse, this`pending, clhead`items, clhead.head`next, clhead.tail`back, entries
      ensures visited == before + [(t, old(t.data.version))] && ret == script(|before|, t).ret && Leads(old(Now()), script(|before|, t).acts, Now())
      ensures if ret == 0 && left' > 0 then UnderWay(d, t', script, visited, lo, maxVer)
              else Valid() && Halted(d, script, visited, ret, lo, maxVer)
      ensures ret == 0 ==> left' == left - 1
    {
      visited, ret := VisitNext(d, t, script, before, lo);
      assert visited[..|visited| - 1] == before;
      t', left' := null, left;
      if ret != 0 { return; }
      left' := left - 1;
      if left' == 0 { return; }
      t' := StepOff(d);
    }

    /** The visits so far, and what they have made of the list at the start of the walk. */
    ghost predicate Since(p: Picture, script: Script, visited: seq<(Entry, Version)>)
      reads this`version, clhead`items, clhead.items`data
    {
      Origins(visited, p) && Leads(p, Done(script, visited), Now())
    }

    /** One visit in the loop of the walk. */
    method DeliverNext(d: Entry, t: Entry, script: Script, before: seq<(Entry, Version)>, ghost lo: int, left: nat, ghost maxVer: Version, ghost p: Picture)
      returns (visited: seq<(Entry, Version)>, ret: int, t': MaybeEntry, left': nat)
      requires UnderWay(d, t, script, before, lo, maxVer) && !t.data.dummy && t.data.version <= maxVer
      requires Legal(script(|before|, t), t) && left > 0 && Since(p, script, before)
      modifies this`version, this`nwraps, this`inuse, this`pending, clhead`items, clhead.head`next, clhead.tail`back, entries
      ensures if ret == 0 && left' > 0 then UnderWay(d, t', script, visited, lo, maxVer)
              else Valid() && Halted(d, script, visited, ret, lo, maxVer)
      ensures |visited| == |before| + 1 && Since(p, script, visited) && (ret == 0 ==> left' == left - 1)
    {
      ghost var now, v := Now(), (t, t.data.version);
      visited, ret, t', left' := Deliver(d, t, script, before, lo, left, maxVer);
      OneMoreVisit(p, now, Now(), script, before, v);
    }

    /** The loop of the walk. */
    method WalkOn(d: Entry, t0: MaybeEntry, script: Script, limit: nat, maxVer: Version, ghost lo: int)
      returns (visited: seq<(Entry, Version)>, ret: int, t: MaybeEntry, halted: bool)
      requires Gap(d, t0) && limit > 0 && lo == d.data.version
      requires forall n: nat, x :: x in entries ==> Legal(script(n, x), x)
      modifies this`version, this`nwraps, this`inuse, this`pending, clhead`items, clhead.head`next, clhead.tail`back, entries
      ensures |visited| <= limit && (halted ==> ret != 0 || |visited| == limit) && (!halted ==> ret == 0)
      ensures halted ==> Valid() && Halted(d, script, visited, ret, lo, maxVer)
      ensures !halted ==> UnderWay(d, t, script, visited, lo, maxVer) && (t == null || (!t.data.dummy && t.data.version > maxVer))
      ensures Since(old(Now()), script, visited)
    {
      visited, ret, halted, t := [], 0, false, t0;
      var left := limit;
      NoVisits(lo, lo);
      while t != null
        invariant UnderWay(d, t, script, visited, lo, maxVer) && Since(old(Now()), script, visited)
        invariant left > 0 && |visited| + left == limit && ret == 0 && !halted
        decreases left, |clhead.items| - Pos(t), t != null
      {
        if t.data.dummy {
          t := StepOver(d, t);
          continue;
        }
        if t.data.version > maxVer { return; }
        visited, ret, t, left := DeliverNext(d, t, script, visited, lo, left, maxVer, old(Now()));
        if ret != 0 || left == 0 { return visited, ret, t, true; }
      }
    }

    lemma OneMoreVisit(p: Picture, q: Picture, r: Picture, script: Script, before: seq<(Entry, Version)>, v: (Entry, Version))
      requires Origins(before, p) && Leads(p, Done(script, before), q) && Leads(q, script(|before|, v.0).acts, r)
      requires v.0 in entries && v.0 in q.at && q.at[v.0] == v.1
      ensures Origins(before + [v], p) && Leads(p, Done(script, before + [v]), r)
    {
      assert (before + [v])[..|before|] == before;
      LeadsOn(p, Done(script, before), q, script(|before|, v.0).acts, r);
    }

    /** Puts the marker back at the end of a walk that was not halted. */
    method Finish(d: Entry, t: MaybeEntry, script: Script, visited: seq<(Entry, Version)>, maxVer: Version, ghost lo: int)
      requires UnderWay(d, t, script, visited, lo, maxVer) && (t == null || (!t.data.dummy && t.data.version > maxVer))
      modifies clhead`items, clhead.head`next, clhead.tail`back, entries`next, entries`back, d`data
      ensures Valid() && d in clhead.items && d.data.dummy && Now() == old(Now()) && Now().Heard(visited, lo, d.data.version)
      ensures Ascending(visited, lo, maxVer) && Now().Heard(visited, lo, maxVer)
      ensures d.data.version == if Now().LowestAbove(Max(lo, maxVer), null) then version else maxVer
      ensures maxVer >= lo ==> Sound() && lo <= d.data.version && Ascending(visited, lo, d.data.version)
      ensures maxVer < lo ==> visited == [] && (Sound() <==> Now().LowestAbove(lo, null) || Now().NoneBetween(maxVer, lo + 1))
      ensures forall i :: 0 <= i < |visited| ==> visited[i].1 <= version
    {
      ghost var f := d.data.version;
      forall i | 0 <= i < |visited| ensures visited[i].1 <= version { assert InTurn(visited, lo, f, i, i); }
      if t == null {
        FinishAtEnd(d, visited, lo);
      } else {
        assert Now().at[t] == t.data.version > Max(lo, maxVer);
        FinishBefore(d, t, maxVer, visited, lo);
      }
      if visited == [] {
        NoVisits(lo, maxVer);
        NoVisits(lo, d.data.version);
      } else {
        ghost var last := |visited| - 1;
        assert InTurn(visited, lo, f, last, last);
        Higher(visited, lo, f, maxVer);
        Higher(visited, lo, f, d.data.version);
      }
    }

    /** Visits at versions that had been given out before the walk are at most one for each entry that was on the list. */
    lemma EachOnce(visited: seq<(Entry, Version)>, lo: int, p: Picture, items: seq<Entry>)
      requires Ascending(visited, lo, p.version) && Origins(visited, p) && forall x :: x in p.at ==> x in items
      ensures forall i, j :: 0 <= i < j < |visited| ==> visited[i].0 != visited[j].0
      ensures |visited| <= |items|
    {
      forall i, j | 0 <= i < j < |visited| ensures visited[i].0 != visited[j].0 {
        assert InTurn(visited, lo, p.version, i, j) && InTurn(visited, lo, p.version, j, j);
      }
      var them := seq(|visited|, i requires 0 <= i < |visited| => visited[i].0);
      forall i | 0 <= i < |visited| ensures them[i] in items { assert InTurn(visited, lo, p.version, i, i); }
      DistinctFit(them, items);
    }

    /** The visits are exactly the routes above the marker, up to maxVer. */
    static ghost predicate DeliveredExactly(p: Picture, visited: seq<(Entry, Version)>, lo: int, maxVer: Version) {
      && (forall i :: 0 <= i < |visited| ==> var (x, v) := visited[i]; x in p.at && p.at[x] == v && lo < v <= maxVer)
      && forall x :: x in p.at && lo < p.at[x] <= maxVer ==> (x, p.at[x]) in visited
    }

    lemma QuietIsExact(visited: seq<(Entry, Version)>, lo: int, maxVer: Version)
      requires Origins(visited, Now()) && Ascending(visited, lo, maxVer) && Now().Heard(visited, lo, maxVer)
      requires forall i :: 0 <= i < |visited| ==> visited[i].1 <= version
      ensures DeliveredExactly(Now(), visited, lo, maxVer)
    {
      var p := Now();
      forall i | 0 <= i < |visited| ensures var (x, v) := visited[i]; x in p.at && p.at[x] == v && lo < v <= maxVer {
        assert InTurn(visited, lo, maxVer, i, i);
      }
    }

    /** A walk without a limit that is never asked to stop is not stopped, if what it can visit is given. */
    lemma NothingStops(visited: seq<(Entry, Version)>, script: Script, ret: int, limit: nat, lo: int, p: Picture, items: seq<Entry>)
      requires Answered(visited, script, ret) && Patient(script, entries)
      requires Ascending(visited, lo, p.version) && Origins(visited, p) && (forall x :: x in p.at ==> x in items) && |items| < limit
      ensures ret == 0 && |visited| < limit
    {
      EachOnce(visited, lo, p, items);
    }

    lemma VisitsWereDue(d: Entry, script: Script, visited: seq<(Entry, Version)>, ret: int, lo: int, maxVer: Version)
      requires Halted(d, script, visited, ret, lo, maxVer) && Patient(script, entries)
      ensures Ascending(visited, lo, version)
    {
      assert Within(d);
      Higher(visited, lo, visited[|visited| - 1].1, version);
    }

    /** What a walk that was ended has visited. */
    lemma WhenHalted(d: Entry, script: Script, visited: seq<(Entry, Version)>, ret: int, lo: int, maxVer: Version, limit: nat,
                     p: Picture, items: seq<Entry>)
      requires Halted(d, script, visited, ret, lo, maxVer) && Since(p, script, visited) && forall x :: x in p.at ==> x in items
      ensures Ascending(visited, lo, maxVer) && visited != [] && lo < visited[|visited| - 1].1 <= maxVer
      ensures maxVer <= p.version ==> |visited| <= |items| && forall i, j :: 0 <= i < j < |visited| ==> visited[i].0 != visited[j].0
      ensures Quiet(script, entries) ==> Now() == p
      ensures Patient(script, entries) && |items| < limit && (maxVer <= p.version || Quiet(script, entries)) ==> ret == 0 && |visited| < limit
    {
      var last := |visited| - 1;
      assert InTurn(visited, lo, visited[last].1, last, last);
      Higher(visited, lo, visited[last].1, maxVer);
      if maxVer <= p.version { Higher(visited, lo, maxVer, p.version); EachOnce(visited, lo, p, items); }
      if Quiet(script, entries) { QuietDoesNothing(script, visited, entries); }
      if Patient(script, entries) && |items| < limit && (maxVer <= p.version || Quiet(script, entries)) {
        if Quiet(script, entries) { VisitsWereDue(d, script, visited, ret, lo, maxVer); }
        NothingStops(visited, script, ret, limit, lo, p, items);
      }
    }

    /** Walks on from the marker. While the list is sound, and the versions do not wrap, the walk calls
        back for the next routes in the order of their versions, and what is still on the list at a
        version up to the marker's has been visited at that version. The marker stays in its place
        among the versions, with two exceptions, each with its exact condition: a callback that asks for
        a revisit has moved its route past another one, or maxVer is below the marker's version. */
    method WalkChangeList(d: Entry, script: Script, maxnodes: nat, maxVer: Version)
      returns (visited: seq<(Entry, Version)>, cbretval: int, ghost ended: bool)
      requires Valid() && Sound() && pending == None && d in clhead.items && d.data.dummy
      requires forall n: nat, x :: x in entries ==> Legal(script(n, x), x)
      modifies this`version, this`nwraps, this`inuse, this`pending, clhead`items, clhead.head`next, clhead.tail`back, entries
      ensures Valid() && d in clhead.items && d.data.dummy && pending == None
      ensures Answered(visited, script, cbretval) && |visited| <= Limit(maxnodes) && Leads(old(Now()), Done(script, visited), Now())
      ensures !ended ==> visited != [] && (cbretval != 0 || |visited| == Limit(maxnodes))
      ensures ended ==> cbretval == 0 && d.data.version == if Now().LowestAbove(Max(old(d.data.version), maxVer), null) then version else maxVer
      ensures Ascending(visited, old(d.data.version), maxVer) && Origins(visited, old(Now()))
      ensures cbretval >= 0 && maxVer >= old(d.data.version) ==>
                && Sound() && old(d.data.version) <= d.data.version && Ascending(visited, old(d.data.version), d.data.version)
                && Now().Heard(visited, old(d.data.version), d.data.version)
                && (ended ==> Now().Heard(visited, old(d.data.version), maxVer))
      ensures cbretval < 0 ==>
                visited != [] && var (t, v) := visited[|visited| - 1];
                && Now().Heard(visited, old(d.data.version), v) && Ascending(visited[..|visited| - 1], old(d.data.version), d.data.version)
                && SteppedBack(d, t) && (|visited| == 1 ==> d.data.version == old(d.data.version))
                && (Change(t) !in script(|visited| - 1, t).acts ==> Sound() && Now().LowestAbove(d.data.version, t) && t.data.version == v)
      ensures maxVer < old(d.data.version) ==>
                && visited == [] && ended && Now() == old(Now())
                && (Sound() <==> Now().LowestAbove(old(d.data.version), null) || Now().NoneBetween(maxVer, old(d.data.version) + 1))
      ensures maxVer <= old(version) ==>
                && |visited| <= |old(clhead.items)|
                && forall i, j :: 0 <= i < j < |visited| ==> visited[i].0 != visited[j].0
      ensures maxnodes > 0 ==> |visited| <= maxnodes && (!ended && cbretval == 0 ==> |visited| == maxnodes)
      ensures maxnodes == 0 && |old(clhead.items)| < 0xffff_ffff && Patient(script, entries) && (maxVer <= old(version) || Quiet(script, entries)) ==>
                ended
      ensures Quiet(script, entries) ==>
                Now() == old(Now()) && (ended && maxVer >= old(d.data.version) ==> DeliveredExactly(Now(), visited, old(d.data.version), maxVer))
    {
      ghost var lo, p, items := d.data.version, Now(), clhead.items;
      var t := StepOff(d);
      var halted;
      visited, cbretval, t, halted := WalkOn(d, t, script, Limit(maxnodes), maxVer, lo);
      ended := !halted;
      if halted {
        WhenHalted(d, script, visited, cbretval, lo, maxVer, Limit(maxnodes), p, items);
        return;
      }
      Finish(d, t, script, visited, maxVer, lo);
      if maxVer <= old(version) { Higher(visited, lo, maxVer, old(version)); EachOnce(visited, lo, p, items); }
      if Quiet(script, entries) {
        QuietDoesNothing(script, visited, entries);
        if maxVer >= lo { QuietIsExact(visited, lo, maxVer); }
      }
    }
  }

  // ----- the two ways to break the order -----

  /** An empty list, with three entries to put on it. */
  method NewList() returns (list: ChangeList, a: Entry, b: Entry, d: Entry)
    ensures fresh(list) && fresh(list.clhead) && fresh(list.clhead.head) && fresh(list.clhead.tail) && fresh(a) && fresh(b) && fresh(d)
    ensures a != b && a != d && b != d && list.entries == {a, b, d}
    ensures list.Valid() && list.Sound() && list.pending == None && list.version == 0 && list.clhead.items == []
    ensures a.data == b.data == d.data == RadicalHead(0, false, false)
  {
    a := new Dll(RadicalHead(0, false, false));
    b := new Dll(RadicalHead(0, false, false));
    d := new Dll(RadicalHead(0, false, false));
    list := new ChangeList({a, b, d});
  }

  method OneRoute() returns (list: ChangeList, a: Entry, b: Entry, d: Entry)
    ensures fresh(list) && fresh(list.clhead) && fresh(list.clhead.head) && fresh(list.clhead.tail) && fresh(a) && fresh(b) && fresh(d)
    ensures a != b && a != d && b != d && list.entries == {a, b, d}
    ensures list.Valid() && list.Sound() && list.pending == None && list.version == 1 && list.clhead.items == [a]
    ensures a.data == RadicalHead(1, true, false) && b.data == d.data == RadicalHead(0, false, false)
  {
    list, a, b, d := NewList();
    var _ := list.AppendToChangeList(a);
  }

  /** A list with the routes a and b at the versions 1 and 2. */
  method TwoRoutes() returns (list: ChangeList, a: Entry, b: Entry, d: Entry)
    ensures fresh(list) && fresh(list.clhead) && fresh(list.clhead.head) && fresh(list.clhead.tail) && fresh(a) && fresh(b) && fresh(d)
    ensures a != b && a != d && b != d && list.entries == {a, b, d}
    ensures list.Valid() && list.Sound() && list.pending == None && list.version == 2 && list.clhead.items == [a, b]
    ensures a.data == RadicalHead(1, true, false) && b.data == RadicalHead(2, true, false) && d.data == RadicalHead(0, false, false)
  {
    list, a, b, d := OneRoute();
    var _ := list.AppendToChangeList(b);
  }

  /** The same with a marker in front. */
  method TwoChanges() returns (list: ChangeList, a: Entry, b: Entry, d: Entry)
    ensures fresh(list) && fresh(list.clhead) && fresh(list.clhead.head) && fresh(list.clhead.tail) && fresh(a) && fresh(b) && fresh(d)
    ensures a != b && a != d && b != d && list.entries == {a, b, d}
    ensures list.Valid() && list.Sound() && list.pending == None && list.clhead.items == [d, a, b]
    ensures d.data == RadicalHead(0, false, true) && list.Now() == Picture(2, map[a := 1, b := 2])
  {
    list, a, b, d := TwoRoutes();
    list.WalkConstructor(d);
  }

  lemma {:induction false} OneVisit(p: Picture, q: Picture, a: Entry, b: Entry, script: Script, visited: seq<(Entry, Version)>, ret: int)
    requires a != b && p == Picture(2, map[a := 1, b := 2])
    requires forall n: nat, x :: x in p.at ==> script(n, x) == Reaction([Change(x)], -1)
    requires ChangeList.Ascending(visited, 0, 2) && ChangeList.Answered(visited, script, ret)
    requires forall i :: 0 <= i < |visited| && visited[i].1 <= 2 ==> visited[i].0 in p.at && p.at[visited[i].0] == visited[i].1
    requires Leads(p, ChangeList.Done(script, visited), q) && (visited == [] ==> q.Heard(visited, 0, 2))
    ensures |visited| == 1 && (visited[0] == (a, 1) || visited[0] == (b, 2)) && ret == -1
    ensures ChangeList.Done(script, visited) == [Change(visited[0].0)]
  {
    forall i | 0 <= i < |visited| ensures visited[i].1 <= 2 { assert ChangeList.InTurn(visited, 0, 2, i, i); }
    assert p.at[a] == 1;
    assert visited == [] ==> q == p;
    assert q == p && q.Heard(visited, 0, 2) ==> (a, 1) in visited;
    assert visited != [] && visited[0].0 in p.at && script(0, visited[0].0).ret == -1;
    assert |visited| == 1 && visited[..0] == [];
  }

  /** A walk over these changes whose callback changes its route again and asks for a revisit: it is
      called for a, and for nothing else. */
  lemma {:induction false} OnlyFirst(p: Picture, q: Picture, a: Entry, b: Entry, script: Script, visited: seq<(Entry, Version)>, ret: int)
    requires a != b && p == Picture(2, map[a := 1, b := 2])
    requires forall n: nat, x :: x in p.at ==> script(n, x) == Reaction([Change(x)], -1)
    requires ChangeList.Ascending(visited, 0, 2) && ChangeList.Answered(visited, script, ret)
    requires forall i :: 0 <= i < |visited| && visited[i].1 <= 2 ==> visited[i].0 in p.at && p.at[visited[i].0] == visited[i].1
    requires Leads(p, ChangeList.Done(script, visited), q)
    requires q.Heard(visited, 0, if visited == [] then 2 else visited[|visited| - 1].1)
    ensures visited == [(a, 1)] && ret == -1 && q.at.Keys == {a, b} && q.at[b] == 2 && q.at[a] == 3
  {
    OneVisit(p, q, a, b, script, visited, ret);
    assert visited[0] == (b, 2) ==> a in q.at;
    assert visited[0] == (b, 2) && q.Heard(visited, 0, 2) ==> (a, 1) in visited;
  }

  lemma ThreeInRow(items: seq<Entry>, a: Entry, b: Entry, d: Entry)
    requires a in items && b in items && d in items && Index(items, b) < Index(items, d) < Index(items, a)
    requires forall i :: 0 <= i < |items| ==> items[i] in {a, b, d} && Index(items, items[i]) == i
    ensures items == [b, d, a]
  {
    var places := {Index(items, a), Index(items, b), Index(items, d)};
    forall i | 0 <= i < |items| ensures i in places { assert items[i] in {a, b, d} && Index(items, items[i]) == i; }
    assert |items| > 3 ==> 0 in places && 1 in places && 2 in places && 3 in places;
  }

  lemma BetweenThem(list: ChangeList, a: Entry, b: Entry, d: Entry)
    requires a != b && b != d && list.Valid() && list.entries == {a, b, d} && list.SteppedBack(d, a) && d.data.version == 0
    requires list.Now().at == map[a := 3, b := 2]
    ensures list.clhead.items == [b, d, a] && !list.Sound()
  {
    var items, at := list.clhead.items, list.Now().at;
    assert at[a] == a.data.version && at[b] == b.data.version;
    forall i | 0 <= i < |items| ensures items[i] in {a, b, d} && Index(items, items[i]) == i { assert items[i] in list.entries; }
    assert list.RoutesAt(Index(items, a), Index(items, b));
    ThreeInRow(items, a, b, d);
  }

  method Revisit(list: ChangeList, a: Entry, b: Entry, d: Entry)
    requires a != b && b != d && list.Valid() && list.Sound() && list.pending == None && list.entries == {a, b, d} && d in list.clhead.items
    requires d.data == RadicalHead(0, false, true) && list.Now() == Picture(2, map[a := 1, b := 2])
    modifies list`version, list`nwraps, list`inuse, list`pending, list.clhead`items, list.clhead.head`next, list.clhead.tail`back, list.entries
    ensures list.Valid() && list.clhead.items == [b, d, a] && !list.Sound()
    ensures d.data.dummy && d.data.version == 0 && list.Now().at == map[a := 3, b := 2]
  {
    ghost var p := list.Now();
    var script := (n: nat, x: Entry) => Reaction([Change(x)], -1);
    var visited, ret;
    ghost var ended;
    visited, ret, ended := list.WalkChangeList(d, script, 0, 2);
    OnlyFirst(p, list.Now(), a, b, script, visited, ret);
    BetweenThem(list, a, b, d);
  }

  /** The callback for a changes a again and asks for a revisit: a is now behind b, and the marker is
      between them, below b's version. The walk will not come to b. */
  method RevisitExample() returns (list: ChangeList, a: Entry, b: Entry, d: Entry)
    ensures list.Valid() && list.clhead.items == [b, d, a] && !list.Sound()
    ensures d.data.dummy && d.data.version == 0 && list.Now().at == map[a := 3, b := 2]
  {
    list, a, b, d := TwoChanges();
    Revisit(list, a, b, d);
  }

  /** A walk to a version below b's. */
  method WalkTo(list: ChangeList, a: Entry, b: Entry, d: Entry, maxVer: Version)
    requires list.Valid() && list.Sound() && list.pending == None && d in list.clhead.items && d.data.dummy && d.data.version < 2
    requires a != b && list.Now() == Picture(2, map[a := 1, b := 2]) && maxVer < 2
    requires |list.clhead.items| == 3 || maxVer < d.data.version
    modifies list`version, list`nwraps, list`inuse, list`pending, list.clhead`items, list.clhead.head`next, list.clhead.tail`back, list.entries
    ensures list.Valid() && list.pending == None && d in list.clhead.items && d.data.dummy && d.data.version == maxVer
    ensures list.Now() == old(list.Now())
    ensures old(d.data.version) <= maxVer ==> list.Sound()
    ensures maxVer == 0 && old(d.data.version) == 1 ==> !list.Sound()
  {
    var quiet := (n: nat, x: Entry) => Reaction([], 0);
    var visited, ret;
    ghost var ended;
    visited, ret, ended := list.WalkChangeList(d, quiet, 0, maxVer);
    assert list.Now().at[b] == 2 && list.Now().at[a] == 1;
  }

  /** A walk up to version 0 after a walk up to version 1: the marker goes back, but stays behind a. */
  method LowerMaxVerExample() returns (list: ChangeList, a: Entry, b: Entry, d: Entry)
    ensures list.Valid() && !list.Sound() && d in list.clhead.items && d.data.dummy && d.data.version == 0
    ensures list.Now() == Picture(2, map[a := 1, b := 2])
  {
    list, a, b, d := TwoChanges();
    WalkTo(list, a, b, d, 1);
    WalkTo(list, a, b, d, 0);
  }
}
