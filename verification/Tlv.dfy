/** The tag-length-value records of sonic/std_tlv.h, written and searched in place. Tags and lengths
    are 64-bit little-endian words, and lengths are added modulo 2^64. */
module Tlv {
  import opened Options

  type Byte = b: int | 0 <= b < 0x100

  const WORDS: nat := 0x1_0000_0000_0000_0000
  const HEADER: nat := 16

  /** The length that a header makes a total of zero. */
  const WRAPS: nat := WORDS - HEADER

  // ----- little-endian words -----

  function Digit(n: nat, i: nat): Byte {
    if i == 0 then n % 0x100 else Digit(n / 0x100, i - 1)
  }

  function Le(n: nat, k: nat): (s: seq<Byte>)
    ensures |s| == k
  {
    seq(k, i requires 0 <= i < k => Digit(n, i))
  }

  function Values(k: nat): (n: nat)
    ensures n > 0
  {
    if k == 0 then 1 else 0x100 * Values(k - 1)
  }

  function FromLe(s: seq<Byte>): nat {
    if s == [] then 0 else s[0] + 0x100 * FromLe(s[1..])
  }

  lemma DivideTwice(n: nat, b: nat)
    requires b > 0
    ensures n / (0x100 * b) == n / 0x100 / b
  {
    var q, r := n / (0x100 * b), n % (0x100 * b);
    assert n == 0x100 * (b * q) + r;
    assert n / 0x100 == b * q + r / 0x100;
    assert 0 <= r / 0x100 < b;
    Quotient(n / 0x100, b, q, r / 0x100);
  }

  lemma Quotient(n: nat, b: nat, q: nat, r: nat)
    requires b > 0 && n == b * q + r && r < b
    ensures n / b == q
  {
    var d := n / b - q;
    assert n == b * (n / b) + n % b;
    assert b * d == r - n % b;
    Multiple(b, d);
  }

  lemma {:induction false} Multiple(b: nat, d: int)
    ensures (d > 0 ==> b * d >= b) && (d < 0 ==> b * d <= -(b as int))
    decreases if d > 0 then d else -d
  {
    if d > 1 { Multiple(b, d - 1); } else if d < -1 { Multiple(b, d + 1); }
  }

  /** Digits are counted from the lowest. */
  lemma {:induction false} DigitIs(n: nat, i: nat)
    ensures Digit(n, i) == n / Values(i) % 0x100
  {
    if i > 0 {
      DigitIs(n / 0x100, i - 1);
      DivideTwice(n, Values(i - 1));
    }
  }

  lemma {:induction false} FromLeBound(s: seq<Byte>)
    ensures FromLe(s) < Values(|s|)
  {
    if s != [] { FromLeBound(s[1..]); }
  }

  lemma {:induction false} LeBack(n: nat, k: nat)
    requires n < Values(k)
    ensures FromLe(Le(n, k)) == n
  {
    if k > 0 {
      LeBack(n / 0x100, k - 1);
      assert Le(n, k)[1..] == Le(n / 0x100, k - 1);
    }
  }

  lemma {:induction false} WordValues()
    ensures Values(8) == WORDS
  {
    assert Values(2) == 0x1_0000 && Values(4) == 0x1_0000 * Values(2) && Values(6) == 0x1_0000 * Values(4);
    assert Values(8) == 0x1_0000 * Values(6);
  }

  lemma {:induction false} WordBack(n: nat)
    requires n < WORDS
    ensures FromLe(Le(n, 8)) == n
  {
    WordValues();
    LeBack(n, 8);
  }

  // ----- records -----

  datatype Record = Record(tag: nat, content: seq<Byte>) {
    /** Tags are words, and a content leaves room for its header in the address space. */
    predicate Fits() {
      tag < WORDS && |content| + HEADER < WORDS
    }

    function Size(): nat {
      HEADER + |content|
    }

    function Bytes(): (s: seq<Byte>)
      ensures |s| == Size()
    {
      Le(tag, 8) + Le(|content|, 8) + content
    }
  }

  predicate AllFit(rs: seq<Record>) {
    forall r :: r in rs ==> r.Fits()
  }

  function Encode(rs: seq<Record>): seq<Byte> {
    if rs == [] then [] else rs[0].Bytes() + Encode(rs[1..])
  }

  lemma {:induction false} EncodeConcat(rs: seq<Record>, rs': seq<Record>)
    ensures Encode(rs + rs') == Encode(rs) + Encode(rs')
  {
    if rs == [] {
      assert rs + rs' == rs';
    } else {
      EncodeConcat(rs[1..], rs');
      assert (rs + rs')[1..] == rs[1..] + rs';
    }
  }

  function Sizes(rs: seq<Record>): nat {
    if rs == [] then 0 else rs[0].Size() + Sizes(rs[1..])
  }

  // ----- reading a header -----

  datatype Header = Header(tag: nat, len: nat) {
    /** std_tlv_total_len, which is a word, too */
    function Total(): nat {
      if len < WRAPS then len + HEADER else len - WRAPS
    }
  }

  /** std_tlv_tag and std_tlv_len at p */
  function HeaderAt(s: seq<Byte>, p: nat): (h: Header)
    requires p + HEADER <= |s|
    ensures h.len < WORDS
  {
    WordValues();
    FromLeBound(s[p + 8..p + HEADER]);
    Header(FromLe(s[p..p + 8]), FromLe(s[p + 8..p + HEADER]))
  }

  /** What is read as a header at each place from p on. */
  function HeadersFrom(s: seq<Byte>, p: nat): (v: seq<Header>)
    ensures |v| == if p + HEADER <= |s| then |s| - HEADER + 1 - p else 0
    decreases |s| - p
  {
    if p + HEADER <= |s| then [HeaderAt(s, p)] + HeadersFrom(s, p + 1) else []
  }

  function Headers(s: seq<Byte>): (v: seq<Header>)
    ensures |v| == if HEADER <= |s| then |s| - HEADER + 1 else 0
  {
    HeadersFrom(s, 0)
  }

  lemma {:induction false} HeaderIs(s: seq<Byte>, p: nat, q: nat)
    requires p <= q && q + HEADER <= |s|
    ensures HeadersFrom(s, p)[q - p] == HeaderAt(s, q)
    decreases q - p
  {
    if p < q { HeaderIs(s, p + 1, q); }
  }

  /** A record can be read at p. */
  ghost predicate Reads(s: seq<Byte>, p: nat, r: Record) {
    && p + r.Size() <= |s| && |r.content| < WRAPS
    && HeaderAt(s, p) == Header(r.tag, |r.content|) && s[p + HEADER..p + r.Size()] == r.content
  }

  lemma {:induction false} Inner(s: seq<Byte>, p: nat, n: nat, i: nat, j: nat)
    requires p + n <= |s| && i <= j <= n
    ensures s[p..p + n][i..j] == s[p + i..p + j]
  {
    var t := s[p..p + n];
    forall k | 0 <= k < j - i ensures t[i..j][k] == s[p + i..p + j][k] { assert t[i..j][k] == t[i + k]; }
  }

  lemma {:induction false} Parts(r: Record)
    ensures r.Bytes()[0..8] == Le(r.tag, 8) && r.Bytes()[8..HEADER] == Le(|r.content|, 8)
    ensures r.Bytes()[HEADER..r.Size()] == r.content
  {}

  /** A record can be read where it was written. */
  lemma {:induction false} ReadsBack(s: seq<Byte>, p: nat, r: Record)
    requires r.Fits() && p + r.Size() <= |s| && s[p..p + r.Size()] == r.Bytes()
    ensures Reads(s, p, r)
  {
    Parts(r);
    Inner(s, p, r.Size(), 0, 8);
    Inner(s, p, r.Size(), 8, HEADER);
    Inner(s, p, r.Size(), HEADER, r.Size());
    WordBack(r.tag);
    WordBack(|r.content|);
  }

  /** The records rs are written at p. */
  ghost predicate Written(s: seq<Byte>, p: nat, rs: seq<Record>) {
    AllFit(rs) && p + |Encode(rs)| <= |s| && s[p..p + |Encode(rs)|] == Encode(rs)
  }

  /** The records rs can be read from p on, one after the other. */
  ghost predicate At(s: seq<Byte>, p: nat, rs: seq<Record>)
    decreases rs
  {
    if rs == [] then p <= |s| else Reads(s, p, rs[0]) && At(s, p + rs[0].Size(), rs[1..])
  }

  lemma {:induction false} WrittenFirst(s: seq<Byte>, p: nat, rs: seq<Record>)
    requires Written(s, p, rs) && rs != []
    ensures Reads(s, p, rs[0]) && Written(s, p + rs[0].Size(), rs[1..])
  {
    var n, m := rs[0].Size(), |Encode(rs)|;
    assert Encode(rs)[0..n] == rs[0].Bytes() && Encode(rs)[n..m] == Encode(rs[1..]);
    Inner(s, p, m, 0, n);
    Inner(s, p, m, n, m);
    ReadsBack(s, p, rs[0]);
  }

  lemma {:induction false} WrittenIsAt(s: seq<Byte>, p: nat, rs: seq<Record>)
    requires Written(s, p, rs)
    ensures At(s, p, rs) && |Encode(rs)| == Sizes(rs)
    decreases rs
  {
    if rs != [] {
      WrittenFirst(s, p, rs);
      WrittenIsAt(s, p + rs[0].Size(), rs[1..]);
    }
  }

  // ----- writing -----

  /** std_tlv_add at p, with room bytes left there. */
  method Add(a: array<Byte>, p: nat, room: nat, tag: nat, content: seq<Byte>) returns (r: Option<nat>, left: nat)
    requires Record(tag, content).Fits() && p + room <= a.Length
    modifies a
    ensures var b := Record(tag, content).Bytes();
            if room < |b| then r == None && left == room && a[..] == old(a[..])
            else r == Some(p + |b|) && left == room - |b| && a[..] == old(a[..p]) + b + old(a[p + |b|..])
    ensures r.Some? <==> 16 + |content| <= room
    ensures r.Some? ==> forall i :: 0 <= i < 8 ==> a[p + i] == tag / Values(i) % 0x100 && a[p + 8 + i] == |content| / Values(i) % 0x100
    ensures r.Some? ==> forall i :: 0 <= i < |content| ==> a[p + 16 + i] == content[i]
  {
    if room < |content| + HEADER { return None, room; }
    var t, l := Le(tag, 8), Le(|content|, 8);
    forall i | 0 <= i < 8 { a[p + i] := t[i]; }
    forall i | 0 <= i < 8 { a[p + 8 + i] := l[i]; }
    forall i | 0 <= i < |content| { a[p + HEADER + i] := content[i]; }
    r, left := Some(p + |content| + HEADER), room - (|content| + HEADER);
    forall i | 0 <= i < 8 ensures a[p + i] == tag / Values(i) % 0x100 && a[p + 8 + i] == |content| / Values(i) % 0x100 {
      DigitIs(tag, i);
      DigitIs(|content|, i);
    }
  }

  /** Adds records at the front of a buffer until one does not fit. */
  method WriteAll(a: array<Byte>, rs: seq<Record>) returns (count: nat, left: nat)
    requires AllFit(rs)
    modifies a
    ensures count <= |rs| && left <= a.Length && a[..a.Length - left] == Encode(rs[..count])
    ensures count < |rs| ==> left < |rs[count].Bytes()|
  {
    count, left := 0, a.Length;
    while count < |rs|
      invariant count <= |rs| && left <= a.Length && a[..a.Length - left] == Encode(rs[..count])
    {
      ghost var before := a[..a.Length - left];
      var r;
      r, left := Add(a, a.Length - left, left, rs[count].tag, rs[count].content);
      if r == None { return; }
      assert a[..a.Length - left] == before + rs[count].Bytes();
      EncodeConcat(rs[..count], [rs[count]]);
      assert Encode([rs[count]]) == rs[count].Bytes();
      assert rs[..count + 1] == rs[..count] + [rs[count]];
      count := count + 1;
    }
  }

  // ----- reading -----

  /** std_tlv_tag and std_tlv_len */
  method ReadHeader(s: seq<Byte>, p: nat) returns (h: Header)
    requires p + HEADER <= |s|
    ensures h == Headers(s)[p]
  {
    HeaderIs(s, 0, p);
    h := HeaderAt(s, p);
  }

  /** std_tlv_next, for a header that can be read. */
  method Next(s: seq<Byte>, p: nat, len: nat) returns (r: Option<nat>, left: nat)
    requires p + HEADER <= |s|
    ensures var t := Headers(s)[p].Total();
            if len < t then r == None && left == len else r == Some(p + t) && left == len - t
    ensures Headers(s)[p].Total() == (HeaderAt(s, p).len + 16) % 0x1_0000_0000_0000_0000
  {
    HeaderIs(s, 0, p);
    var h := ReadHeader(s, p);
    var tlen := h.Total();
    if len < tlen { return None, len; }
    r, left := Some(p + tlen), len - tlen;
  }

  /** The record that is read at p. */
  function RecordAt(s: seq<Byte>, p: nat): Record
    requires p + HEADER <= |s| && p + HEADER + HeaderAt(s, p).len <= |s|
  {
    Record(HeaderAt(s, p).tag, s[p + HEADER..p + HEADER + HeaderAt(s, p).len])
  }

  /** The records back have been read, and the rest of rs can be read at p. */
  ghost predicate Reading(s: seq<Byte>, p: nat, len: nat, rs: seq<Record>, back: seq<Record>) {
    |back| <= |rs| && back == rs[..|back|] && At(s, p, rs[|back|..]) && len == Sizes(rs[|back|..])
  }

  lemma {:induction false} ReadsOne(s: seq<Byte>, p: nat, len: nat, rs: seq<Record>, back: seq<Record>)
    requires Reading(s, p, len, rs, back) && len > 0
    ensures p + HEADER <= |s|
    ensures var n := HeaderAt(s, p).Total();
            HEADER <= n <= len && p + n <= |s| && HeaderAt(s, p).len + HEADER == n && Reading(s, p + n, len - n, rs, back + [RecordAt(s, p)])
  {
    var i := |back|;
    assert rs[i..][1..] == rs[i + 1..] && rs[..i + 1] == rs[..i] + [rs[i]];
  }

  method ReadOne(s: seq<Byte>, p: nat, len: nat, before: seq<Record>, ghost rs: seq<Record>)
    returns (back: seq<Record>, ptr: Option<nat>, left: nat)
    requires Reading(s, p, len, rs, before) && len > 0
    ensures ptr.Some? && left < len && Reading(s, ptr.value, left, rs, back)
  {
    ReadsOne(s, p, len, rs, before);
    HeaderIs(s, 0, p);
    back := before + [RecordAt(s, p)];
    ptr, left := Next(s, p, len);
  }

  /** Steps through the records of a buffer: what is read is what was written. */
  method ReadAll(s: seq<Byte>, ghost rs: seq<Record>) returns (back: seq<Record>)
    requires AllFit(rs) && s == Encode(rs)
    ensures back == rs
  {
    var ptr, len: nat := Some(0), |s|;
    back := [];
    assert s[0..|s|] == s && rs[0..] == rs;
    WrittenIsAt(s, 0, rs);
    while ptr != None && len > 0
      invariant ptr.Some? && Reading(s, ptr.value, len, rs, back)
      decreases len
    {
      back, ptr, len := ReadOne(s, ptr.value, len, back, rs);
    }
  }

  method WriteThenRead(a: array<Byte>, rs: seq<Record>) returns (count: nat, left: nat, back: seq<Record>)
    requires AllFit(rs)
    modifies a
    ensures count <= |rs| && back == rs[..count]
    ensures count < |rs| ==> left < |rs[count].Bytes()|
  {
    count, left := WriteAll(a, rs);
    back := ReadAll(a[..a.Length - left], rs[..count]);
  }

  // ----- searching -----

  /** Endless: the search goes round without moving. Overrun: it goes on outside the buffer. */
  datatype Outcome = Found(at: nat, left: nat) | Missing | Endless | Overrun

  /** std_tlv_find_next over any bytes, of which only the headers matter. */
  function Search(v: seq<Header>, p: nat, len: nat, tag: nat): (o: Outcome)
    requires p + len < |v|
    ensures o.Found? ==> p <= o.at && o.at + o.left == p + len
    decreases len
  {
    var t := v[p].Total();
    if len < t then Missing
    else if v[p].tag == tag then Found(p, len)
    else if t == 0 then Endless
    else Search(v, p + t, len - t, tag)
  }

  method FindNext(s: seq<Byte>, data: Option<nat>, dlen: nat, tag: nat) returns (r: Outcome)
    requires data.Some? ==> data.value + dlen + HEADER <= |s|
    ensures r == if data == None then Missing else Search(Headers(s), data.value, dlen, tag)
  {
    if data == None { return Missing; }
    var p: nat, len: nat := data.value, dlen;
    ghost var v := Headers(s);
    ghost var o := Search(v, p, len, tag);
    while true
      invariant p + len < |v| && Search(v, p, len, tag) == o
      decreases len
    {
      var h := ReadHeader(s, p);
      if len < h.Total() { return Missing; }
      if h.tag == tag { return Found(p, len); }
      if h.Total() == 0 { return Endless; }
      var next, left := Next(s, p, len);
      p, len := next.value, left;
    }
  }

  /** The records rs start at p, one behind the other. */
  ghost predicate Starts(v: seq<Header>, p: nat, rs: seq<Record>)
    decreases rs
  {
    rs != [] ==>
      && p < |v| && |rs[0].content| < WRAPS && v[p] == Header(rs[0].tag, |rs[0].content|)
      && Starts(v, p + rs[0].Size(), rs[1..])
  }

  lemma {:induction false} WrittenStarts(s: seq<Byte>, p: nat, rs: seq<Record>)
    requires Written(s, p, rs)
    ensures Starts(Headers(s), p, rs)
    decreases rs
  {
    if rs != [] {
      WrittenFirst(s, p, rs);
      HeaderIs(s, 0, p);
      WrittenStarts(s, p + rs[0].Size(), rs[1..]);
    }
  }

  /** What a search does at the end of the records: it takes the next bytes for a header. */
  function Beyond(v: seq<Header>, e: nat, tag: nat): Outcome
    requires e < |v|
  {
    if v[e].Total() != 0 then Missing else if v[e].tag == tag then Found(e, 0) else Endless
  }

  lemma {:induction false} SearchesAlong(v: seq<Header>, p: nat, rs: seq<Record>, tag: nat) returns (i: nat)
    requires Starts(v, p, rs) && p + Sizes(rs) < |v|
    ensures i <= |rs| && (forall j :: 0 <= j < i ==> rs[j].tag != tag) && (i < |rs| ==> rs[i].tag == tag)
    ensures Search(v, p, Sizes(rs), tag) ==
              if i == |rs| then Beyond(v, p + Sizes(rs), tag) else Found(p + Sizes(rs[..i]), Sizes(rs[i..]))
    decreases rs
  {
    if rs == [] {
      i := 0;
    } else if rs[0].tag == tag {
      i := 0;
      assert rs[0..] == rs;
    } else {
      var k := SearchesAlong(v, p + rs[0].Size(), rs[1..], tag);
      i := k + 1;
      if k < |rs| - 1 { assert rs[..i][1..] == rs[1..][..k] && rs[1..][k..] == rs[i..]; }
    }
  }

  ghost predicate IsFirst(rs: seq<Record>, tag: nat, i: nat) {
    i < |rs| && rs[i].tag == tag && forall j :: 0 <= j < i ==> rs[j].tag != tag
  }

  /** The outcome is the first record with the tag, and what is left from there, or that there is none. */
  ghost predicate Answers(o: Outcome, p: nat, rs: seq<Record>, tag: nat) {
    match o
    case Found(q, left) => exists i: nat :: IsFirst(rs, tag, i) && q == p + Sizes(rs[..i]) && left == Sizes(rs[i..])
    case Missing => forall r :: r in rs ==> r.tag != tag
    case _ => false
  }

  /** A search over written records is right if the tag is there. If it is not, the search is right
      exactly if the sixteen bytes behind the records do not read as a header with a total of zero. */
  lemma {:induction false} SearchIsRight(s: seq<Byte>, p: nat, rs: seq<Record>, tag: nat)
    requires Written(s, p, rs) && p + |Encode(rs)| + HEADER <= |s|
    ensures Answers(Search(Headers(s), p, |Encode(rs)|, tag), p, rs, tag) <==>
            (exists r :: r in rs && r.tag == tag) || HeaderAt(s, p + |Encode(rs)|).Total() != 0
  {
    WrittenIsAt(s, p, rs);
    WrittenStarts(s, p, rs);
    HeaderIs(s, 0, p + |Encode(rs)|);
    var i := SearchesAlong(Headers(s), p, rs, tag);
    if i < |rs| {
      assert rs[i] in rs && IsFirst(rs, tag, i);
    } else {
      assert forall r :: r in rs ==> r.tag != tag;
    }
  }

  /** Nothing is written, and the bytes that follow read as a header with a total of zero: one search
      goes round for ever, and another finds a record that was never written. */
  method BadEndExample() returns (s: seq<Byte>, r: Outcome, r': Outcome)
    ensures Written(s, 0, []) && |s| == HEADER && HeaderAt(s, 0) == Header(0, WRAPS)
    ensures r == Endless && r' == Found(0, 0)
  {
    s := Le(0, 8) + Le(WRAPS, 8);
    assert s[0..8] == Le(0, 8) && s[8..HEADER] == Le(WRAPS, 8);
    WordBack(0);
    WordBack(WRAPS);
    r := FindNext(s, Some(0), 0, 1);
    r' := FindNext(s, Some(0), 0, 0);
  }

  // ----- nested records -----

  datatype Tree = Tree(tag: nat, body: Body)
  datatype Body = Leaf(bytes: seq<Byte>) | Nest(kids: seq<Tree>)

  function Content(t: Tree): seq<Byte> {
    match t.body
    case Leaf(bytes) => bytes
    case Nest(kids) => Encode(Records(kids))
  }

  function Records(ts: seq<Tree>): (rs: seq<Record>)
    ensures |rs| == |ts|
  {
    if ts == [] then [] else [Record(ts[0].tag, Content(ts[0]))] + Records(ts[1..])
  }

  /** How many bytes a tree takes. */
  function Span(t: Tree): nat {
    match t.body
    case Leaf(bytes) => HEADER + |bytes|
    case Nest(kids) => HEADER + Spans(kids)
  }

  function Spans(ts: seq<Tree>): nat {
    if ts == [] then 0 else Span(ts[0]) + Spans(ts[1..])
  }

  predicate TreeFits(t: Tree) {
    Record(t.tag, Content(t)).Fits() && (t.body.Nest? ==> TreesFit(t.body.kids))
  }

  predicate TreesFit(ts: seq<Tree>) {
    ts == [] || (TreeFits(ts[0]) && TreesFit(ts[1..]))
  }

  /** std_tlv_efind over any bytes. */
  function Descend(v: seq<Header>, p: nat, len: nat, tags: seq<nat>): Outcome
    requires p + len < |v|
    decreases tags
  {
    if tags == [] then Found(p, len)
    else
      var o := Search(v, p, len, tags[0]);
      if !o.Found? || |tags| == 1 then o
      else if o.at + HEADER + v[o.at].len >= |v| then Overrun
      else Descend(v, o.at + HEADER, v[o.at].len, tags[1..])
  }

  lemma {:induction false} DescendsOn(v: seq<Header>, p: nat, len: nat, tags: seq<nat>, ix: nat)
    requires p + len < |v| && ix < |tags|
    ensures Descend(v, p, len, tags[ix..]) ==
              var o := Search(v, p, len, tags[ix]);
              if !o.Found? || ix + 1 == |tags| then o
              else if o.at + HEADER + v[o.at].len >= |v| then Overrun
              else Descend(v, o.at + HEADER, v[o.at].len, tags[ix + 1..])
  {
    assert tags[ix..][1..] == tags[ix + 1..];
  }

  method EFind(s: seq<Byte>, data: Option<nat>, dlen: nat, tags: seq<nat>) returns (r: Outcome)
    requires data.Some? ==> data.value + dlen + HEADER <= |s|
    ensures r == if data == None then Missing else Descend(Headers(s), data.value, dlen, tags)
  {
    if data == None { return Missing; }
    var p: nat, len: nat := data.value, dlen;
    ghost var v := Headers(s);
    assert tags[0..] == tags;
    for ix := 0 to |tags|
      invariant p + len < |v| && Descend(v, p, len, tags[ix..]) == Descend(v, data.value, dlen, tags)
    {
      DescendsOn(v, p, len, tags, ix);
      r := FindNext(s, Some(p), len, tags[ix]);
      if !r.Found? || ix + 1 == |tags| { return; }
      var h := ReadHeader(s, r.at);
      if r.at + HEADER + h.len + HEADER > |s| { return Overrun; }
      p, len := r.at + HEADER, h.len;
    }
    r := Found(p, len);
  }

  /** Where a tree is, and what is left from there in the trees that it is one of. */
  datatype Place = Place(tree: Tree, at: nat, left: nat)

  function Shifted(c: Option<Place>, n: nat): Option<Place> {
    if c == None then None else Some(c.value.(at := n + c.value.at))
  }

  /** The tree that is reached by entering the first one with each tag. */
  function Locate(ts: seq<Tree>, tags: seq<nat>): Option<Place>
    requires tags != []
    decreases |tags|, |ts|
  {
    if ts == [] then None
    else if ts[0].tag != tags[0] then Shifted(Locate(ts[1..], tags), Span(ts[0]))
    else if |tags| == 1 then Some(Place(ts[0], 0, Spans(ts)))
    else
      match ts[0].body
      case Leaf(_) => None
      case Nest(kids) => Shifted(Locate(kids, tags[1..]), HEADER)
  }

  /** The path of tags does not lead into a leaf. */
  predicate StaysNested(ts: seq<Tree>, tags: seq<nat>)
    decreases |tags|, |ts|
  {
    if ts == [] || |tags| <= 1 then true
    else if ts[0].tag != tags[0] then StaysNested(ts[1..], tags)
    else ts[0].body.Nest? && StaysNested(ts[0].body.kids, tags[1..])
  }

  /** The trees ts start at p, one behind the other, and what is nested in them in turn. */
  ghost predicate TreesStart(v: seq<Header>, p: nat, ts: seq<Tree>)
    decreases ts, 0
  {
    ts != [] ==> TreeStarts(v, p, ts[0]) && TreesStart(v, p + Span(ts[0]), ts[1..])
  }

  ghost predicate TreeStarts(v: seq<Header>, p: nat, t: Tree)
    decreases t, 1
  {
    && p < |v| && Span(t) < WORDS && v[p] == Header(t.tag, Span(t) - HEADER)
    && (t.body.Nest? ==> TreesStart(v, p + HEADER, t.body.kids))
  }

  /** The outcome of a search from p is the place c, or, if the end is clean, that there is none. */
  ghost predicate Tells(o: Outcome, p: nat, c: Option<Place>, clean: bool) {
    if c.Some? then o == Found(p + c.value.at, c.value.left) else clean ==> o == Missing
  }

  lemma {:induction false} PassesTree(v: seq<Header>, p: nat, ts: seq<Tree>, tags: seq<nat>)
    requires TreesStart(v, p, ts) && p + Spans(ts) < |v| && ts != [] && tags != [] && ts[0].tag != tags[0]
    ensures Descend(v, p, Spans(ts), tags) == Descend(v, p + Span(ts[0]), Spans(ts[1..]), tags)
  {}

  lemma {:induction false} EntersTree(v: seq<Header>, p: nat, ts: seq<Tree>, tags: seq<nat>)
    requires TreesStart(v, p, ts) && p + Spans(ts) < |v|
    requires ts != [] && |tags| > 1 && ts[0].tag == tags[0] && ts[0].body.Nest?
    ensures Descend(v, p, Spans(ts), tags) == Descend(v, p + HEADER, Spans(ts[0].body.kids), tags[1..])
    ensures v[p + Spans(ts)].Total() != 0 ==> v[p + Span(ts[0])].Total() != 0
  {
    if |ts| > 1 { assert TreeStarts(v, p + Span(ts[0]), ts[1..][0]); }
  }

  lemma {:induction false} DescendsAlong(v: seq<Header>, p: nat, ts: seq<Tree>, tags: seq<nat>)
    requires TreesStart(v, p, ts) && p + Spans(ts) < |v| && tags != [] && StaysNested(ts, tags)
    ensures Tells(Descend(v, p, Spans(ts), tags), p, Locate(ts, tags), v[p + Spans(ts)].Total() != 0)
    decreases |tags|, |ts|
  {
    if ts != [] {
      if ts[0].tag != tags[0] {
        PassesTree(v, p, ts, tags);
        DescendsAlong(v, p + Span(ts[0]), ts[1..], tags);
      } else if |tags| > 1 {
        EntersTree(v, p, ts, tags);
        DescendsAlong(v, p + HEADER, ts[0].body.kids, tags[1..]);
      }
    }
  }

  // ----- what a descent through written trees does -----

  lemma {:induction false} SpansAre(ts: seq<Tree>)
    ensures |Encode(Records(ts))| == Spans(ts)
  {
    if ts != [] {
      SpanIs(ts[0]);
      SpansAre(ts[1..]);
    }
  }

  lemma {:induction false} SpanIs(t: Tree)
    ensures HEADER + |Content(t)| == Span(t)
    decreases t, 1
  {
    if t.body.Nest? { SpansAre(t.body.kids); }
  }

  lemma {:induction false} RecordsFit(ts: seq<Tree>)
    requires TreesFit(ts)
    ensures AllFit(Records(ts))
  {
    if ts != [] { RecordsFit(ts[1..]); }
  }

  lemma {:induction false} KidsAreWritten(s: seq<Byte>, p: nat, t: Tree)
    requires TreeFits(t) && t.body.Nest? && Reads(s, p, Record(t.tag, Content(t)))
    ensures Written(s, p + HEADER, Records(t.body.kids))
  {
    RecordsFit(t.body.kids);
  }

  lemma {:induction false} FirstTree(s: seq<Byte>, p: nat, ts: seq<Tree>)
    requires TreesFit(ts) && ts != [] && Written(s, p, Records(ts))
    ensures Reads(s, p, Record(ts[0].tag, Content(ts[0]))) && Written(s, p + Span(ts[0]), Records(ts[1..]))
  {
    WrittenFirst(s, p, Records(ts));
    SpanIs(ts[0]);
  }

  lemma {:induction false} WrittenTree(s: seq<Byte>, p: nat, t: Tree)
    requires TreeFits(t) && Reads(s, p, Record(t.tag, Content(t)))
    ensures TreeStarts(Headers(s), p, t)
    decreases t, 1
  {
    SpanIs(t);
    HeaderIs(s, 0, p);
    if t.body.Nest? {
      KidsAreWritten(s, p, t);
      WrittenTrees(s, p + HEADER, t.body.kids);
    }
  }

  lemma {:induction false} WrittenTrees(s: seq<Byte>, p: nat, ts: seq<Tree>)
    requires TreesFit(ts) && Written(s, p, Records(ts))
    ensures TreesStart(Headers(s), p, ts)
    decreases ts, 0
  {
    if ts != [] {
      FirstTree(s, p, ts);
      WrittenTree(s, p, ts[0]);
      WrittenTrees(s, p + Span(ts[0]), ts[1..]);
    }
  }

  /** What is read at the place of a tree. */
  lemma {:induction false} LocatedReads(s: seq<Byte>, p: nat, ts: seq<Tree>, tags: seq<nat>)
    requires TreesFit(ts) && Written(s, p, Records(ts)) && tags != [] && Locate(ts, tags).Some?
    ensures var c := Locate(ts, tags).value; Reads(s, p + c.at, Record(c.tree.tag, Content(c.tree)))
    decreases |tags|, |ts|
  {
    FirstTree(s, p, ts);
    if ts[0].tag != tags[0] {
      LocatedReads(s, p + Span(ts[0]), ts[1..], tags);
    } else if |tags| > 1 {
      KidsAreWritten(s, p, ts[0]);
      LocatedReads(s, p + HEADER, ts[0].body.kids, tags[1..]);
    }
  }

  /** A descent through written trees reaches the tree that the path of tags leads to. If there is none,
      it says so if the bytes behind the trees do not read as a header with a total of zero. */
  lemma {:induction false} DescentIsRight(s: seq<Byte>, p: nat, ts: seq<Tree>, tags: seq<nat>)
    requires TreesFit(ts) && Written(s, p, Records(ts)) && p + |Encode(Records(ts))| + HEADER <= |s|
    requires tags != [] && StaysNested(ts, tags)
    ensures var e := |Encode(Records(ts))|;
            && Tells(Descend(Headers(s), p, e, tags), p, Locate(ts, tags), HeaderAt(s, p + e).Total() != 0)
            && var c := Locate(ts, tags);
            c.Some? ==> Reads(s, p + c.value.at, Record(c.value.tree.tag, Content(c.value.tree)))
  {
    SpansAre(ts);
    HeaderIs(s, 0, p + Spans(ts));
    WrittenTrees(s, p, ts);
    DescendsAlong(Headers(s), p, ts, tags);
    if Locate(ts, tags).Some? { LocatedReads(s, p, ts, tags); }
  }
}
