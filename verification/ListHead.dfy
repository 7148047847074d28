/**
  The circular doubly linked lists of cmn/list.h, as links in memory. A list is a ring: its head,
  then its entries in order, then the head again.
 */
module ListHead {
  import opened Common

  type Ptr = int

  datatype Links = Links(next: Ptr, prev: Ptr)

  type Mem = map<Ptr, Links>

  function SetNext(m: Mem, x: Ptr, p: Ptr): Mem { if x in m then m[x := m[x].(next := p)] else m }

  function SetPrev(m: Mem, x: Ptr, p: Ptr): Mem { if x in m then m[x := m[x].(prev := p)] else m }

  /** __list_add. */
  function Insert(m: Mem, n: Ptr, prev: Ptr, next: Ptr): Mem {
    SetNext(SetPrev(SetNext(SetPrev(m, next, n), n, next), n, prev), prev, n)
  }

  function Add(m: Mem, n: Ptr, h: Ptr): Mem
    requires h in m
  {
    Insert(m, n, h, m[h].next)
  }

  function AddTail(m: Mem, n: Ptr, h: Ptr): Mem
    requires h in m
  {
    Insert(m, n, m[h].prev, h)
  }

  /** list_del: the entry keeps its own links. */
  function Del(m: Mem, e: Ptr): Mem
    requires e in m
  {
    SetNext(SetPrev(m, m[e].next, m[e].prev), m[e].prev, m[e].next)
  }

  // ---------------------------------------------------------------- rings

  ghost predicate Edge(m: Mem, x: Ptr, y: Ptr) { x in m && y in m && m[x].next == y && m[y].prev == x }

  /** From `f`, the links lead through `q` to `t`. */
  ghost predicate Segment(m: Mem, f: Ptr, q: seq<Ptr>, t: Ptr)
    decreases |q|
  {
    if q == [] then Edge(m, f, t) else Edge(m, f, q[0]) && Segment(m, q[0], q[1..], t)
  }

  /** The ring around the head `h` holds the entries `q`, in this order. */
  ghost predicate Ring(m: Mem, h: Ptr, q: seq<Ptr>) { h in m && Segment(m, h, q, h) && h !in q && NoDuplicates(q) }

  function Last(f: Ptr, q: seq<Ptr>): Ptr { if q == [] then f else q[|q| - 1] }

  function First(q: seq<Ptr>, t: Ptr): Ptr { if q == [] then t else q[0] }

  lemma {:induction false} SegmentSplit(m: Mem, f: Ptr, a: seq<Ptr>, x: Ptr, b: seq<Ptr>, t: Ptr)
    ensures Segment(m, f, a + [x] + b, t) <==> Segment(m, f, a, x) && Segment(m, x, b, t)
    decreases |a|
  {
    var q := a + [x] + b;
    if a == [] {
      assert q[0] == x && q[1..] == b;
    } else {
      assert q[0] == a[0] && q[1..] == a[1..] + [x] + b;
      SegmentSplit(m, a[0], a[1..], x, b, t);
    }
  }

  lemma {:induction false} SegmentEnds(m: Mem, f: Ptr, q: seq<Ptr>, t: Ptr)
    requires Segment(m, f, q, t)
    ensures Edge(m, f, First(q, t)) && Edge(m, Last(f, q), t) && forall x :: x in q ==> x in m
    decreases |q|
  {
    if q == [] {
    } else {
      SegmentEnds(m, q[0], q[1..], t);
      assert q == [q[0]] + q[1..];
    }
  }

  lemma {:induction false} SegmentFrame(m: Mem, m': Mem, f: Ptr, q: seq<Ptr>, t: Ptr)
    requires Segment(m, f, q, t) && m.Keys <= m'.Keys
    requires f in m && t in m && m'[f].next == m[f].next && m'[t].prev == m[t].prev
    requires forall x :: x in q && x in m ==> m'[x] == m[x]
    ensures Segment(m', f, q, t)
    decreases |q|
  {
    if q == [] {
    } else {
      SegmentFrame(m, m', q[0], q[1..], t);
    }
  }

  /** Leading the last link of a segment elsewhere. */
  lemma {:induction false} SegmentRetarget(m: Mem, m': Mem, f: Ptr, q: seq<Ptr>, t: Ptr, u: Ptr)
    requires Segment(m, f, q, t) && m.Keys <= m'.Keys && f !in q && NoDuplicates(q)
    requires Edge(m', Last(f, q), u)
    requires q != [] ==> f in m && m'[f].next == m[f].next
    requires forall x :: x in q && x in m ==> m'[x].prev == m[x].prev && (x != Last(f, q) ==> m'[x].next == m[x].next)
    ensures Segment(m', f, q, u)
    decreases |q|
  {
    if q == [] {
    } else {
      assert q == [q[0]] + q[1..];
      assert forall x :: x in q[1..] ==> x in q;
      assert q[0] !in q[1..];
      SegmentRetarget(m, m', q[0], q[1..], t, u);
    }
  }

  /** Entering a segment from elsewhere. */
  lemma SegmentResource(m: Mem, m': Mem, f: Ptr, q: seq<Ptr>, t: Ptr, g: Ptr)
    requires Segment(m, f, q, t) && m.Keys <= m'.Keys && Edge(m', g, First(q, t)) && NoDuplicates(q) && t !in q
    requires q != [] ==> t in m && m'[t].prev == m[t].prev
    requires forall x :: x in q && x in m ==> m'[x].next == m[x].next && (x != First(q, t) ==> m'[x] == m[x])
    ensures Segment(m', g, q, t)
  {
    if q != [] {
      SegmentEnds(m, f, q, t);
      assert q == [q[0]] + q[1..];
      assert forall x :: x in q[1..] ==> x in q;
      SegmentFrame(m, m', q[0], q[1..], t);
    }
  }

  lemma InitRing(m: Mem, h: Ptr)
    ensures Ring(m[h := Links(h, h)], h, [])
  {
  }

  /** list_empty and list_first_entry. */
  lemma EmptyRing(m: Mem, h: Ptr, q: seq<Ptr>)
    requires Ring(m, h, q)
    ensures m[h].next == First(q, h) && (m[h].next == h <==> q == [])
  {
    SegmentEnds(m, h, q, h);
  }

  lemma RingFrame(m: Mem, m': Mem, h: Ptr, q: seq<Ptr>)
    requires Ring(m, h, q) && m.Keys <= m'.Keys && m'[h] == m[h] && forall x :: x in q && x in m ==> m'[x] == m[x]
    ensures Ring(m', h, q)
  {
    SegmentFrame(m, m', h, q, h);
  }

  lemma AddRing(m: Mem, h: Ptr, q: seq<Ptr>, n: Ptr)
    requires Ring(m, h, q) && n in m && n != h && n !in q
    ensures Ring(Add(m, n, h), h, [n] + q)
    ensures forall x :: x in m && x != h && x != n && x !in q ==> Add(m, n, h)[x] == m[x]
  {
    SegmentEnds(m, h, q, h);
    var m' := Add(m, n, h);
    assert First(q, h) == h || First(q, h) in q;
    SegmentResource(m, m', h, q, h, n);
    assert ([n] + q)[1..] == q;
  }

  lemma AddTailRing(m: Mem, h: Ptr, q: seq<Ptr>, n: Ptr)
    requires Ring(m, h, q) && n in m && n != h && n !in q
    ensures Ring(AddTail(m, n, h), h, q + [n])
    ensures forall x :: x in m && x != h && x != n && x !in q ==> AddTail(m, n, h)[x] == m[x]
  {
    SegmentEnds(m, h, q, h);
    var m' := AddTail(m, n, h);
    assert Last(h, q) == h || Last(h, q) in q;
    SegmentRetarget(m, m', h, q, h, n);
    SegmentSplit(m', h, q, n, [], h);
    assert q + [n] + [] == q + [n];
  }

  /** What list_del finds around an entry, and leaves. */
  lemma DelLinks(m: Mem, h: Ptr, a: seq<Ptr>, e: Ptr, b: seq<Ptr>)
    requires Ring(m, h, a + [e] + b)
    ensures e in m && m[e] == Links(First(b, h), Last(h, a)) && e !in a && e !in b && e != h && h !in a && h !in b
    ensures Last(h, a) in m && First(b, h) in m && Last(h, a) != e && First(b, h) != e
    ensures NoDuplicates(a) && NoDuplicates(b) && forall x :: x in a ==> x !in b
  {
    var q := a + [e] + b;
    SegmentSplit(m, h, a, e, b, h);
    SegmentEnds(m, h, a, e);
    SegmentEnds(m, e, b, h);
    assert q[|a|] == e;
    forall i | 0 <= i < |a| ensures q[i] == a[i] {
    }
    forall i | 0 <= i < |b| ensures q[|a| + 1 + i] == b[i] {
    }
  }

  lemma NoDuplicatesJoin(a: seq<Ptr>, b: seq<Ptr>)
    requires NoDuplicates(a) && NoDuplicates(b) && forall x :: x in a ==> x !in b
    ensures NoDuplicates(a + b)
  {
    var q := a + b;
    forall i, j | 0 <= i < j < |q| ensures q[i] != q[j] {
      if i < |a| <= j { assert q[i] in a && q[j] == b[j - |a|]; }
    }
  }

  lemma DelRing(m: Mem, h: Ptr, a: seq<Ptr>, e: Ptr, b: seq<Ptr>)
    requires Ring(m, h, a + [e] + b)
    ensures e in m && Ring(Del(m, e), h, a + b) && Del(m, e)[e] == m[e]
    ensures forall x :: x in m && x != h && x !in a && x !in b ==> Del(m, e)[x] == m[x]
  {
    DelLinks(m, h, a, e, b);
    SegmentSplit(m, h, a, e, b, h);
    var m', p, n := Del(m, e), Last(h, a), First(b, h);
    NoDuplicatesJoin(a, b);
    assert Edge(m', p, n);
    assert (p == h || p in a) && (n == h || n in b);
    if b == [] {
      SegmentRetarget(m, m', h, a, e, h);
      assert a + b == a;
    } else {
      SegmentRetarget(m, m', h, a, e, n);
      SegmentResource(m, m', e, b, h, p);
      SegmentSplit(m', h, a, n, b[1..], h);
      assert a + [n] + b[1..] == a + b;
    }
  }

  /** Deleting an entry a second time changes nothing. */
  lemma DelTwice(m: Mem, h: Ptr, a: seq<Ptr>, e: Ptr, b: seq<Ptr>)
    requires Ring(m, h, a + [e] + b)
    ensures e in m && e in Del(m, e) && Del(Del(m, e), e) == Del(m, e)
  {
    DelLinks(m, h, a, e, b);
  }

  /** Deleting an entry that is linked to itself, as INIT_LIST_HEAD leaves it, changes nothing. */
  lemma DelSelf(m: Mem, e: Ptr)
    requires e in m && m[e] == Links(e, e)
    ensures Del(m, e) == m
  {
  }

  /** The link that list_for_each_safe saves: from the first entry to the second, or back to the head. */
  lemma SecondRing(m: Mem, h: Ptr, q: seq<Ptr>)
    requires Ring(m, h, q) && q != []
    ensures m[h].next == q[0] && q[0] in m && m[q[0]].next == First(q[1..], h)
  {
    SegmentEnds(m, h, q, h);
    SegmentEnds(m, q[0], q[1..], h);
  }
}
