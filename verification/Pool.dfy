/**
  The fixed-block memory pool of mem/mem_main.c: a table with one slot per block, which holds the
  address of the block while it is free and NULL while it is out.
 */
module Pool {

  const NULL := 0
  const ALIGNMENT := 8

  /** The numbers of values of a non-negative int, an unsigned int and a size_t. */
  const INT := 0x8000_0000
  const UINT := 0x1_0000_0000
  const SIZE_T := 0x1_0000_0000_0000_0000

  /** What is passed as an int, and not negative. */
  type Count = n: nat | n < INT

  datatype Ledger = Ledger(saddr: nat, eaddr: nat, size: nat, slots: seq<nat>, fblks: int, useblks: int)

  datatype FreeResult = Freed | Refused | OutsideTable | DividesByZero

  /** The bytes that mem_pool_create asks for: an unsigned product, to which a whole alignment is
      added when it is not a multiple of one. */
  function Bytes(size: nat, nblks: nat): nat { Rounded(size * nblks) }

  function Rounded(total: nat): nat {
    var bytes := total % UINT;
    if bytes % ALIGNMENT != 0 then (bytes + ALIGNMENT) % UINT else bytes
  }

  function BlockAddr(l: Ledger, i: nat): nat { l.saddr + i * l.size }

  /** mem_pool_create with build_free_mem_blk_list, for memory allocated at `saddr`. */
  function Created(saddr: nat, size: nat, nblks: nat): Ledger {
    Ledger(saddr, saddr + Bytes(size, nblks), size, seq(nblks, i requires 0 <= i => saddr + i * size), nblks, 0)
  }

  /** The first slot from `i` on that holds a free block, or the number of slots. */
  function FirstFree(slots: seq<nat>, i: nat): (k: nat)
    requires i <= |slots|
    ensures i <= k <= |slots| && (k < |slots| ==> slots[k] != NULL) && forall j :: i <= j < k ==> slots[j] == NULL
    decreases |slots| - i
  {
    if i == |slots| || slots[i] != NULL then i else FirstFree(slots, i + 1)
  }

  /** alloc_block: the ledger after it, and the block, NULL when there is none. */
  function Allocated(l: Ledger): (Ledger, nat) {
    var k := FirstFree(l.slots, 0);
    if l.fblks == 0 || k == |l.slots| then (l, NULL)
    else (l.(slots := l.slots[k := NULL], fblks := l.fblks - 1, useblks := l.useblks + 1), l.slots[k])
  }

  /** A number stored in an int. */
  function Signed(x: nat): int {
    var y := x % UINT;
    if y < INT then y else y - UINT
  }

  /** An int in an expression with a size_t. */
  function Widened(x: int): nat
    requires -SIZE_T <= x
  {
    if x < 0 then x + SIZE_T else x
  }

  /** free_blk: the offset is an int, and so is the index. Outside the table the source reads what is not
      its own, and may write there: the ledger of this function then means nothing. */
  function Returned(l: Ledger, addr: nat): (Ledger, FreeResult) {
    if addr < l.saddr || addr + l.size > l.eaddr then (l, Refused)
    else if l.size == 0 then (l, DividesByZero)
    else
      var offset := Widened(Signed(addr - l.saddr));
      if offset % l.size != 0 then (l, Refused)
      else
        var idx := Signed(offset / l.size);
        if idx < 0 || idx >= |l.slots| then (l, OutsideTable)
        else if l.slots[idx] != NULL then (l, Refused)
        else (l.(slots := l.slots[idx := addr], fblks := l.fblks + 1, useblks := l.useblks - 1), Freed)
  }

  // ---------------------------------------------------------------- the books balance

  function Out(slots: seq<nat>): nat {
    if slots == [] then 0 else Out(slots[..|slots| - 1]) + if slots[|slots| - 1] == NULL then 1 else 0
  }

  predicate Balanced(l: Ledger) {
    l.saddr > 0 && l.size > 0 && |l.slots| < INT &&
    (forall i :: 0 <= i < |l.slots| ==> l.slots[i] == NULL || l.slots[i] == BlockAddr(l, i)) &&
    l.useblks == Out(l.slots) && l.fblks + l.useblks == |l.slots|
  }

  /** `addr` is a block that is out. */
  predicate Outstanding(l: Ledger, addr: nat) {
    exists i :: 0 <= i < |l.slots| && l.slots[i] == NULL && addr == BlockAddr(l, i)
  }

  lemma {:induction false} OutUpdate(slots: seq<nat>, k: nat, a: nat)
    requires k < |slots|
    ensures Out(slots[k := a]) == Out(slots) + (if a == NULL then 1 else 0) - (if slots[k] == NULL then 1 else 0)
  {
    var n := |slots| - 1;
    var s' := slots[k := a];
    if k < n {
      assert s'[..n] == slots[..n][k := a];
      OutUpdate(slots[..n], k, a);
    } else {
      assert s'[..n] == slots[..n];
    }
  }

  lemma {:induction false} OutAll(slots: seq<nat>)
    ensures Out(slots) <= |slots|
    ensures Out(slots) == |slots| <==> forall i :: 0 <= i < |slots| ==> slots[i] == NULL
    ensures (forall i :: 0 <= i < |slots| ==> slots[i] != NULL) ==> Out(slots) == 0
  {
    if slots == [] {
    } else {
      var n := |slots| - 1;
      OutAll(slots[..n]);
      assert forall i :: 0 <= i < n ==> slots[..n][i] == slots[i];
    }
  }

  lemma CreatedBalanced(saddr: nat, size: nat, nblks: Count)
    requires saddr > 0 && size > 0
    ensures Balanced(Created(saddr, size, nblks)) && forall addr :: !Outstanding(Created(saddr, size, nblks), addr)
  {
    var l := Created(saddr, size, nblks);
    forall i | 0 <= i < nblks ensures l.slots[i] == BlockAddr(l, i) > 0 {
    }
    OutAll(l.slots);
  }

  /** Different blocks do not overlap. */
  lemma BlocksApart(l: Ledger, i: nat, j: nat)
    requires i < j
    ensures BlockAddr(l, i) + l.size <= BlockAddr(l, j)
  {
    assert (i + 1) * l.size <= j * l.size;
    assert (i + 1) * l.size == i * l.size + l.size;
  }

  /** Allocation fails exactly when all blocks are out; otherwise it hands out one that was not. */
  lemma AllocExact(l: Ledger)
    requires Balanced(l)
    ensures var (l', addr) := Allocated(l);
            Balanced(l') && l'.saddr == l.saddr && l'.eaddr == l.eaddr && l'.size == l.size &&
            |l'.slots| == |l.slots| &&
            (addr == NULL <==> l.useblks == |l.slots|) && (addr == NULL ==> l' == l) &&
            (addr != NULL ==> l'.useblks == l.useblks + 1 && !Outstanding(l, addr)) &&
            forall a :: Outstanding(l', a) <==> Outstanding(l, a) || (addr != NULL && a == addr)
  {
    OutAll(l.slots);
    var k := FirstFree(l.slots, 0);
    if k < |l.slots| {
      OutUpdate(l.slots, k, NULL);
      var l' := Allocated(l).0;
      forall a ensures Outstanding(l', a) <==> Outstanding(l, a) || a == BlockAddr(l, k) {
        SlotUpdate(l, l', k, a);
      }
      if Outstanding(l, BlockAddr(l, k)) {
        var i :| 0 <= i < |l.slots| && l.slots[i] == NULL && BlockAddr(l, k) == BlockAddr(l, i);
        SameBlock(l, i, k);
      }
    }
  }

  lemma SameBlock(l: Ledger, i: nat, j: nat)
    requires l.size > 0 && BlockAddr(l, i) == BlockAddr(l, j)
    ensures i == j
  {
    if i < j { BlocksApart(l, i, j); } else if j < i { BlocksApart(l, j, i); }
  }

  lemma SlotUpdate(l: Ledger, l': Ledger, k: nat, a: nat)
    requires l.size > 0 && k < |l.slots| == |l'.slots| && l'.slots == l.slots[k := l'.slots[k]] &&
             l'.saddr == l.saddr && l'.size == l.size
    ensures Outstanding(l', a) <==> if a == BlockAddr(l, k) then l'.slots[k] == NULL else Outstanding(l, a)
  {
    if a == BlockAddr(l, k) {
      if Outstanding(l', a) {
        var i :| 0 <= i < |l'.slots| && l'.slots[i] == NULL && a == BlockAddr(l', i);
        SameBlock(l, i, k);
      }
    } else {
      if Outstanding(l', a) {
        var i :| 0 <= i < |l'.slots| && l'.slots[i] == NULL && a == BlockAddr(l', i);
        assert l.slots[i] == NULL && a == BlockAddr(l, i);
      }
      if Outstanding(l, a) {
        var i :| 0 <= i < |l.slots| && l.slots[i] == NULL && a == BlockAddr(l, i);
        assert l'.slots[i] == NULL && a == BlockAddr(l', i);
      }
    }
  }

  /** The pool's memory holds all its blocks. */
  predicate Roomy(l: Ledger) { l.size * |l.slots| <= l.eaddr - l.saddr < UINT }

  lemma Offset(size: nat, i: nat)
    requires size > 0
    ensures (i * size) % size == 0 && (i * size) / size == i
  {
    var x := i * size;
    var q, r := x / size, x % size;
    assert x == q * size + r;
    if q < i {
      MoreBlocks(size, q, i);
    } else if q > i {
      MoreBlocks(size, i, q);
    }
  }

  lemma MoreBlocks(size: nat, i: nat, j: nat)
    requires i < j
    ensures i * size + size <= j * size
  {
    assert (i + 1) * size <= j * size;
    assert (i + 1) * size == i * size + size;
  }

  // ---------------------------------------------------------------- the index of an offset

  lemma WidenedOffset(d: nat)
    requires d < UINT
    ensures Widened(Signed(d)) == if d < INT then d else d + UINT * (UINT - 1)
  {
  }

  /** An index that is not negative is, modulo 2^32, that of the offset. */
  lemma IndexIsOffset(d: nat, size: nat, q: nat)
    requires d < UINT && q * size == Widened(Signed(d)) && 0 <= Signed(q) && Signed(q) * size < UINT
    ensures Signed(q) * size == d
  {
    WidenedOffset(d);
    var k := if d < INT then 0 else UINT - 1;
    var t := q / UINT;
    assert q == Signed(q) + UINT * t;
    Spread(Signed(q), t, size);
    SameRest(Signed(q) * size, t * size, d, k);
  }

  lemma Spread(i: int, t: int, size: int)
    ensures (i + UINT * t) * size == i * size + UINT * (t * size)
  {
  }

  lemma SameRest(a: nat, m: nat, b: nat, k: nat)
    requires a < UINT && b < UINT && a + UINT * m == b + UINT * k
    ensures a == b && m == k
  {
  }

  /** The index of a block is its own, exactly if its offset is an int or the size divides 2^32 - 1. */
  lemma BlockIndex(i: nat, size: nat)
    requires size > 0 && i < INT && i * size < UINT
    ensures var w := Widened(Signed(i * size));
            (w % size == 0 && Signed(w / size) == i) <==> (i * size < INT || (UINT - 1) % size == 0)
  {
    WidenedOffset(i * size);
    if i * size < INT {
      Offset(size, i);
    } else {
      var w := i * size + UINT * (UINT - 1);
      if (UINT - 1) % size == 0 { DivisorOwn(i, size, w); }
      if w % size == 0 && Signed(w / size) == i { OwnDivisor(i, size, w); }
    }
  }

  lemma DivisorOwn(i: nat, size: nat, w: nat)
    requires size > 0 && i < INT && w == i * size + UINT * (UINT - 1) && (UINT - 1) % size == 0
    ensures w % size == 0 && Signed(w / size) == i
  {
    var t := (UINT - 1) / size;
    WholeBlocks(UINT - 1, size);
    Spread(i, t, size);
    Offset(size, i + UINT * t);
    Remainder(i, t);
  }

  lemma OwnDivisor(i: nat, size: nat, w: nat)
    requires size > 0 && i * size < UINT && w == i * size + UINT * (UINT - 1) && w % size == 0 && Signed(w / size) == i
    ensures (UINT - 1) % size == 0
  {
    WholeBlocks(w, size);
    var t := (w / size) / UINT;
    assert w / size == i + UINT * t;
    Spread(i, t, size);
    SameRest(i * size, t * size, i * size, UINT - 1);
    Offset(size, t);
  }

  // ---------------------------------------------------------------- releases

  /** The block at this address can be given back. */
  predicate Returns(l: Ledger, addr: nat)
    requires l.size > 0
  {
    addr - l.saddr < INT || (UINT - 1) % l.size == 0
  }

  /** A release succeeds exactly on the blocks that are out and can be given back; one that is refused
      changes nothing. */
  lemma FreeExact(l: Ledger, addr: nat)
    requires Balanced(l) && Roomy(l)
    ensures var (l', r) := Returned(l, addr);
            (r.Freed? <==> Outstanding(l, addr) && Returns(l, addr)) && (r.Refused? ==> l' == l) &&
            (r.Freed? ==> FreedFrom(l, l', addr)) && !r.DividesByZero?
  {
    if Outstanding(l, addr) {
      var i :| 0 <= i < |l.slots| && l.slots[i] == NULL && addr == BlockAddr(l, i);
      FreedIff(l, i);
    } else if Returned(l, addr).1.Freed? {
      FreedFacts(l, addr);
    }
    if Returned(l, addr).1.Freed? { FreedFacts(l, addr); }
  }

  lemma FreedIff(l: Ledger, i: nat)
    requires l.size > 0 && Roomy(l) && i < |l.slots| < INT && l.slots[i] == NULL
    ensures Returned(l, BlockAddr(l, i)).1.Freed? <==> Returns(l, BlockAddr(l, i))
  {
    InMemory(l, i);
    BlockIndex(i, l.size);
    if Returned(l, BlockAddr(l, i)).1.Freed? {
      FreedIndex(l, BlockAddr(l, i));
      SameBlock(l, i, Signed(Widened(Signed(BlockAddr(l, i) - l.saddr)) / l.size));
    }
  }

  lemma FreedIndex(l: Ledger, addr: nat)
    requires l.size > 0 && Roomy(l) && Returned(l, addr).1.Freed?
    ensures var i := Signed(Widened(Signed(addr - l.saddr)) / l.size);
            0 <= i < |l.slots| && l.slots[i] == NULL && addr == BlockAddr(l, i) && i * l.size < UINT
  {
    var w := Widened(Signed(addr - l.saddr));
    var i := Signed(w / l.size);
    WholeBlocks(w, l.size);
    InMemory(l, i);
    IndexIsOffset(addr - l.saddr, l.size, w / l.size);
  }

  /** The books after a block has been given back. */
  ghost predicate FreedFrom(l: Ledger, l': Ledger, addr: nat) {
    Balanced(l') && l'.saddr == l.saddr && l'.eaddr == l.eaddr && l'.size == l.size && |l'.slots| == |l.slots| &&
    l'.useblks == l.useblks - 1 && forall a :: Outstanding(l', a) <==> Outstanding(l, a) && a != addr
  }

  lemma FreedFacts(l: Ledger, addr: nat)
    requires Balanced(l) && Roomy(l) && Returned(l, addr).1.Freed?
    ensures Outstanding(l, addr) && FreedFrom(l, Returned(l, addr).0, addr)
  {
    var l' := Returned(l, addr).0;
    var idx := Signed(Widened(Signed(addr - l.saddr)) / l.size);
    FreedIndex(l, addr);
    OutUpdate(l.slots, idx, addr);
    forall a ensures Outstanding(l', a) <==> Outstanding(l, a) && a != addr {
      SlotUpdate(l, l', idx, a);
    }
  }

  lemma WholeBlocks(offset: nat, size: nat)
    requires size > 0 && offset % size == 0
    ensures offset == (offset / size) * size
  {
  }

  lemma InMemory(l: Ledger, i: nat)
    requires Roomy(l) && i < |l.slots|
    ensures BlockAddr(l, i) + l.size <= l.eaddr
  {
    assert (i + 1) * l.size <= |l.slots| * l.size;
    assert (i + 1) * l.size == i * l.size + l.size;
  }

  // ---------------------------------------------------------------- where the bytes asked for matter

  /** The memory asked for holds all blocks, exactly when rounding up their total does not overflow. */
  lemma RoomyIff(saddr: nat, size: nat, nblks: nat)
    ensures Roomy(Created(saddr, size, nblks)) <==> size * nblks + ALIGNMENT <= UINT
  {
    RoundedIff(size * nblks);
  }

  lemma RoundedIff(total: nat)
    ensures Rounded(total) < UINT && (total <= Rounded(total) <==> total + ALIGNMENT <= UINT)
    ensures total + ALIGNMENT <= UINT ==>
              Rounded(total) == if total % ALIGNMENT != 0 then total + ALIGNMENT else total
  {
  }

  /** The blocks of a new pool all lie in its memory, exactly then. */
  lemma BlocksFitIff(saddr: nat, size: nat, nblks: nat)
    requires size > 0
    ensures var l := Created(saddr, size, nblks);
            (forall i :: 0 <= i < nblks ==> BlockAddr(l, i) + size <= l.eaddr) <==> size * nblks + ALIGNMENT <= UINT
  {
    RoomyIff(saddr, size, nblks);
    if nblks > 0 {
      LastFits(Created(saddr, size, nblks), nblks, saddr + Bytes(size, nblks));
    }
  }

  lemma LastFits(l: Ledger, n: nat, end: nat)
    requires n > 0
    ensures (forall i :: 0 <= i < n ==> BlockAddr(l, i) + l.size <= end) <==> l.saddr + l.size * n <= end
  {
    forall i | 0 <= i < n ensures i * l.size + l.size <= n * l.size { MoreBlocks(l.size, i, n); }
    assert (n - 1) * l.size + l.size == n * l.size == l.size * n;
    assert BlockAddr(l, n - 1) + l.size == l.saddr + l.size * n;
  }

  /** The total size is rounded up by at least one block. */
  predicate OneTooMany(size: nat, nblks: nat) {
    size * nblks + ALIGNMENT <= UINT && (size * nblks) % ALIGNMENT != 0 && size <= ALIGNMENT
  }

  /** The whole quotients of offsets that become negative as an int: from the first offset that does to
      the last at which there is room for a block. */
  function Lowest(size: nat): int
    requires size > 0
  {
    (SIZE_T - INT + size - 1) / size
  }

  function Highest(size: nat, bytes: nat): int
    requires size > 0
  {
    (SIZE_T - UINT + bytes - size) / size
  }

  /** In so many bytes, some index is outside the table: that behind the last block, or that of a negative
      offset. */
  predicate Outside(size: nat, nblks: nat, bytes: nat)
    requires size > 0
  {
    (nblks * size < INT && nblks * size + size <= bytes) || HighOutside(size, nblks, bytes)
  }

  predicate HighOutside(size: nat, nblks: nat, bytes: nat)
    requires size > 0
  {
    var lo, hi := Lowest(size), Highest(size, bytes);
    lo <= hi && (lo % UINT > hi % UINT || hi % UINT >= nblks)
  }

  /** A release can index outside the table of a new pool, exactly then. */
  lemma OutsideIff(saddr: nat, size: nat, nblks: Count)
    requires size > 0
    ensures (exists addr: nat :: Returned(Created(saddr, size, nblks), addr).1.OutsideTable?) <==>
            Outside(size, nblks, Bytes(size, nblks))
  {
    RoundedIff(size * nblks);
    LedgerOutside(Created(saddr, size, nblks));
  }

  lemma LedgerOutside(l: Ledger)
    requires l.size > 0 && |l.slots| < INT && 0 <= l.eaddr - l.saddr < UINT
    ensures (exists addr: nat :: Returned(l, addr).1.OutsideTable?) <==>
            Outside(l.size, |l.slots|, l.eaddr - l.saddr)
  {
    if HighOutside(l.size, |l.slots|, l.eaddr - l.saddr) {
      HighWitness(l);
    } else if Outside(l.size, |l.slots|, l.eaddr - l.saddr) {
      LowWitness(l);
    }
    forall addr: nat | Returned(l, addr).1.OutsideTable? ensures Outside(l.size, |l.slots|, l.eaddr - l.saddr) {
      OutsideCause(l, addr);
    }
  }

  lemma LowWitness(l: Ledger)
    requires l.size > 0 && |l.slots| * l.size < INT && |l.slots| * l.size + l.size <= l.eaddr - l.saddr
    ensures Returned(l, l.saddr + |l.slots| * l.size).1.OutsideTable?
  {
    Offset(l.size, |l.slots|);
    WidenedOffset(|l.slots| * l.size);
    MoreAtMost(|l.slots|, l.size);
  }

  /** Of the quotients between, one is outside the table modulo 2^32 exactly if the last one is, or a
      multiple of 2^32 is passed. */
  lemma QuotientOutside(lo: nat, hi: nat, n: nat) returns (q: nat)
    requires lo <= hi && n < UINT && (lo % UINT > hi % UINT || hi % UINT >= n)
    ensures lo <= q <= hi && q % UINT >= n
  {
    q := if hi % UINT >= n then hi else hi - hi % UINT - 1;
    assert hi == UINT * (hi / UINT) + hi % UINT && lo == UINT * (lo / UINT) + lo % UINT;
    if hi % UINT < n {
      assert lo / UINT < hi / UINT;
      assert q == UINT * (hi / UINT - 1) + (UINT - 1);
    }
  }

  lemma QuotientInside(lo: nat, hi: nat, q: nat, n: nat)
    requires lo <= q <= hi < lo + UINT && q % UINT >= n
    ensures lo % UINT > hi % UINT || hi % UINT >= n
  {
    assert hi == UINT * (hi / UINT) + hi % UINT && lo == UINT * (lo / UINT) + lo % UINT;
    assert q == UINT * (q / UINT) + q % UINT;
  }

  lemma HighRange(size: nat, bytes: nat, q: nat)
    requires size > 0
    ensures Lowest(size) <= q <= Highest(size, bytes) <==>
            SIZE_T - INT <= q * size <= SIZE_T - UINT + bytes - size
  {
    QuotientBounds(SIZE_T - INT + size - 1, size, q);
    QuotientBounds(SIZE_T - UINT + bytes - size, size, q);
  }

  lemma QuotientBounds(x: int, size: nat, q: nat)
    requires size > 0
    ensures q <= x / size <==> q * size <= x
    ensures x / size <= q <==> x - size < q * size
  {
    var d, m := x / size, x % size;
    assert x == d * size + m;
    if q <= d { assert q * size <= d * size; } else { assert (d + 1) * size <= q * size; }
    if d <= q { assert d * size <= q * size; } else { assert (q + 1) * size <= d * size; }
  }

  lemma HighWitness(l: Ledger)
    requires l.size > 0 && |l.slots| < INT && 0 <= l.eaddr - l.saddr < UINT
    requires HighOutside(l.size, |l.slots|, l.eaddr - l.saddr)
    ensures exists addr: nat :: Returned(l, addr).1.OutsideTable?
  {
    var q := QuotientOutside(Lowest(l.size), Highest(l.size, l.eaddr - l.saddr), |l.slots|);
    HighRange(l.size, l.eaddr - l.saddr, q);
    var d := q * l.size - (SIZE_T - UINT);
    WidenedOffset(d);
    Offset(l.size, q);
    assert Returned(l, l.saddr + d).1.OutsideTable?;
  }

  lemma OutsideCause(l: Ledger, addr: nat)
    requires l.size > 0 && |l.slots| < INT && l.eaddr - l.saddr < UINT && Returned(l, addr).1.OutsideTable?
    ensures l.saddr <= l.eaddr && Outside(l.size, |l.slots|, l.eaddr - l.saddr)
  {
    OffsetCause(addr - l.saddr, l.size, |l.slots|, l.eaddr - l.saddr);
  }

  lemma OffsetCause(d: nat, size: nat, nblks: Count, bytes: nat)
    requires size > 0 && d + size <= bytes < UINT && Widened(Signed(d)) % size == 0
    requires var idx := Signed(Widened(Signed(d)) / size); idx < 0 || idx >= nblks
    ensures Outside(size, nblks, bytes)
  {
    WidenedOffset(d);
    var q := Widened(Signed(d)) / size;
    WholeBlocks(Widened(Signed(d)), size);
    if d < INT {
      MoreAtMost(q, size);
      Monotone(nblks, q, size);
    } else {
      HighCause(size, nblks, bytes, q);
    }
  }

  lemma HighCause(size: nat, nblks: nat, bytes: nat, q: nat)
    requires size > 0 && SIZE_T - INT <= q * size <= SIZE_T - UINT + bytes - size && bytes < UINT && q % UINT >= nblks
    ensures HighOutside(size, nblks, bytes)
  {
    HighRange(size, bytes, q);
    NearQuotients(size, bytes, Lowest(size), Highest(size, bytes));
    QuotientInside(Lowest(size), Highest(size, bytes), q, nblks);
  }

  lemma NearQuotients(size: nat, bytes: nat, lo: nat, hi: nat)
    requires size > 0 && bytes < UINT && lo == Lowest(size) && hi == Highest(size, bytes) && lo <= hi
    ensures hi < lo + UINT
  {
    HighRange(size, bytes, lo);
    HighRange(size, bytes, hi);
    Apart(lo, hi, size);
    MoreAtMost(hi - lo, size);
  }

  lemma Apart(lo: nat, hi: nat, size: nat)
    ensures (hi - lo) * size == hi * size - lo * size
  {
  }

  lemma Monotone(a: nat, b: nat, size: nat)
    requires a <= b
    ensures a * size <= b * size
  {
  }

  lemma MoreAtMost(q: nat, size: nat)
    ensures 0 <= q * size && (size > 0 ==> q <= q * size)
  {
  }

  /** In a pool whose total fits: exactly when the total is rounded up by a block, or the size does not
      divide 2^32 - 1 and a release at some offset that is negative as an int is not refused. */
  lemma OutsideFits(size: nat, nblks: Count)
    requires size > 0 && size * nblks + ALIGNMENT <= UINT
    ensures Outside(size, nblks, Bytes(size, nblks)) <==>
            OneTooMany(size, nblks) || ((UINT - 1) % size != 0 && Lowest(size) <= Highest(size, Bytes(size, nblks)))
  {
    RoundedUp(size, nblks);
    RoundedIff(size * nblks);
    var bytes := Bytes(size, nblks);
    if (UINT - 1) % size != 0 {
      OutsideOther(size, nblks, bytes);
    } else {
      OutsideDivisor(size, nblks, bytes);
    }
  }

  lemma OutsideOther(size: nat, nblks: Count, bytes: nat)
    requires size > 0 && (UINT - 1) % size != 0 && size * nblks < UINT && bytes < UINT
    requires nblks * size + size <= bytes ==>
               size <= ALIGNMENT && bytes == size * nblks + ALIGNMENT && (size * nblks) % ALIGNMENT != 0
    ensures Outside(size, nblks, bytes) <==> nblks * size + size <= bytes || Lowest(size) <= Highest(size, bytes)
  {
    if Lowest(size) <= Highest(size, bytes) {
      HighFits(size, nblks, bytes);
    } else if nblks * size + size <= bytes && nblks * size >= INT {
      SmallBlocks(size, nblks, bytes);
    }
  }

  lemma OutsideDivisor(size: nat, nblks: Count, bytes: nat)
    requires size > 0 && (UINT - 1) % size == 0 && bytes < UINT
    ensures Outside(size, nblks, bytes) <==> nblks * size + size <= bytes
  {
    if HighOutside(size, nblks, bytes) {
      HighDivisor(size, nblks, bytes);
    } else if nblks * size + size <= bytes && nblks * size >= INT {
      BehindLast(size, nblks, bytes);
    }
  }

  lemma HighDivisor(size: nat, nblks: Count, bytes: nat)
    requires size > 0 && bytes < UINT && (UINT - 1) % size == 0 && HighOutside(size, nblks, bytes)
    ensures nblks * size + size <= bytes
  {
    var q := QuotientOutside(Lowest(size), Highest(size, bytes), nblks);
    HighRange(size, bytes, q);
    DivisorIndex(size, nblks, q, q * size - (SIZE_T - UINT));
  }

  /** If the size divides 2^32 - 1, a large offset leads to the index it should. */
  lemma DivisorIndex(size: nat, nblks: nat, q: nat, d: nat)
    requires size > 0 && (UINT - 1) % size == 0 && 0 < d < UINT && q * size == d + (SIZE_T - UINT)
    requires q % UINT >= nblks
    ensures nblks * size <= d
  {
    var t := (UINT - 1) / size;
    WholeBlocks(UINT - 1, size);
    var i := q - UINT * t;
    Spread(i, t, size);
    assert i * size == d;
    PositiveFactor(i, size);
    Remainder(i, t);
    Monotone(nblks, i, size);
  }

  lemma Remainder(i: nat, t: nat)
    requires i < UINT
    ensures (i + UINT * t) % UINT == i
  {
  }

  lemma PositiveFactor(i: int, size: nat)
    requires 0 < i * size
    ensures 0 < i <= i * size
  {
    if i <= 0 {
      NotPositive(i, size);
    } else {
      MoreAtMost(i, size);
    }
  }

  lemma NotPositive(i: int, size: nat)
    requires i <= 0
    ensures i * size <= 0
  {
  }

  lemma HighFits(size: nat, nblks: Count, bytes: nat)
    requires size > 0 && size * nblks < UINT && bytes < UINT && (UINT - 1) % size != 0
    requires Lowest(size) <= Highest(size, bytes)
    ensures HighOutside(size, nblks, bytes)
  {
    var hi := Highest(size, bytes);
    HighRange(size, bytes, hi);
    OtherIndex(size, nblks, hi, hi * size - (SIZE_T - UINT));
  }

  /** If it does not, a large offset leads outside the table. */
  lemma OtherIndex(size: nat, nblks: Count, q: nat, d: nat)
    requires size > 0 && size * nblks < UINT && (UINT - 1) % size != 0
    requires INT <= d < UINT && q * size == d + (SIZE_T - UINT)
    ensures q % UINT >= nblks
  {
    var j := q % UINT;
    if j < nblks {
      WidenedOffset(d);
      Monotone(j, nblks, size);
      IndexIsOffset(d, size, q);
      Offset(size, q);
      BlockIndex(j, size);
      assert false;
    }
  }

  lemma BehindLast(size: nat, nblks: Count, bytes: nat)
    requires size > 0 && (UINT - 1) % size == 0 && INT <= nblks * size && nblks * size + size <= bytes < UINT
    ensures HighOutside(size, nblks, bytes)
  {
    var t := (UINT - 1) / size;
    WholeBlocks(UINT - 1, size);
    Spread(nblks, t, size);
    Remainder(nblks, t);
    HighCause(size, nblks, bytes, nblks + UINT * t);
  }

  lemma SmallBlocks(size: nat, nblks: Count, bytes: nat)
    requires 0 < size <= ALIGNMENT && nblks * size >= INT && bytes == size * nblks + ALIGNMENT
    requires (UINT - 1) % size != 0 && (size * nblks) % ALIGNMENT != 0
    ensures Lowest(size) <= Highest(size, bytes)
  {
    QuotientBounds(SIZE_T - UINT + bytes - size, size, Lowest(size));
    LowestFits(size, nblks, Lowest(size));
  }

  lemma LowestFits(size: nat, nblks: nat, lo: nat)
    requires 0 < size <= ALIGNMENT && lo == Lowest(size) && nblks * size >= INT
    requires (UINT - 1) % size != 0 && (size * nblks) % ALIGNMENT != 0
    ensures lo * size <= SIZE_T - UINT + (size * nblks + ALIGNMENT) - size
  {
    assert size != 1 && size != 3 && size != 5;
    if size == 6 {
      assert nblks * 6 >= INT + 4;
    } else if size == 2 || size == 4 || size == 7 {
    } else {
      assert size == 8;
    }
  }

  lemma RoundedUp(size: nat, nblks: nat)
    ensures nblks * size == size * nblks
    ensures size > 0 ==> (nblks * size + size <= Bytes(size, nblks) <==> OneTooMany(size, nblks))
  {
    RoundedIff(size * nblks);
  }

  // ---------------------------------------------------------------- every run of calls

  datatype Op = Take | Give(addr: nat)

  /** The blocks that callers hold, beside the pool; broken once a release was outside the table or has
      divided by zero. */
  datatype State = State(ledger: Ledger, held: set<nat>) | Broken

  predicate Breaks(l: Ledger, addr: nat) { Returned(l, addr).1.OutsideTable? || Returned(l, addr).1.DividesByZero? }

  function Apply(s: State, op: Op): State {
    if s.Broken? then Broken
    else
      match op
      case Take =>
        var (l, a) := Allocated(s.ledger);
        State(l, if a == NULL then s.held else s.held + {a})
      case Give(a) =>
        var (l, r) := Returned(s.ledger, a);
        if Breaks(s.ledger, a) then Broken else State(l, if r.Freed? then s.held - {a} else s.held)
  }

  function After(s: State, ops: seq<Op>): State {
    if ops == [] then s else Apply(After(s, ops[..|ops| - 1]), ops[|ops| - 1])
  }

  ghost predicate Inv(s: State) {
    s.State? && Balanced(s.ledger) && Roomy(s.ledger) &&
    (forall a :: a in s.held <==> Outstanding(s.ledger, a)) && |s.held| == s.ledger.useblks
  }

  /** The same memory, cut into the same blocks. */
  predicate SameShape(l: Ledger, l': Ledger) {
    l'.saddr == l.saddr && l'.eaddr == l.eaddr && l'.size == l.size && |l'.slots| == |l.slots|
  }

  lemma ApplyKeeps(s: State, op: Op)
    requires Inv(s) && Apply(s, op).State?
    ensures Inv(Apply(s, op))
  {
    match op
    case Take => AllocExact(s.ledger);
    case Give(a) => FreeExact(s.ledger, a);
  }

  /** No call changes the shape of the pool, and so it is broken by a release that breaks it at once. */
  lemma {:induction false} RunShape(s: State, ops: seq<Op>)
    requires s.State?
    ensures var s' := After(s, ops);
            if s'.State? then SameShape(s.ledger, s'.ledger) else exists a :: Breaks(s.ledger, a)
  {
    if ops == [] {
    } else {
      var n := |ops| - 1;
      RunShape(s, ops[..n]);
      var p := After(s, ops[..n]);
      if p.State? && Apply(p, ops[n]).Broken? {
        assert Breaks(p.ledger, ops[n].addr) && Breaks(s.ledger, ops[n].addr);
      }
    }
  }

  /** After every run that does not break the pool, the books balance, and the blocks held are exactly
      those the table lacks. */
  lemma {:induction false} RunInv(s: State, ops: seq<Op>)
    requires Inv(s)
    ensures var s' := After(s, ops);
            if s'.State? then Inv(s') && SameShape(s.ledger, s'.ledger) else exists a :: Breaks(s.ledger, a)
  {
    RunShape(s, ops);
    if ops == [] {
    } else {
      var n := |ops| - 1;
      RunInv(s, ops[..n]);
      if After(s, ops).State? { ApplyKeeps(After(s, ops[..n]), ops[n]); }
    }
  }

  function New(saddr: nat, size: nat, nblks: nat): State { State(Created(saddr, size, nblks), {}) }

  lemma NewInv(saddr: nat, size: nat, nblks: Count)
    requires saddr > 0 && size > 0 && size * nblks + ALIGNMENT <= UINT
    ensures Inv(New(saddr, size, nblks))
  {
    CreatedBalanced(saddr, size, nblks);
    RoomyIff(saddr, size, nblks);
    OutAll(Created(saddr, size, nblks).slots);
  }

  ghost predicate CanBreak(s: State) { exists ops :: After(s, ops).Broken? }

  /** Some run breaks a new pool, exactly when blocks are empty or an index is outside the table. */
  lemma BreaksIff(saddr: nat, size: nat, nblks: Count)
    ensures CanBreak(New(saddr, size, nblks)) <==> size == 0 || Outside(size, nblks, Bytes(size, nblks))
  {
    var s := New(saddr, size, nblks);
    if size == 0 {
      assert Breaks(s.ledger, saddr);
      GiveBreaks(s, saddr);
    } else {
      OutsideIff(saddr, size, nblks);
      if Outside(size, nblks, Bytes(size, nblks)) {
        var a :| Returned(s.ledger, a).1.OutsideTable?;
        GiveBreaks(s, a);
      }
      if CanBreak(s) {
        var ops :| After(s, ops).Broken?;
        RunShape(s, ops);
      }
    }
  }

  lemma GiveBreaks(s: State, a: nat)
    requires s.State? && Breaks(s.ledger, a)
    ensures CanBreak(s)
  {
    assert [Give(a)][..0] == [];
    assert After(s, [Give(a)]) == Broken;
  }

  // ---------------------------------------------------------------- giving back what was taken

  /** A block that is held and can be given back is not held any more, and no other block changes hands; what
      cannot be given back stays held, if the pool is not broken. */
  lemma GivenBack(s: State, a: nat)
    requires Inv(s) && a in s.held
    ensures var s' := Apply(s, Give(a));
            if Returns(s.ledger, a) then s'.State? && s'.held == s.held - {a} else s'.State? ==> s'.held == s.held
  {
    FreeExact(s.ledger, a);
  }

  /** Over every run, each block held can be given back. */
  ghost predicate AllReturn(saddr: nat, size: nat, nblks: nat) {
    forall ops, a :: IsHeld(After(New(saddr, size, nblks), ops), a) ==>
      Returned(After(New(saddr, size, nblks), ops).ledger, a).1.Freed?
  }

  predicate IsHeld(s: State, a: nat) { s.State? && a in s.held }

  /** What a caller can check: the total fits an unsigned int, and the offset of the last block an int,
      unless the size divides 2^32 - 1. */
  predicate Returnable(size: nat, nblks: nat)
    requires size > 0
  {
    size * nblks + ALIGNMENT <= UINT && (size * (nblks - 1) < INT || (UINT - 1) % size == 0)
  }

  lemma AllReturnIff(saddr: nat, size: nat, nblks: Count)
    requires saddr > 0 && size > 0
    ensures AllReturn(saddr, size, nblks) <==> Returnable(size, nblks)
  {
    var s := New(saddr, size, nblks);
    if Returnable(size, nblks) {
      forall ops, a | IsHeld(After(s, ops), a) ensures Returned(After(s, ops).ledger, a).1.Freed? {
        NewInv(saddr, size, nblks);
        RunInv(s, ops);
        FreeExact(After(s, ops).ledger, a);
        OutReturns(After(s, ops).ledger, a);
      }
    } else {
      BlockStuck(saddr, size, nblks);
      assert !AllReturn(saddr, size, nblks) by {
        var ops := Takes(nblks);
        assert IsHeld(After(s, ops), BlockAddr(Created(saddr, size, nblks), nblks - 1));
      }
    }
  }

  /** The same of a ledger: no block is out that cannot be given back. */
  predicate Returning(l: Ledger) { l.size > 0 && (l.size * (|l.slots| - 1) < INT || (UINT - 1) % l.size == 0) }

  lemma OutReturns(l: Ledger, a: nat)
    requires Returning(l) && Outstanding(l, a)
    ensures Returns(l, a)
  {
    var i :| 0 <= i < |l.slots| && l.slots[i] == NULL && a == BlockAddr(l, i);
    assert i * l.size <= (|l.slots| - 1) * l.size;
  }

  function Takes(n: nat): (ops: seq<Op>)
    ensures |ops| == n
  {
    seq(n, i => Take)
  }

  /** Of a pool like `l0`, the first `k` blocks are out, and no others. */
  ghost predicate FirstOut(l0: Ledger, l: Ledger, k: nat) {
    SameShape(l0, l) && k <= |l.slots| && l.fblks == |l.slots| - k && l.useblks == k &&
    (forall i :: 0 <= i < k ==> l.slots[i] == NULL) &&
    (forall i :: k <= i < |l.slots| ==> l.slots[i] == BlockAddr(l0, i))
  }

  lemma NextOut(l0: Ledger, l: Ledger, k: nat)
    requires FirstOut(l0, l, k) && k < |l.slots| && l0.saddr > 0
    ensures var (l', a) := Allocated(l); FirstOut(l0, l', k + 1) && a == BlockAddr(l0, k) != NULL
  {
    assert l.slots[k] == BlockAddr(l0, k) > 0;
    assert FirstFree(l.slots, 0) == k;
  }

  /** After so many allocations from a new pool the first blocks are out. */
  lemma {:induction false} TakesAll(saddr: nat, size: nat, nblks: nat, k: nat)
    requires saddr > 0 && k <= nblks
    ensures var s, l := After(New(saddr, size, nblks), Takes(k)), Created(saddr, size, nblks);
            s.State? && FirstOut(l, s.ledger, k) && (k > 0 ==> BlockAddr(l, k - 1) in s.held)
  {
    if k == 0 {
    } else {
      TakesAll(saddr, size, nblks, k - 1);
      assert Takes(k)[..k - 1] == Takes(k - 1) && Takes(k)[k - 1] == Take;
      NextOut(Created(saddr, size, nblks), After(New(saddr, size, nblks), Takes(k - 1)).ledger, k - 1);
    }
  }

  /** The last block of a pool that is too large is taken and cannot be given back. */
  lemma BlockStuck(saddr: nat, size: nat, nblks: Count)
    requires saddr > 0 && size > 0 && !Returnable(size, nblks)
    ensures nblks > 0
    ensures var s, a := After(New(saddr, size, nblks), Takes(nblks)), BlockAddr(Created(saddr, size, nblks), nblks - 1);
            IsHeld(s, a) && !Returned(s.ledger, a).1.Freed?
  {
    assert nblks > 0 by { LastOffset(size, nblks); }
    TakesAll(saddr, size, nblks, nblks);
    RoomyIff(saddr, size, nblks);
    RoundedIff(size * nblks);
    LastOffset(size, nblks);
    Stuck(After(New(saddr, size, nblks), Takes(nblks)).ledger, nblks - 1);
  }

  lemma LastOffset(size: nat, nblks: nat)
    ensures size * (nblks - 1) == (nblks - 1) * size && (nblks - 1) * size + size == size * nblks
    ensures nblks == 0 ==> size * (nblks - 1) <= 0
  {
  }

  /** So it is for every ledger of that shape. */
  lemma Stuck(l: Ledger, i: nat)
    requires l.size > 0 && i < |l.slots| < INT && l.eaddr - l.saddr < UINT
    requires BlockAddr(l, i) + l.size > l.eaddr || (Roomy(l) && i * l.size >= INT && (UINT - 1) % l.size != 0)
    ensures !Returned(l, BlockAddr(l, i)).1.Freed?
  {
    if BlockAddr(l, i) + l.size <= l.eaddr && l.slots[i] == NULL { FreedIff(l, i); }
    if BlockAddr(l, i) + l.size <= l.eaddr && Returned(l, BlockAddr(l, i)).1.Freed? {
      FreedIndex(l, BlockAddr(l, i));
      SameBlock(l, i, Signed(Widened(Signed(BlockAddr(l, i) - l.saddr)) / l.size));
    }
  }

  /** For example with 4095 blocks of 1 MB, whose total is aligned and fits: the index of block 2048 is
      -2048. */
  lemma LargePool(saddr: nat)
    requires saddr > 0
    ensures var size, n := 0x10_0000, 4095;
            var l := Created(saddr, size, n);
            Signed(Widened(Signed(2048 * size)) / size) == -2048 && Returned(l, BlockAddr(l, 2048)).1.OutsideTable? &&
            !OneTooMany(size, n) && !Returnable(size, n) && CanBreak(New(saddr, size, n))
  {
    GiveBreaks(New(saddr, 0x10_0000, 4095), saddr + 2048 * 0x10_0000);
  }

  /** Blocks that are out at the same time do not overlap and lie in the pool's memory. */
  lemma HeldApart(s: State, ops: seq<Op>, a: nat, b: nat)
    requires Inv(s) && After(s, ops).State? && a in After(s, ops).held && b in After(s, ops).held && a < b
    ensures var l := After(s, ops).ledger; l.saddr <= a && a + l.size <= b && b + l.size <= l.eaddr
  {
    RunInv(s, ops);
    OutApart(After(s, ops).ledger, a, b);
  }

  lemma OutApart(l: Ledger, a: nat, b: nat)
    requires l.size > 0 && Roomy(l) && Outstanding(l, a) && Outstanding(l, b) && a < b
    ensures l.saddr <= a && a + l.size <= b && b + l.size <= l.eaddr
  {
    var i :| 0 <= i < |l.slots| && l.slots[i] == NULL && a == BlockAddr(l, i);
    var j :| 0 <= j < |l.slots| && l.slots[j] == NULL && b == BlockAddr(l, j);
    PairApart(l, i, j);
  }

  lemma PairApart(l: Ledger, i: nat, j: nat)
    requires Roomy(l) && j < |l.slots| && BlockAddr(l, i) < BlockAddr(l, j)
    ensures l.saddr <= BlockAddr(l, i) && BlockAddr(l, i) + l.size <= BlockAddr(l, j) &&
            BlockAddr(l, j) + l.size <= l.eaddr
  {
    InMemory(l, j);
    if i < j { BlocksApart(l, i, j); } else if j < i { BlocksApart(l, j, i); }
  }

  // ---------------------------------------------------------------- the calls, in place

  class MemInfo {
    const saddr: nat
    const eaddr: nat
    const size: nat
    const blks: array<nat>
    var fblks: int
    var useblks: int

    ghost function View(): Ledger
      reads this, blks
    {
      Ledger(saddr, eaddr, size, blks[..], fblks, useblks)
    }

    /** mem_pool_create. */
    constructor (saddr: nat, size: nat, nblks: nat)
      ensures View() == Created(saddr, size, nblks) && fresh(blks)
    {
      this.saddr, this.size := saddr, size;
      this.eaddr := saddr + Bytes(size, nblks);
      blks := new nat[nblks];
      fblks, useblks := nblks, 0;
      new;
      var i := 0;
      while i < nblks
        invariant 0 <= i <= nblks && blks.Length == nblks && fblks == nblks && useblks == 0
        invariant forall j :: 0 <= j < i ==> blks[j] == saddr + j * size
      {
        blks[i] := saddr + i * size;
        i := i + 1;
      }
      assert blks[..] == Created(saddr, size, nblks).slots;
    }

    method AllocBlock() returns (addr: nat)
      modifies this, blks
      ensures (View(), addr) == Allocated(old(View()))
    {
      if fblks == 0 {
        return NULL;
      }
      var i := 0;
      while i < blks.Length
        invariant 0 <= i <= blks.Length && FirstFree(blks[..], i) == FirstFree(blks[..], 0)
        invariant View() == old(View())
      {
        if blks[i] == NULL {
          i := i + 1;
          continue;
        }
        addr := blks[i];
        blks[i] := NULL;
        fblks := fblks - 1;
        useblks := useblks + 1;
        assert blks[..] == old(blks[..])[i := NULL];
        return;
      }
      return NULL;
    }

    /** Outside the table nothing is promised. */
    method FreeBlk(addr: nat) returns (r: FreeResult)
      modifies this, blks
      ensures r == Returned(old(View()), addr).1
      ensures r.Freed? || r.Refused? ==> View() == Returned(old(View()), addr).0
    {
      if addr < saddr || addr + size > eaddr {
        return Refused;
      }
      if size == 0 {
        return DividesByZero;
      }
      var offset := Signed(addr - saddr);
      if Widened(offset) % size != 0 {
        return Refused;
      }
      var idx := Signed(Widened(offset) / size);
      if idx < 0 || idx >= blks.Length {
        return OutsideTable;
      }
      if blks[idx] == NULL {
        blks[idx] := addr;
        fblks := fblks + 1;
        useblks := useblks - 1;
        assert blks[..] == old(blks[..])[idx := addr];
        return Freed;
      }
      return Refused;
    }
  }
}
