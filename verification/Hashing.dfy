/**
  The hash table of cmn/hashlib.c: an array of buckets, each a chain of entries linked in place, and
  a pool with as many blocks as there are buckets, from which the entries come.
 */
module Hashing {
  import opened Common
  import opened Pool

  datatype Entry<K, V> = Entry(next: nat, key: K, data: V)

  // ---------------------------------------------------------------- chains

  function Head(c: seq<nat>): nat { if c == [] then NULL else c[0] }

  function Next(c: seq<nat>, i: nat): nat { if i + 1 < |c| then c[i + 1] else NULL }

  predicate Chain<K, V>(mem: map<nat, Entry<K, V>>, p: nat, c: seq<nat>) {
    p == Head(c) && forall i :: 0 <= i < |c| ==> c[i] != NULL && c[i] in mem && mem[c[i]].next == Next(c, i)
  }

  /** The buckets are chains that share no entry. */
  ghost predicate Linked<K, V>(heads: seq<nat>, mem: map<nat, Entry<K, V>>, chains: seq<seq<nat>>) {
    |heads| == |chains| && forall b :: 0 <= b < |chains| ==> Chain(mem, heads[b], chains[b]) && NoDuplicates(chains[b])
  }

  ghost predicate EntryOk<K, V>(mem: map<nat, Entry<K, V>>, index: K -> int, dir: map<K, nat>, b: int, a: nat) {
    a in mem && mem[a].key in dir && dir[mem[a].key] == a && index(mem[a].key) == b
  }

  ghost predicate KeyOk<K, V>(mem: map<nat, Entry<K, V>>, index: K -> int, dir: map<K, nat>, chains: seq<seq<nat>>,
                              k: K)
    requires k in dir
  {
    0 <= index(k) < |chains| && dir[k] in chains[index(k)] && dir[k] in mem && mem[dir[k]].key == k
  }

  /** `dir` gives the address of the entry of each key, and an entry is in the bucket of its key. */
  ghost predicate Listed<K(!new), V>(mem: map<nat, Entry<K, V>>, index: K -> int, dir: map<K, nat>,
                                     chains: seq<seq<nat>>)
  {
    (forall b, a :: 0 <= b < |chains| && a in chains[b] ==> EntryOk(mem, index, dir, b, a)) &&
    (forall k :: k in dir ==> KeyOk(mem, index, dir, chains, k))
  }

  /** The finite map from keys to data that the entries stand for. */
  ghost function Entries<K, V>(mem: map<nat, Entry<K, V>>, dir: map<K, nat>): (m: map<K, V>)
    requires forall k :: k in dir ==> dir[k] in mem
    ensures |m| == |dir| && m.Keys == dir.Keys
  {
    assert (map k | k in dir :: mem[dir[k]].data).Keys == dir.Keys;
    map k | k in dir :: mem[dir[k]].data
  }

  /** The entries are in blocks that are out and can be given back, and as many are out as there are
      entries. */
  ghost predicate Stocked<K(!new)>(l: Ledger, dir: map<K, nat>) {
    Balanced(l) && Roomy(l) && Returning(l) && |dir| == l.useblks && forall k :: k in dir ==> Outstanding(l, dir[k])
  }

  /** A chain with an entry linked at its end. */
  function LinkLast<K, V>(mem: map<nat, Entry<K, V>>, c: seq<nat>, a: nat, e: Entry<K, V>): map<nat, Entry<K, V>>
    requires c != [] ==> c[|c| - 1] in mem
  {
    var m := if c == [] then mem else mem[c[|c| - 1] := mem[c[|c| - 1]].(next := a)];
    m[a := e]
  }

  lemma ChainSame<K, V>(mem: map<nat, Entry<K, V>>, mem': map<nat, Entry<K, V>>, p: nat, c: seq<nat>)
    requires Chain(mem, p, c) && forall x :: x in c ==> x in mem' && mem'[x] == mem[x]
    ensures Chain(mem', p, c)
  {
  }

  lemma ChainLast<K, V>(mem: map<nat, Entry<K, V>>, p: nat, c: seq<nat>, a: nat, e: Entry<K, V>)
    requires Chain(mem, p, c) && NoDuplicates(c) && a != NULL && a !in c && e.next == NULL
    ensures Chain(LinkLast(mem, c, a, e), if c == [] then a else p, c + [a]) && NoDuplicates(c + [a])
  {
    var mem', c' := LinkLast(mem, c, a, e), c + [a];
    forall i | 0 <= i < |c'| ensures c'[i] != NULL && c'[i] in mem' && mem'[c'[i]].next == Next(c', i) {
      if i < |c| - 1 { assert c'[i] == c[i] != a && c[i] != c[|c| - 1] && Next(c', i) == Next(c, i); }
    }
  }

  function Without(c: seq<nat>, i: nat): seq<nat>
    requires i < |c|
  {
    c[..i] + c[i + 1..]
  }

  /** A chain with the entry at `i` unlinked. */
  function Unlink<K, V>(mem: map<nat, Entry<K, V>>, c: seq<nat>, i: nat): map<nat, Entry<K, V>>
    requires i < |c| && c[i] in mem && (i > 0 ==> c[i - 1] in mem)
  {
    if i == 0 then mem else mem[c[i - 1] := mem[c[i - 1]].(next := mem[c[i]].next)]
  }

  lemma ChainWithout<K, V>(mem: map<nat, Entry<K, V>>, p: nat, c: seq<nat>, i: nat)
    requires Chain(mem, p, c) && NoDuplicates(c) && i < |c|
    ensures Chain(Unlink(mem, c, i), if i == 0 then mem[c[i]].next else p, Without(c, i)) && NoDuplicates(Without(c, i))
  {
    var mem', c' := Unlink(mem, c, i), Without(c, i);
    forall j | 0 <= j < |c'| ensures c'[j] != NULL && c'[j] in mem' && mem'[c'[j]].next == Next(c', j) {
      WithoutNext(c, i, j);
    }
    WithoutFacts(c, i);
  }

  lemma WithoutNext(c: seq<nat>, i: nat, j: nat)
    requires i < |c| && j < |c| - 1
    ensures var c' := Without(c, i);
            c'[j] == (if j < i then c[j] else c[j + 1]) &&
            Next(c', j) == if j < i - 1 then Next(c, j) else if j == i - 1 then Next(c, i) else Next(c, j + 1)
  {
  }

  lemma WithoutFacts(c: seq<nat>, i: nat)
    requires NoDuplicates(c) && i < |c|
    ensures NoDuplicates(Without(c, i)) && forall x :: x in Without(c, i) <==> x in c && x != c[i]
  {
    var c' := Without(c, i);
    forall x | x in c && x != c[i] ensures x in c' {
      var j :| 0 <= j < |c| && c[j] == x;
      assert x == c'[if j < i then j else j - 1];
    }
  }

  /** One chain of the table changed, and in memory nothing of the others. */
  lemma OneChain<K, V>(heads: seq<nat>, mem: map<nat, Entry<K, V>>, chains: seq<seq<nat>>, b: nat, p: nat,
                       mem': map<nat, Entry<K, V>>, c: seq<nat>)
    requires Linked(heads, mem, chains) && b < |heads| && Chain(mem', p, c) && NoDuplicates(c)
    requires forall v, x :: 0 <= v < |chains| && v != b && x in chains[v] ==> x in mem' && x in mem && mem'[x] == mem[x]
    ensures Linked(heads[b := p], mem', chains[b := c])
  {
    forall v | 0 <= v < |chains| && v != b ensures Chain(mem', heads[v], chains[v]) {
      ChainSame(mem, mem', heads[v], chains[v]);
    }
  }

  // ---------------------------------------------------------------- entering and removing

  lemma EnteredListed<K(!new), V>(mem: map<nat, Entry<K, V>>, index: K -> int, dir: map<K, nat>, chains: seq<seq<nat>>,
                                  b: nat, a: nat, e: Entry<K, V>)
    requires Listed(mem, index, dir, chains) && b < |chains| && (chains[b] != [] ==> chains[b][|chains[b]| - 1] in mem)
    requires index(e.key) == b && e.key !in dir && forall v :: 0 <= v < |chains| ==> a !in chains[v]
    ensures Listed(LinkLast(mem, chains[b], a, e), index, dir[e.key := a], chains[b := chains[b] + [a]])
  {
    var c := chains[b];
    var mem', dir', chains' := LinkLast(mem, c, a, e), dir[e.key := a], chains[b := c + [a]];
    assert forall x :: x in mem && x != a ==> x in mem' && mem'[x].key == mem[x].key;
    forall v, x | 0 <= v < |chains'| && x in chains'[v]
      ensures EntryOk(mem', index, dir', v, x)
    {
      if x != a { assert EntryOk(mem, index, dir, v, x); }
    }
    forall k | k in dir' ensures KeyOk(mem', index, dir', chains', k) {
      if k != e.key {
        assert KeyOk(mem, index, dir, chains, k);
        assert dir[k] != a;
      }
    }
  }

  lemma RemovedListed<K(!new), V>(mem: map<nat, Entry<K, V>>, index: K -> int, dir: map<K, nat>, chains: seq<seq<nat>>,
                                  b: nat, i: nat)
    requires Listed(mem, index, dir, chains) && b < |chains| && i < |chains[b]| && NoDuplicates(chains[b])
    ensures chains[b][i] in mem && (i > 0 ==> chains[b][i - 1] in mem)
    ensures var c := chains[b]; Listed(Unlink(mem, c, i), index, dir - {mem[c[i]].key}, chains[b := Without(c, i)])
  {
    var c := chains[b];
    assert c[i] in c && (i > 0 ==> c[i - 1] in c);
    WithoutFacts(c, i);
    var mem', dir', chains' := Unlink(mem, c, i), dir - {mem[c[i]].key}, chains[b := Without(c, i)];
    assert forall x :: x in mem ==> x in mem' && mem'[x].key == mem[x].key;
    forall v, x | 0 <= v < |chains'| && x in chains'[v]
      ensures EntryOk(mem', index, dir', v, x)
    {
      assert EntryOk(mem, index, dir, v, x);
    }
    forall k | k in dir' ensures KeyOk(mem', index, dir', chains', k) {
      assert KeyOk(mem, index, dir, chains, k);
    }
  }

  lemma Apart<K(!new), V>(mem: map<nat, Entry<K, V>>, index: K -> int, dir: map<K, nat>, chains: seq<seq<nat>>, v: nat,
                          w: nat, x: nat)
    requires Listed(mem, index, dir, chains) && v < |chains| && w < |chains| && x in chains[v] && x in chains[w]
    ensures v == w
  {
    assert EntryOk(mem, index, dir, v, x) && EntryOk(mem, index, dir, w, x);
  }

  lemma EnteredLinked<K(!new), V>(heads: seq<nat>, mem: map<nat, Entry<K, V>>, index: K -> int, dir: map<K, nat>,
                                  chains: seq<seq<nat>>, b: nat, a: nat, e: Entry<K, V>)
    requires Linked(heads, mem, chains) && Listed(mem, index, dir, chains) && b < |chains| && a != NULL
    requires index(e.key) == b && e.key !in dir && e.next == NULL && forall k :: k in dir ==> dir[k] != a
    ensures var c := chains[b];
            (c != [] ==> c[|c| - 1] in mem) &&
            Linked(if c == [] then heads[b := a] else heads, LinkLast(mem, c, a, e), chains[b := c + [a]]) &&
            Listed(LinkLast(mem, c, a, e), index, dir[e.key := a], chains[b := c + [a]])
  {
    var c := chains[b];
    forall v | 0 <= v < |chains| ensures a !in chains[v] {
    }
    EnteredListed(mem, index, dir, chains, b, a, e);
    ChainLast(mem, heads[b], c, a, e);
    var mem' := LinkLast(mem, c, a, e);
    forall v, x | 0 <= v < |chains| && v != b && x in chains[v] ensures x in mem' && x in mem && mem'[x] == mem[x] {
      if c != [] && x == c[|c| - 1] { Apart(mem, index, dir, chains, v, b, x); }
    }
    OneChain(heads, mem, chains, b, if c == [] then a else heads[b], mem', c + [a]);
    if c != [] { assert heads[b := heads[b]] == heads; }
  }

  lemma RemovedLinked<K(!new), V>(heads: seq<nat>, mem: map<nat, Entry<K, V>>, index: K -> int, dir: map<K, nat>,
                                  chains: seq<seq<nat>>, b: nat, i: nat)
    requires Linked(heads, mem, chains) && Listed(mem, index, dir, chains) && b < |chains| && i < |chains[b]|
    ensures var c := chains[b];
            c[i] in mem && (i > 0 ==> c[i - 1] in mem) &&
            Linked(if i == 0 then heads[b := mem[c[i]].next] else heads, Unlink(mem, c, i),
                   chains[b := Without(c, i)]) &&
            Listed(Unlink(mem, c, i), index, dir - {mem[c[i]].key}, chains[b := Without(c, i)])
  {
    var c := chains[b];
    RemovedListed(mem, index, dir, chains, b, i);
    ChainWithout(mem, heads[b], c, i);
    var mem' := Unlink(mem, c, i);
    forall v, x | 0 <= v < |chains| && v != b && x in chains[v] ensures x in mem' && x in mem && mem'[x] == mem[x] {
      if i > 0 && x == c[i - 1] { Apart(mem, index, dir, chains, v, b, x); }
    }
    OneChain(heads, mem, chains, b, if i == 0 then mem[c[i]].next else heads[b], mem', Without(c, i));
    if i > 0 { assert heads[b := heads[b]] == heads; }
  }

  lemma EnteredStocked<K(!new)>(l: Ledger, dir: map<K, nat>, k: K)
    requires Stocked(l, dir) && k !in dir
    ensures var (l', a) := Allocated(l);
            (a == NULL <==> |dir| == |l.slots|) && (a == NULL ==> l' == l) && |l'.slots| == |l.slots| &&
            (a != NULL ==> Stocked(l', dir[k := a]) && forall j :: j in dir ==> dir[j] != a)
  {
    var (l', a) := Allocated(l);
    AllocExact(l);
    if a != NULL { EnteredOut(l, l', dir, k, a, dir[k := a]); }
  }

  lemma EnteredOut<K(!new)>(l: Ledger, l': Ledger, dir: map<K, nat>, k: K, a: nat, dir': map<K, nat>)
    requires Stocked(l, dir) && k !in dir && dir' == dir[k := a] && !Outstanding(l, a)
    requires Balanced(l') && SameShape(l, l') && l'.useblks == l.useblks + 1
    requires forall x :: Outstanding(l, x) || x == a ==> Outstanding(l', x)
    ensures Stocked(l', dir') && forall j :: j in dir ==> dir[j] != a
  {
    OneMore(dir, k, a);
    assert Roomy(l') && Returning(l');
  }

  lemma OneMore<K(!new)>(dir: map<K, nat>, k: K, a: nat)
    requires k !in dir
    ensures |dir[k := a]| == |dir| + 1
  {
    assert dir[k := a].Keys == dir.Keys + {k};
    assert |dir[k := a]| == |dir[k := a].Keys| && |dir| == |dir.Keys|;
  }

  lemma RemovedStocked<K(!new)>(l: Ledger, dir: map<K, nat>, k: K)
    requires Stocked(l, dir) && k in dir && forall i, j :: i in dir && j in dir && dir[i] == dir[j] ==> i == j
    ensures var (l', r) := Returned(l, dir[k]);
            r.Freed? && |l'.slots| == |l.slots| && Stocked(l', dir - {k}) && |dir - {k}| == |dir| - 1
  {
    FreeExact(l, dir[k]);
    OutReturns(l, dir[k]);
    assert (dir - {k}).Keys == dir.Keys - {k};
    assert |dir - {k}| == |(dir - {k}).Keys| && |dir| == |dir.Keys|;
  }

  // ---------------------------------------------------------------- what a table promises

  datatype Op<K, V> = Add(key: K, data: V) | Delete(key: K) | Lookup(key: K)

  /** The last for an access outside the array of buckets. */
  datatype Reply<V> = Done | Failed | Found(data: V) | OutOfBounds

  /** A finite map with room for `n` keys, and only for keys with an index below `n`. */
  function Answer<K, V>(m: map<K, V>, n: nat, index: K -> int, op: Op<K, V>): (map<K, V>, Reply<V>) {
    match op
    case Add(k, v) =>
      if k in m then (m, Done)
      else if index(k) >= n || |m| == n then (m, Failed)
      else (m[k := v], Done)
    case Delete(k) => if k in m then (m - {k}, Done) else (m, Failed)
    case Lookup(k) => (m, if k in m then Found(m[k]) else Failed)
  }

  // ---------------------------------------------------------------- the code

  /** sizeof (hash_bucket_t *). */
  const ADDRESS_SIZE := 8

  function Buckets(n: nat): nat { if n == 0 then 52 else n }

  /** The first entry with a key, and its place in the chain. */
  method FindInChain<K(==), V>(mem: map<nat, Entry<K, V>>, head: nat, key: K, ghost c: seq<nat>)
    returns (p: nat, ghost i: nat)
    requires Chain(mem, head, c)
    ensures i <= |c| && forall j :: 0 <= j < i ==> c[j] in mem && mem[c[j]].key != key
    ensures if i == |c| then p == NULL else p == c[i] && p in mem && mem[p].key == key
  {
    i := 0;
    p := head;
    while p != NULL
      invariant 0 <= i <= |c| && p == (if i < |c| then c[i] else NULL)
      invariant forall j :: 0 <= j < i ==> mem[c[j]].key != key
      decreases |c| - i
    {
      if mem[p].key == key { return; }
      p := mem[p].next;
      i := i + 1;
    }
  }

  method LastOfChain<K, V>(mem: map<nat, Entry<K, V>>, head: nat, ghost c: seq<nat>) returns (p: nat)
    requires Chain(mem, head, c)
    ensures p == if c == [] then NULL else c[|c| - 1]
  {
    ghost var i := 0;
    p := head;
    while p != NULL && mem[p].next != NULL
      invariant c != [] ==> 0 <= i < |c| && p == c[i]
      invariant c == [] ==> p == NULL
      decreases |c| - i
    {
      p := mem[p].next;
      i := i + 1;
    }
  }

  /** Walks to the end of a chain and writes an address there. */
  method HookLast<K, V>(heads: seq<nat>, mem: map<nat, Entry<K, V>>, b: nat, a: nat, ghost c: seq<nat>)
    returns (heads': seq<nat>, mem': map<nat, Entry<K, V>>)
    requires b < |heads| && Chain(mem, heads[b], c)
    ensures c != [] ==> c[|c| - 1] in mem && heads' == heads && mem' == mem[c[|c| - 1] := mem[c[|c| - 1]].(next := a)]
    ensures c == [] ==> heads' == heads[b := a] && mem' == mem
    ensures a == NULL ==> heads' == heads && mem' == mem
  {
    heads', mem' := heads, mem;
    var last := LastOfChain(mem, heads[b], c);
    if last != NULL {
      mem' := mem[last := mem[last].(next := a)];
    } else {
      heads' := heads[b := a];
    }
  }

  /** Everything that holds of a table of `n` buckets, which are enough for its entries not to overlap and
      few enough for each block to be given back. */
  ghost predicate Holds<K(!new), V>(t: Table<K, V>, n: nat, index: K -> int, dir: map<K, nat>, chains: seq<seq<nat>>) {
    3 <= n == |t.heads| == |t.ledger.slots| && t.nentries == |dir| &&
    Linked(t.heads, t.mem, chains) && Listed(t.mem, index, dir, chains) && Stocked(t.ledger, dir)
  }

  datatype Table<K, V> = Table(heads: seq<nat>, mem: map<nat, Entry<K, V>>, nentries: int, ledger: Ledger)

  ghost function Map<K(!new), V>(t: Table<K, V>, n: nat, index: K -> int, dir: map<K, nat>,
                                 chains: seq<seq<nat>>): (m: map<K, V>)
    requires Holds(t, n, index, dir, chains)
    ensures |m| == t.nentries == t.ledger.useblks && m.Keys == dir.Keys
  {
    assert forall k :: k in dir ==> KeyOk(t.mem, index, dir, chains, k);
    Entries(t.mem, dir)
  }

  /** The index is one of a bucket, or caught by the test of the code: that lets through negative ones,
      and the one just past the buckets. */
  predicate Indexed<K>(index: K -> int, n: nat, key: K) { index(key) >= 0 && index(key) != n }

  method FindEntry<K(==, !new), V>(t: Table<K, V>, n: nat, index: K -> int, key: K, ghost dir: map<K, nat>,
                                   ghost chains: seq<seq<nat>>)
    returns (p: nat)
    requires Holds(t, n, index, dir, chains) && Indexed(index, n, key)
    ensures p == if key in dir then dir[key] else NULL
    ensures p != NULL ==> p in t.mem
  {
    var b := index(key);
    if key in dir { assert KeyOk(t.mem, index, dir, chains, key); }
    if b > n { return NULL; }
    ghost var i;
    p, i := FindInChain(t.mem, t.heads[b], key, chains[b]);
    if p != NULL { assert EntryOk(t.mem, index, dir, b, p); }
  }

  method LookupEntry<K(==, !new), V>(t: Table<K, V>, n: nat, index: K -> int, key: K, ghost dir: map<K, nat>,
                                     ghost chains: seq<seq<nat>>)
    returns (r: Reply<V>)
    requires Holds(t, n, index, dir, chains)
    ensures if Indexed(index, n, key) then r == Answer(Map(t, n, index, dir, chains), n, index, Lookup(key)).1
            else r == OutOfBounds
  {
    if index(key) < 0 || index(key) == n { return OutOfBounds; }
    var p := FindEntry(t, n, index, key, dir, chains);
    if p == NULL { return Failed; }
    return Found(t.mem[p].data);
  }

  lemma EntriesEntered<K(!new), V>(mem: map<nat, Entry<K, V>>, mem': map<nat, Entry<K, V>>, dir: map<K, nat>, a: nat,
                                   e: Entry<K, V>)
    requires forall k :: k in dir ==> dir[k] in mem && dir[k] != a
    requires (forall x :: x in mem && x != a ==> x in mem' && mem'[x].data == mem[x].data) && a in mem' && mem'[a] == e
    ensures Entries(mem', dir[e.key := a]) == Entries(mem, dir)[e.key := e.data]
  {
  }

  lemma EntriesRemoved<K(!new), V>(mem: map<nat, Entry<K, V>>, mem': map<nat, Entry<K, V>>, dir: map<K, nat>, key: K)
    requires forall k :: k in dir ==> dir[k] in mem
    requires forall x :: x in mem ==> x in mem' && mem'[x].data == mem[x].data
    ensures Entries(mem', dir - {key}) == Entries(mem, dir) - {key}
  {
  }

  lemma InMemory<K(!new), V>(t: Table<K, V>, n: nat, index: K -> int, dir: map<K, nat>, chains: seq<seq<nat>>)
    requires Holds(t, n, index, dir, chains)
    ensures forall k :: k in dir ==> dir[k] in t.mem
    ensures Map(t, n, index, dir, chains) == Entries(t.mem, dir)
  {
    assert forall k :: k in dir ==> KeyOk(t.mem, index, dir, chains, k);
  }

  /** One more entry, at the end of the chain of its bucket. */
  lemma EnteredHolds<K(!new), V>(t: Table<K, V>, n: nat, index: K -> int, dir: map<K, nat>, chains: seq<seq<nat>>,
                                 b: nat, e: Entry<K, V>, l: Ledger, a: nat, heads: seq<nat>, mem: map<nat, Entry<K, V>>)
    requires Holds(t, n, index, dir, chains) && index(e.key) == b < n && e.key !in dir && e.next == NULL
    requires a != NULL && |l.slots| == n && Stocked(l, dir[e.key := a]) && forall k :: k in dir ==> dir[k] != a
    requires var c := chains[b];
             (c != [] ==> c[|c| - 1] in t.mem) && mem == LinkLast(t.mem, c, a, e) &&
             heads == if c == [] then t.heads[b := a] else t.heads
    ensures Holds(Table(heads, mem, t.nentries + 1, l), n, index, dir[e.key := a], chains[b := chains[b] + [a]])
  {
    EnteredLinked(t.heads, t.mem, index, dir, chains, b, a, e);
    OneMore(dir, e.key, a);
  }

  lemma EnteredMap<K(!new), V>(t: Table<K, V>, t': Table<K, V>, n: nat, index: K -> int, dir: map<K, nat>,
                               chains: seq<seq<nat>>, chains': seq<seq<nat>>, c: seq<nat>, a: nat, e: Entry<K, V>)
    requires Holds(t, n, index, dir, chains) && Holds(t', n, index, dir[e.key := a], chains') &&
             forall k :: k in dir ==> dir[k] != a
    requires (c != [] ==> c[|c| - 1] in t.mem) && t'.mem == LinkLast(t.mem, c, a, e)
    ensures Map(t', n, index, dir[e.key := a], chains') == Map(t, n, index, dir, chains)[e.key := e.data]
  {
    InMemory(t, n, index, dir, chains);
    InMemory(t', n, index, dir[e.key := a], chains');
    LinkLastData(t.mem, c, a, e);
    EntriesEntered(t.mem, t'.mem, dir, a, e);
  }

  lemma LinkLastData<K, V>(mem: map<nat, Entry<K, V>>, c: seq<nat>, a: nat, e: Entry<K, V>)
    requires c != [] ==> c[|c| - 1] in mem
    ensures var mem' := LinkLast(mem, c, a, e);
            (forall x :: x in mem && x != a ==> x in mem' && mem'[x].data == mem[x].data) && a in mem' && mem'[a] == e
  {
  }

  method AddEntry<K(==, !new), V>(t: Table<K, V>, n: nat, index: K -> int, key: K, data: V, ghost dir: map<K, nat>,
                                  ghost chains: seq<seq<nat>>)
    returns (t': Table<K, V>, r: Reply<V>, ghost dir': map<K, nat>, ghost chains': seq<seq<nat>>)
    requires Holds(t, n, index, dir, chains)
    ensures r.OutOfBounds? <==> !Indexed(index, n, key)
    ensures !r.OutOfBounds? ==>
              Holds(t', n, index, dir', chains') &&
              (Map(t', n, index, dir', chains'), r) == Answer(Map(t, n, index, dir, chains), n, index, Add(key, data))
  {
    t', dir', chains' := t, dir, chains;
    if index(key) < 0 || index(key) == n { return t, OutOfBounds, dir, chains; }
    var p := FindEntry(t, n, index, key, dir, chains);
    if p != NULL { return t, Done, dir, chains; }
    var b := index(key);
    if b > n { return t, Failed, dir, chains; }
    t', r, dir', chains' := AddAbsent(t, n, index, b, key, data, dir, chains);
  }

  /** Adding a key that is not there. */
  method AddAbsent<K(==, !new), V>(t: Table<K, V>, n: nat, index: K -> int, b: nat, key: K, data: V,
                                   ghost dir: map<K, nat>, ghost chains: seq<seq<nat>>)
    returns (t': Table<K, V>, r: Reply<V>, ghost dir': map<K, nat>, ghost chains': seq<seq<nat>>)
    requires Holds(t, n, index, dir, chains) && key !in dir && b == index(key) && b < n
    ensures Holds(t', n, index, dir', chains') && r == if |dir| == n then Failed else Done
    ensures var m := Map(t, n, index, dir, chains);
            Map(t', n, index, dir', chains') == if r == Failed then m else m[key := data]
  {
    EnteredStocked(t.ledger, dir, key);
    var (l, a) := Allocated(t.ledger);
    var heads, mem := HookLast(t.heads, t.mem, b, a, chains[b]);
    if a == NULL { return Table(heads, mem, t.nentries, l), Failed, dir, chains; }
    var e := Entry(NULL, key, data);
    mem := mem[a := e];
    EnteredHolds(t, n, index, dir, chains, b, e, l, a, heads, mem);
    t' := Table(heads, mem, t.nentries + 1, l);
    EnteredMap(t, t', n, index, dir, chains, chains[b := chains[b] + [a]], chains[b], a, e);
    return t', Done, dir[key := a], chains[b := chains[b] + [a]];
  }

  /** Unlinks the first entry with a key, if there is one. */
  method UnlinkKey<K(==), V>(heads: seq<nat>, mem: map<nat, Entry<K, V>>, b: nat, key: K, ghost c: seq<nat>)
    returns (heads': seq<nat>, mem': map<nat, Entry<K, V>>, p: nat, ghost i: nat)
    requires b < |heads| && Chain(mem, heads[b], c)
    ensures i <= |c| && forall j :: 0 <= j < i ==> c[j] in mem && mem[c[j]].key != key
    ensures i == |c| ==> p == NULL && heads' == heads && mem' == mem
    ensures i < |c| ==>
              p == c[i] && p != NULL && p in mem && mem[p].key == key && (i > 0 ==> c[i - 1] in mem) &&
              mem' == Unlink(mem, c, i) &&
              heads' == if i == 0 then heads[b := mem[p].next] else heads
  {
    heads', mem', i := heads, mem, 0;
    p := heads[b];
    var prev := NULL;
    while p != NULL
      invariant 0 <= i <= |c| && p == (if i < |c| then c[i] else NULL) && prev == (if i > 0 then c[i - 1] else NULL)
      invariant heads' == heads && mem' == mem
      invariant forall j :: 0 <= j < i ==> mem[c[j]].key != key
      decreases |c| - i
    {
      if mem[p].key == key {
        if prev != NULL {
          mem' := mem[prev := mem[prev].(next := mem[p].next)];
        } else {
          heads' := heads[b := mem[p].next];
        }
        return;
      }
      prev := p;
      p := mem[p].next;
      i := i + 1;
    }
  }

  lemma OneKeyEach<K(!new), V>(t: Table<K, V>, n: nat, index: K -> int, dir: map<K, nat>, chains: seq<seq<nat>>)
    requires Holds(t, n, index, dir, chains)
    ensures forall i, j :: i in dir && j in dir && dir[i] == dir[j] ==> i == j
  {
    forall i, j | i in dir && j in dir && dir[i] == dir[j] ensures i == j {
      assert KeyOk(t.mem, index, dir, chains, i) && KeyOk(t.mem, index, dir, chains, j);
    }
  }

  lemma RemovedHolds<K(!new), V>(t: Table<K, V>, n: nat, index: K -> int, dir: map<K, nat>, chains: seq<seq<nat>>,
                                 b: nat, i: nat, key: K, l: Ledger, heads: seq<nat>, mem: map<nat, Entry<K, V>>)
    requires Holds(t, n, index, dir, chains) && b < n && i < |chains[b]| && chains[b][i] in t.mem &&
             t.mem[chains[b][i]].key == key
    requires |l.slots| == n && Stocked(l, dir - {key}) && |dir - {key}| == |dir| - 1 &&
             (i > 0 ==> chains[b][i - 1] in t.mem)
    requires var c := chains[b];
             mem == Unlink(t.mem, c, i) && heads == if i == 0 then t.heads[b := t.mem[c[i]].next] else t.heads
    ensures Holds(Table(heads, mem, t.nentries - 1, l), n, index, dir - {key}, chains[b := Without(chains[b], i)])
  {
    RemovedLinked(t.heads, t.mem, index, dir, chains, b, i);
  }

  lemma RemovedMap<K(!new), V>(t: Table<K, V>, t': Table<K, V>, n: nat, index: K -> int, dir: map<K, nat>,
                               chains: seq<seq<nat>>, chains': seq<seq<nat>>, c: seq<nat>, i: nat, key: K)
    requires Holds(t, n, index, dir, chains) && Holds(t', n, index, dir - {key}, chains')
    requires i < |c| && c[i] in t.mem && (i > 0 ==> c[i - 1] in t.mem) && t'.mem == Unlink(t.mem, c, i)
    ensures Map(t', n, index, dir - {key}, chains') == Map(t, n, index, dir, chains) - {key}
  {
    InMemory(t, n, index, dir, chains);
    InMemory(t', n, index, dir - {key}, chains');
    EntriesRemoved(t.mem, t'.mem, dir, key);
  }

  method DeleteEntry<K(==, !new), V>(t: Table<K, V>, n: nat, index: K -> int, key: K, ghost dir: map<K, nat>,
                                     ghost chains: seq<seq<nat>>)
    returns (t': Table<K, V>, r: Reply<V>, ghost dir': map<K, nat>, ghost chains': seq<seq<nat>>)
    requires Holds(t, n, index, dir, chains)
    ensures r.OutOfBounds? <==> !Indexed(index, n, key)
    ensures !r.OutOfBounds? ==>
              Holds(t', n, index, dir', chains') &&
              (Map(t', n, index, dir', chains'), r) == Answer(Map(t, n, index, dir, chains), n, index, Delete(key))
  {
    t', dir', chains' := t, dir, chains;
    if index(key) < 0 || index(key) == n { return t, OutOfBounds, dir, chains; }
    if key in dir { assert KeyOk(t.mem, index, dir, chains, key); }
    var b := index(key);
    if b > n { return t, Failed, dir, chains; }
    ghost var i;
    var heads, mem, p;
    heads, mem, p, i := UnlinkKey(t.heads, t.mem, b, key, chains[b]);
    if p == NULL { return t, Failed, dir, chains; }
    assert EntryOk(t.mem, index, dir, b, p);
    OneKeyEach(t, n, index, dir, chains);
    RemovedStocked(t.ledger, dir, key);
    var l := Returned(t.ledger, p).0;
    RemovedHolds(t, n, index, dir, chains, b, i, key, l, heads, mem);
    t' := Table(heads, mem, t.nentries - 1, l);
    RemovedMap(t, t', n, index, dir, chains, chains[b := Without(chains[b], i)], chains[b], i, key);
    return t', Done, dir - {key}, chains[b := Without(chains[b], i)];
  }

  // ---------------------------------------------------------------- walking

  /** All entries, bucket by bucket, each from the first on. */
  function Flat(chains: seq<seq<nat>>): seq<nat> {
    if chains == [] then [] else Flat(chains[..|chains| - 1]) + chains[|chains| - 1]
  }

  /** hash_walk: the addresses whose data the callback gets, and the count. */
  method Walk<K, V>(t: Table<K, V>, ghost chains: seq<seq<nat>>) returns (visited: seq<nat>, count: int)
    requires Linked(t.heads, t.mem, chains)
    ensures visited == Flat(chains) && count == |visited|
  {
    visited, count := [], 0;
    var slot := 0;
    while slot < |t.heads|
      invariant 0 <= slot <= |t.heads| && visited == Flat(chains[..slot]) && count == |visited|
    {
      var v, k := WalkChain(t.mem, t.heads[slot], chains[slot]);
      visited, count := visited + v, count + k;
      assert chains[..slot + 1][..slot] == chains[..slot];
      slot := slot + 1;
    }
    assert chains[..slot] == chains;
  }

  method WalkChain<K, V>(mem: map<nat, Entry<K, V>>, head: nat, ghost c: seq<nat>)
    returns (visited: seq<nat>, count: int)
    requires Chain(mem, head, c)
    ensures visited == c && count == |c|
  {
    visited, count := [], 0;
    var p := head;
    while p != NULL
      invariant 0 <= count <= |c| && visited == c[..count] && p == (if count < |c| then c[count] else NULL)
      decreases |c| - count
    {
      visited := visited + [p];
      count := count + 1;
      p := mem[p].next;
    }
  }

  lemma {:induction false} FlatMembers(chains: seq<seq<nat>>, x: nat)
    ensures x in Flat(chains) <==> exists b :: 0 <= b < |chains| && x in chains[b]
  {
    if chains == [] {
    } else {
      var m := |chains| - 1;
      FlatMembers(chains[..m], x);
      if x in Flat(chains[..m]) {
        var b :| 0 <= b < m && x in chains[..m][b];
        assert x in chains[b];
      }
      if b :| 0 <= b < |chains| && x in chains[b] {
        if b < m { assert x in chains[..m][b]; }
      }
    }
  }

  lemma {:induction false} FlatOnce(chains: seq<seq<nat>>)
    requires forall b :: 0 <= b < |chains| ==> NoDuplicates(chains[b])
    requires forall v, w, x :: 0 <= v < w < |chains| && x in chains[v] ==> x !in chains[w]
    ensures NoDuplicates(Flat(chains))
  {
    if chains == [] {
    } else {
      var m := |chains| - 1;
      var f, g := Flat(chains[..m]), chains[m];
      FlatOnce(chains[..m]);
      forall x | x in f ensures x !in g { FlatMembers(chains[..m], x); }
      forall i, j | 0 <= i < j < |f + g| ensures (f + g)[i] != (f + g)[j] {
        if j >= |f| && i < |f| { assert (f + g)[i] in f && (f + g)[j] in g; }
      }
    }
  }

  /** A walk visits the entry of every key exactly once, and nothing else. */
  lemma WalkComplete<K(!new), V>(t: Table<K, V>, n: nat, index: K -> int, dir: map<K, nat>, chains: seq<seq<nat>>)
    requires Holds(t, n, index, dir, chains)
    ensures NoDuplicates(Flat(chains)) && forall x :: x in Flat(chains) <==> exists k :: k in dir && dir[k] == x
  {
    forall v, w, x | 0 <= v < w < |chains| && x in chains[v] ensures x !in chains[w] {
      assert EntryOk(t.mem, index, dir, v, x);
    }
    FlatOnce(chains);
    forall x ensures x in Flat(chains) <==> exists k :: k in dir && dir[k] == x {
      FlatMembers(chains, x);
      if b :| 0 <= b < |chains| && x in chains[b] { assert EntryOk(t.mem, index, dir, b, x); }
      if k :| k in dir && dir[k] == x { assert KeyOk(t.mem, index, dir, chains, k); }
    }
  }

  // ---------------------------------------------------------------- the table, and every run of calls

  /** Where the entries are: the address of each key's, and the addresses in each bucket. */
  datatype Where<K> = Where(dir: map<K, nat>, chains: seq<seq<nat>>)

  /** Three buckets or more, and not so many that the offset of the last block is no int: up to 16384. */
  predicate Workable(n: nat) { 3 <= n && ADDRESS_SIZE * n * (n - 1) < INT }

  lemma WorkableSize(n: nat)
    requires Workable(n)
    ensures n < INT && ADDRESS_SIZE * n * n + ALIGNMENT <= UINT
  {
    var x := n * (n - 1);
    assert ADDRESS_SIZE * n * (n - 1) == ADDRESS_SIZE * x;
    assert n * n == x + n && 2 * n <= x;
    assert ADDRESS_SIZE * n * n == ADDRESS_SIZE * (x + n);
  }

  lemma WorkableRange(n: nat)
    ensures Workable(n) <==> 3 <= n <= 16384
  {
    if n <= 16384 {
      if n > 0 { Products(n, n - 1, 16384, 16383); }
    } else {
      Products(16385, 16384, n, n - 1);
    }
  }

  lemma Products(a: nat, b: nat, c: nat, d: nat)
    requires a <= c && b <= d
    ensures ADDRESS_SIZE * a * b <= ADDRESS_SIZE * c * d
  {
    Monotone(a, c, b);
    Monotone(b, d, c);
    assert ADDRESS_SIZE * a * b == ADDRESS_SIZE * (a * b) && ADDRESS_SIZE * c * d == ADDRESS_SIZE * (d * c);
  }

  lemma NewStocked<K(!new)>(saddr: nat, n: nat)
    requires saddr > 0 && Workable(n)
    ensures Stocked<K>(Created(saddr, ADDRESS_SIZE * n, n), map[])
  {
    WorkableSize(n);
    CreatedBalanced(saddr, ADDRESS_SIZE * n, n);
    RoomyIff(saddr, ADDRESS_SIZE * n, n);
    RoundedIff(ADDRESS_SIZE * n * n);
  }

  class HashTable<K(==, !new), V> {
    const index: K -> int
    const nbuckets: nat
    var table: Table<K, V>
    ghost var w: Where<K>

    ghost predicate Valid()
      reads this
    {
      Holds(table, nbuckets, index, w.dir, w.chains)
    }

    ghost function Contents(): map<K, V>
      requires Valid()
      reads this
    {
      Map(table, nbuckets, index, w.dir, w.chains)
    }

    /** create_hash_table, with the buckets cleared and the pool's memory at `saddr`. Of a table with too few
        or too many buckets nothing more is promised. */
    constructor (index: K -> int, buckets: nat, saddr: nat)
      requires saddr > 0
      ensures this.index == index && nbuckets == if buckets == 0 then 52 else buckets
      ensures Workable(nbuckets) ==> Valid() && Contents() == map[]
    {
      var n := Buckets(buckets);
      this.index, nbuckets := index, n;
      table := Table(seq(n, i => NULL), map[], 0, Created(saddr, ADDRESS_SIZE * n, n));
      w := Where(map[], seq(n, i => []));
      if Workable(n) { NewStocked<K>(saddr, n); }
    }

    /** hash_tbl_add, hash_tbl_delete or hash_tbl_lookup. Out of bounds nothing is promised. */
    method Call(op: Op<K, V>) returns (r: Reply<V>)
      requires Valid()
      modifies this
      ensures r.OutOfBounds? <==> !Indexed(index, nbuckets, op.key)
      ensures !r.OutOfBounds? ==> Valid() && (Contents(), r) == Answer(old(Contents()), nbuckets, index, op)
    {
      table, r, w := CallOn(table, nbuckets, index, op, w);
    }

    /** Any sequence of calls gets the answers that the finite map gives, up to a call that is out of
        bounds. */
    method CallAll(ops: seq<Op<K, V>>) returns (rs: seq<Reply<V>>)
      requires Valid()
      modifies this
      ensures |rs| <= |ops| && rs == Answers(old(Contents()), nbuckets, index, ops[..|rs|]).1
      ensures if |rs| < |ops| then !Indexed(index, nbuckets, ops[|rs|].key)
              else Valid() && Contents() == Answers(old(Contents()), nbuckets, index, ops).0
    {
      table, rs, w := CallsOn(table, nbuckets, index, ops, w);
    }
  }

  method CallOn<K(==, !new), V>(t: Table<K, V>, n: nat, index: K -> int, op: Op<K, V>, ghost w: Where<K>)
    returns (t': Table<K, V>, r: Reply<V>, ghost w': Where<K>)
    requires Holds(t, n, index, w.dir, w.chains)
    ensures r.OutOfBounds? <==> !Indexed(index, n, op.key)
    ensures !r.OutOfBounds? ==>
              Holds(t', n, index, w'.dir, w'.chains) &&
              (Map(t', n, index, w'.dir, w'.chains), r) == Answer(Map(t, n, index, w.dir, w.chains), n, index, op)
  {
    t', w' := t, w;
    ghost var dir, chains;
    match op
    case Add(key, data) =>
      t', r, dir, chains := AddEntry(t, n, index, key, data, w.dir, w.chains);
      w' := Where(dir, chains);
    case Delete(key) =>
      t', r, dir, chains := DeleteEntry(t, n, index, key, w.dir, w.chains);
      w' := Where(dir, chains);
    case Lookup(key) => r := LookupEntry(t, n, index, key, w.dir, w.chains);
  }

  method CallsOn<K(==, !new), V>(t: Table<K, V>, n: nat, index: K -> int, ops: seq<Op<K, V>>, ghost w: Where<K>)
    returns (t': Table<K, V>, rs: seq<Reply<V>>, ghost w': Where<K>)
    requires Holds(t, n, index, w.dir, w.chains)
    ensures |rs| <= |ops| && rs == Answers(Map(t, n, index, w.dir, w.chains), n, index, ops[..|rs|]).1
    ensures if |rs| < |ops| then !Indexed(index, n, ops[|rs|].key)
            else
              Holds(t', n, index, w'.dir, w'.chains) &&
              Map(t', n, index, w'.dir, w'.chains) == Answers(Map(t, n, index, w.dir, w.chains), n, index, ops).0
  {
    t', rs, w' := t, [], w;
    ghost var m0 := Map(t, n, index, w.dir, w.chains);
    while |rs| < |ops|
      invariant Holds(t', n, index, w'.dir, w'.chains)
      invariant Told(m0, Map(t', n, index, w'.dir, w'.chains), n, index, ops, rs)
    {
      var r;
      ToldNext(m0, Map(t', n, index, w'.dir, w'.chains), n, index, ops, rs);
      t', r, w' := CallOn(t', n, index, ops[|rs|], w');
      if r.OutOfBounds? { return; }
      rs := rs + [r];
    }
    ToldAll(m0, Map(t', n, index, w'.dir, w'.chains), n, index, ops, rs);
  }

  /** The replies so far are those of the finite map, which is now `m`. */
  ghost predicate Told<K, V>(m0: map<K, V>, m: map<K, V>, n: nat, index: K -> int, ops: seq<Op<K, V>>,
                             rs: seq<Reply<V>>)
  {
    |rs| <= |ops| && (m, rs) == Answers(m0, n, index, ops[..|rs|])
  }

  lemma ToldNext<K, V>(m0: map<K, V>, m: map<K, V>, n: nat, index: K -> int, ops: seq<Op<K, V>>, rs: seq<Reply<V>>)
    requires Told(m0, m, n, index, ops, rs) && |rs| < |ops|
    ensures var (m', r) := Answer(m, n, index, ops[|rs|]); Told(m0, m', n, index, ops, rs + [r])
  {
    AnswersNext(m0, n, index, ops, |rs|);
  }

  lemma ToldAll<K, V>(m0: map<K, V>, m: map<K, V>, n: nat, index: K -> int, ops: seq<Op<K, V>>, rs: seq<Reply<V>>)
    requires Told(m0, m, n, index, ops, rs) && |rs| >= |ops|
    ensures |rs| == |ops| && m == Answers(m0, n, index, ops).0 && rs == Answers(m0, n, index, ops[..|rs|]).1
  {
    assert ops[..|rs|] == ops;
  }

  function Answers<K, V>(m: map<K, V>, n: nat, index: K -> int, ops: seq<Op<K, V>>): (r: (map<K, V>, seq<Reply<V>>))
    ensures |r.1| == |ops|
  {
    if ops == [] then (m, [])
    else
      var (m1, rs) := Answers(m, n, index, ops[..|ops| - 1]);
      var (m2, r) := Answer(m1, n, index, ops[|ops| - 1]);
      (m2, rs + [r])
  }

  lemma AnswersNext<K, V>(m: map<K, V>, n: nat, index: K -> int, ops: seq<Op<K, V>>, i: nat)
    requires i < |ops|
    ensures var (m1, rs) := Answers(m, n, index, ops[..i]);
            var (m2, r) := Answer(m1, n, index, ops[i]);
            Answers(m, n, index, ops[..i + 1]) == (m2, rs + [r])
  {
    assert ops[..i + 1][..i] == ops[..i];
  }

  /** Every addition of a key among the first `n` calls that was done has been followed by a removal. */
  ghost predicate Forgotten<K, V>(ops: seq<Op<K, V>>, rs: seq<Reply<V>>, k: K, n: nat)
    requires n <= |ops| == |rs|
  {
    forall j :: 0 <= j < n && ops[j].Add? && ops[j].key == k && rs[j] == Done ==>
      exists d :: j < d < n && ops[d] == Delete(k)
  }

  /** The call that put the data of a key there: an addition that was done when all before it had been
      followed by a removal, and that no removal has followed. */
  ghost predicate Decisive<K, V>(ops: seq<Op<K, V>>, rs: seq<Reply<V>>, k: K, v: V, i: nat)
    requires |ops| == |rs|
  {
    i < |ops| && ops[i] == Add(k, v) && rs[i] == Done && Forgotten(ops, rs, k, i) &&
    forall d :: i < d < |ops| ==> ops[d] != Delete(k)
  }

  lemma ForgottenPrefix<K, V>(ops: seq<Op<K, V>>, rs: seq<Reply<V>>, k: K, n: nat)
    requires n < |ops| == |rs|
    ensures Forgotten(ops[..|ops| - 1], rs[..|ops| - 1], k, n) <==> Forgotten(ops, rs, k, n)
  {
    var ops', rs' := ops[..|ops| - 1], rs[..|ops| - 1];
    assert forall j :: 0 <= j < n ==> ops'[j] == ops[j] && rs'[j] == rs[j];
  }

  /** A key is missing exactly when all its additions were followed by a removal. */
  lemma {:induction false} Absent<K(!new), V>(n: nat, index: K -> int, ops: seq<Op<K, V>>, k: K)
    ensures var (m, rs) := Answers(map[], n, index, ops); k !in m <==> Forgotten(ops, rs, k, |ops|)
  {
    if ops == [] {
    } else {
      var z := |ops| - 1;
      var ops' := ops[..z];
      Absent(n, index, ops', k);
      var (m', rs') := Answers(map[], n, index, ops');
      var (m, rs) := Answers(map[], n, index, ops);
      assert rs[..z] == rs';
      ForgottenPrefix(ops, rs, k, z);
      if ops[z] == Delete(k) {
        assert k !in m;
      } else {
        assert Forgotten(ops, rs, k, |ops|) <==>
               Forgotten(ops, rs, k, z) && !(ops[z].Add? && ops[z].key == k && rs[z] == Done) by {
          ForgottenStep(ops, rs, k, z);
        }
      }
    }
  }

  lemma ForgottenStep<K, V>(ops: seq<Op<K, V>>, rs: seq<Reply<V>>, k: K, z: nat)
    requires z + 1 == |ops| == |rs| && ops[z] != Delete(k)
    ensures Forgotten(ops, rs, k, z + 1) <==>
            Forgotten(ops, rs, k, z) && !(ops[z].Add? && ops[z].key == k && rs[z] == Done)
  {
    if Forgotten(ops, rs, k, z + 1) {
      forall j | 0 <= j < z && ops[j].Add? && ops[j].key == k && rs[j] == Done
        ensures exists d :: j < d < z && ops[d] == Delete(k)
      {
        var d :| j < d < z + 1 && ops[d] == Delete(k);
      }
    }
  }

  /** What a table holds for a key is what the decisive addition brought: the first since the key was
      last removed. */
  lemma {:induction false} FirstAddWins<K(!new), V(!new)>(n: nat, index: K -> int, ops: seq<Op<K, V>>, k: K, v: V)
    ensures var (m, rs) := Answers(map[], n, index, ops);
            k in m && m[k] == v <==> exists i :: Decisive(ops, rs, k, v, i)
  {
    if ops == [] {
    } else {
      var z := |ops| - 1;
      var ops' := ops[..z];
      FirstAddWins(n, index, ops', k, v);
      Absent(n, index, ops', k);
      var (m', rs') := Answers(map[], n, index, ops');
      var (m, rs) := Answers(map[], n, index, ops);
      assert rs[..z] == rs';
      ForgottenPrefix(ops, rs, k, z);
      forall i: nat | i < z
        ensures Decisive(ops, rs, k, v, i) <==> Decisive(ops', rs', k, v, i) && ops[z] != Delete(k)
      {
        DecisivePrefix(ops, rs, k, v, i);
      }
      if k in m && m[k] == v {
        if k !in m' { assert Decisive(ops, rs, k, v, z); }
      }
    }
  }

  /** What hash_tbl_lookup returns. */
  function Pointer(r: Reply<nat>): nat { if r.Found? then r.data else NULL }

  /** Over every run it returns NULL exactly for a key all whose additions were followed by a removal, and
      for one that was added with NULL as its data. */
  lemma NullIff<K(!new)>(n: nat, index: K -> int, ops: seq<Op<K, nat>>, k: K)
    ensures var (m, rs) := Answers(map[], n, index, ops);
            Pointer(Answer(m, n, index, Lookup(k)).1) == NULL <==>
            Forgotten(ops, rs, k, |ops|) || exists i :: Decisive(ops, rs, k, NULL, i)
  {
    Absent(n, index, ops, k);
    FirstAddWins(n, index, ops, k, NULL);
  }

  lemma DecisivePrefix<K, V>(ops: seq<Op<K, V>>, rs: seq<Reply<V>>, k: K, v: V, i: nat)
    requires i < |ops| - 1 && |ops| == |rs|
    ensures var z := |ops| - 1;
            Decisive(ops, rs, k, v, i) <==> Decisive(ops[..z], rs[..z], k, v, i) && ops[z] != Delete(k)
  {
    ForgottenPrefix(ops, rs, k, i);
    var z := |ops| - 1;
    assert forall d :: i < d < z ==> ops[..z][d] == ops[d];
  }

  // ---------------------------------------------------------------- what the calls reply

  /** A reply is that of the finite map after the calls before it. */
  lemma {:induction false} ReplyAt<K, V>(m: map<K, V>, n: nat, index: K -> int, ops: seq<Op<K, V>>, j: nat)
    requires j < |ops|
    ensures var (m', rs') := Answers(m, n, index, ops[..j]);
            var rs := Answers(m, n, index, ops).1;
            rs[..j] == rs' && rs[j] == Answer(m', n, index, ops[j]).1
    decreases |ops|
  {
    var z := |ops| - 1;
    var rs, rs' := Answers(m, n, index, ops).1, Answers(m, n, index, ops[..z]).1;
    assert rs[..z] == rs';
    if j == z {
    } else {
      ReplyAt(m, n, index, ops[..z], j);
      assert ops[..z][..j] == ops[..j] && rs[..j] == rs'[..j];
    }
  }

  lemma ForgottenBefore<K, V>(ops: seq<Op<K, V>>, rs: seq<Reply<V>>, k: K, j: nat)
    requires j <= |ops| == |rs|
    ensures Forgotten(ops[..j], rs[..j], k, j) <==> Forgotten(ops, rs, k, j)
  {
    var ops', rs' := ops[..j], rs[..j];
    assert forall i :: 0 <= i < j ==> ops'[i] == ops[i] && rs'[i] == rs[i];
  }

  /** Over every run, a removal is done exactly if some addition of the key was done and has not been followed
      by a removal, and fails otherwise. */
  lemma DeleteReply<K(!new), V>(n: nat, index: K -> int, ops: seq<Op<K, V>>, j: nat)
    requires j < |ops| && ops[j].Delete?
    ensures var rs := Answers(map[], n, index, ops).1;
            rs[j] == if Forgotten(ops, rs, ops[j].key, j) then Failed else Done
  {
    ReplyAt(map[], n, index, ops, j);
    Absent(n, index, ops[..j], ops[j].key);
    ForgottenBefore(ops, Answers(map[], n, index, ops).1, ops[j].key, j);
  }

  /** Over every run, a lookup fails exactly for such a key too, and otherwise finds the data of the decisive
      addition. */
  lemma LookupReply<K(!new), V(!new)>(n: nat, index: K -> int, ops: seq<Op<K, V>>, j: nat, v: V)
    requires j < |ops| && ops[j].Lookup?
    ensures var rs := Answers(map[], n, index, ops).1;
            (rs[j] == Failed <==> Forgotten(ops, rs, ops[j].key, j)) &&
            (rs[j] == Found(v) <==> exists i :: Decisive(ops[..j], rs[..j], ops[j].key, v, i))
  {
    ReplyAt(map[], n, index, ops, j);
    Absent(n, index, ops[..j], ops[j].key);
    FirstAddWins(n, index, ops[..j], ops[j].key, v);
    ForgottenBefore(ops, Answers(map[], n, index, ops).1, ops[j].key, j);
  }

  /** The keys that were added in the first `j` calls and not removed since. */
  ghost function Present<K(!new), V>(ops: seq<Op<K, V>>, rs: seq<Reply<V>>, j: nat): set<K>
    requires j <= |ops| == |rs|
  {
    set i | 0 <= i < j && !Forgotten(ops, rs, ops[i].key, j) :: ops[i].key
  }

  lemma PresentKeys<K(!new), V>(n: nat, index: K -> int, ops: seq<Op<K, V>>)
    ensures var (m, rs) := Answers(map[], n, index, ops); m.Keys == Present(ops, rs, |ops|)
  {
    var (m, rs) := Answers(map[], n, index, ops);
    forall k ensures k in m <==> k in Present(ops, rs, |ops|) {
      Absent(n, index, ops, k);
      if !Forgotten(ops, rs, k, |ops|) {
        var i :| 0 <= i < |ops| && ops[i].Add? && ops[i].key == k && rs[i] == Done;
        assert ops[i].key in Present(ops, rs, |ops|);
      }
    }
  }

  lemma PresentBefore<K(!new), V>(ops: seq<Op<K, V>>, rs: seq<Reply<V>>, j: nat)
    requires j <= |ops| == |rs|
    ensures Present(ops[..j], rs[..j], j) == Present(ops, rs, j)
  {
    forall k ensures Forgotten(ops[..j], rs[..j], k, j) <==> Forgotten(ops, rs, k, j) {
      ForgottenBefore(ops, rs, k, j);
    }
    assert forall i :: 0 <= i < j ==> ops[..j][i] == ops[i];
  }

  lemma {:induction false} NeverOverfull<K, V>(n: nat, index: K -> int, ops: seq<Op<K, V>>)
    ensures |Answers(map[], n, index, ops).0| <= n
  {
    if ops == [] {
    } else {
      NeverOverfull(n, index, ops[..|ops| - 1]);
      OneCall(Answers(map[], n, index, ops[..|ops| - 1]).0, n, index, ops[|ops| - 1]);
    }
  }

  lemma OneCall<K, V>(m: map<K, V>, n: nat, index: K -> int, op: Op<K, V>)
    requires |m| <= n
    ensures |Answer(m, n, index, op).0| <= n
  {
    match op
    case Add(k, v) => KeysMore(m, k, v);
    case Delete(k) => KeysLess(m, k);
    case Lookup(k) =>
  }

  lemma KeysMore<K, V>(m: map<K, V>, k: K, v: V)
    ensures |m[k := v]| <= |m| + 1
  {
    var m' := m[k := v];
    assert m'.Keys == m.Keys + {k} && |m'| == |m'.Keys| && |m| == |m.Keys|;
  }

  lemma KeysLess<K, V>(m: map<K, V>, k: K)
    ensures |m - {k}| <= |m|
  {
    var m' := m - {k};
    assert m'.Keys == m.Keys - {k} && |m'| == |m'.Keys| && |m| == |m.Keys|;
    assert m.Keys == m'.Keys + (m.Keys * {k});
  }

  /** Over every run, an addition is done if the key is there already; for a new key it is done exactly if its
      index is that of a bucket and there are fewer keys than buckets, and fails otherwise. */
  lemma AddReply<K(!new), V>(n: nat, index: K -> int, ops: seq<Op<K, V>>, j: nat)
    requires j < |ops| && ops[j].Add?
    ensures var rs, k := Answers(map[], n, index, ops).1, ops[j].key;
            rs[j] == if !Forgotten(ops, rs, k, j) || (index(k) < n && |Present(ops, rs, j)| < n) then Done else Failed
  {
    var rs, k := Answers(map[], n, index, ops).1, ops[j].key;
    ReplyAt(map[], n, index, ops, j);
    Absent(n, index, ops[..j], k);
    ForgottenBefore(ops, rs, k, j);
    PresentKeys(n, index, ops[..j]);
    PresentBefore(ops, rs, j);
    NeverOverfull(n, index, ops[..j]);
    var m := Answers(map[], n, index, ops[..j]).0;
    assert |m| == |m.Keys|;
  }

  // ---------------------------------------------------------------- the size of the blocks

  /** sizeof (hash_bucket_t). */
  const ENTRY_SIZE := 24

  /** The blocks of the pool have the size of as many pointers as there are buckets. They hold entries,
      apart from each other and within the pool's memory, exactly when there are three or more. */
  lemma EntriesFit(saddr: nat, n: nat)
    requires n > 0 && ADDRESS_SIZE * n * n + ALIGNMENT <= UINT
    ensures EntriesApart(Created(saddr, ADDRESS_SIZE * n, n)) <==> n >= 3
  {
    var l := Created(saddr, ADDRESS_SIZE * n, n);
    RoomyIff(saddr, ADDRESS_SIZE * n, n);
    if n >= 3 {
      forall i, j | 0 <= i < j < n ensures BlockAddr(l, i) + ENTRY_SIZE <= BlockAddr(l, j) { BlocksApart(l, i, j); }
      forall i | 0 <= i < n ensures BlockAddr(l, i) + ENTRY_SIZE <= l.eaddr { Pool.InMemory(l, i); }
    } else if n == 2 {
      assert BlockAddr(l, 0) + ENTRY_SIZE > BlockAddr(l, 1);
    } else {
      assert BlockAddr(l, 0) + ENTRY_SIZE > l.eaddr;
    }
  }

  ghost predicate EntriesApart(l: Ledger) {
    (forall i, j :: 0 <= i < j < |l.slots| ==> BlockAddr(l, i) + ENTRY_SIZE <= BlockAddr(l, j)) &&
    (forall i :: 0 <= i < |l.slots| ==> BlockAddr(l, i) + ENTRY_SIZE <= l.eaddr)
  }

  /** The three words of an entry, written to memory and read back. */
  function Written(w: map<nat, nat>, a: nat, e: Entry<nat, nat>): map<nat, nat> {
    w[a := e.next][a + 8 := e.key][a + 16 := e.data]
  }

  function Read(w: map<nat, nat>, a: nat): Entry<nat, nat>
    requires a in w && a + 8 in w && a + 16 in w
  {
    Entry(w[a], w[a + 8], w[a + 16])
  }

  /** Entries in different blocks can be treated as separate records if there are three or more buckets:
      writing one leaves the other as it was. */
  lemma EntriesKept(saddr: nat, n: nat, i: nat, j: nat, w: map<nat, nat>, e: Entry<nat, nat>, f: Entry<nat, nat>)
    requires n >= 3 && ADDRESS_SIZE * n * n + ALIGNMENT <= UINT && i < n && j < n && i != j
    ensures var l := Created(saddr, ADDRESS_SIZE * n, n);
            Read(Written(Written(w, BlockAddr(l, i), e), BlockAddr(l, j), f), BlockAddr(l, i)) == e
  {
    EntriesFit(saddr, n);
    var l := Created(saddr, ADDRESS_SIZE * n, n);
    WrittenApart(w, BlockAddr(l, i), BlockAddr(l, j), e, f);
  }

  lemma WrittenApart(w: map<nat, nat>, a: nat, b: nat, e: Entry<nat, nat>, f: Entry<nat, nat>)
    requires a + ENTRY_SIZE <= b || b + ENTRY_SIZE <= a
    ensures Read(Written(Written(w, a, e), b, f), a) == e
  {
  }

  /** With two buckets the link of the second entry lies on the data of the first: adding it, as the last
      of its chain, makes the data of the first NULL. */
  lemma EntriesLost(saddr: nat, w: map<nat, nat>, e: Entry<nat, nat>, f: Entry<nat, nat>)
    requires f.next == NULL
    ensures var l := Created(saddr, ADDRESS_SIZE * 2, 2);
            Read(Written(Written(w, BlockAddr(l, 0), e), BlockAddr(l, 1), f), BlockAddr(l, 0)).data == NULL
  {
    var l := Created(saddr, ADDRESS_SIZE * 2, 2);
    assert BlockAddr(l, 0) == saddr && BlockAddr(l, 1) == saddr + 16;
  }

  // ---------------------------------------------------------------- the number of the blocks

  /** Entries fit their blocks, and over every run each block can be given back, exactly for these numbers
      of buckets. */
  lemma WorkableIff(saddr: nat, n: Count)
    requires saddr > 0 && n > 0
    ensures EntriesApart(Created(saddr, ADDRESS_SIZE * n, n)) && AllReturn(saddr, ADDRESS_SIZE * n, n) <==> Workable(n)
  {
    AllReturnIff(saddr, ADDRESS_SIZE * n, n);
    if Workable(n) { WorkableSize(n); }
    if ADDRESS_SIZE * n * n + ALIGNMENT <= UINT {
      EntriesFit(saddr, n);
      EvenSize(n);
    }
  }

  lemma EvenSize(n: nat)
    requires n > 0
    ensures (UINT - 1) % (ADDRESS_SIZE * n) != 0
  {
    if (UINT - 1) % (ADDRESS_SIZE * n) == 0 {
      WholeBlocks(UINT - 1, ADDRESS_SIZE * n);
      EvenProduct((UINT - 1) / (ADDRESS_SIZE * n), n);
      assert false;
    }
  }

  lemma EvenProduct(k: nat, n: nat)
    ensures (k * (ADDRESS_SIZE * n)) % 2 == 0
  {
    assert k * (ADDRESS_SIZE * n) == 2 * (k * (4 * n));
  }

  /** With more buckets: after as many additions as there are buckets and the removal of the last, the pool
      has no block for another addition, or is broken. */
  lemma BucketLost(saddr: nat, n: Count)
    requires saddr > 0 && n >= 3 && !Workable(n)
    ensures var last := BlockAddr(Created(saddr, ADDRESS_SIZE * n, n), n - 1);
            var s := After(New(saddr, ADDRESS_SIZE * n, n), Takes(n) + [Give(last)]);
            s.State? ==> Allocated(s.ledger).1 == NULL
  {
    EvenSize(n);
    BlockStuck(saddr, ADDRESS_SIZE * n, n);
    TakesAll(saddr, ADDRESS_SIZE * n, n, n);
    var last := BlockAddr(Created(saddr, ADDRESS_SIZE * n, n), n - 1);
    assert (Takes(n) + [Give(last)])[..n] == Takes(n);
  }
}
