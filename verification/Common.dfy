/**
  What several of the models need: optional values, powers of two, and facts about sequences.
 */
module Common {

  datatype Option<+T> = None | Some(value: T)

  function Pow2(k: nat): (r: nat)
    ensures r >= 1
  {
    if k == 0 then 1 else 2 * Pow2(k - 1)
  }

  predicate NoDuplicates<T(==)>(q: seq<T>) { forall i, j :: 0 <= i < j < |q| ==> q[i] != q[j] }

  /** Concatenation is associative; stated apart, for proofs in which it is costly to find out. */
  lemma Grouping<T>(a: seq<T>, b: seq<T>, c: seq<T>)
    ensures (a + b) + c == a + (b + c) && a + [] == a
  {
  }

  /** A sequence without the first occurrence of an element. */
  function Remove<T(==)>(l: seq<T>, t: T): seq<T> {
    if l == [] then [] else if l[0] == t then l[1..] else [l[0]] + Remove(l[1..], t)
  }

  lemma {:induction false} RemoveSplit<T>(l: seq<T>, t: T) returns (a: seq<T>, b: seq<T>)
    requires t in l
    ensures l == a + [t] + b && Remove(l, t) == a + b
  {
    if l[0] == t {
      a, b := [], l[1..];
    } else {
      a, b := RemoveSplit(l[1..], t);
      a := [l[0]] + a;
    }
  }

  lemma {:induction false} RemoveFacts<T>(l: seq<T>, t: T)
    requires NoDuplicates(l)
    ensures NoDuplicates(Remove(l, t)) && (forall x :: x in Remove(l, t) <==> x in l && x != t)
    ensures |Remove(l, t)| == |l| - if t in l then 1 else 0
    ensures t !in l ==> Remove(l, t) == l
  {
    if l == [] {
    } else {
      assert l == [l[0]] + l[1..];
      assert l[0] !in l[1..];
      RemoveFacts(l[1..], t);
      if l[0] != t {
        forall i, j | 0 <= i < j < |Remove(l, t)| ensures Remove(l, t)[i] != Remove(l, t)[j] {
          assert Remove(l, t)[j] == Remove(l[1..], t)[j - 1];
        }
      }
    }
  }
}
