/** Facts about sequences and maps shared by the recency list, the
    insertion-ordered index and the demo scenario. */
module Seqs {

  /** No element occurs twice in s. */
  ghost predicate Distinct<T>(s: seq<T>) {
    forall i, j :: 0 <= i < j < |s| ==> s[i] != s[j]
  }

  /** Position of the first occurrence of x in s. */
  function IndexOf<T(==)>(s: seq<T>, x: T): (i: nat)
    requires x in s
    ensures i < |s| && s[i] == x
    ensures forall j :: 0 <= j < i ==> s[j] != x
  {
    if s[0] == x then 0 else 1 + IndexOf(s[1..], x)
  }

  /** Appending an element does not move the first occurrence of one already present. */
  lemma {:induction false} IndexOfAppend<T>(s: seq<T>, x: T, y: T)
    requires x in s
    ensures IndexOf(s + [y], x) == IndexOf(s, x)
  {
    if s[0] != x {
      assert (s + [y])[1..] == s[1..] + [y];
      IndexOfAppend(s[1..], x, y);
    }
  }

  /** s with the element at position i taken out; the others keep their relative order. */
  function RemoveAt<T>(s: seq<T>, i: nat): (r: seq<T>)
    requires i < |s|
    ensures |r| == |s| - 1
    ensures forall j :: 0 <= j < i ==> r[j] == s[j]
    ensures forall j :: i <= j < |r| ==> r[j] == s[j + 1]
  {
    s[..i] + s[i + 1..]
  }

  /** In a sequence without repetitions, the first occurrence of s[i] is at i. */
  lemma IndexOfDistinct<T>(s: seq<T>, i: nat)
    requires Distinct(s) && i < |s|
    ensures IndexOf(s, s[i]) == i
  {
  }

  /** Taking one element out of a sequence without repetitions leaves one
      without repetitions, holding exactly the other elements. */
  lemma RemoveAtDistinct<T>(s: seq<T>, i: nat)
    requires Distinct(s) && i < |s|
    ensures Distinct(RemoveAt(s, i))
    ensures forall y :: y in RemoveAt(s, i) <==> y in s && y != s[i]
  {
    var r := RemoveAt(s, i);
    forall a, b | 0 <= a < b < |r| ensures r[a] != r[b] {
      var a' := if a < i then a else a + 1;
      var b' := if b < i then b else b + 1;
      assert r[a] == s[a'] && r[b] == s[b'] && a' < b';
    }
    forall y ensures y in r <==> y in s && y != s[i] {
      if y in r {
        var j :| 0 <= j < |r| && r[j] == y;
        var j' := if j < i then j else j + 1;
        assert s[j'] == y && j' != i;
      }
      if y in s && y != s[i] {
        var j :| 0 <= j < |s| && s[j] == y;
        var j' := if j < i then j else j - 1;
        assert r[j'] == y;
      }
    }
  }

  /** Appending an element that is not yet present keeps a sequence free of repetitions. */
  lemma AppendDistinct<T>(s: seq<T>, x: T)
    requires Distinct(s) && x !in s
    ensures Distinct(s + [x])
  {
    var r := s + [x];
    forall a, b | 0 <= a < b < |r| ensures r[a] != r[b] {
      if b == |s| {
        assert r[a] == s[a];
      }
    }
  }

  /** Prepending an element that is not yet present keeps a sequence free of repetitions. */
  lemma PrependDistinct<T>(x: T, s: seq<T>)
    requires Distinct(s) && x !in s
    ensures Distinct([x] + s)
  {
    var r := [x] + s;
    forall a, b | 0 <= a < b < |r| ensures r[a] != r[b] {
      if a == 0 {
        assert r[b] == s[b - 1];
      } else {
        assert r[a] == s[a - 1] && r[b] == s[b - 1];
      }
    }
  }

  /** A sequence without repetitions has as many distinct elements as positions. */
  lemma {:induction false} DistinctCardinality<T>(s: seq<T>)
    requires Distinct(s)
    ensures |set x | x in s| == |s|
  {
    if s != [] {
      var t := s[1..];
      assert Distinct(t) by {
        forall a, b | 0 <= a < b < |t| ensures t[a] != t[b] {
          assert t[a] == s[a + 1] && t[b] == s[b + 1];
        }
      }
      DistinctCardinality(t);
      assert s[0] !in t by {
        forall j | 0 <= j < |t| ensures t[j] != s[0] {
          assert t[j] == s[j + 1];
        }
      }
      assert s == [s[0]] + t;
      assert (set x | x in s) == (set x | x in t) + {s[0]};
    }
  }

  // Small display equalities, stated generically so the solver proves
  // them once instead of on every concrete scenario.

  /** Pushing a onto the two-element [b, c] and dropping its last element gives [a, b]. */
  lemma PushOutLast<T>(a: T, b: T, c: T)
    ensures [a] + [b, c][..1] == [a, b]
  {
  }

  /** Adding a third binding and dropping the first leaves the other two. */
  lemma DropOldest<K, W>(a: K, b: K, c: K, x: W, y: W, z: W)
    requires a != b && a != c && b != c
    ensures map[a := x, b := y][c := z] - {a} == map[b := y, c := z]
  {
  }

  /** Rebinding the second of two keys replaces only its value. */
  lemma Rebind<K, W>(a: K, b: K, x: W, y: W, z: W)
    requires a != b
    ensures map[a := x, b := y][b := z] == map[a := x, b := z]
  {
  }
}
