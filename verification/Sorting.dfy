/** Sorting, and why the choice of sorting algorithm does not matter: two sorted
    permutations of one list are the same list as soon as no two of its distinct
    elements tie.  The library sorts (`sort.Slice`, `sort.Strings`,
    `sort.SliceStable`) and Badger's key iterator are all specified through
    `Sorted` and `multiset`, never through one algorithm.
 */
module Sorting {
  import opened Bytes

  /** `leq` is a total preorder. */
  ghost predicate Preorder<T(!new)>(leq: (T, T) -> bool) {
    && (forall x, y :: leq(x, y) || leq(y, x))
    && (forall x, y, z :: leq(x, y) && leq(y, z) ==> leq(x, z))
  }

  /** No two distinct elements of `s` tie. */
  ghost predicate NoTies<T>(s: seq<T>, leq: (T, T) -> bool) {
    forall x, y :: x in s && y in s && leq(x, y) && leq(y, x) ==> x == y
  }

  ghost predicate Sorted<T>(s: seq<T>, leq: (T, T) -> bool) {
    forall i, j :: 0 <= i < j < |s| ==> leq(s[i], s[j])
  }

  function Insert<T>(x: T, s: seq<T>, leq: (T, T) -> bool): seq<T> {
    if s == [] then [x]
    else if leq(x, s[0]) then [x] + s
    else [s[0]] + Insert(x, s[1..], leq)
  }

  function Sort<T>(s: seq<T>, leq: (T, T) -> bool): seq<T> {
    if s == [] then [] else Insert(s[0], Sort(s[1..], leq), leq)
  }

  lemma {:induction false} InsertMultiset<T>(x: T, s: seq<T>, leq: (T, T) -> bool)
    ensures multiset(Insert(x, s, leq)) == multiset(s) + multiset{x}
  {
    if s != [] && !leq(x, s[0]) {
      InsertMultiset(x, s[1..], leq);
      assert s == [s[0]] + s[1..];
    }
  }

  lemma {:induction false} SortMultiset<T>(s: seq<T>, leq: (T, T) -> bool)
    ensures multiset(Sort(s, leq)) == multiset(s)
    ensures |Sort(s, leq)| == |s|
  {
    if s != [] {
      SortMultiset(s[1..], leq);
      InsertMultiset(s[0], Sort(s[1..], leq), leq);
      assert s == [s[0]] + s[1..];
    }
    assert |Sort(s, leq)| == |multiset(Sort(s, leq))| == |multiset(s)| == |s|;
  }

  lemma {:induction false} InsertSorted<T(!new)>(x: T, s: seq<T>, leq: (T, T) -> bool)
    requires Preorder(leq) && Sorted(s, leq)
    ensures Sorted(Insert(x, s, leq), leq)
  {
    if s != [] && !leq(x, s[0]) {
      InsertSorted(x, s[1..], leq);
      var r := Insert(x, s[1..], leq);
      InsertMultiset(x, s[1..], leq);
      forall k | 0 <= k < |r| ensures leq(s[0], r[k]) {
        assert r[k] in multiset(r);
        assert r[k] == x || r[k] in s[1..];
      }
    }
  }

  lemma {:induction false} SortSorted<T(!new)>(s: seq<T>, leq: (T, T) -> bool)
    requires Preorder(leq)
    ensures Sorted(Sort(s, leq), leq)
  {
    if s != [] {
      SortSorted(s[1..], leq);
      InsertSorted(s[0], Sort(s[1..], leq), leq);
    }
  }

  lemma SameElements<T>(s: seq<T>, t: seq<T>, x: T)
    requires multiset(s) == multiset(t)
    ensures x in s <==> x in t
  {
    assert x in s <==> x in multiset(s);
    assert x in t <==> x in multiset(t);
  }

  /** Two sorted arrangements of the same elements are equal. */
  lemma {:induction false} SortedUnique<T(!new)>(s: seq<T>, t: seq<T>, leq: (T, T) -> bool)
    requires Preorder(leq) && NoTies(s, leq)
    requires Sorted(s, leq) && Sorted(t, leq)
    requires multiset(s) == multiset(t)
    ensures s == t
  {
    assert |s| == |multiset(s)| == |multiset(t)| == |t|;
    if s != [] {
      LeastFirst(s, t, leq);
      TailMultiset(s);
      TailMultiset(t);
      assert s == [s[0]] + s[1..] && t == [t[0]] + t[1..];
      SortedUnique(s[1..], t[1..], leq);
    }
  }

  lemma LeastFirst<T(!new)>(s: seq<T>, t: seq<T>, leq: (T, T) -> bool)
    requires Preorder(leq) && NoTies(s, leq)
    requires Sorted(s, leq) && Sorted(t, leq)
    requires |s| == |t| > 0 && multiset(s) == multiset(t)
    ensures s[0] == t[0]
  {
    SameElements(s, t, s[0]);
    SameElements(s, t, t[0]);
    assert leq(s[0], t[0]) && leq(t[0], s[0]);
  }

  lemma TailMultiset<T>(s: seq<T>)
    requires s != []
    ensures multiset(s[1..]) == multiset(s) - multiset{s[0]}
  {
    assert s == [s[0]] + s[1..];
  }

  /** Whatever order the input came in, the sorted list is the same. */
  lemma SortPermutation<T(!new)>(s: seq<T>, t: seq<T>, leq: (T, T) -> bool)
    requires Preorder(leq) && NoTies(s, leq)
    requires multiset(s) == multiset(t)
    ensures Sort(s, leq) == Sort(t, leq)
  {
    SortIsAnySortedPermutation(t, Sort(s, leq), leq) by {
      SortSorted(s, leq);
      SortMultiset(s, leq);
      forall x, y | x in t && y in t && leq(x, y) && leq(y, x) ensures x == y {
        SameElements(s, t, x);
        SameElements(s, t, y);
      }
    }
  }

  /** Any sorted permutation of `s` is `Sort(s)`. */
  lemma SortIsAnySortedPermutation<T(!new)>(s: seq<T>, t: seq<T>, leq: (T, T) -> bool)
    requires Preorder(leq) && NoTies(s, leq)
    requires Sorted(t, leq) && multiset(t) == multiset(s)
    ensures t == Sort(s, leq)
  {
    SortSorted(s, leq);
    SortMultiset(s, leq);
    forall x, y | x in t && y in t && leq(x, y) && leq(y, x) ensures x == y {
      SameElements(s, t, x);
      SameElements(s, t, y);
    }
    SortedUnique(t, Sort(s, leq), leq);
  }

  /** No element stands at two places. */
  ghost predicate Distinct<T>(s: seq<T>) {
    forall i, j :: 0 <= i < j < |s| ==> s[i] != s[j]
  }

  lemma {:induction false} DistinctCounts<T>(s: seq<T>, x: T)
    requires Distinct(s)
    ensures multiset(s)[x] == if x in s then 1 else 0
  {
    if s != [] {
      var front, last := s[..|s| - 1], s[|s| - 1];
      DistinctCounts(front, x);
      assert s == front + [last];
      assert last !in front;
    }
  }

  lemma SameMembersSameMultiset<T>(s: seq<T>, t: seq<T>)
    requires Distinct(s) && Distinct(t) && forall x :: x in s <==> x in t
    ensures multiset(s) == multiset(t)
  {
    forall x ensures multiset(s)[x] == multiset(t)[x] {
      DistinctCounts(s, x);
      DistinctCounts(t, x);
    }
  }

  lemma DistinctPermutation<T>(s: seq<T>, t: seq<T>)
    requires Distinct(s) && multiset(s) == multiset(t)
    ensures Distinct(t)
  {
    forall i, j | 0 <= i < j < |t| ensures t[i] != t[j] {
      if t[i] == t[j] {
        TwiceCounted(t, i, j);
        DistinctCounts(s, t[i]);
      }
    }
  }

  lemma TwiceCounted<T>(t: seq<T>, i: nat, j: nat)
    requires i < j < |t| && t[i] == t[j]
    ensures multiset(t)[t[i]] >= 2
  {
    assert t == t[..j] + t[j..];
    assert t[i] == t[..j][i] && t[j] == t[j..][0];
    assert t[i] in multiset(t[..j]) && t[i] in multiset(t[j..]);
  }

  /** Lexicographic order on byte strings, a proper prefix first. */
  predicate LexLeq(a: bytes, b: bytes) {
    if a == [] then true
    else if b == [] then false
    else if a[0] != b[0] then a[0] < b[0]
    else LexLeq(a[1..], b[1..])
  }

  /** In plain terms: a prefix, or smaller at the first place where they differ. */
  lemma {:induction false} LexPlainly(a: bytes, b: bytes)
    ensures LexLeq(a, b) <==> a <= b || exists k :: 0 <= k < |a| && k < |b| && a[..k] == b[..k] && a[k] < b[k]
  {
    if a != [] && b != [] && a[0] == b[0] {
      var x, y := a[1..], b[1..];
      LexPlainly(x, y);
      assert a == [a[0]] + x && b == [a[0]] + y;
      forall k | 0 <= k < |x| && k < |y| ensures a[..k + 1] == [a[0]] + x[..k] && b[..k + 1] == [a[0]] + y[..k] {}
      if k :| 0 <= k < |x| && k < |y| && x[..k] == y[..k] && x[k] < y[k] {
        assert a[..k + 1] == b[..k + 1] && a[k + 1] < b[k + 1];
      }
      if k :| 0 <= k < |a| && k < |b| && a[..k] == b[..k] && a[k] < b[k] {
        assert a[..k] == [a[0]] + x[..k - 1] && b[..k] == [a[0]] + y[..k - 1];
        assert x[..k - 1] == a[..k][1..] && y[..k - 1] == b[..k][1..];
        assert x[k - 1] < y[k - 1];
      }
    } else if a != [] && b != [] && a[0] < b[0] {
      assert a[..0] == b[..0];
    }
  }

  lemma {:induction false} LexTotal(a: bytes, b: bytes)
    ensures LexLeq(a, b) || LexLeq(b, a)
  {
    if a != [] && b != [] && a[0] == b[0] { LexTotal(a[1..], b[1..]); }
  }

  lemma {:induction false} LexAntisymmetric(a: bytes, b: bytes)
    requires LexLeq(a, b) && LexLeq(b, a)
    ensures a == b
  {
    if a != [] && b != [] {
      LexAntisymmetric(a[1..], b[1..]);
      assert a == [a[0]] + a[1..] && b == [b[0]] + b[1..];
    }
  }

  lemma {:induction false} LexTransitive(a: bytes, b: bytes, c: bytes)
    requires LexLeq(a, b) && LexLeq(b, c)
    ensures LexLeq(a, c)
  {
    if a != [] && a[0] == b[0] == c[0] { LexTransitive(a[1..], b[1..], c[1..]); }
  }

  lemma LexPreorder()
    ensures Preorder(LexLeq)
    ensures forall s: seq<bytes> :: NoTies(s, LexLeq)
  {
    forall x, y ensures LexLeq(x, y) || LexLeq(y, x) { LexTotal(x, y); }
    forall x, y, z | LexLeq(x, y) && LexLeq(y, z) ensures LexLeq(x, z) { LexTransitive(x, y, z); }
    forall x, y | LexLeq(x, y) && LexLeq(y, x) ensures x == y { LexAntisymmetric(x, y); }
  }

  lemma LexNoTies(s: seq<bytes>)
    ensures NoTies(s, LexLeq)
  {
    hide LexLeq;
    forall x, y | x in s && y in s && LexLeq(x, y) && LexLeq(y, x) ensures x == y { LexAntisymmetric(x, y); }
  }

  /** A shared prefix does not influence the order. */
  lemma {:induction false} LexPrefix(p: bytes, a: bytes, b: bytes)
    ensures LexLeq(p + a, p + b) <==> LexLeq(a, b)
  {
    if p == [] {
      assert p + a == a && p + b == b;
    } else {
      LexPrefix(p[1..], a, b);
      assert (p + a)[1..] == p[1..] + a && (p + b)[1..] == p[1..] + b;
    }
  }

  /** Blocks of equal width are compared first, what follows them second. */
  lemma {:induction false} LexBlocks(a: bytes, b: bytes, x: bytes, y: bytes)
    requires |a| == |b| && a != b
    ensures LexLeq(a + x, b + y) <==> LexLeq(a, b)
  {
    if a[0] == b[0] {
      assert a == [a[0]] + a[1..] && b == [b[0]] + b[1..];
      LexBlocks(a[1..], b[1..], x, y);
      assert (a + x)[1..] == a[1..] + x && (b + y)[1..] == b[1..] + y;
    }
  }

  /** Big-endian words of one width compare like the numbers they encode. */
  lemma {:induction false} LexBE(x: nat, y: nat, n: nat)
    requires x < Pow256(n) && y < Pow256(n)
    ensures LexLeq(BE(x, n), BE(y, n)) <==> x <= y
    decreases n
  {
    if n > 0 {
      var hx, hy := x / 256, y / 256;
      LexBE(hx, hy, n - 1);
      LexDigit(BE(hx, n - 1), BE(hy, n - 1), x % 256, y % 256);
      FromBEOfBE(hx, n - 1);
      FromBEOfBE(hy, n - 1);
      assert BE(hx, n - 1) == BE(hy, n - 1) <==> hx == hy;
    }
  }

  lemma LexDigit(p: bytes, q: bytes, d: byte, e: byte)
    requires |p| == |q|
    ensures LexLeq(p + [d], q + [e]) <==> if p == q then d <= e else LexLeq(p, q)
  {
    if p == q {
      LexPrefix(p, [d], [e]);
    } else {
      LexBlocks(p, q, [d], [e]);
    }
  }

  /** Sorting byte strings keeps them, and keeps them apart. */
  lemma SortedDistinct(found: seq<bytes>)
    requires Distinct(found)
    ensures var keys := Sort(found, LexLeq);
            Sorted(keys, LexLeq) && Distinct(keys) && forall k :: k in keys <==> k in found
  {
    hide LexLeq;
    var keys := Sort(found, LexLeq);
    LexPreorder();
    SortSorted(found, LexLeq);
    SortMultiset(found, LexLeq);
    forall k ensures k in keys <==> k in found { SameElements(keys, found, k); }
    DistinctPermutation(found, keys);
  }
}
