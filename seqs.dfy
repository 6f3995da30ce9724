/** Facts about sequences, used for the recency order of a bounded cache. */
module Seqs {

  /** No element occurs twice. */
  predicate Distinct<T(==)>(s: seq<T>)
  {
    forall i, j :: 0 <= i < j < |s| ==> s[i] != s[j]
  }

  /** The set of elements of `s`. */
  function Elems<T(==)>(s: seq<T>): (r: set<T>)
    ensures forall x :: x in r ==> x in s
    ensures forall x :: x in s ==> x in r
  {
    set x | x in s
  }

  /** The elements of a non-empty sequence are its first one and those of the rest. */
  lemma ElemsFirst<T>(s: seq<T>)
    requires s != []
    ensures Elems(s) == {s[0]} + Elems(s[1..])
  {
    assert s == [s[0]] + s[1..];
  }

  /** `s` with `x` taken out; the other elements keep their order. */
  function Without<T(==)>(s: seq<T>, x: T): (r: seq<T>)
    ensures forall y :: y in r ==> y in s && y != x
    ensures forall y :: y in s && y != x ==> y in r
    ensures Distinct(s) ==> Distinct(r)
    ensures Distinct(s) ==> |r| == if x in s then |s| - 1 else |s|
  {
    if s == [] then []
    else if s[0] == x then Without(s[1..], x)
    else
      var w := Without(s[1..], x);
      assert Distinct(s) ==> forall j :: 0 <= j < |w| ==> w[j] in s[1..] && w[j] != s[0];
      [s[0]] + w
  }

  /** Taking out an element that is not there changes nothing. */
  lemma {:induction false} WithoutAbsent<T>(s: seq<T>, x: T)
    requires x !in s
    ensures Without(s, x) == s
  {
    if s != [] {
      WithoutAbsent(s[1..], x);
      assert s == [s[0]] + s[1..];
    }
  }

  /** In a sequence without repetitions, taking out `s[i]` removes exactly position `i`. */
  lemma {:induction false} WithoutAt<T>(s: seq<T>, i: nat)
    requires Distinct(s) && i < |s|
    ensures Without(s, s[i]) == s[..i] + s[i + 1..]
  {
    if i == 0 {
      WithoutAbsent(s[1..], s[0]);
    } else {
      var t := s[1..];
      assert t[i - 1] == s[i];
      WithoutAt(t, i - 1);
      assert s[..i] == [s[0]] + t[..i - 1];
      assert s[i + 1..] == t[i..];
    }
  }

  /** Taking an element out of a concatenation takes it out of each part. */
  lemma {:induction false} WithoutConcat<T>(a: seq<T>, b: seq<T>, x: T)
    ensures Without(a + b, x) == Without(a, x) + Without(b, x)
  {
    if a != [] {
      WithoutConcat(a[1..], b, x);
      assert (a + b)[1..] == a[1..] + b;
    } else {
      assert a + b == b;
    }
  }

  /** Appending an element that is not there keeps a sequence free of repetitions. */
  lemma DistinctSnoc<T>(s: seq<T>, x: T)
    requires Distinct(s) && x !in s
    ensures Distinct(s + [x])
  {
    forall i, j | 0 <= i < j < |s| + 1 ensures (s + [x])[i] != (s + [x])[j] {
      if j == |s| { assert (s + [x])[i] in s; }
    }
  }

  /** A set holding exactly the elements of a repetition-free sequence has its length. */
  lemma {:induction false} SizeOfDistinct<T>(s: seq<T>, ks: set<T>)
    requires Distinct(s)
    requires forall y :: y in ks <==> y in s
    ensures |ks| == |s|
  {
    if s == [] {
      assert ks == {};
    } else {
      var t, last := s[..|s| - 1], s[|s| - 1];
      assert s == t + [last];
      assert last !in t;
      SizeOfDistinct(t, ks - {last});
    }
  }

  /** A subset as large as the set is the set. */
  lemma SubsetOfSameSize<T>(a: set<T>, b: set<T>)
    requires a <= b && |a| == |b|
    ensures a == b
  {
    assert |b - a| == |b| - |a|;
  }

  /** The last `n` elements of `s`, or all of them when there are fewer. */
  function Newest<T>(s: seq<T>, n: nat): (r: seq<T>)
    ensures |r| == if |s| <= n then |s| else n
  {
    if |s| <= n then s else s[|s| - n..]
  }

  /** Appending to a sequence shifts its newest `n` elements by one once there are `n`. */
  lemma NewestSnoc<T>(s: seq<T>, x: T, n: nat)
    requires 0 < n
    ensures |s| < n ==> Newest(s + [x], n) == s + [x]
    ensures |s| >= n ==> Newest(s + [x], n) == Newest(s, n)[1..] + [x]
  {
    if |s| >= n {
      var lo := |s| - n;
      assert Newest(s, n)[1..] == s[lo + 1..];
      assert (s + [x])[lo + 1..] == s[lo + 1..] + [x];
    }
  }

  /** `s` with its element at position `i` moved to the end. */
  function MoveToEnd<T>(s: seq<T>, i: nat): (r: seq<T>)
    requires i < |s|
    ensures |r| == |s|
  {
    s[..i] + s[i + 1..] + [s[i]]
  }

  /** Where the element at position `j` of `MoveToEnd(s, i)` comes from, `|s| == n`. */
  function Source(n: nat, i: nat, j: nat): (k: nat)
    requires i < n && j < n
    ensures k < n
  {
    if j < i then j else if j < n - 1 then j + 1 else i
  }

  /** Every element of `MoveToEnd(s, i)` is the element of `s` that `Source` names. */
  lemma MoveToEndAt<T>(s: seq<T>, i: nat)
    requires i < |s|
    ensures forall j :: 0 <= j < |s| ==> MoveToEnd(s, i)[j] == s[Source(|s|, i, j)]
  {
  }

  /** Moving an element to the end keeps a sequence free of repetitions. */
  lemma MoveToEndDistinct<T>(s: seq<T>, i: nat)
    requires Distinct(s) && i < |s|
    ensures Distinct(MoveToEnd(s, i))
  {
    MoveToEndAt(s, i);
    var n, r := |s|, MoveToEnd(s, i);
    forall a, b | 0 <= a < b < n ensures r[a] != r[b] {
      assert Source(n, i, a) != Source(n, i, b);
    }
  }

  /** Moving an element to the end of `[x] + s` leaves `x` in front. */
  lemma MoveToEndCons<T>(x: T, s: seq<T>, i: nat)
    requires i < |s|
    ensures MoveToEnd([x] + s, i + 1) == [x] + MoveToEnd(s, i)
  {
    assert ([x] + s)[..i + 1] == [x] + s[..i];
    assert ([x] + s)[i + 2..] == s[i + 1..];
  }

  /** Taking `s[i]` out and putting it back at the end of a repetition-free sequence. */
  lemma WithoutThenAppend<T>(s: seq<T>, i: nat)
    requires Distinct(s) && i < |s|
    ensures Without(s, s[i]) + [s[i]] == MoveToEnd(s, i)
  {
    WithoutAt(s, i);
  }

  /** Reading a repetition-free sequence from its second element round to its first. */
  lemma RotateDistinct<T>(s: seq<T>)
    requires Distinct(s) && s != []
    ensures Distinct(s[1..] + [s[0]])
  {
    var r := s[1..] + [s[0]];
    forall a, b | 0 <= a < b < |r| ensures r[a] != r[b] {
      assert r[a] == s[a + 1];
      assert r[b] == if b < |s| - 1 then s[b + 1] else s[0];
    }
  }

  /** Appending is associative. */
  lemma AppendAssoc<T>(x: seq<T>, y: seq<T>, z: seq<T>)
    ensures x + y + z == x + (y + z)
  {
  }
}
