/**
 * The circular doubly linked list of a bounded cache, kept in an array of links.
 *
 * Each link is the four-field record `[PREV, NEXT, KEY, RESULT]` of the source, with the
 * references to other links written as array indices.  A ring `r` lists the slots of the
 * list starting at the root: `r[0]` is the root, `r[1]` the least recently used link and
 * the last element of `r` the most recently used one.  The three pointer rewirings a cache
 * performs (move a link to the most recently used end, recycle the root, add a link at
 * the most recently used end) are stated here on sequences of links, with what each does to
 * the ring.
 */
module Arena {
  import opened Common
  import opened Seqs

  /** A link: the previous and the next link, and the cached key and result. */
  datatype Link<K, V> = Link(prev: nat, next: nat, key: Option<K>, result: Option<V>)

  /** Every pointer of every link stays inside the array. */
  ghost predicate Closed<K, V>(s: seq<Link<K, V>>)
  {
    forall t :: 0 <= t < |s| ==> s[t].prev < |s| && s[t].next < |s|
  }

  /** The links at the slots `r`, in this order, form a circle in both directions. */
  ghost predicate Ring<K, V>(s: seq<Link<K, V>>, r: seq<nat>)
  {
    && r != []
    && (forall j :: 0 <= j < |r| ==> r[j] < |s|)
    && (forall j :: 0 <= j < |r| - 1 ==> s[r[j]].next == r[j + 1])
    && (forall j :: 0 < j < |r| ==> s[r[j]].prev == r[j - 1])
    && s[r[|r| - 1]].next == r[0]
    && s[r[0]].prev == r[|r| - 1]
  }

  /** Two arrays of links with the same pointers. */
  ghost predicate SamePointers<K, V>(s: seq<Link<K, V>>, s': seq<Link<K, V>>)
  {
    && |s'| == |s|
    && (forall t :: 0 <= t < |s| ==> s'[t].prev == s[t].prev && s'[t].next == s[t].next)
  }

  /** Two arrays of links with the same keys and results. */
  ghost predicate SameContents<K, V>(s: seq<Link<K, V>>, s': seq<Link<K, V>>)
  {
    && |s'| == |s|
    && (forall t :: 0 <= t < |s| ==> s'[t].key == s[t].key && s'[t].result == s[t].result)
  }

  /** `link[NEXT] = x` */
  function SetNext<K, V>(s: seq<Link<K, V>>, a: nat, x: nat): (r: seq<Link<K, V>>)
    requires a < |s|
    ensures |r| == |s|
  {
    s[a := s[a].(next := x)]
  }

  /** `link[PREV] = x` */
  function SetPrev<K, V>(s: seq<Link<K, V>>, a: nat, x: nat): (r: seq<Link<K, V>>)
    requires a < |s|
    ensures |r| == |s|
  {
    s[a := s[a].(prev := x)]
  }

  /** The pointer writes of a hit: unlink `x`, then put it between the last link and the
      root. */
  ghost function MoveToBack<K, V>(s: seq<Link<K, V>>, root: nat, x: nat): (s': seq<Link<K, V>>)
    requires Closed(s) && root < |s| && x < |s|
    ensures |s'| == |s| && s'[x].next == root
    ensures s'[x].key == s[x].key && s'[x].result == s[x].result
  {
    var p, n := s[x].prev, s[x].next;
    var s1 := SetNext(s, p, n);
    var s2 := SetPrev(s1, n, p);
    var last := s2[root].prev;
    var s3 := SetNext(s2, last, x);
    var s4 := SetPrev(s3, root, x);
    s4[x := s4[x].(prev := last, next := root)]
  }

  /** Where a hit leaves every pointer when the link was not already the last one. */
  lemma MoveToBackPointers<K, V>(s: seq<Link<K, V>>, r: seq<nat>, p: nat)
    requires Closed(s) && Ring(s, r) && Distinct(r) && 1 <= p < |r| - 1
    ensures var s', a, x, b, z := MoveToBack(s, r[0], r[p]), r[p - 1], r[p], r[p + 1], r[|r| - 1];
      && |s'| == |s| && SameContents(s, s')
      && (forall t :: 0 <= t < |s| ==> s'[t].next == (if t == z then x else if t == a then b
                                                   else if t == x then r[0] else s[t].next))
      && (forall t :: 0 <= t < |s| ==> s'[t].prev == (if t == r[0] then x else if t == b then a
                                                   else if t == x then z else s[t].prev))
  {
    assert r[|r| - 1] != r[p - 1] && r[p + 1] != r[0] && r[p] != r[0];
  }

  /** When the link already is the last one, a hit rewrites every pointer to what it was. */
  lemma MoveLastPointers<K, V>(s: seq<Link<K, V>>, r: seq<nat>)
    requires Closed(s) && Ring(s, r) && Distinct(r) && |r| >= 2
    ensures var s' := MoveToBack(s, r[0], r[|r| - 1]);
      SamePointers(s, s') && SameContents(s, s')
  {
    var x := r[|r| - 1];
    assert s[x].next == r[0] && s[x].prev == r[|r| - 2];
  }

  /** The forward pointers after a hit on the link at position `p`, not the last one. */
  lemma MovedNext<K, V>(s: seq<Link<K, V>>, s': seq<Link<K, V>>, r: seq<nat>, p: nat)
    requires Ring(s, r) && Distinct(r) && 1 <= p < |r| - 1 && |s'| == |s|
    requires forall t :: 0 <= t < |s| ==>
      s'[t].next == (if t == r[|r| - 1] then r[p] else if t == r[p - 1] then r[p + 1]
                     else if t == r[p] then r[0] else s[t].next)
    ensures var r' := r[..p] + r[p + 1..] + [r[p]];
      && (forall q :: 0 <= q < |r'| - 1 ==> s'[r'[q]].next == r'[q + 1])
      && s'[r'[|r'| - 1]].next == r'[0]
  {
    var r', n := r[..p] + r[p + 1..] + [r[p]], |r|;
    forall q | 0 <= q < n - 1 ensures s'[r'[q]].next == r'[q + 1] {
      if q < p - 1 {
        assert r'[q] == r[q] && r'[q + 1] == r[q + 1];
        assert r[q] != r[n - 1] && r[q] != r[p - 1] && r[q] != r[p];
      } else if q == p - 1 {
        assert r'[q] == r[p - 1] && r'[q + 1] == r[p + 1];
      } else if q < n - 2 {
        assert r'[q] == r[q + 1] && r'[q + 1] == r[q + 2];
        assert r[q + 1] != r[n - 1] && r[q + 1] != r[p - 1] && r[q + 1] != r[p];
      } else {
        assert r'[q] == r[n - 1] && r'[q + 1] == r[p];
      }
    }
  }

  /** The backward pointers after a hit on the link at position `p`, not the last one. */
  lemma MovedPrev<K, V>(s: seq<Link<K, V>>, s': seq<Link<K, V>>, r: seq<nat>, p: nat)
    requires Ring(s, r) && Distinct(r) && 1 <= p < |r| - 1 && |s'| == |s|
    requires forall t :: 0 <= t < |s| ==>
      s'[t].prev == (if t == r[0] then r[p] else if t == r[p + 1] then r[p - 1]
                     else if t == r[p] then r[|r| - 1] else s[t].prev)
    ensures var r' := r[..p] + r[p + 1..] + [r[p]];
      && (forall q :: 0 < q < |r'| ==> s'[r'[q]].prev == r'[q - 1])
      && s'[r'[0]].prev == r'[|r'| - 1]
  {
    var r', n := r[..p] + r[p + 1..] + [r[p]], |r|;
    forall q | 0 < q < n ensures s'[r'[q]].prev == r'[q - 1] {
      if q < p {
        assert r'[q] == r[q] && r'[q - 1] == r[q - 1];
        assert r[q] != r[0] && r[q] != r[p + 1] && r[q] != r[p];
      } else if q == p {
        assert r'[q] == r[p + 1] && r'[q - 1] == r[p - 1];
      } else if q < n - 1 {
        assert r'[q] == r[q + 1] && r'[q - 1] == r[q];
        assert r[q + 1] != r[0] && r[q + 1] != r[p + 1] && r[q + 1] != r[p];
      } else {
        assert r'[q] == r[p] && r'[q - 1] == r[n - 1];
      }
    }
  }

  /** A hit on a link that is not the last one moves it to the end of the ring. */
  lemma MoveMiddleRing<K, V>(s: seq<Link<K, V>>, r: seq<nat>, p: nat)
    requires Closed(s) && Ring(s, r) && Distinct(r) && 1 <= p < |r| - 1
    ensures var s' := MoveToBack(s, r[0], r[p]);
      && Closed(s') && SameContents(s, s')
      && Ring(s', r[..p] + r[p + 1..] + [r[p]])
  {
    var s' := MoveToBack(s, r[0], r[p]);
    var r' := r[..p] + r[p + 1..] + [r[p]];
    MoveToBackPointers(s, r, p);
    MovedNext(s, s', r, p);
    MovedPrev(s, s', r, p);
    assert forall q :: 0 <= q < |r'| ==> r'[q] in r;
  }

  /** A hit moves the link at position `p` of the ring to its end. */
  lemma MoveToBackRing<K, V>(s: seq<Link<K, V>>, r: seq<nat>, p: nat)
    requires Closed(s) && Ring(s, r) && Distinct(r) && 1 <= p < |r|
    ensures var s' := MoveToBack(s, r[0], r[p]);
      && Closed(s') && SameContents(s, s')
      && Ring(s', r[..p] + r[p + 1..] + [r[p]])
  {
    if p == |r| - 1 {
      MoveLastPointers(s, r);
      assert r[..p] + r[p + 1..] + [r[p]] == r;
    } else {
      MoveMiddleRing(s, r, p);
    }
  }

  /** A ring read from its second slot round to its first is a ring over the same links. */
  lemma RotateRing<K, V>(s: seq<Link<K, V>>, s': seq<Link<K, V>>, r: seq<nat>)
    requires Ring(s, r) && SamePointers(s, s') && |r| >= 2
    ensures Ring(s', r[1..] + [r[0]])
  {
    var r' := r[1..] + [r[0]];
    assert forall q :: 0 <= q < |r| - 1 ==> r'[q] == r[q + 1];
  }

  /** The writes of a miss on a full cache: the root takes the new entry, and the link after
      it, the least recently used one, is emptied to become the new root. */
  ghost function Recycle<K, V>(s: seq<Link<K, V>>, root: nat, key: K, result: V): (s': seq<Link<K, V>>)
    requires Closed(s) && root < |s|
    ensures SamePointers(s, s')
    ensures s'[s[root].next].key == None && s'[s[root].next].result == None
    ensures s[root].next != root ==> s'[root].key == Some(key) && s'[root].result == Some(result)
    ensures forall t :: 0 <= t < |s| && t != root && t != s[root].next ==> s'[t] == s[t]
  {
    var s1 := s[root := s[root].(key := Some(key), result := Some(result))];
    var newroot := s1[root].next;
    s1[newroot := s1[newroot].(key := None, result := None)]
  }

  /** Recycling changes no pointer, fills the old root and empties the new one. */
  lemma RecycleLinks<K, V>(s: seq<Link<K, V>>, r: seq<nat>, key: K, result: V)
    requires Closed(s) && Ring(s, r) && Distinct(r) && |r| >= 2
    ensures var s' := Recycle(s, r[0], key, result);
      && Closed(s') && SamePointers(s, s')
      && s'[r[0]].key == Some(key) && s'[r[0]].result == Some(result)
      && s'[r[1]].key == None && s'[r[1]].result == None
      && (forall t :: 0 <= t < |s| && t != r[0] && t != r[1] ==> s'[t] == s[t])
  {
    assert s[r[0]].next == r[1] && r[0] != r[1];
  }

  /** The writes of a miss on a cache that is not full: a new link `x` between the last link
      and the root. */
  ghost function Append<K, V>(s: seq<Link<K, V>>, root: nat, x: nat, key: K, result: V): (s': seq<Link<K, V>>)
    requires Closed(s) && root < |s| && x < |s|
    ensures |s'| == |s| && Closed(s') && s'[root].prev == x && s'[s[root].prev].next == x
    ensures s'[x].key == Some(key) && s'[x].result == Some(result)
    ensures forall t :: 0 <= t < |s| && t != x ==> s'[t].key == s[t].key && s'[t].result == s[t].result
  {
    var last := s[root].prev;
    var s1 := s[x := Link(last, root, Some(key), Some(result))];
    SetPrev(SetNext(s1, last, x), root, x)
  }

  /** Where the writes of a miss leave every link. */
  lemma AppendPointers<K, V>(s: seq<Link<K, V>>, r: seq<nat>, x: nat, key: K, result: V)
    requires Closed(s) && Ring(s, r) && Distinct(r) && x < |s| && x !in r
    ensures var s', z := Append(s, r[0], x, key, result), r[|r| - 1];
      && |s'| == |s|
      && s'[x].key == Some(key) && s'[x].result == Some(result)
      && (forall t :: 0 <= t < |s| && t != x ==> s'[t].key == s[t].key && s'[t].result == s[t].result)
      && (forall t :: 0 <= t < |s| ==> s'[t].next == (if t == z then x else if t == x then r[0] else s[t].next))
      && (forall t :: 0 <= t < |s| ==> s'[t].prev == (if t == r[0] then x else if t == x then z else s[t].prev))
  {
    assert s[r[0]].prev == r[|r| - 1];
  }

  /** The ring after a miss, from where its writes leave the pointers. */
  lemma AppendedRing<K, V>(s: seq<Link<K, V>>, s': seq<Link<K, V>>, r: seq<nat>, x: nat)
    requires Ring(s, r) && Distinct(r) && x < |s| && x !in r && |s'| == |s|
    requires forall t :: 0 <= t < |s| ==>
      s'[t].next == (if t == r[|r| - 1] then x else if t == x then r[0] else s[t].next)
    requires forall t :: 0 <= t < |s| ==>
      s'[t].prev == (if t == r[0] then x else if t == x then r[|r| - 1] else s[t].prev)
    ensures Ring(s', r + [x])
  {
    var n, z := |r|, r[|r| - 1];
    var r' := r + [x];
    forall q | 0 <= q < n - 1 ensures s'[r'[q]].next == r'[q + 1] {
      var t := r[q];
      assert r'[q] == t && r'[q + 1] == r[q + 1];
      assert t != z && t != x;
      assert s'[t].next == s[t].next;
    }
    forall q | 0 < q < n ensures s'[r'[q]].prev == r'[q - 1] {
      var t := r[q];
      assert r'[q] == t && r'[q - 1] == r[q - 1];
      assert t != r[0] && t != x;
      assert s'[t].prev == s[t].prev;
    }
    assert r'[n - 1] == z && r'[n] == x && r'[0] == r[0];
    assert s'[z].next == x && s'[x].prev == z;
    assert s'[x].next == r[0] && s'[r[0]].prev == x;
  }

  /** Adding a link at a slot outside the ring puts it at the end of the ring. */
  lemma AppendRing<K, V>(s: seq<Link<K, V>>, r: seq<nat>, x: nat, key: K, result: V)
    requires Closed(s) && Ring(s, r) && Distinct(r) && x < |s| && x !in r
    ensures var s' := Append(s, r[0], x, key, result);
      && Closed(s')
      && Ring(s', r + [x])
      && s'[x].key == Some(key) && s'[x].result == Some(result)
      && (forall t :: 0 <= t < |s| && t != x ==> s'[t].key == s[t].key && s'[t].result == s[t].result)
  {
    var s' := Append(s, r[0], x, key, result);
    AppendPointers(s, r, x, key, result);
    AppendedRing(s, s', r, x);
  }

  /** A hit, in place: unlink the link at slot `x`, then put it between the last link and
      the root. */
  method MoveLinkToBack<K, V>(a: array<Link<K, V>>, root: nat, x: nat)
    requires Closed(a[..]) && root < a.Length && x < a.Length
    modifies a
    ensures a[..] == MoveToBack(old(a[..]), root, x)
  {
    var linkPrev, linkNext := a[x].prev, a[x].next;
    a[linkPrev] := a[linkPrev].(next := linkNext);
    a[linkNext] := a[linkNext].(prev := linkPrev);
    var last := a[root].prev;
    assert last < a.Length;
    a[last] := a[last].(next := x);
    a[root] := a[root].(prev := x);
    a[x] := a[x].(prev := last, next := root);
  }

  /** A miss on a full cache, in place: the root at slot `root` takes the new entry and the
      link after it, the least recently used one, is emptied to become the new root; returns
      the new root and the key it held. */
  method RecycleRoot<K, V>(a: array<Link<K, V>>, root: nat, key: K, result: V)
      returns (newroot: nat, oldkey: Option<K>)
    requires Closed(a[..]) && root < a.Length && a[root].next != root
    modifies a
    ensures newroot == old(a[root].next) && oldkey == old(a[newroot].key)
    ensures a[..] == Recycle(old(a[..]), root, key, result)
  {
    a[root] := a[root].(key := Some(key), result := Some(result));
    newroot := a[root].next;
    oldkey := a[newroot].key;
    a[newroot] := a[newroot].(key := None, result := None);
  }

  /** A miss on a cache that is not full, in place: a new link at slot `x` between the last
      link and the root. */
  method AppendLink<K, V>(a: array<Link<K, V>>, root: nat, x: nat, key: K, result: V)
    requires Closed(a[..]) && root < a.Length && x < a.Length
    modifies a
    ensures a[..] == Append(old(a[..]), root, x, key, result)
  {
    var last := a[root].prev;
    a[x] := Link(last, root, Some(key), Some(result));
    a[last] := a[last].(next := x);
    a[root] := a[root].(prev := x);
  }

  /** `root[:] = [root, root, None, None]` with the root at slot 0. */
  method ResetRoot<K, V>(a: array<Link<K, V>>)
    requires a.Length > 0
    modifies a
    ensures a[..] == old(a[..])[0 := Link(0, 0, None, None)]
  {
    a[0] := Link(0, 0, None, None);
  }
}
