/**
 * The cache key built from a call's arguments (`_make_key`).
 *
 * A Python argument is modelled as a `Value`: its type and a `datum`, the part that Python's
 * `==` compares (so the integer 3 and the float 3.0 share a datum and differ in their type).
 * A key is either one argument returned bare or a flat sequence of items: the positional
 * arguments, then a private marker and the keyword pairs, then, when `typed` is set, the
 * types of the positional and keyword values.  Two keys are the same dictionary key exactly
 * when they are equal as Dafny values.
 */
module MakeKey {
  import Seqs

  /** The type of an argument, as far as key construction looks at it. */
  datatype TypeTag = Int | Str | Frozenset | NoneType | Float | Other(name: string)

  /** The types whose instances are returned bare as a key of their own. */
  predicate IsFastType(t: TypeTag)
  {
    t.Int? || t.Str? || t.Frozenset? || t.NoneType?
  }

  /** An argument: its type and what `==` compares. */
  datatype Value<D> = Value(tag: TypeTag, datum: D)

  /** A keyword argument, in the order the call gave it. */
  datatype Kwd<D> = Kwd(name: string, value: Value<D>)

  /** One element of a flat key. */
  datatype Item<D> =
    | Arg(datum: D)          // a positional or keyword value
    | KwdMark                // the private marker object that precedes the keyword pairs
    | Name(name: string)     // a keyword name
    | TypeOf(tag: TypeTag)   // a type object, appended when `typed` is set

  /** A cache key: an argument on its own, or the wrapped flat sequence. */
  datatype Key<D> = Bare(value: D) | Hashed(items: seq<Item<D>>)

  /** The positional values, in order. */
  function ArgItems<D>(args: seq<Value<D>>): (r: seq<Item<D>>)
    ensures |r| == |args|
  {
    seq(|args|, i requires 0 <= i < |args| => Arg(args[i].datum))
  }

  /** The keyword pairs flattened to name, value, name, value, ... */
  function KwdItems<D>(kwds: seq<Kwd<D>>): (r: seq<Item<D>>)
    ensures |r| == 2 * |kwds|
  {
    if kwds == [] then []
    else
      var last := kwds[|kwds| - 1];
      KwdItems(kwds[..|kwds| - 1]) + [Name(last.name), Arg(last.value.datum)]
  }

  /** The types of the positional values. */
  function ArgTags<D>(args: seq<Value<D>>): (r: seq<Item<D>>)
    ensures |r| == |args|
  {
    seq(|args|, i requires 0 <= i < |args| => TypeOf(args[i].tag))
  }

  /** The types of the keyword values. */
  function KwdTags<D>(kwds: seq<Kwd<D>>): (r: seq<Item<D>>)
    ensures |r| == |kwds|
  {
    seq(|kwds|, j requires 0 <= j < |kwds| => TypeOf(kwds[j].value.tag))
  }

  /** The marker and the keyword pairs, or nothing when there are no keyword arguments. */
  function KwdPart<D>(kwds: seq<Kwd<D>>): seq<Item<D>>
  {
    if kwds == [] then [] else [KwdMark] + KwdItems(kwds)
  }

  /** The appended types, or nothing when `typed` is not set. */
  function TagPart<D>(args: seq<Value<D>>, kwds: seq<Kwd<D>>, typed: bool): seq<Item<D>>
  {
    if !typed then [] else ArgTags(args) + (if kwds == [] then [] else KwdTags(kwds))
  }

  /** The flat key before any wrapping. */
  function Flatten<D>(args: seq<Value<D>>, kwds: seq<Kwd<D>>, typed: bool): (r: seq<Item<D>>)
    ensures |r| == |args| + (if kwds == [] then 0 else 1 + 2 * |kwds|)
                   + (if typed then |args| + (if kwds == [] then 0 else |kwds|) else 0)
  {
    ArgItems(args) + KwdPart(kwds) + TagPart(args, kwds, typed)
  }

  /** When a call's key is its lone argument. */
  predicate ReturnsBare<D>(args: seq<Value<D>>, kwds: seq<Kwd<D>>, typed: bool)
  {
    !typed && |args| == 1 && kwds == [] && IsFastType(args[0].tag)
  }

  /** The key of a call. */
  function KeyOf<D>(args: seq<Value<D>>, kwds: seq<Kwd<D>>, typed: bool): (r: Key<D>)
    ensures r.Bare? <==> ReturnsBare(args, kwds, typed)
    ensures r.Bare? ==> r.value == args[0].datum
    ensures r.Hashed? ==> |r.items| == |Flatten(args, kwds, typed)|
  {
    var items := Flatten(args, kwds, typed);
    if typed then Hashed(items)
    else if |items| == 1 && IsFastType(args[0].tag) then Bare(args[0].datum)
    else Hashed(items)
  }

  /** Appends the keyword pairs one at a time, each as its name followed by its value. */
  method AppendPairs<D>(prefix: seq<Item<D>>, kwds: seq<Kwd<D>>) returns (items: seq<Item<D>>)
    ensures items == prefix + KwdItems(kwds)
  {
    items := prefix;
    var j := 0;
    while j < |kwds|
      invariant 0 <= j <= |kwds|
      invariant items == prefix + KwdItems(kwds[..j])
    {
      assert kwds[..j + 1][..j] == kwds[..j];
      items := items + [Name(kwds[j].name), Arg(kwds[j].value.datum)];
      j := j + 1;
    }
    assert kwds[..j] == kwds;
  }

  /** The flat key is built by appending its parts one after another. */
  lemma FlattenSteps<D>(args: seq<Value<D>>, kwds: seq<Kwd<D>>)
    ensures Flatten(args, kwds, false)
            == if kwds == [] then ArgItems(args) else ArgItems(args) + [KwdMark] + KwdItems(kwds)
    ensures Flatten(args, kwds, true)
            == if kwds == [] then Flatten(args, kwds, false) + ArgTags(args)
               else Flatten(args, kwds, false) + ArgTags(args) + KwdTags(kwds)
  {
    var a, k := ArgItems(args), KwdPart(kwds);
    assert Flatten(args, kwds, false) == a + k + [];
    assert a + k + [] == a + k;
    if kwds != [] {
      Seqs.AppendAssoc(a, [KwdMark], KwdItems(kwds));
      Seqs.AppendAssoc(a + k, ArgTags(args), KwdTags(kwds));
    }
  }

  /** Builds the key the way the source does. */
  method MakeKey<D>(args: seq<Value<D>>, kwds: seq<Kwd<D>>, typed: bool) returns (key: Key<D>)
    ensures key == KeyOf(args, kwds, typed)
  {
    var items := ArgItems(args);
    if kwds != [] {
      items := AppendPairs(items + [KwdMark], kwds);
    }
    FlattenSteps(args, kwds);
    if typed {
      items := items + ArgTags(args);
      if kwds != [] {
        items := items + KwdTags(kwds);
      }
      key := Hashed(items);
    } else if |items| == 1 && IsFastType(args[0].tag) {
      key := Bare(args[0].datum);
    } else {
      key := Hashed(items);
    }
  }

  /** Two positional argument lists are equal to Python's `==`, type by type when `typed`. */
  ghost predicate SameArgs<D>(a1: seq<Value<D>>, a2: seq<Value<D>>, typed: bool)
  {
    && |a1| == |a2|
    && (forall i :: 0 <= i < |a1| ==> a1[i].datum == a2[i].datum)
    && (typed ==> forall i :: 0 <= i < |a1| ==> a1[i].tag == a2[i].tag)
  }

  /** The same for keyword arguments, which must also come in the same order. */
  ghost predicate SameKwds<D>(k1: seq<Kwd<D>>, k2: seq<Kwd<D>>, typed: bool)
  {
    && |k1| == |k2|
    && (forall j :: 0 <= j < |k1| ==> k1[j].name == k2[j].name)
    && (forall j :: 0 <= j < |k1| ==> k1[j].value.datum == k2[j].value.datum)
    && (typed ==> forall j :: 0 <= j < |k1| ==> k1[j].value.tag == k2[j].value.tag)
  }

  /** The flat key is the positional values followed by the rest. */
  lemma ArgsFirst<D>(args: seq<Value<D>>, kwds: seq<Kwd<D>>, typed: bool)
    ensures var r := Flatten(args, kwds, typed);
      && r[..|args|] == ArgItems(args)
      && r[|args|..] == KwdPart(kwds) + TagPart(args, kwds, typed)
  {
  }

  /** What follows the positional values starts with the marker when there are keyword
      arguments, otherwise with a type; never with a value. */
  lemma RestHead<D>(args: seq<Value<D>>, kwds: seq<Kwd<D>>, typed: bool)
    ensures var rest := KwdPart(kwds) + TagPart(args, kwds, typed);
      |rest| > 0 ==> !rest[0].Arg? && (rest[0] == KwdMark <==> kwds != [])
  {
    if kwds == [] && typed && |args| > 0 {
      assert KwdPart(kwds) + TagPart(args, kwds, typed) == ArgTags(args);
    }
  }

  /** Right after the positional values comes the marker when there are keyword
      arguments, otherwise a type or the end of the key; never a value. */
  lemma AfterArgs<D>(args: seq<Value<D>>, kwds: seq<Kwd<D>>, typed: bool)
    ensures var r := Flatten(args, kwds, typed);
      |r| > |args| ==> !r[|args|].Arg? && (r[|args|] == KwdMark <==> kwds != [])
  {
    var r, n := Flatten(args, kwds, typed), |args|;
    ArgsFirst(args, kwds, typed);
    RestHead(args, kwds, typed);
    if |r| > n {
      assert r[n] == r[n..][0];
    }
  }

  /** Keyword pairs that flatten alike are equal pair by pair. */
  lemma {:induction false} KwdItemsInjective<D>(k1: seq<Kwd<D>>, k2: seq<Kwd<D>>)
    requires KwdItems(k1) == KwdItems(k2)
    ensures SameKwds(k1, k2, false)
  {
    if k1 != [] {
      var n := |k1| - 1;
      var x, y := KwdItems(k1), KwdItems(k2);
      assert x[..2 * n] == KwdItems(k1[..n]) && x[2 * n] == Name(k1[n].name) && x[2 * n + 1] == Arg(k1[n].value.datum);
      assert y[..2 * n] == KwdItems(k2[..n]) && y[2 * n] == Name(k2[n].name) && y[2 * n + 1] == Arg(k2[n].value.datum);
      KwdItemsInjective(k1[..n], k2[..n]);
      assert forall j :: 0 <= j < n ==> k1[..n][j] == k1[j] && k2[..n][j] == k2[j];
    }
  }

  /** A flat key cannot also start with more positional values. */
  lemma NoLongerArgs<D>(a1: seq<Value<D>>, k1: seq<Kwd<D>>, a2: seq<Value<D>>, k2: seq<Kwd<D>>, typed: bool)
    requires Flatten(a1, k1, typed) == Flatten(a2, k2, typed) && |a1| <= |a2|
    ensures |a1| == |a2|
  {
    if |a1| < |a2| {
      // the first position past the shorter run of values holds a value in one key only
      ArgsFirst(a2, k2, typed);
      AfterArgs(a1, k1, typed);
    }
  }

  /** Equal flat keys have the same number of positional values, and both or neither have
      keyword arguments. */
  lemma ArgCount<D>(a1: seq<Value<D>>, k1: seq<Kwd<D>>, a2: seq<Value<D>>, k2: seq<Kwd<D>>, typed: bool)
    requires Flatten(a1, k1, typed) == Flatten(a2, k2, typed)
    ensures |a1| == |a2| && (k1 == [] <==> k2 == [])
  {
    if |a1| <= |a2| {
      NoLongerArgs(a1, k1, a2, k2, typed);
    } else {
      NoLongerArgs(a2, k2, a1, k1, typed);
    }
    AfterArgs(a1, k1, typed);
    AfterArgs(a2, k2, typed);
  }

  /** Equal concatenations with equally long first parts have equal parts. */
  lemma SplitEqual<T>(x1: seq<T>, y1: seq<T>, x2: seq<T>, y2: seq<T>)
    requires x1 + y1 == x2 + y2 && |x1| == |x2|
    ensures x1 == x2 && y1 == y2
  {
    assert x1 == (x1 + y1)[..|x1|] && x2 == (x2 + y2)[..|x2|];
    assert y1 == (x1 + y1)[|x1|..] && y2 == (x2 + y2)[|x2|..];
  }

  /** Equal appended types come from arguments of the same types. */
  lemma TagPartInjective<D>(a1: seq<Value<D>>, k1: seq<Kwd<D>>, a2: seq<Value<D>>, k2: seq<Kwd<D>>)
    requires |a1| == |a2| && |k1| == |k2|
    requires TagPart(a1, k1, true) == TagPart(a2, k2, true)
    ensures forall i :: 0 <= i < |a1| ==> a1[i].tag == a2[i].tag
    ensures forall j :: 0 <= j < |k1| ==> k1[j].value.tag == k2[j].value.tag
  {
    var t1: seq<Item<D>> := if k1 == [] then [] else KwdTags(k1);
    var t2: seq<Item<D>> := if k2 == [] then [] else KwdTags(k2);
    SplitEqual(ArgTags(a1), t1, ArgTags(a2), t2);
    if k1 != [] {
      assert forall j :: 0 <= j < |k1| ==> TypeOf(k1[j].value.tag) == KwdTags(k1)[j];
      assert forall j :: 0 <= j < |k1| ==> TypeOf(k2[j].value.tag) == KwdTags(k2)[j];
    }
    assert forall i :: 0 <= i < |a1| ==> TypeOf(a1[i].tag) == ArgTags(a1)[i];
    assert forall i :: 0 <= i < |a1| ==> TypeOf(a2[i].tag) == ArgTags(a2)[i];
  }

  /** Equal flat keys come from calls that are equal argument by argument. */
  lemma FlattenInjective<D>(a1: seq<Value<D>>, k1: seq<Kwd<D>>,
                            a2: seq<Value<D>>, k2: seq<Kwd<D>>, typed: bool)
    requires Flatten(a1, k1, typed) == Flatten(a2, k2, typed)
    ensures SameArgs(a1, a2, typed) && SameKwds(k1, k2, typed)
  {
    ArgCount(a1, k1, a2, k2, typed);
    var n := |a1|;
    assert ArgItems(a1) == ArgItems(a2) && |k1| == |k2|
      && KwdPart(k1) + TagPart(a1, k1, typed) == KwdPart(k2) + TagPart(a2, k2, typed) by {
      ArgsFirst(a1, k1, typed);
      ArgsFirst(a2, k2, typed);
    }
    forall i | 0 <= i < n ensures a1[i].datum == a2[i].datum {
      assert Arg(a1[i].datum) == ArgItems(a1)[i] == ArgItems(a2)[i] == Arg(a2[i].datum);
    }
    SplitEqual(KwdPart(k1), TagPart(a1, k1, typed), KwdPart(k2), TagPart(a2, k2, typed));
    if k1 != [] {
      assert KwdItems(k1) == KwdPart(k1)[1..] == KwdPart(k2)[1..] == KwdItems(k2);
      KwdItemsInjective(k1, k2);
    }
    if typed {
      TagPartInjective(a1, k1, a2, k2);
    }
  }

  /** Calls that share a key are equal argument by argument (type by type when `typed`). */
  lemma KeyInjective<D>(a1: seq<Value<D>>, k1: seq<Kwd<D>>,
                        a2: seq<Value<D>>, k2: seq<Kwd<D>>, typed: bool)
    requires KeyOf(a1, k1, typed) == KeyOf(a2, k2, typed)
    ensures SameArgs(a1, a2, typed) && SameKwds(k1, k2, typed)
  {
    if KeyOf(a1, k1, typed).Hashed? {
      FlattenInjective(a1, k1, a2, k2, typed);
    }
  }

  /** Keyword arguments equal pair by pair flatten to the same items. */
  lemma {:induction false} KwdItemsRespectEquality<D>(k1: seq<Kwd<D>>, k2: seq<Kwd<D>>, typed: bool)
    requires SameKwds(k1, k2, typed)
    ensures KwdItems(k1) == KwdItems(k2)
  {
    if k1 != [] {
      var n := |k1| - 1;
      KwdItemsRespectEquality(k1[..n], k2[..n], typed);
    }
  }

  /** Calls equal argument by argument have equal flat keys. */
  lemma FlattenRespectsEquality<D>(a1: seq<Value<D>>, k1: seq<Kwd<D>>,
                                   a2: seq<Value<D>>, k2: seq<Kwd<D>>, typed: bool)
    requires SameArgs(a1, a2, typed) && SameKwds(k1, k2, typed)
    ensures Flatten(a1, k1, typed) == Flatten(a2, k2, typed)
  {
    assert ArgItems(a1) == ArgItems(a2);
    KwdItemsRespectEquality(k1, k2, typed);
    if typed {
      assert ArgTags(a1) == ArgTags(a2);
      assert KwdTags(k1) == KwdTags(k2);
    }
  }

  /** Calls equal argument by argument share a key, provided both or neither take the
      lone-argument shortcut. */
  lemma KeyRespectsEquality<D>(a1: seq<Value<D>>, k1: seq<Kwd<D>>,
                               a2: seq<Value<D>>, k2: seq<Kwd<D>>, typed: bool)
    requires SameArgs(a1, a2, typed) && SameKwds(k1, k2, typed)
    requires ReturnsBare(a1, k1, typed) == ReturnsBare(a2, k2, typed)
    ensures KeyOf(a1, k1, typed) == KeyOf(a2, k2, typed)
  {
    FlattenRespectsEquality(a1, k1, a2, k2, typed);
  }

  /** With `typed` set, an argument of another type gives another key. */
  lemma TypedSeparates<D>(a1: seq<Value<D>>, a2: seq<Value<D>>, kwds: seq<Kwd<D>>, i: nat)
    requires i < |a1| && i < |a2| && a1[i].tag != a2[i].tag
    ensures KeyOf(a1, kwds, true) != KeyOf(a2, kwds, true)
  {
    if KeyOf(a1, kwds, true) == KeyOf(a2, kwds, true) {
      KeyInjective(a1, kwds, a2, kwds, true);
      assert false;
    }
  }

  /** Without `typed`, an integer argument is its own key and an equal float is wrapped, so
      the two calls still get separate keys. */
  lemma UntypedIntAndFloat<D>(d: D)
    ensures KeyOf([Value(Int, d)], [], false) == Bare(d)
    ensures KeyOf([Value(Float, d)], [], false) == Hashed([Arg(d)])
  {
    var a := [Value(Float, d)];
    assert Flatten(a, [], false) == [Arg(d)] by {
      assert ArgItems(a) == [Arg(d)];
    }
  }

  /** Without `typed`, equal arguments of other types share a key once the key is wrapped. */
  lemma UntypedIgnoresTypes<D>(a1: seq<Value<D>>, a2: seq<Value<D>>, kwds: seq<Kwd<D>>)
    requires SameArgs(a1, a2, false)
    requires |a1| != 1 || kwds != []
    ensures KeyOf(a1, kwds, false) == KeyOf(a2, kwds, false)
  {
    KeyRespectsEquality(a1, kwds, a2, kwds, false);
  }
}
