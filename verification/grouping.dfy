/**
 Grouping by an integer key the way prepareScheduleData does it
 (script.php:95-97 and 109-111): `$buckets[key($x)][] = $x` over the input in
 order. PHP arrays keep insertion order, so buckets appear in the order their
 keys first occur, and each bucket keeps its items in input order.
 */
module Grouping {

  /** One bucket of the PHP array: its key and the items appended under it. */
  datatype Group<T> = Group(key: int, items: seq<T>)

  /** The items of xs whose key is k, in input order. */
  function Select<T>(xs: seq<T>, key: T -> int, k: int): (ys: seq<T>)
    ensures |ys| <= |xs|
    decreases |xs|
  {
    if |xs| == 0 then []
    else (if key(xs[0]) == k then [xs[0]] else []) + Select(xs[1..], key, k)
  }

  /** gs has a bucket with key k. */
  predicate HasKey<T>(gs: seq<Group<T>>, k: int)
  {
    exists j :: 0 <= j < |gs| && gs[j].key == k
  }

  /** No two buckets of gs share a key. */
  predicate DistinctKeys<T>(gs: seq<Group<T>>)
  {
    forall a, b :: 0 <= a < b < |gs| ==> gs[a].key != gs[b].key
  }

  /** All items of all buckets, bucket after bucket. */
  function Flatten<T>(gs: seq<Group<T>>): seq<T>
    decreases |gs|
  {
    if |gs| == 0 then [] else gs[0].items + Flatten(gs[1..])
  }

  /** `$buckets[$k][] = $x`: x joins the end of the first bucket with key k,
      or opens a new bucket at the end of the array when k is new. What this
      does to buckets with distinct keys is stated by AppendSpec. */
  function Append<T>(gs: seq<Group<T>>, k: int, x: T): (gs': seq<Group<T>>)
    ensures |gs| <= |gs'| <= |gs| + 1 && |gs'| > 0
    decreases |gs|
  {
    if |gs| == 0 then [Group(k, [x])]
    else if gs[0].key == k then [Group(k, gs[0].items + [x])] + gs[1..]
    else [gs[0]] + Append(gs[1..], k, x)
  }

  /** A key of gs that is not the first bucket's is a key of the rest. */
  lemma HasKeyRest<T>(gs: seq<Group<T>>, k: int)
    requires |gs| > 0 && gs[0].key != k
    ensures HasKey(gs, k) <==> HasKey(gs[1..], k)
  {
    if HasKey(gs, k) {
      var j :| 0 <= j < |gs| && gs[j].key == k;
      assert gs[1..][j - 1].key == k;
    }
    if HasKey(gs[1..], k) {
      var j :| 0 <= j < |gs[1..]| && gs[1..][j].key == k;
      assert gs[j + 1].key == k;
    }
  }

  /** A new key opens a new last bucket. */
  lemma {:induction false} AppendNew<T>(gs: seq<Group<T>>, k: int, x: T)
    requires !HasKey(gs, k)
    ensures Append(gs, k, x) == gs + [Group(k, [x])]
    decreases |gs|
  {
    if |gs| > 0 {
      HasKeyRest(gs, k);
      AppendNew(gs[1..], k, x);
      assert [gs[0]] + (gs[1..] + [Group(k, [x])]) == gs + [Group(k, [x])];
    }
  }

  /** With distinct keys, a present key extends its own bucket and no other. */
  lemma {:induction false} AppendExisting<T>(gs: seq<Group<T>>, k: int, x: T)
    requires DistinctKeys(gs) && HasKey(gs, k)
    ensures |Append(gs, k, x)| == |gs|
    ensures forall j :: 0 <= j < |gs| ==>
      Append(gs, k, x)[j].key == gs[j].key
      && Append(gs, k, x)[j].items == if gs[j].key == k then gs[j].items + [x] else gs[j].items
    decreases |gs|
  {
    var gs' := Append(gs, k, x);
    if gs[0].key != k {
      HasKeyRest(gs, k);
      AppendExisting(gs[1..], k, x);
      assert gs' == [gs[0]] + Append(gs[1..], k, x);
      forall j | 0 <= j < |gs|
        ensures gs'[j].key == gs[j].key
        ensures gs'[j].items == if gs[j].key == k then gs[j].items + [x] else gs[j].items
      {
        if j > 0 {
          assert gs'[j] == Append(gs[1..], k, x)[j - 1];
          assert gs[j] == gs[1..][j - 1];
        }
      }
    } else {
      forall j | 0 < j < |gs|
        ensures gs[j].key != k
      {
        assert gs[0].key != gs[j].key;
      }
    }
  }

  /** On buckets with distinct keys, Append extends the bucket with key k when
      there is one and opens a new last bucket otherwise; keys stay distinct. */
  lemma {:induction false} AppendSpec<T>(gs: seq<Group<T>>, k: int, x: T)
    requires DistinctKeys(gs)
    ensures DistinctKeys(Append(gs, k, x))
    ensures HasKey(gs, k) ==> |Append(gs, k, x)| == |gs|
    ensures HasKey(gs, k) ==> forall j :: 0 <= j < |gs| ==>
      Append(gs, k, x)[j].key == gs[j].key
      && Append(gs, k, x)[j].items == if gs[j].key == k then gs[j].items + [x] else gs[j].items
    ensures !HasKey(gs, k) ==> Append(gs, k, x) == gs + [Group(k, [x])]
  {
    var gs' := Append(gs, k, x);
    if HasKey(gs, k) {
      AppendExisting(gs, k, x);
      assert forall a, b :: 0 <= a < b < |gs'| ==> gs'[a].key != gs'[b].key by {
        forall a, b | 0 <= a < b < |gs'|
          ensures gs'[a].key != gs'[b].key
        {
          assert gs'[a].key == gs[a].key && gs'[b].key == gs[b].key;
        }
      }
    } else {
      AppendNew(gs, k, x);
      forall a, b | 0 <= a < b < |gs'|
        ensures gs'[a].key != gs'[b].key
      {
        if b == |gs| {
          assert gs'[a] == gs[a];
        } else {
          assert gs'[a] == gs[a] && gs'[b] == gs[b];
        }
      }
    }
  }

  /** Selecting from xs + [x] selects from xs, then possibly x. */
  lemma {:induction false} SelectSnoc<T>(xs: seq<T>, x: T, key: T -> int, k: int)
    ensures Select(xs + [x], key, k) == Select(xs, key, k) + (if key(x) == k then [x] else [])
    decreases |xs|
  {
    if |xs| == 0 {
      assert xs + [x] == [x];
    } else {
      var head := if key(xs[0]) == k then [xs[0]] else [];
      assert (xs + [x])[0] == xs[0];
      assert (xs + [x])[1..] == xs[1..] + [x];
      SelectSnoc(xs[1..], x, key, k);
      assert Select(xs + [x], key, k) == head + Select(xs[1..] + [x], key, k);
      assert Select(xs, key, k) == head + Select(xs[1..], key, k);
    }
  }

  /** Nothing is selected when no item has the key. */
  lemma {:induction false} SelectNone<T>(xs: seq<T>, key: T -> int, k: int)
    requires forall y :: y in xs ==> key(y) != k
    ensures Select(xs, key, k) == []
    decreases |xs|
  {
    if |xs| > 0 {
      assert xs[0] in xs;
      SelectNone(xs[1..], key, k);
    }
  }

  /** Every selected item is an item of xs with the key. */
  lemma {:induction false} SelectMember<T>(xs: seq<T>, key: T -> int, k: int, y: T)
    requires y in Select(xs, key, k)
    ensures y in xs && key(y) == k
    decreases |xs|
  {
    if key(xs[0]) != k || y != xs[0] {
      SelectMember(xs[1..], key, k, y);
    }
  }

  /** An item of xs with key k is selected. */
  lemma {:induction false} SelectContains<T>(xs: seq<T>, key: T -> int, k: int, y: T)
    requires y in xs && key(y) == k
    ensures y in Select(xs, key, k)
    decreases |xs|
  {
    if y != xs[0] {
      assert y in xs[1..];
      SelectContains(xs[1..], key, k, y);
    }
  }

  /** Selecting from a concatenation selects from each part. */
  lemma {:induction false} SelectConcat<T>(a: seq<T>, b: seq<T>, key: T -> int, k: int)
    ensures Select(a + b, key, k) == Select(a, key, k) + Select(b, key, k)
    decreases |a|
  {
    if |a| == 0 {
      assert a + b == b;
    } else {
      var head := if key(a[0]) == k then [a[0]] else [];
      assert (a + b)[0] == a[0];
      assert (a + b)[1..] == a[1..] + b;
      SelectConcat(a[1..], b, key, k);
      assert Select(a + b, key, k) == head + Select(a[1..] + b, key, k);
      assert Select(a, key, k) == head + Select(a[1..], key, k);
      ConcatAssoc(head, Select(a[1..], key, k), Select(b, key, k));
    }
  }

  /** Each bucket is non-empty and holds exactly the items of xs with its key. */
  ghost predicate ItemsExact<T>(gs: seq<Group<T>>, xs: seq<T>, key: T -> int)
  {
    forall j :: 0 <= j < |gs| ==> gs[j].items == Select(xs, key, gs[j].key) && |gs[j].items| > 0
  }

  /** The key of every item of xs has a bucket. */
  ghost predicate Covers<T>(gs: seq<Group<T>>, xs: seq<T>, key: T -> int)
  {
    forall y :: y in xs ==> HasKey(gs, key(y))
  }

  /** One iteration of the foreach keeps every key bucketed. */
  lemma StepCovers<T>(init: seq<T>, x: T, key: T -> int, gs: seq<Group<T>>)
    requires DistinctKeys(gs) && Covers(gs, init, key)
    ensures Covers(Append(gs, key(x), x), init + [x], key)
  {
    var gs' := Append(gs, key(x), x);
    AppendSpec(gs, key(x), x);
    forall y | y in init + [x]
      ensures HasKey(gs', key(y))
    {
      if y in init {
        var j :| 0 <= j < |gs| && gs[j].key == key(y);
        assert gs'[j].key == key(y);
      } else if HasKey(gs, key(x)) {
        var j :| 0 <= j < |gs| && gs[j].key == key(x);
        assert gs'[j].key == key(y);
      } else {
        assert gs'[|gs|].key == key(y);
      }
    }
  }

  /** One iteration of the foreach keeps every bucket exact. */
  lemma StepItems<T>(init: seq<T>, x: T, key: T -> int, gs: seq<Group<T>>)
    requires DistinctKeys(gs) && ItemsExact(gs, init, key) && Covers(gs, init, key)
    ensures ItemsExact(Append(gs, key(x), x), init + [x], key)
  {
    var gs' := Append(gs, key(x), x);
    AppendSpec(gs, key(x), x);
    forall j | 0 <= j < |gs'|
      ensures gs'[j].items == Select(init + [x], key, gs'[j].key) && |gs'[j].items| > 0
    {
      SelectSnoc(init, x, key, gs'[j].key);
      if !HasKey(gs, key(x)) && j == |gs| {
        SelectNone(init, key, key(x));
      }
    }
  }

  /**
   The foreach of lines 95-97 (and 109-111), from an empty array. What the
   buckets hold is stated by GroupByBuckets.
   */
  function GroupBy<T>(xs: seq<T>, key: T -> int): (gs: seq<Group<T>>)
    ensures |gs| <= |xs|
    ensures |gs| == 0 <==> |xs| == 0
    decreases |xs|
  {
    if |xs| == 0 then []
    else Append(GroupBy(xs[..|xs| - 1], key), key(xs[|xs| - 1]), xs[|xs| - 1])
  }

  /** Buckets with distinct keys, one per key that occurs, each holding
      exactly the items with its key in input order. */
  lemma {:induction false} GroupByBuckets<T>(xs: seq<T>, key: T -> int)
    ensures DistinctKeys(GroupBy(xs, key))
    ensures forall j :: 0 <= j < |GroupBy(xs, key)| ==>
      GroupBy(xs, key)[j].items == Select(xs, key, GroupBy(xs, key)[j].key) && |GroupBy(xs, key)[j].items| > 0
    ensures forall y :: y in xs ==> HasKey(GroupBy(xs, key), key(y))
    decreases |xs|
  {
    if |xs| > 0 {
      var init := xs[..|xs| - 1];
      var x := xs[|xs| - 1];
      assert xs == init + [x];
      GroupByBuckets(init, key);
      AppendSpec(GroupBy(init, key), key(x), x);
      StepCovers(init, x, key, GroupBy(init, key));
      StepItems(init, x, key, GroupBy(init, key));
    }
  }

  /** Position of the first item of xs with key k, or |xs| when there is none. */
  function FirstIndex<T>(xs: seq<T>, key: T -> int, k: int): (i: nat)
    ensures i <= |xs|
    ensures i < |xs| ==> key(xs[i]) == k
    ensures forall j :: 0 <= j < i ==> key(xs[j]) != k
    decreases |xs|
  {
    if |xs| == 0 then 0
    else if key(xs[0]) == k then 0
    else 1 + FirstIndex(xs[1..], key, k)
  }

  /** An occurring key is found before the end. */
  lemma FirstIndexFound<T>(xs: seq<T>, key: T -> int, y: T)
    requires y in xs
    ensures FirstIndex(xs, key, key(y)) < |xs|
  {
    var j :| 0 <= j < |xs| && xs[j] == y;
  }

  /** Appending an item does not move the first occurrence of a key that
      already occurs. */
  lemma {:induction false} FirstIndexSnoc<T>(xs: seq<T>, x: T, key: T -> int, k: int)
    requires FirstIndex(xs, key, k) < |xs|
    ensures FirstIndex(xs + [x], key, k) == FirstIndex(xs, key, k)
    decreases |xs|
  {
    if key(xs[0]) != k {
      assert (xs + [x])[1..] == xs[1..] + [x];
      FirstIndexSnoc(xs[1..], x, key, k);
    }
  }

  /** A key that does not occur in xs but is the key of x is first found at |xs|. */
  lemma {:induction false} FirstIndexNew<T>(xs: seq<T>, x: T, key: T -> int)
    requires FirstIndex(xs, key, key(x)) == |xs|
    ensures FirstIndex(xs + [x], key, key(x)) == |xs|
    decreases |xs|
  {
    if |xs| == 0 {
      assert xs + [x] == [x];
    } else {
      assert (xs + [x])[1..] == xs[1..] + [x];
      FirstIndexNew(xs[1..], x, key);
    }
  }

  /** Buckets appear in the order in which their keys first occur in the input. */
  lemma {:induction false} GroupOrder<T>(xs: seq<T>, key: T -> int)
    ensures forall a, b :: 0 <= a < b < |GroupBy(xs, key)| ==>
      FirstIndex(xs, key, GroupBy(xs, key)[a].key) < FirstIndex(xs, key, GroupBy(xs, key)[b].key)
    decreases |xs|
  {
    if |xs| > 0 {
      var init := xs[..|xs| - 1];
      var x := xs[|xs| - 1];
      assert xs == init + [x];
      GroupOrder(init, key);
      GroupOrderStep(init, x, key);
    }
  }

  /** The keys already bucketed occur in init, and appending x does not
      move their first occurrence. */
  lemma BucketedKeysStay<T>(init: seq<T>, x: T, key: T -> int)
    ensures forall j :: 0 <= j < |GroupBy(init, key)| ==>
      && FirstIndex(init, key, GroupBy(init, key)[j].key) < |init|
      && FirstIndex(init + [x], key, GroupBy(init, key)[j].key) == FirstIndex(init, key, GroupBy(init, key)[j].key)
  {
    var gs := GroupBy(init, key);
    GroupByBuckets(init, key);
    forall j | 0 <= j < |gs|
      ensures FirstIndex(init, key, gs[j].key) < |init|
      ensures FirstIndex(init + [x], key, gs[j].key) == FirstIndex(init, key, gs[j].key)
    {
      var y := gs[j].items[0];
      SelectMember(init, key, gs[j].key, y);
      FirstIndexFound(init, key, y);
      FirstIndexSnoc(init, x, key, gs[j].key);
    }
  }

  /** One iteration of the foreach keeps the buckets in first-occurrence order. */
  lemma GroupOrderStep<T>(init: seq<T>, x: T, key: T -> int)
    requires forall a, b :: 0 <= a < b < |GroupBy(init, key)| ==>
      FirstIndex(init, key, GroupBy(init, key)[a].key) < FirstIndex(init, key, GroupBy(init, key)[b].key)
    ensures forall a, b :: 0 <= a < b < |GroupBy(init + [x], key)| ==>
      FirstIndex(init + [x], key, GroupBy(init + [x], key)[a].key)
        < FirstIndex(init + [x], key, GroupBy(init + [x], key)[b].key)
  {
    var xs := init + [x];
    assert xs[..|xs| - 1] == init && xs[|xs| - 1] == x;
    var gs := GroupBy(init, key);
    var gs' := GroupBy(xs, key);
    assert gs' == Append(gs, key(x), x);
    GroupByBuckets(init, key);
    BucketedKeysStay(init, x, key);
    AppendSpec(gs, key(x), x);
    if HasKey(gs, key(x)) {
      forall a, b | 0 <= a < b < |gs'|
        ensures FirstIndex(xs, key, gs'[a].key) < FirstIndex(xs, key, gs'[b].key)
      {
        assert gs'[a].key == gs[a].key && gs'[b].key == gs[b].key;
      }
    } else {
      FirstIndexNew(init, x, key);
      forall a, b | 0 <= a < b < |gs'|
        ensures FirstIndex(xs, key, gs'[a].key) < FirstIndex(xs, key, gs'[b].key)
      {
        assert gs'[a] == gs[a];
        if b < |gs| {
          assert gs'[b] == gs[b];
        }
      }
    }
  }

  /** Keys of xs never decrease from one item to a later one. */
  predicate KeySorted<T>(xs: seq<T>, key: T -> int)
  {
    forall i, j :: 0 <= i < j < |xs| ==> key(xs[i]) <= key(xs[j])
  }

  /** Flattening after appending one bucket. */
  lemma {:induction false} FlattenSnoc<T>(gs: seq<Group<T>>, g: Group<T>)
    ensures Flatten(gs + [g]) == Flatten(gs) + g.items
    decreases |gs|
  {
    if |gs| == 0 {
      assert gs + [g] == [g];
    } else {
      assert (gs + [g])[1..] == gs[1..] + [g];
      FlattenSnoc(gs[1..], g);
    }
  }

  /** For input already ordered by key, the buckets come in increasing key order. */
  lemma SortedKeysIncrease<T>(xs: seq<T>, key: T -> int)
    requires KeySorted(xs, key)
    ensures KeysIncrease(GroupBy(xs, key))
  {
    var gs := GroupBy(xs, key);
    GroupByBuckets(xs, key);
    GroupOrder(xs, key);
    forall a, b | 0 <= a < b < |gs|
      ensures gs[a].key < gs[b].key
    {
      var y := gs[b].items[0];
      SelectMember(xs, key, gs[b].key, y);
      FirstIndexFound(xs, key, y);
    }
  }

  /** A prefix of a key-sorted sequence is key-sorted. */
  lemma SortedPrefix<T>(xs: seq<T>, key: T -> int, n: nat)
    requires KeySorted(xs, key) && n <= |xs|
    ensures KeySorted(xs[..n], key)
  {
  }

  /** Buckets whose keys strictly increase. */
  predicate KeysIncrease<T>(gs: seq<Group<T>>)
  {
    forall a, b :: 0 <= a < b < |gs| ==> gs[a].key < gs[b].key
  }

  /** With increasing keys, a key that is present and not below the last
      bucket's key is the last bucket's key. */
  lemma LastBucket<T>(gs: seq<Group<T>>, k: int)
    requires KeysIncrease(gs) && HasKey(gs, k)
    requires gs[|gs| - 1].key <= k
    ensures gs[|gs| - 1].key == k
  {
    var j :| 0 <= j < |gs| && gs[j].key == k;
    assert !(j < |gs| - 1);
  }

  /** In a key-sorted sequence no item has a larger key than the last one. */
  lemma SortedLast<T>(xs: seq<T>, key: T -> int, y: T)
    requires KeySorted(xs, key) && y in xs
    ensures key(y) <= key(xs[|xs| - 1])
  {
    var i :| 0 <= i < |xs| && xs[i] == y;
    if i < |xs| - 1 {
      assert key(xs[i]) <= key(xs[|xs| - 1]);
    }
  }

  /** Appending under the key of the last bucket extends that bucket. */
  lemma AppendLast<T>(gs: seq<Group<T>>, k: int, x: T)
    requires DistinctKeys(gs) && |gs| > 0 && gs[|gs| - 1].key == k
    ensures Append(gs, k, x) == gs[..|gs| - 1] + [Group(k, gs[|gs| - 1].items + [x])]
  {
    var last := |gs| - 1;
    assert HasKey(gs, k);
    var gs' := Append(gs, k, x);
    AppendSpec(gs, k, x);
    var want := gs[..last] + [Group(k, gs[last].items + [x])];
    assert |gs'| == |want|;
    forall j | 0 <= j < |gs'|
      ensures gs'[j] == want[j]
    {
      if j < last {
        assert gs[j].key != k;
        assert want[j] == gs[j];
      } else {
        assert want[j] == Group(k, gs[last].items + [x]);
      }
    }
  }

  /** Concatenation is associative. */
  lemma ConcatAssoc<T>(a: seq<T>, b: seq<T>, c: seq<T>)
    ensures a + (b + c) == (a + b) + c
  {
  }

  /** Concatenating rearrangements gives a rearrangement. */
  lemma MultisetJoin<T>(a: seq<T>, b: seq<T>, c: seq<T>, d: seq<T>)
    requires multiset(a) == multiset(c) && multiset(b) == multiset(d)
    ensures multiset(a + b) == multiset(c + d)
  {
  }

  /** Flattening a non-empty list splits off its last bucket. */
  lemma FlattenLast<T>(gs: seq<Group<T>>)
    requires |gs| > 0
    ensures Flatten(gs) == Flatten(gs[..|gs| - 1]) + gs[|gs| - 1].items
  {
    var init, last := gs[..|gs| - 1], gs[|gs| - 1];
    assert gs == init + [last] by {
      assert |gs| == |init + [last]|;
      forall j | 0 <= j < |gs| ensures gs[j] == (init + [last])[j] {}
    }
    FlattenSnoc(init, last);
  }

  /** For key-sorted input, reading the buckets one after another gives back the input. */
  lemma {:induction false} SortedFlatten<T>(xs: seq<T>, key: T -> int)
    requires KeySorted(xs, key)
    ensures Flatten(GroupBy(xs, key)) == xs
    decreases |xs|
  {
    if |xs| > 0 {
      var init := xs[..|xs| - 1];
      var x := xs[|xs| - 1];
      assert xs == init + [x];
      SortedPrefix(xs, key, |xs| - 1);
      SortedFlatten(init, key);
      var gs := GroupBy(init, key);
      var gs' := GroupBy(xs, key);
      GroupByBuckets(init, key);
      assert gs' == Append(gs, key(x), x);
      if HasKey(gs, key(x)) {
        var last := |gs| - 1;
        var y := gs[last].items[0];
        SelectMember(init, key, gs[last].key, y);
        assert y in xs;
        SortedLast(xs, key, y);
        SortedKeysIncrease(init, key);
        LastBucket(gs, key(x));
        AppendLast(gs, key(x), x);
        FlattenLast(gs);
        FlattenSnoc(gs[..last], Group(key(x), gs[last].items + [x]));
        ConcatAssoc(Flatten(gs[..last]), gs[last].items, [x]);
      } else {
        AppendSpec(gs, key(x), x);
        FlattenSnoc(gs, Group(key(x), [x]));
        assert Flatten(gs') == Flatten(gs) + [x];
      }
    }
  }

  /** Appending an item adds exactly that item to the flattened buckets. */
  lemma {:induction false} AppendMultiset<T>(gs: seq<Group<T>>, k: int, x: T)
    ensures multiset(Flatten(Append(gs, k, x))) == multiset(Flatten(gs)) + multiset{x}
    decreases |gs|
  {
    if |gs| > 0 && gs[0].key != k {
      AppendMultiset(gs[1..], k, x);
      assert Append(gs, k, x)[1..] == Append(gs[1..], k, x);
    } else if |gs| > 0 {
      assert Append(gs, k, x)[1..] == gs[1..];
    }
  }

  /** Grouping only rearranges: the buckets hold every item exactly as often
      as the input does. */
  lemma {:induction false} GroupByPermutes<T>(xs: seq<T>, key: T -> int)
    ensures multiset(Flatten(GroupBy(xs, key))) == multiset(xs)
    decreases |xs|
  {
    if |xs| > 0 {
      var init := xs[..|xs| - 1];
      var x := xs[|xs| - 1];
      assert xs == init + [x];
      GroupByPermutes(init, key);
      AppendMultiset(GroupBy(init, key), key(x), x);
    }
  }

  /** Strictly increasing keys that stay within lo .. hi and include every
      key of that range are exactly lo, lo + 1, ..., one bucket each. */
  lemma {:induction false} KeyAt<T>(gs: seq<Group<T>>, lo: int, hi: int, j: nat)
    requires KeysIncrease(gs)
    requires forall i :: 0 <= i < |gs| ==> lo <= gs[i].key <= hi
    requires forall k :: lo <= k <= hi ==> HasKey(gs, k)
    requires j < |gs|
    ensures gs[j].key == lo + j
    decreases j
  {
    if j > 0 {
      KeyAt(gs, lo, hi, j - 1);
    }
    // gs[j].key >= lo + j, so key lo + j is in range and sits at some index
    // i; increasing keys force i >= j and hence gs[j].key <= lo + j
    assert lo + j <= gs[j].key;
    assert HasKey(gs, lo + j);
    var i :| 0 <= i < |gs| && gs[i].key == lo + j;
    assert !(i < j);
  }

  /** The buckets of a key range lo .. hi, each key once and in order. */
  lemma KeysRun<T>(gs: seq<Group<T>>, lo: int, hi: int)
    requires lo <= hi
    requires KeysIncrease(gs)
    requires forall i :: 0 <= i < |gs| ==> lo <= gs[i].key <= hi
    requires forall k :: lo <= k <= hi ==> HasKey(gs, k)
    ensures |gs| == hi - lo + 1
    ensures forall j :: 0 <= j < |gs| ==> gs[j].key == lo + j
  {
    forall j | 0 <= j < |gs|
      ensures gs[j].key == lo + j
    {
      KeyAt(gs, lo, hi, j);
    }
    assert HasKey(gs, hi);
    var i :| 0 <= i < |gs| && gs[i].key == hi;
    assert gs[|gs| - 1].key <= hi;
  }

  /** Some item of xs has key k. */
  predicate Hits<T(==)>(xs: seq<T>, key: T -> int, k: int)
  {
    exists y :: y in xs && key(y) == k
  }

  /** Grouping a key-sorted sequence whose keys are exactly lo .. hi gives
      one bucket per key, in order: bucket j has key lo + j and holds the
      items with that key. */
  lemma SortedKeyRange<T>(xs: seq<T>, key: T -> int, lo: int, hi: int)
    requires lo <= hi && KeySorted(xs, key)
    requires forall y :: y in xs ==> lo <= key(y) <= hi
    requires forall k :: lo <= k <= hi ==> Hits(xs, key, k)
    ensures |GroupBy(xs, key)| == hi - lo + 1
    ensures forall j :: 0 <= j < |GroupBy(xs, key)| ==>
      GroupBy(xs, key)[j].key == lo + j && GroupBy(xs, key)[j].items == Select(xs, key, lo + j)
  {
    var gs := GroupBy(xs, key);
    GroupByBuckets(xs, key);
    SortedKeysIncrease(xs, key);
    forall j | 0 <= j < |gs|
      ensures lo <= gs[j].key <= hi
    {
      SelectMember(xs, key, gs[j].key, gs[j].items[0]);
    }
    forall k | lo <= k <= hi
      ensures HasKey(gs, k)
    {
      assert Hits(xs, key, k);
      var y :| y in xs && key(y) == k;
      assert HasKey(gs, key(y));
    }
    KeysRun(gs, lo, hi);
    forall j | 0 <= j < |gs|
      ensures gs[j].items == Select(xs, key, lo + j)
    {
      assert gs[j].key == lo + j;
    }
  }
}
