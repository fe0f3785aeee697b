/** Grouping a list by a key and cutting a list into bounded slices, for any
    element and key types. The bot groups file names by `Bot.BaseName` and
    cuts each group into messages of ten; stating the theory once for an
    arbitrary key function keeps the proofs free of string reasoning. */
module Grouping {
  import opened Lists

  // ---------------------------------------------------------------------------
  // Grouping by key

  /** A list is its prefix without the last element, followed by that element. */
  lemma InitLast<T>(xs: seq<T>)
    requires xs != []
    ensures xs == xs[..|xs| - 1] + [xs[|xs| - 1]]
  {
  }

  /** The prefix one longer is the prefix followed by the next element. */
  lemma TakeOneMore<T>(xs: seq<T>, i: nat)
    requires i < |xs|
    ensures xs[..i + 1] == xs[..i] + [xs[i]]
  {
  }

  /** The keys of `xs`, each once, in the order in which the first element
      of each key appears. */
  function KeyOrder<T, K(==)>(xs: seq<T>, key: T -> K): (keys: seq<K>)
    ensures forall i :: 0 <= i < |xs| ==> key(xs[i]) in keys
    ensures forall k :: k in keys ==> exists i :: 0 <= i < |xs| && key(xs[i]) == k
    ensures forall p, q :: 0 <= p < q < |keys| ==> keys[p] != keys[q]
  {
    if xs == [] then []
    else
      var init := xs[..|xs| - 1];
      var keys := KeyOrder(init, key);
      var k := key(xs[|xs| - 1]);
      assert forall i :: 0 <= i < |init| ==> xs[i] == init[i];
      if k in keys then keys else keys + [k]
  }

  lemma KeyOrderSnoc<T, K>(xs: seq<T>, key: T -> K, x: T)
    ensures KeyOrder(xs + [x], key) ==
      if key(x) in KeyOrder(xs, key) then KeyOrder(xs, key) else KeyOrder(xs, key) + [key(x)]
  {
    assert (xs + [x])[..|xs|] == xs;
  }

  /** In a list without repeats, no entry occurs before its own position. */
  lemma NotBefore<K>(keys: seq<K>, j: nat)
    requires forall p, q :: 0 <= p < q < |keys| ==> keys[p] != keys[q]
    requires j < |keys|
    ensures keys[j] !in keys[..j]
  {
    assert forall p :: 0 <= p < j ==> keys[..j][p] == keys[p];
  }

  /** The elements of `xs` whose key is `k`, in the order of `xs`. Built from
      the end, as the dictionary loop appends each element to its list;
      `MembersIsFilter` shows it is the filter of `xs` by the key. */
  function Members<T(==), K(==)>(xs: seq<T>, key: T -> K, k: K): (r: seq<T>)
    ensures forall x :: x in r ==> key(x) == k
  {
    if xs == [] then []
    else Members(xs[..|xs| - 1], key, k) + (if key(xs[|xs| - 1]) == k then [xs[|xs| - 1]] else [])
  }

  lemma MembersSnoc<T, K>(xs: seq<T>, key: T -> K, k: K, x: T)
    ensures Members(xs + [x], key, k) == Members(xs, key, k) + (if key(x) == k then [x] else [])
  {
    assert (xs + [x])[..|xs|] == xs;
  }

  /** The group of `k` is `xs` filtered by the test `key(x) == k`. */
  lemma {:induction false} MembersIsFilter<T, K>(xs: seq<T>, key: T -> K, k: K, keep: T -> bool)
    requires forall x :: keep(x) <==> key(x) == k
    ensures Members(xs, key, k) == Filter(xs, keep)
  {
    if xs != [] {
      var init, last := xs[..|xs| - 1], xs[|xs| - 1];
      InitLast(xs);
      MembersIsFilter(init, key, k, keep);
      MembersSnoc(init, key, k, last);
      FilterAppend(init, [last], keep);
      assert [last][1..] == [];
    }
  }

  /** The group of `k` holds every element with key `k`, as often as the input
      does, and nothing else. */
  lemma {:induction false} MembersCount<T(!new), K>(xs: seq<T>, key: T -> K, k: K)
    ensures forall x :: multiset(Members(xs, key, k))[x] == if key(x) == k then multiset(xs)[x] else 0
  {
    if xs != [] {
      var init, last := xs[..|xs| - 1], xs[|xs| - 1];
      InitLast(xs);
      MembersCount(init, key, k);
      MembersSnoc(init, key, k, last);
    }
  }

  lemma {:induction false} MembersOfAbsentKey<T, K>(xs: seq<T>, key: T -> K, k: K)
    requires forall i :: 0 <= i < |xs| ==> key(xs[i]) != k
    ensures Members(xs, key, k) == []
  {
    if xs != [] {
      var init := xs[..|xs| - 1];
      assert forall i :: 0 <= i < |init| ==> init[i] == xs[i];
      MembersOfAbsentKey(init, key, k);
    }
  }

  /** `order` and `table` are what one pass over `xs` has built: the keys in
      first-seen order, and each of them mapped to its group. */
  ghost predicate IsGroupTable<T, K(!new)>(xs: seq<T>, key: T -> K, order: seq<K>, table: map<K, seq<T>>) {
    && order == KeyOrder(xs, key)
    && (forall k :: k in table <==> k in order)
    && (forall k :: k in table ==> table[k] == Members(xs, key, k))
  }

  /** One pass over `xs` with a dictionary from key to list: the first time a
      key is met it gets an empty list (and its place in the dictionary's
      order), and every element is appended to the list of its key. */
  method GroupByKey<T, K(==, !new)>(xs: seq<T>, key: T -> K) returns (order: seq<K>, table: map<K, seq<T>>)
    ensures IsGroupTable(xs, key, order, table)
  {
    order := [];
    table := map[];
    for i := 0 to |xs|
      invariant IsGroupTable(xs[..i], key, order, table)
    {
      var x := xs[i];
      var k := key(x);
      TakeOneMore(xs, i);
      if k in table {
        GroupTableStepKnown(xs[..i], key, order, table, x, k);
        table := table[k := table[k] + [x]];
      } else {
        GroupTableStepNew(xs[..i], key, order, table, x, k);
        order := order + [k];
        table := table[k := [x]];
      }
    }
    assert xs[..|xs|] == xs;
  }

  /** Adding `x`, whose key `k` is already known: `x` is appended to the list of `k`. */
  lemma GroupTableStepKnown<T, K(!new)>(xs: seq<T>, key: T -> K, order: seq<K>, table: map<K, seq<T>>, x: T, k: K)
    requires IsGroupTable(xs, key, order, table)
    requires k == key(x) && k in table
    ensures IsGroupTable(xs + [x], key, order, table[k := table[k] + [x]])
  {
    KeyOrderSnoc(xs, key, x);
    var table' := table[k := table[k] + [x]];
    forall k' | k' in table' ensures table'[k'] == Members(xs + [x], key, k') {
      MembersSnoc(xs, key, k', x);
    }
  }

  /** Adding `x`, whose key `k` is new: `k` goes to the end of the order with
      the list `[x]`. */
  lemma GroupTableStepNew<T, K(!new)>(xs: seq<T>, key: T -> K, order: seq<K>, table: map<K, seq<T>>, x: T, k: K)
    requires IsGroupTable(xs, key, order, table)
    requires k == key(x) && k !in table
    ensures IsGroupTable(xs + [x], key, order + [k], table[k := [x]])
  {
    KeyOrderSnoc(xs, key, x);
    NewKeyHasNoMembers(xs, key, table, k);
    var table' := table[k := [x]];
    forall k' | k' in table' ensures table'[k'] == Members(xs + [x], key, k') {
      MembersSnoc(xs, key, k', x);
    }
  }

  /** When every element has key `k`, the group of `k` is the whole list. */
  lemma {:induction false} MembersOfOnlyKey<T, K>(xs: seq<T>, key: T -> K, k: K)
    requires forall i :: 0 <= i < |xs| ==> key(xs[i]) == k
    ensures Members(xs, key, k) == xs
  {
    if xs != [] {
      var init, last := xs[..|xs| - 1], xs[|xs| - 1];
      assert forall i :: 0 <= i < |init| ==> init[i] == xs[i];
      MembersOfOnlyKey(init, key, k);
      InitLast(xs);
      MembersSnoc(init, key, k, last);
    }
  }

  /** When every element of a non-empty list has key `k`, `k` is the only key. */
  lemma OnlyKey<T, K>(xs: seq<T>, key: T -> K, k: K)
    requires xs != []
    requires forall i :: 0 <= i < |xs| ==> key(xs[i]) == k
    ensures KeyOrder(xs, key) == [k]
  {
    var keys := KeyOrder(xs, key);
    assert key(xs[0]) in keys;
    forall p | 0 <= p < |keys| ensures keys[p] == k {
      assert keys[p] in keys;
      var i :| 0 <= i < |xs| && key(xs[i]) == keys[p];
    }
    assert keys[0] == keys[|keys| - 1];
    assert |keys| == 1;
  }

  /** A key the dictionary does not hold yet has met no element so far. */
  lemma NewKeyHasNoMembers<T, K>(xs: seq<T>, key: T -> K, table: map<K, seq<T>>, k: K)
    requires forall k :: k in table <==> k in KeyOrder(xs, key)
    requires k !in table
    ensures Members(xs, key, k) == []
  {
    var keys := KeyOrder(xs, key);
    forall i | 0 <= i < |xs| ensures key(xs[i]) != k {
      assert key(xs[i]) in keys;
    }
    MembersOfAbsentKey(xs, key, k);
  }

  /** A list holding the same elements as the group of `k` holds, in any
      stretch of it, only elements with key `k`. */
  lemma SliceOfGroupHasKey<T, K>(g: seq<T>, xs: seq<T>, key: T -> K, k: K, i: nat, j: nat)
    requires multiset(g) == multiset(Members(xs, key, k))
    requires i <= j <= |g|
    ensures forall x :: x in g[i..j] ==> key(x) == k
  {
    forall x | x in g[i..j] ensures key(x) == k {
      assert x in multiset(Members(xs, key, k));
    }
  }

  /** The multiset union of the groups of the keys in `keys`. */
  function GroupedElements<T(==), K(==)>(keys: seq<K>, xs: seq<T>, key: T -> K): multiset<T> {
    if keys == [] then multiset{}
    else GroupedElements(keys[..|keys| - 1], xs, key) + multiset(Members(xs, key, keys[|keys| - 1]))
  }

  lemma GroupedElementsSnoc<T, K>(keys: seq<K>, k: K, xs: seq<T>, key: T -> K)
    ensures GroupedElements(keys + [k], xs, key) ==
      GroupedElements(keys, xs, key) + multiset(Members(xs, key, k))
  {
    assert (keys + [k])[..|keys|] == keys;
  }

  /** Adding one element to the input adds it to the union of a list of
      distinct keys exactly when its own key is one of them. */
  lemma {:induction false} GroupedElementsStep<T(!new), K>(keys: seq<K>, xs: seq<T>, key: T -> K, x: T)
    requires forall p, q :: 0 <= p < q < |keys| ==> keys[p] != keys[q]
    ensures key(x) in keys ==>
      GroupedElements(keys, xs + [x], key) == GroupedElements(keys, xs, key) + multiset{x}
    ensures key(x) !in keys ==>
      GroupedElements(keys, xs + [x], key) == GroupedElements(keys, xs, key)
  {
    if keys != [] {
      var init, last := keys[..|keys| - 1], keys[|keys| - 1];
      InitLast(keys);
      assert last !in init && forall p, q :: 0 <= p < q < |init| ==> init[p] != init[q] by {
        assert forall p :: 0 <= p < |init| ==> init[p] == keys[p];
      }
      GroupedElementsStep(init, xs, key, x);
      MembersSnoc(xs, key, last, x);
      GroupedElementsSnoc(init, last, xs, key);
      GroupedElementsSnoc(init, last, xs + [x], key);
      AddOneToGroup(GroupedElements(init, xs, key), multiset(Members(xs, key, last)),
        GroupedElements(init, xs + [x], key), multiset(Members(xs + [x], key, last)), x,
        key(x) in init, key(x) == last);
    }
  }

  /** The multiset bookkeeping of one step: `x` goes to the earlier groups,
      to the last one, or (when neither holds its key) nowhere. */
  lemma AddOneToGroup<T>(before: multiset<T>, group: multiset<T>, before': multiset<T>, group': multiset<T>,
                         x: T, inBefore: bool, inGroup: bool)
    requires !(inBefore && inGroup)
    requires before' == if inBefore then before + multiset{x} else before
    requires group' == if inGroup then group + multiset{x} else group
    ensures inBefore || inGroup ==> before' + group' == (before + group) + multiset{x}
    ensures !inBefore && !inGroup ==> before' + group' == before + group
  {
  }

  /** No element is added or lost: the groups together hold exactly the input. */
  lemma {:induction false} GroupsPartition<T(!new), K>(xs: seq<T>, key: T -> K)
    ensures GroupedElements(KeyOrder(xs, key), xs, key) == multiset(xs)
  {
    if xs != [] {
      var init, x := xs[..|xs| - 1], xs[|xs| - 1];
      InitLast(xs);
      var keys := KeyOrder(init, key);
      GroupsPartition(init, key);
      GroupedElementsStep(keys, init, key, x);
      KeyOrderSnoc(init, key, x);
      assert multiset(init + [x]) == multiset(init) + multiset{x};
      var k := key(x);
      if k !in keys {
        GroupedElementsSnoc(keys, k, init + [x], key);
        FirstOfNewKey(init, key, x, k);
      }
    }
  }

  /** The first element with a new key is the only member of its group so far. */
  lemma FirstOfNewKey<T, K>(xs: seq<T>, key: T -> K, x: T, k: K)
    requires k == key(x) && k !in KeyOrder(xs, key)
    ensures Members(xs + [x], key, k) == [x]
  {
    var keys := KeyOrder(xs, key);
    forall i | 0 <= i < |xs| ensures key(xs[i]) != k {
      assert key(xs[i]) in keys;
    }
    MembersOfAbsentKey(xs, key, k);
    MembersSnoc(xs, key, k, x);
  }

  /** Keys come in first-seen order: an element with the earlier key appears
      before any element with the later one. */
  lemma {:induction false} KeysInFirstSeenOrder<T, K>(xs: seq<T>, key: T -> K, p: nat, q: nat)
    requires p < q < |KeyOrder(xs, key)|
    ensures exists i ::
      && 0 <= i < |xs|
      && key(xs[i]) == KeyOrder(xs, key)[p]
      && (forall j :: 0 <= j <= i ==> key(xs[j]) != KeyOrder(xs, key)[q])
  {
    var init, x := xs[..|xs| - 1], xs[|xs| - 1];
    InitLast(xs);
    var keys := KeyOrder(init, key);
    KeyOrderSnoc(init, key, x);
    var all := KeyOrder(xs, key);
    if q < |keys| {
      assert all[p] == keys[p] && all[q] == keys[q];
      KeysInFirstSeenOrder(init, key, p, q);
      var i :| 0 <= i < |init| && key(init[i]) == keys[p] &&
        forall j :: 0 <= j <= i ==> key(init[j]) != keys[q];
      assert forall j :: 0 <= j <= i ==> xs[j] == init[j];
      assert key(xs[i]) == all[p] && forall j :: 0 <= j <= i ==> key(xs[j]) != all[q];
    } else {
      var kx := key(x);
      assert all[q] == kx && kx !in keys && all[p] == keys[p];
      assert keys[p] in keys;
      var i :| 0 <= i < |init| && key(init[i]) == keys[p];
      FirstSeenBefore(init, key, kx, i);
      assert forall j :: 0 <= j <= i ==> xs[j] == init[j];
      assert key(xs[i]) == all[p] && forall j :: 0 <= j <= i ==> key(xs[j]) != all[q];
    }
  }

  /** A key not among the keys of `xs` belongs to none of its elements. */
  lemma FirstSeenBefore<T, K>(xs: seq<T>, key: T -> K, k: K, i: nat)
    requires k !in KeyOrder(xs, key) && i < |xs|
    ensures forall j :: 0 <= j <= i ==> key(xs[j]) != k
  {
    var keys := KeyOrder(xs, key);
    forall j | 0 <= j <= i ensures key(xs[j]) != k {
      assert key(xs[j]) in keys;
    }
  }

  // ---------------------------------------------------------------------------
  // Cutting into slices

  function Min(a: int, b: int): int {
    if a <= b then a else b
  }

  /** `xs` cut into consecutive slices of `size`, the last one possibly shorter. */
  function Chunks<T>(xs: seq<T>, size: nat): seq<seq<T>>
    requires size > 0
    decreases |xs|
  {
    if xs == [] then []
    else if |xs| <= size then [xs]
    else [xs[..size]] + Chunks(xs[size..], size)
  }

  /** The slices of `xss` laid end to end. */
  function Flatten<T>(xss: seq<seq<T>>): seq<T> {
    if xss == [] then [] else xss[0] + Flatten(xss[1..])
  }

  lemma {:induction false} FlattenAppend<T>(a: seq<seq<T>>, b: seq<seq<T>>)
    ensures Flatten(a + b) == Flatten(a) + Flatten(b)
  {
    if a != [] {
      assert (a + b)[0] == a[0] && (a + b)[1..] == a[1..] + b;
      FlattenAppend(a[1..], b);
    } else {
      assert a + b == b;
    }
  }

  /** Laying the slices end to end gives back the list, in order. */
  lemma {:induction false} ChunksCover<T>(xs: seq<T>, size: nat)
    requires size > 0
    ensures Flatten(Chunks(xs, size)) == xs
    decreases |xs|
  {
    if |xs| > size {
      ChunksCover(xs[size..], size);
      assert xs == xs[..size] + xs[size..];
    } else if xs != [] {
      assert Flatten(Chunks(xs, size)) == xs + Flatten([]);
    }
  }

  /** `ceil(n / size)` slices; all but the last hold exactly `size`, the last
      one to `size`. */
  lemma {:induction false} ChunksSizes<T>(xs: seq<T>, size: nat)
    requires size > 0
    ensures (|Chunks(xs, size)| - 1) * size < |xs| <= |Chunks(xs, size)| * size
    ensures forall p :: 0 <= p < |Chunks(xs, size)| ==> 1 <= |Chunks(xs, size)[p]| <= size
    ensures forall p :: 0 <= p < |Chunks(xs, size)| - 1 ==> |Chunks(xs, size)[p]| == size
    decreases |xs|
  {
    if |xs| > size {
      var rest := Chunks(xs[size..], size);
      ChunksSizes(xs[size..], size);
      var r := Chunks(xs, size);
      assert r == [xs[..size]] + rest;
      assert forall p :: 1 <= p < |r| ==> r[p] == rest[p - 1];
      assert |r| * size == |rest| * size + size;
    }
  }

  /** One step of a loop over `range(0, len(xs), size)`: the slice `i:i+size`
      and what remains after it. */
  lemma ChunksFrom<T>(xs: seq<T>, size: nat, i: nat)
    requires size > 0 && i < |xs|
    ensures Chunks(xs[i..], size) ==
      [xs[i..Min(i + size, |xs|)]] + Chunks(xs[Min(i + size, |xs|)..], size)
  {
    var rest := xs[i..];
    if |rest| > size {
      assert rest[..size] == xs[i..i + size];
      assert rest[size..] == xs[i + size..];
    } else {
      assert xs[i..|xs|] == rest;
      assert xs[|xs|..] == [];
    }
  }

  /** A slice of what remains after dropping `d` elements is a slice of the list. */
  lemma SliceOfDrop<T>(xs: seq<T>, d: nat, i: nat, j: nat)
    requires d <= |xs| && i <= j <= |xs| - d
    ensures xs[d..][i..j] == xs[d + i..d + j]
  {
  }

  /** A slice holds only elements of the list it was cut from, in the list's order. */
  lemma {:induction false} ChunksAreSlices<T>(xs: seq<T>, size: nat)
    requires size > 0
    ensures forall c :: c in Chunks(xs, size) ==>
      exists i, j :: 0 <= i <= j <= |xs| && c == xs[i..j]
    decreases |xs|
  {
    if |xs| > size {
      var rest := xs[size..];
      ChunksAreSlices(rest, size);
      forall c | c in Chunks(xs, size) ensures exists i, j :: 0 <= i <= j <= |xs| && c == xs[i..j] {
        if c == xs[..size] {
          assert c == xs[0..size];
        } else {
          assert c in Chunks(rest, size);
          var i, j :| 0 <= i <= j <= |rest| && c == rest[i..j];
          SliceOfDrop(xs, size, i, j);
        }
      }
    } else if xs != [] {
      assert xs == xs[0..|xs|];
    }
  }

  // ---------------------------------------------------------------------------
  // Cutting every group into slices

  /** The slices of the groups of `keys`, group after group in the order of `keys`. */
  function ChunksOfGroups<T, K>(keys: seq<K>, groups: map<K, seq<T>>, size: nat): seq<seq<T>>
    requires size > 0
    requires forall k :: k in keys ==> k in groups
  {
    if keys == [] then []
    else ChunksOfGroups(keys[..|keys| - 1], groups, size) + Chunks(groups[keys[|keys| - 1]], size)
  }

  /** The multiset union of the groups of `keys`. */
  function SumOfGroups<T, K>(keys: seq<K>, groups: map<K, seq<T>>): multiset<T>
    requires forall k :: k in keys ==> k in groups
  {
    if keys == [] then multiset{}
    else SumOfGroups(keys[..|keys| - 1], groups) + multiset(groups[keys[|keys| - 1]])
  }

  /** Every slice of every group holds one to `size` elements. */
  lemma {:induction false} ChunksOfGroupsBounded<T, K>(keys: seq<K>, groups: map<K, seq<T>>, size: nat)
    requires size > 0
    requires forall k :: k in keys ==> k in groups
    ensures forall b :: b in ChunksOfGroups(keys, groups, size) ==> 1 <= |b| <= size
  {
    if keys != [] {
      ChunksOfGroupsBounded(keys[..|keys| - 1], groups, size);
      var c := Chunks(groups[keys[|keys| - 1]], size);
      ChunksSizes(groups[keys[|keys| - 1]], size);
      assert forall b :: b in c ==> exists p :: 0 <= p < |c| && c[p] == b;
    }
  }

  /** Every slice is a piece of the group of one of the keys. */
  lemma {:induction false} ChunksOfGroupsAreSlices<T, K>(keys: seq<K>, groups: map<K, seq<T>>, size: nat)
    requires size > 0
    requires forall k :: k in keys ==> k in groups
    ensures forall b :: b in ChunksOfGroups(keys, groups, size) ==>
      exists k, i, j :: k in keys && 0 <= i <= j <= |groups[k]| && b == groups[k][i..j]
  {
    if keys != [] {
      var init, last := keys[..|keys| - 1], keys[|keys| - 1];
      ChunksOfGroupsAreSlices(init, groups, size);
      ChunksAreSlices(groups[last], size);
      assert last in keys;
      assert forall k :: k in init ==> k in keys;
    }
  }

  /** Laid end to end, the slices hold exactly the elements of the groups. */
  lemma {:induction false} ChunksOfGroupsCover<T, K>(keys: seq<K>, groups: map<K, seq<T>>, size: nat)
    requires size > 0
    requires forall k :: k in keys ==> k in groups
    ensures multiset(Flatten(ChunksOfGroups(keys, groups, size))) == SumOfGroups(keys, groups)
  {
    if keys != [] {
      var init, last := keys[..|keys| - 1], keys[|keys| - 1];
      ChunksOfGroupsCover(init, groups, size);
      FlattenAppend(ChunksOfGroups(init, groups, size), Chunks(groups[last], size));
      ChunksCover(groups[last], size);
    }
  }
}
