/**
 * `groupby(keys).size()`, `sort_values(count)` and `head(n)`: counting the
 * rows per key, ordering the groups by count and keeping the first `n`.
 */
module GroupBy {
  import opened Cells

  /** One row of `size().reset_index()`: a key and how many rows carry it. */
  datatype Group = Group(key: Key, count: nat)

  /** Strictly ascending by key, the order pandas gives grouped output. */
  predicate KeySorted(gs: seq<Group>)
  {
    forall i, j :: 0 <= i < j < |gs| ==> KeyLess(gs[i].key, gs[j].key)
  }

  predicate DistinctKeys(gs: seq<Group>)
  {
    forall i, j :: 0 <= i < j < |gs| ==> gs[i].key != gs[j].key
  }

  /** `x` is below every key of `gs`. */
  predicate Below(x: Key, gs: seq<Group>)
  {
    forall j :: 0 <= j < |gs| ==> KeyLess(x, gs[j].key)
  }

  predicate Positive(gs: seq<Group>)
  {
    forall i :: 0 <= i < |gs| ==> gs[i].count >= 1
  }

  /** The key `k` is not in the table. */
  predicate Omitted(gs: seq<Group>, k: Key)
  {
    forall i :: 0 <= i < |gs| ==> gs[i].key != k
  }

  /** The count a table gives the key `x` (0 when it has no such group). */
  function CountOf(gs: seq<Group>, x: Key): nat
  {
    if gs == [] then 0 else (if gs[0].key == x then gs[0].count else 0) + CountOf(gs[1..], x)
  }

  /** Sum of the counts of a table. */
  function Total(gs: seq<Group>): nat
  {
    if gs == [] then 0 else gs[0].count + Total(gs[1..])
  }

  lemma TotalCons(g: Group, s: seq<Group>)
    ensures Total([g] + s) == g.count + Total(s)
  {
    assert ([g] + s)[1..] == s;
  }

  lemma CountOfCons(g: Group, s: seq<Group>, x: Key)
    ensures CountOf([g] + s, x) == (if g.key == x then g.count else 0) + CountOf(s, x)
  {
    assert ([g] + s)[1..] == s;
  }

  lemma KeySortedTail(gs: seq<Group>)
    requires KeySorted(gs) && gs != []
    ensures KeySorted(gs[1..]) && Below(gs[0].key, gs[1..])
  {
  }

  /** A key below the first key of a sorted table is below all of them. */
  lemma BelowHead(x: Key, gs: seq<Group>)
    requires KeySorted(gs) && gs != [] && KeyLess(x, gs[0].key)
    ensures Below(x, gs)
  {
    forall j | 1 <= j < |gs|
      ensures KeyLess(x, gs[j].key)
    {
      KeyLessTransitive(x, gs[0].key, gs[j].key);
    }
  }

  /** Counting one more row with key `k`, keeping the table ascending by key. */
  function Insert(gs: seq<Group>, k: Key): seq<Group>
  {
    if gs == [] then [Group(k, 1)]
    else if gs[0].key == k then [Group(k, gs[0].count + 1)] + gs[1..]
    else if KeyLess(k, gs[0].key) then [Group(k, 1)] + gs
    else [gs[0]] + Insert(gs[1..], k)
  }

  /** `Insert` adds one to the count of `k` and to the total, and to nothing else. */
  lemma {:induction false} InsertCounts(gs: seq<Group>, k: Key, x: Key)
    ensures CountOf(Insert(gs, k), x) == CountOf(gs, x) + (if x == k then 1 else 0)
    ensures Total(Insert(gs, k)) == Total(gs) + 1
  {
    if gs == [] {
      CountOfCons(Group(k, 1), [], x);
      TotalCons(Group(k, 1), []);
    } else if gs[0].key == k {
      CountOfCons(Group(k, gs[0].count + 1), gs[1..], x);
      TotalCons(Group(k, gs[0].count + 1), gs[1..]);
    } else if KeyLess(k, gs[0].key) {
      CountOfCons(Group(k, 1), gs, x);
      TotalCons(Group(k, 1), gs);
    } else {
      InsertCounts(gs[1..], k, x);
      CountOfCons(gs[0], Insert(gs[1..], k), x);
      TotalCons(gs[0], Insert(gs[1..], k));
    }
  }

  /** A group in front of a sorted table whose keys are all above its own gives a sorted table. */
  lemma SortedCons(g: Group, t: seq<Group>)
    requires KeySorted(t) && Positive(t) && Below(g.key, t) && g.count >= 1
    ensures KeySorted([g] + t) && Positive([g] + t)
  {
    var s := [g] + t;
    forall i, j | 0 <= i < j < |s|
      ensures KeyLess(s[i].key, s[j].key)
    {
      if i == 0 {
        assert s[j] == t[j - 1];
      } else {
        assert s[i] == t[i - 1] && s[j] == t[j - 1];
      }
    }
  }

  lemma BelowCons(x: Key, g: Group, t: seq<Group>)
    requires KeyLess(x, g.key) && Below(x, t)
    ensures Below(x, [g] + t)
  {
    var s := [g] + t;
    forall j | 1 <= j < |s|
      ensures KeyLess(x, s[j].key)
    {
      assert s[j] == t[j - 1];
    }
  }

  /** `Insert` keeps a table ascending by key with positive counts. */
  lemma {:induction false} InsertSorted(gs: seq<Group>, k: Key)
    requires KeySorted(gs) && Positive(gs)
    ensures KeySorted(Insert(gs, k)) && Positive(Insert(gs, k))
    ensures forall x :: Below(x, gs) && KeyLess(x, k) ==> Below(x, Insert(gs, k))
  {
    if gs == [] {
      forall x | KeyLess(x, k)
        ensures Below(x, Insert(gs, k))
      {
        BelowCons(x, Group(k, 1), []);
      }
    } else {
      KeySortedTail(gs);
      var t := gs[1..];
      if gs[0].key == k {
        SortedCons(Group(k, gs[0].count + 1), t);
        forall x | Below(x, gs) && KeyLess(x, k)
          ensures Below(x, Insert(gs, k))
        {
          BelowCons(x, Group(k, gs[0].count + 1), t);
        }
      } else if KeyLess(k, gs[0].key) {
        BelowHead(k, gs);
        SortedCons(Group(k, 1), gs);
        forall x | Below(x, gs) && KeyLess(x, k)
          ensures Below(x, Insert(gs, k))
        {
          BelowCons(x, Group(k, 1), gs);
        }
      } else {
        KeyLessTotal(k, gs[0].key);
        InsertSorted(t, k);
        var rest := Insert(t, k);
        assert Below(gs[0].key, rest);
        SortedCons(gs[0], rest);
        forall x | Below(x, gs) && KeyLess(x, k)
          ensures Below(x, Insert(gs, k))
        {
          assert KeyLess(x, gs[0].key);
          BelowCons(x, gs[0], rest);
        }
      }
    }
  }

  /** A key of no group counts 0. */
  lemma {:induction false} CountOfOmitted(gs: seq<Group>, x: Key)
    requires Omitted(gs, x)
    ensures CountOf(gs, x) == 0
  {
    if gs != [] {
      CountOfOmitted(gs[1..], x);
    }
  }

  /** In a sorted table the count of a group's key is that group's count. */
  lemma {:induction false} CountOfAt(gs: seq<Group>, i: nat)
    requires KeySorted(gs) && i < |gs|
    ensures CountOf(gs, gs[i].key) == gs[i].count
  {
    KeySortedTail(gs);
    if i == 0 {
      forall j | 0 <= j < |gs| - 1
        ensures gs[1..][j].key != gs[0].key
      {
        KeyLessIrreflexive(gs[0].key);
      }
      CountOfOmitted(gs[1..], gs[0].key);
    } else {
      KeyLessIrreflexive(gs[0].key);
      CountOfAt(gs[1..], i - 1);
    }
  }

  /** A key with a positive count has a group. */
  lemma {:induction false} CountOfPresent(gs: seq<Group>, x: Key)
    requires CountOf(gs, x) > 0
    ensures exists i :: 0 <= i < |gs| && gs[i].key == x
  {
    if gs[0].key != x {
      CountOfPresent(gs[1..], x);
      var i :| 0 <= i < |gs| - 1 && gs[1..][i].key == x;
      assert gs[i + 1].key == x;
    }
  }

  /** `groupby(...).size()` over the keys of the rows, one row at a time. */
  function GroupSize(keys: seq<Key>): seq<Group>
  {
    if keys == [] then [] else Insert(GroupSize(keys[..|keys| - 1]), keys[|keys| - 1])
  }

  /** The table `GroupSize` builds is ascending by key and counts every key exactly. */
  lemma {:induction false} GroupSizeCounts(keys: seq<Key>)
    ensures KeySorted(GroupSize(keys)) && Positive(GroupSize(keys))
    ensures forall x :: CountOf(GroupSize(keys), x) == multiset(keys)[x]
    ensures Total(GroupSize(keys)) == |keys|
  {
    if keys != [] {
      var init := keys[..|keys| - 1];
      var last := keys[|keys| - 1];
      assert keys == init + [last];
      GroupSizeCounts(init);
      InsertSorted(GroupSize(init), last);
      InsertCounts(GroupSize(init), last, last);
      forall x
        ensures CountOf(GroupSize(keys), x) == multiset(keys)[x]
      {
        InsertCounts(GroupSize(init), last, x);
      }
    }
  }

  /**
   * What `groupby(...).size()` promises for a sequence of row keys: one group
   * per distinct key, in ascending key order, counting the rows with that key.
   */
  predicate IsGrouping(gs: seq<Group>, keys: seq<Key>)
  {
    && KeySorted(gs)
    && (forall i :: 0 <= i < |gs| ==> gs[i].count >= 1 && gs[i].count == multiset(keys)[gs[i].key])
    && (forall k :: k in keys ==> exists i :: 0 <= i < |gs| && gs[i].key == k)
  }

  /** `GroupSize` meets that promise, and its counts add up to the number of keys. */
  lemma GroupSizeIsGrouping(keys: seq<Key>)
    ensures IsGrouping(GroupSize(keys), keys)
    ensures Total(GroupSize(keys)) == |keys|
  {
    var gs := GroupSize(keys);
    GroupSizeCounts(keys);
    forall i | 0 <= i < |gs|
      ensures gs[i].count == multiset(keys)[gs[i].key]
    {
      CountOfAt(gs, i);
    }
    forall k | k in keys
      ensures exists i :: 0 <= i < |gs| && gs[i].key == k
    {
      CountOfPresent(gs, k);
    }
  }

  /** `sort_values(count, ascending=not descending)` compares two counts. */
  predicate Precedes(a: nat, b: nat, descending: bool)
  {
    if descending then a >= b else a <= b
  }

  predicate CountSorted(gs: seq<Group>, descending: bool)
  {
    forall i, j :: 0 <= i < j < |gs| ==> Precedes(gs[i].count, gs[j].count, descending)
  }

  /** `a` comes no later than the count of any group of `s`. */
  predicate PrecedesAll(a: nat, s: seq<Group>, descending: bool)
  {
    forall j :: 0 <= j < |s| ==> Precedes(a, s[j].count, descending)
  }

  lemma ConsSorted(g: Group, s: seq<Group>, descending: bool)
    requires CountSorted(s, descending) && PrecedesAll(g.count, s, descending)
    ensures CountSorted([g] + s, descending)
  {
    var r := [g] + s;
    forall i, j | 0 <= i < j < |r|
      ensures Precedes(r[i].count, r[j].count, descending)
    {
      assert r[j] == s[j - 1];
      if i > 0 {
        assert r[i] == s[i - 1];
      }
    }
  }

  lemma ConsDistinct(g: Group, s: seq<Group>)
    requires DistinctKeys(s) && Omitted(s, g.key)
    ensures DistinctKeys([g] + s)
  {
    var r := [g] + s;
    forall i, j | 0 <= i < j < |r|
      ensures r[i].key != r[j].key
    {
      assert r[j] == s[j - 1];
      if i > 0 {
        assert r[i] == s[i - 1];
      }
    }
  }

  /** Places `g` in a table sorted by count, before the first group it may precede. */
  function InsertByCount(g: Group, s: seq<Group>, descending: bool): seq<Group>
  {
    if s == [] || Precedes(g.count, s[0].count, descending) then [g] + s
    else [s[0]] + InsertByCount(g, s[1..], descending)
  }

  /** `InsertByCount` adds `g` and loses nothing. */
  lemma {:induction false} InsertByCountContents(g: Group, s: seq<Group>, descending: bool)
    ensures multiset(InsertByCount(g, s, descending)) == multiset(s) + multiset{g}
    ensures |InsertByCount(g, s, descending)| == |s| + 1
    ensures Total(InsertByCount(g, s, descending)) == Total(s) + g.count
  {
    if s == [] || Precedes(g.count, s[0].count, descending) {
      TotalCons(g, s);
    } else {
      var rest := InsertByCount(g, s[1..], descending);
      InsertByCountContents(g, s[1..], descending);
      assert s == [s[0]] + s[1..];
      TotalCons(s[0], rest);
      TotalCons(s[0], s[1..]);
    }
  }

  /** Every group of `rest`, a permutation of the tail of `s` with `g` added, is `g` or a later group of `s`. */
  lemma FromTailOrNew(g: Group, s: seq<Group>, rest: seq<Group>, j: nat)
    requires s != [] && multiset(rest) == multiset(s[1..]) + multiset{g} && j < |rest|
    ensures rest[j] == g || exists k :: 1 <= k < |s| && s[k] == rest[j]
  {
    var tail := s[1..];
    assert rest[j] in multiset(tail) + multiset{g} by {
      assert rest[j] in multiset(rest);
    }
    if rest[j] != g {
      assert rest[j] in tail;
      var k :| 0 <= k < |tail| && tail[k] == rest[j];
      assert s[k + 1] == rest[j];
    }
  }

  /** `InsertByCount` keeps a table ordered by count. */
  lemma {:induction false} InsertByCountSorted(g: Group, s: seq<Group>, descending: bool)
    requires CountSorted(s, descending)
    ensures CountSorted(InsertByCount(g, s, descending), descending)
  {
    if s == [] || Precedes(g.count, s[0].count, descending) {
      forall j | 0 <= j < |s|
        ensures Precedes(g.count, s[j].count, descending)
      {
        if j > 0 {
          assert Precedes(s[0].count, s[j].count, descending);
        }
      }
      ConsSorted(g, s, descending);
    } else {
      var rest := InsertByCount(g, s[1..], descending);
      InsertByCountSorted(g, s[1..], descending);
      InsertByCountContents(g, s[1..], descending);
      forall j | 0 <= j < |rest|
        ensures Precedes(s[0].count, rest[j].count, descending)
      {
        FromTailOrNew(g, s, rest, j);
        if rest[j] != g {
          var k :| 1 <= k < |s| && s[k] == rest[j];
          assert Precedes(s[0].count, s[k].count, descending);
        }
      }
      ConsSorted(s[0], rest, descending);
    }
  }

  /** `InsertByCount` of a new key keeps the keys distinct. */
  lemma {:induction false} InsertByCountDistinct(g: Group, s: seq<Group>, descending: bool)
    requires DistinctKeys(s) && Omitted(s, g.key)
    ensures DistinctKeys(InsertByCount(g, s, descending))
  {
    if s == [] || Precedes(g.count, s[0].count, descending) {
      ConsDistinct(g, s);
    } else {
      var rest := InsertByCount(g, s[1..], descending);
      InsertByCountDistinct(g, s[1..], descending);
      InsertByCountContents(g, s[1..], descending);
      forall j | 0 <= j < |rest|
        ensures rest[j].key != s[0].key
      {
        FromTailOrNew(g, s, rest, j);
      }
      ConsDistinct(s[0], rest);
    }
  }

  /**
   * `sort_values` on the count column, as an insertion sort. pandas' sort is
   * not stable; this is one of the orders it may give.
   */
  function SortByCount(gs: seq<Group>, descending: bool): seq<Group>
  {
    if gs == [] then [] else InsertByCount(gs[0], SortByCount(gs[1..], descending), descending)
  }

  /** Its result is a permutation of the table. */
  lemma {:induction false} SortByCountContents(gs: seq<Group>, descending: bool)
    ensures multiset(SortByCount(gs, descending)) == multiset(gs)
    ensures |SortByCount(gs, descending)| == |gs|
    ensures Total(SortByCount(gs, descending)) == Total(gs)
  {
    if gs != [] {
      SortByCountContents(gs[1..], descending);
      InsertByCountContents(gs[0], SortByCount(gs[1..], descending), descending);
      assert gs == [gs[0]] + gs[1..];
      TotalCons(gs[0], gs[1..]);
    }
  }

  /** Its result is ordered by count and, for distinct keys, keeps them distinct. */
  lemma {:induction false} SortByCountSorted(gs: seq<Group>, descending: bool)
    ensures CountSorted(SortByCount(gs, descending), descending)
    ensures DistinctKeys(gs) ==> DistinctKeys(SortByCount(gs, descending))
  {
    if gs != [] {
      var rest := SortByCount(gs[1..], descending);
      SortByCountSorted(gs[1..], descending);
      InsertByCountSorted(gs[0], rest, descending);
      if DistinctKeys(gs) {
        SortByCountContents(gs[1..], descending);
        forall i | 0 <= i < |rest|
          ensures rest[i].key != gs[0].key
        {
          assert rest[i] in multiset(gs[1..]);
          var k :| 1 <= k < |gs| && gs[k] == rest[i];
        }
        InsertByCountDistinct(gs[0], rest, descending);
      }
    }
  }

  /** Places `g` in a table sorted by key, after every key below it. */
  function InsertByKey(g: Group, s: seq<Group>): seq<Group>
  {
    if s == [] || !KeyLess(s[0].key, g.key) then [g] + s else [s[0]] + InsertByKey(g, s[1..])
  }

  /** `sort_values` on the key column: an insertion sort by key. */
  function SortByKey(gs: seq<Group>): seq<Group>
  {
    if gs == [] then [] else InsertByKey(gs[0], SortByKey(gs[1..]))
  }

  /** Sorting by key a table that is already ascending by key leaves it as it is. */
  lemma {:induction false} SortByKeyOfSorted(gs: seq<Group>)
    requires KeySorted(gs)
    ensures SortByKey(gs) == gs
  {
    if gs != [] {
      KeySortedTail(gs);
      SortByKeyOfSorted(gs[1..]);
      if |gs| > 1 && KeyLess(gs[1].key, gs[0].key) {
        KeyLessTransitive(gs[0].key, gs[1].key, gs[0].key);
        KeyLessIrreflexive(gs[0].key);
      }
      assert gs == [gs[0]] + gs[1..];
    }
  }

  /** `head(n)`. */
  function Head(gs: seq<Group>, n: nat): (r: seq<Group>)
    ensures |r| == if n < |gs| then n else |gs|
    ensures r == gs[..|r|]
  {
    if n < |gs| then gs[..n] else gs
  }

  /** Distinct keys ordered by count, each with the number of rows carrying it. */
  predicate IsCountOrdered(r: seq<Group>, keys: seq<Key>, descending: bool)
  {
    && DistinctKeys(r)
    && (forall i :: 0 <= i < |r| ==> r[i].count >= 1 && r[i].count == multiset(keys)[r[i].key])
    && CountSorted(r, descending)
  }

  /**
   * What `groupby(...).size().sort_values(...).head(n)` promises, ties left
   * open: at most `n` groups ordered by count, and a key is left out only when
   * `n` groups were kept and its count does not beat any kept count.
   */
  predicate IsRanking(r: seq<Group>, keys: seq<Key>, n: nat, descending: bool)
  {
    && IsCountOrdered(r, keys, descending)
    && |r| <= n
    && forall k :: k in keys && Omitted(r, k) ==>
         |r| == n && forall i :: 0 <= i < |r| ==> Precedes(r[i].count, multiset(keys)[k], descending)
  }

  lemma KeySortedDistinct(gs: seq<Group>)
    requires KeySorted(gs)
    ensures DistinctKeys(gs)
  {
    forall i, j | 0 <= i < j < |gs|
      ensures gs[i].key != gs[j].key
    {
      KeyLessIrreflexive(gs[i].key);
    }
  }

  /** Sorting a grouping by count keeps every group and orders them by count. */
  lemma SortedGrouping(gs: seq<Group>, keys: seq<Key>, descending: bool)
    requires IsGrouping(gs, keys)
    ensures IsCountOrdered(SortByCount(gs, descending), keys, descending)
    ensures forall k :: k in keys ==> !Omitted(SortByCount(gs, descending), k)
    ensures Total(SortByCount(gs, descending)) == Total(gs)
  {
    var s := SortByCount(gs, descending);
    KeySortedDistinct(gs);
    SortByCountContents(gs, descending);
    SortByCountSorted(gs, descending);
    forall i | 0 <= i < |s|
      ensures s[i].count >= 1 && s[i].count == multiset(keys)[s[i].key]
    {
      assert s[i] in multiset(gs);
    }
    forall k | k in keys
      ensures !Omitted(s, k)
    {
      var j :| 0 <= j < |gs| && gs[j].key == k;
      assert gs[j] in multiset(s);
    }
  }

  /** A prefix of a table ordered by count is ordered by count. */
  lemma PrefixCountOrdered(s: seq<Group>, keys: seq<Key>, descending: bool, m: nat)
    requires IsCountOrdered(s, keys, descending) && m <= |s|
    ensures IsCountOrdered(s[..m], keys, descending)
  {
  }

  /** A key of the table that a prefix leaves out comes no earlier than any kept group. */
  lemma PrefixOmits(s: seq<Group>, keys: seq<Key>, descending: bool, m: nat, k: Key)
    requires IsCountOrdered(s, keys, descending) && m <= |s|
    requires !Omitted(s, k) && Omitted(s[..m], k)
    ensures m < |s|
    ensures forall i :: 0 <= i < m ==> Precedes(s[i].count, multiset(keys)[k], descending)
  {
    var p :| 0 <= p < |s| && s[p].key == k;
  }

  /** Sorting a grouping by count and keeping the first `n` gives a ranking. */
  lemma SortHeadIsRanking(gs: seq<Group>, keys: seq<Key>, n: nat, descending: bool)
    requires IsGrouping(gs, keys)
    ensures IsRanking(Head(SortByCount(gs, descending), n), keys, n, descending)
  {
    var s := SortByCount(gs, descending);
    var r := Head(s, n);
    SortedGrouping(gs, keys, descending);
    PrefixCountOrdered(s, keys, descending, |r|);
    forall k | k in keys && Omitted(r, k)
      ensures |r| == n && forall i :: 0 <= i < |r| ==> Precedes(r[i].count, multiset(keys)[k], descending)
    {
      PrefixOmits(s, keys, descending, |r|, k);
    }
  }
}
