/** `StrInfo.prune`, which bounds the memory of a frequency table, modelled
    as written, and the top-K retention it evidently aims at. */
module PruneModel {
  import opened GoTypes
  import opened StrInfos

  /** The default retention bound; in Go a package variable. */
  const TOP_STRING_COUNT: nat := 20

  /** One slot of the slice `prune` sorts: a value id and its count. */
  datatype StrInfoCol = StrInfoCol(name: Int32, value: int)

  /** The zero value a slot keeps when no key is stored at its index. */
  const Padding := StrInfoCol(0, 0)

  // ---------------------------------------------------------------------------
  // Sets of names taken from a prefix of a sequence

  /** The first `p` elements of `s`, as a set. */
  function KeyPrefix(s: seq<Int32>, p: nat): set<Int32>
    requires p <= |s|
  {
    set i | 0 <= i < p :: s[i]
  }

  /** No element of `s` occurs twice. */
  predicate Distinct(s: seq<Int32>)
  {
    forall i, j :: 0 <= i < j < |s| ==> s[i] != s[j]
  }

  /** A prefix of length `p` names at most `p` keys, and exactly `p` when
      its elements are distinct. */
  lemma {:induction false} KeyPrefixSize(s: seq<Int32>, p: nat)
    requires p <= |s|
    ensures |KeyPrefix(s, p)| <= p
    ensures Distinct(s) ==> |KeyPrefix(s, p)| == p
    decreases p
  {
    if p > 0 {
      KeyPrefixSize(s, p - 1);
      assert KeyPrefix(s, p) == KeyPrefix(s, p - 1) + {s[p - 1]};
      if Distinct(s) {
        assert s[p - 1] !in KeyPrefix(s, p - 1);
      }
    } else {
      assert KeyPrefix(s, p) == {};
    }
  }

  /** Removing a set of keys from a map leaves at least `|m| - |ks|` entries,
      and exactly that many when all of `ks` are keys. */
  lemma RemoveKeysSize(m: map<Int32, int>, ks: set<Int32>)
    ensures |(m - ks).Keys| >= |m| - |ks|
    ensures ks <= m.Keys ==> |(m - ks).Keys| == |m| - |ks|
  {
  }

  // ---------------------------------------------------------------------------
  // The padded slice `interim`

  /** Go indexes `interim` by the key itself, so it panics unless every key
      lies in [0, len]. */
  predicate KeysIndexable(counts: map<Int32, int>)
  {
    forall k :: k in counts ==> 0 <= k <= |counts|
  }

  /** `interim`: `len + 1` zero-valued slots, then entry (s, c) stored at index s. */
  function Interim(counts: map<Int32, int>): (s: seq<StrInfoCol>)
    requires KeysIndexable(counts)
    ensures |s| == |counts| + 1
    ensures forall k :: k in counts ==> s[k] == StrInfoCol(k, counts[k])
    ensures forall i :: 0 <= i < |s| && i !in counts ==> s[i] == Padding
  {
    seq(|counts| + 1, i requires 0 <= i <= |counts| =>
      if i in counts then StrInfoCol(i, counts[i]) else Padding)
  }

  /** The integers in [0, n). */
  function Range(n: nat): (r: set<int>)
    ensures forall i :: i in r <==> 0 <= i < n
    ensures |r| == n
    decreases n
  {
    if n == 0 then {} else Range(n - 1) + {n - 1}
  }

  /** `n` distinct slots among the `n + 1` of [0, n] leave exactly one free. */
  lemma OneFreeSlot(used: set<int>, n: nat)
    requires used <= Range(n + 1) && |used| == n
    ensures exists j :: 0 <= j <= n && j !in used
    ensures forall i, j :: 0 <= i <= n && 0 <= j <= n && i !in used && j !in used ==> i == j
  {
    var slots := Range(n + 1);
    var free := slots - used;
    assert |free| == 1 by {
      assert slots == free + used;
      assert free !! used;
    }
    var j :| j in free;
    assert free == {j} by {
      assert |free - {j}| == 0;
    }
    forall i, i' | 0 <= i <= n && 0 <= i' <= n && i !in used && i' !in used
      ensures i == i'
    {
      assert i in free && i' in free;
    }
  }

  /** Exactly one slot of `interim` receives no entry and keeps the zero
      value; every other slot holds the entry whose key is its index. */
  lemma InterimPaddingSlot(counts: map<Int32, int>)
    requires KeysIndexable(counts)
    ensures exists j :: 0 <= j <= |counts| && j !in counts && Interim(counts)[j] == Padding
    ensures forall i, j :: 0 <= i <= |counts| && 0 <= j <= |counts| && i !in counts && j !in counts ==> i == j
  {
    var used: set<int> := counts.Keys;
    assert used <= Range(|counts| + 1);
    OneFreeSlot(used, |counts|);
  }

  // ---------------------------------------------------------------------------
  // sort.Sort(SortStrsByCount(interim))

  /** Ascending by count. */
  predicate SortedByValue(s: seq<StrInfoCol>)
  {
    forall i, j :: 0 <= i < j < |s| ==> s[i].value <= s[j].value
  }

  /** `sorted` is one of the orders `sort.Sort` may leave `s` in: a
      permutation of it, ascending by count (ties in any order). */
  predicate IsSortOf(sorted: seq<StrInfoCol>, s: seq<StrInfoCol>)
  {
    |sorted| == |s| && multiset(sorted) == multiset(s) && SortedByValue(sorted)
  }

  /** Inserts `x` into an ascending sequence. */
  function InsertByValue(s: seq<StrInfoCol>, x: StrInfoCol): (r: seq<StrInfoCol>)
    requires SortedByValue(s)
    ensures SortedByValue(r)
    ensures multiset(r) == multiset(s) + multiset{x}
    ensures |r| > 0 && (r[0] == x || (|s| > 0 && r[0] == s[0]))
    decreases |s|
  {
    if |s| == 0 then [x]
    else if x.value <= s[0].value then
      ConsSorted(x, s);
      [x] + s
    else
      var rest := InsertByValue(s[1..], x);
      assert s == [s[0]] + s[1..];
      ConsSorted(s[0], rest);
      assert multiset([s[0]] + rest) == multiset{s[0]} + multiset(rest);
      [s[0]] + rest
  }

  /** An element no heavier than the head of an ascending sequence can go in front. */
  lemma ConsSorted(x: StrInfoCol, s: seq<StrInfoCol>)
    requires SortedByValue(s)
    requires |s| > 0 ==> x.value <= s[0].value
    ensures SortedByValue([x] + s)
  {
    var r := [x] + s;
    forall i, j | 0 <= i < j < |r| ensures r[i].value <= r[j].value {
      if i == 0 {
        assert r[j] == s[j - 1];
      } else {
        assert r[i] == s[i - 1] && r[j] == s[j - 1];
      }
    }
  }

  /** Sorting by insertion: one of the orders `sort.Sort` may produce, so a
      call of `Prune` exists for every input that does not panic. */
  function SortByValue(s: seq<StrInfoCol>): (r: seq<StrInfoCol>)
    ensures IsSortOf(r, s)
    decreases |s|
  {
    if |s| == 0 then []
    else
      assert s == s[..|s| - 1] + [s[|s| - 1]];
      assert |multiset(s)| == |s|;
      InsertByValue(SortByValue(s[..|s| - 1]), s[|s| - 1])
  }

  // ---------------------------------------------------------------------------
  // prune, as written

  /** The names of a slice, in order. */
  function NamesOf(cols: seq<StrInfoCol>): (ns: seq<Int32>)
    ensures |ns| == |cols|
    ensures forall i :: 0 <= i < |cols| ==> ns[i] == cols[i].name
  {
    seq(|cols|, i requires 0 <= i < |cols| => cols[i].name)
  }

  /** What `prune` needs of its inputs: a table that gets pruned must have
      indexable keys, and `sorted` is the order `sort.Sort` left `interim` in. */
  predicate PruneReady(si: StrInfo, limit: nat, sorted: seq<StrInfoCol>)
  {
    |si.topStringCount| > limit ==>
      KeysIndexable(si.topStringCount) && IsSortOf(sorted, Interim(si.topStringCount))
  }

  /** Removing the names of the first `p` slots deletes exactly the keys
      some slot of that prefix names. */
  lemma PrefixNames(counts: map<Int32, int>, sorted: seq<StrInfoCol>, p: nat)
    requires p <= |sorted|
    ensures forall k :: k in counts ==>
      (k !in counts - KeyPrefix(NamesOf(sorted), p) <==> exists i :: 0 <= i < p && sorted[i].name == k)
  {
    var names := NamesOf(sorted);
    forall k | k in KeyPrefix(names, p)
      ensures exists i :: 0 <= i < p && sorted[i].name == k
    {
      var i :| 0 <= i < p && names[i] == k;
      assert sorted[i].name == k;
    }
  }

  /** A subset is no larger than its superset. */
  lemma SubsetSize(a: set<Int32>, b: set<Int32>)
    requires a <= b
    ensures |a| <= |b|
  {
    assert b == a + (b - a);
  }

  /** A key that survives the deletion of the names in a sorted prefix is
      named by a slot after that prefix. */
  lemma SurvivorsAfterPrefix(counts: map<Int32, int>, sorted: seq<StrInfoCol>, p: nat)
    requires KeysIndexable(counts) && IsSortOf(sorted, Interim(counts))
    requires p <= |sorted|
    ensures (counts - KeyPrefix(NamesOf(sorted), p)).Keys <= KeyPrefix(NamesOf(sorted)[p..], |sorted| - p)
  {
    var names := NamesOf(sorted);
    forall k | k in (counts - KeyPrefix(names, p)).Keys
      ensures k in KeyPrefix(names[p..], |sorted| - p)
    {
      SlotOfKey(counts, sorted, k);
      var j :| 0 <= j < |sorted| && sorted[j] == StrInfoCol(k, counts[k]);
      assert forall t :: 0 <= t < p ==> names[t] != k;
      assert names[j] == k;
      assert names[p..][j - p] == k;
    }
  }

  /** Deleting the names of the first len - limit - 1 sorted slots leaves
      limit + 1 or limit + 2 entries. */
  lemma PrunedSize(counts: map<Int32, int>, limit: nat, sorted: seq<StrInfoCol>)
    requires |counts| > limit
    requires KeysIndexable(counts) && IsSortOf(sorted, Interim(counts))
    ensures var kept := counts - KeyPrefix(NamesOf(sorted), |counts| - limit - 1);
      limit + 1 <= |kept.Keys| <= limit + 2
  {
    var p := |counts| - limit - 1;
    var names := NamesOf(sorted);
    var doomed := KeyPrefix(names, p);
    var kept := counts - doomed;
    assert |sorted| - p == limit + 2;
    assert |kept.Keys| >= limit + 1 by {
      KeyPrefixSize(names, p);
      RemoveKeysSize(counts, doomed);
    }
    var after := KeyPrefix(names[p..], |sorted| - p);
    assert |kept.Keys| <= |after| by {
      SurvivorsAfterPrefix(counts, sorted, p);
      SubsetSize(kept.Keys, after);
    }
    KeyPrefixSize(names[p..], |sorted| - p);
  }

  /** The counts left after deleting the names of the first
      len - limit - 1 sorted slots. */
  function PrunedCounts(counts: map<Int32, int>, limit: nat, sorted: seq<StrInfoCol>): (kept: map<Int32, int>)
    requires |counts| > limit
    requires KeysIndexable(counts) && IsSortOf(sorted, Interim(counts))
    requires |sorted| == |counts| + 1
    ensures kept.Keys <= counts.Keys
    ensures forall k :: k in kept ==> kept[k] == counts[k]
    ensures forall k :: k in counts ==>
      (k !in kept <==> exists i :: 0 <= i < |counts| - limit - 1 && sorted[i].name == k)
  {
    var p := |counts| - limit - 1;
    var kept := counts - KeyPrefix(NamesOf(sorted), p);
    assert forall k :: k in counts ==>
      (k !in kept <==> exists i :: 0 <= i < p && sorted[i].name == k) by {
      PrefixNames(counts, sorted, p);
    }
    kept
  }

  /** `StrInfo.prune` with TOP_STRING_COUNT = `limit`: records the table size
      as cardinality and, when it exceeds `limit`, deletes the names of the
      first `len - limit - 1` slots of the sorted padded slice. */
  function Prune(si: StrInfo, limit: nat, sorted: seq<StrInfoCol>): (r: StrInfo)
    requires PruneReady(si, limit, sorted)
    // cardinality is the size before any deletion
    ensures r.cardinality == |si.topStringCount|
    // a table within the bound is left alone
    ensures |si.topStringCount| <= limit ==> r.topStringCount == si.topStringCount
    // only deletions: no key is added and no surviving count changes
    ensures r.topStringCount.Keys <= si.topStringCount.Keys
    ensures forall k :: k in r.topStringCount ==> r.topStringCount[k] == si.topStringCount[k]
    // the deleted keys are exactly the names in the sorted prefix
    ensures |si.topStringCount| > limit ==>
      forall k :: k in si.topStringCount ==>
        (k !in r.topStringCount <==>
          exists i :: 0 <= i < |si.topStringCount| - limit - 1 && sorted[i].name == k)
  {
    var counts := si.topStringCount;
    if |counts| > limit then
      assert |sorted| == |counts| + 1;
      StrInfo(PrunedCounts(counts, limit, sorted), |counts|)
    else
      StrInfo(counts, |counts|)
  }

  /** A pruned table keeps limit + 1 or limit + 2 entries: the prefix of
      len - limit - 1 slots names at most that many keys, and every survivor
      is named by one of the limit + 2 slots after it. */
  lemma PruneSize(si: StrInfo, limit: nat, sorted: seq<StrInfoCol>)
    requires PruneReady(si, limit, sorted)
    ensures |si.topStringCount| > limit ==>
      limit + 1 <= |Prune(si, limit, sorted).topStringCount| <= limit + 2
  {
    if |si.topStringCount| > limit {
      PrunedSize(si.topStringCount, limit, sorted);
    }
  }

  /** Every key's own slot appears somewhere in the sorted slice. */
  lemma SlotOfKey(counts: map<Int32, int>, sorted: seq<StrInfoCol>, k: Int32)
    requires KeysIndexable(counts) && IsSortOf(sorted, Interim(counts))
    requires k in counts
    ensures exists j :: 0 <= j < |sorted| && sorted[j] == StrInfoCol(k, counts[k])
  {
    assert Interim(counts)[k] in multiset(sorted);
  }

  /** Every slot of the sorted slice is a key's own slot or the padding. */
  lemma SlotIsEntryOrPadding(counts: map<Int32, int>, sorted: seq<StrInfoCol>, i: nat)
    requires KeysIndexable(counts) && IsSortOf(sorted, Interim(counts))
    requires i < |sorted|
    ensures sorted[i] == Padding || (sorted[i].name in counts && sorted[i].value == counts[sorted[i].name])
  {
    var interim := Interim(counts);
    assert sorted[i] in multiset(interim);
    var x :| 0 <= x < |interim| && interim[x] == sorted[i];
  }

  /** A survivor weighs at least as much as any deleted key, except that key 0
      can be deleted by the padding slot whatever its count; then the
      survivor's count is at least the padding's 0. */
  lemma PruneKeepsHeavier(si: StrInfo, limit: nat, sorted: seq<StrInfoCol>)
    requires PruneReady(si, limit, sorted)
    ensures var counts := si.topStringCount;
      var kept := Prune(si, limit, sorted).topStringCount;
      forall k, d :: k in kept && d in counts && d !in kept ==>
        counts[d] <= counts[k] || (d == 0 && 0 <= counts[k])
  {
    var counts := si.topStringCount;
    if |counts| > limit {
      var p := |counts| - limit - 1;
      var doomed := KeyPrefix(NamesOf(sorted), p);
      var kept := Prune(si, limit, sorted).topStringCount;
      assert kept == counts - doomed;
      forall k, d | k in kept && d in counts && d !in kept
        ensures counts[d] <= counts[k] || (d == 0 && 0 <= counts[k])
      {
        // the survivor's own slot sits at or after the prefix
        SlotOfKey(counts, sorted, k);
        var j :| 0 <= j < |sorted| && sorted[j] == StrInfoCol(k, counts[k]);
        assert k !in doomed;
        assert forall t :: 0 <= t < p ==> NamesOf(sorted)[t] != k;
        assert NamesOf(sorted)[j] == k;
        // the deleted key is named in the prefix, by its own slot or the padding
        var i :| 0 <= i < p && NamesOf(sorted)[i] == d;
        SlotIsEntryOrPadding(counts, sorted, i);
        assert sorted[i].value <= sorted[j].value;
      }
    }
  }

  /** The padding slot deletes key 0 even when it is the heaviest key: with
      limit 0 and counts {0: 100, 1: 5}, every order `sort.Sort` may produce
      leaves only key 1. */
  lemma PruneDropsHeaviestZero(sorted: seq<StrInfoCol>)
    requires PruneReady(StrInfo(map[0 := 100, 1 := 5], 0), 0, sorted)
    ensures Prune(StrInfo(map[0 := 100, 1 := 5], 0), 0, sorted).topStringCount == map[1 := 5]
  {
    var counts: map<Int32, int> := map[0 := 100, 1 := 5];
    assert |counts| == 2 by {
      assert counts.Keys == {0, 1};
    }
    var interim := Interim(counts);
    assert interim == [StrInfoCol(0, 100), StrInfoCol(1, 5), Padding];
    assert sorted[0] == Padding by {
      assert |sorted| == 3;
      assert Padding in multiset(sorted);
      var j :| 0 <= j < 3 && sorted[j] == Padding;
      assert sorted[0].value <= 0;
      assert sorted[0] in multiset(interim);
    }
    assert KeyPrefix(NamesOf(sorted), 1) == {0} by {
      assert NamesOf(sorted)[0] == 0;
    }
    assert counts - {0} == map[1 := 5];
  }

  /** Without a key 0 the padding slot sorts first when every count is
      positive, and deleting its name removes nothing: with limit 0 the
      counts {1: 5, 2: 6} keep both entries, limit + 2 of them. */
  lemma PruneKeepsExtraWithoutZero(sorted: seq<StrInfoCol>)
    requires PruneReady(StrInfo(map[1 := 5, 2 := 6], 0), 0, sorted)
    ensures Prune(StrInfo(map[1 := 5, 2 := 6], 0), 0, sorted).topStringCount == map[1 := 5, 2 := 6]
  {
    var counts: map<Int32, int> := map[1 := 5, 2 := 6];
    assert |counts| == 2 by {
      assert counts.Keys == {1, 2};
    }
    var interim := Interim(counts);
    assert interim == [Padding, StrInfoCol(1, 5), StrInfoCol(2, 6)];
    assert sorted[0] == Padding by {
      assert |sorted| == 3;
      assert Padding in multiset(sorted);
      var j :| 0 <= j < 3 && sorted[j] == Padding;
      assert sorted[0].value <= 0;
      assert sorted[0] in multiset(interim);
    }
    assert KeyPrefix(NamesOf(sorted), 1) == {0} by {
      assert NamesOf(sorted)[0] == 0;
    }
    assert counts - {0} == counts;
  }

  /** `prune` at the program's bound TOP_STRING_COUNT = 20: a table of at
      most 20 entries only gets its cardinality recorded, a larger one is
      cut to 21 or 22 entries. */
  function PruneDefault(si: StrInfo, sorted: seq<StrInfoCol>): (r: StrInfo)
    requires PruneReady(si, TOP_STRING_COUNT, sorted)
    ensures |si.topStringCount| <= 20 ==> r == StrInfo(si.topStringCount, |si.topStringCount|)
    ensures |si.topStringCount| > 20 ==> 21 <= |r.topStringCount| <= 22
  {
    PruneSize(si, TOP_STRING_COUNT, sorted);
    Prune(si, TOP_STRING_COUNT, sorted)
  }

  /** The counts {7: 3, 9: 2, 2: 1} with limit 1 cannot be pruned: key 7
      indexes past the end of the four-slot `interim`, where Go panics. */
  lemma PruneRejectsSparseIds(sorted: seq<StrInfoCol>)
    ensures !PruneReady(StrInfo(map[7 := 3, 9 := 2, 2 := 1], 0), 1, sorted)
  {
    var counts: map<Int32, int> := map[7 := 3, 9 := 2, 2 := 1];
    assert |counts| == 3 by {
      assert counts.Keys == {7, 9, 2};
    }
    assert 7 in counts && 7 > |counts|;
  }

  // ---------------------------------------------------------------------------
  // top-K retention, without the padding slot and without indexing by key

  /** `order` lists every key of `counts` once, ascending by count. */
  predicate KeysByCount(counts: map<Int32, int>, order: seq<Int32>)
  {
    && Distinct(order)
    && (forall k :: k in counts ==> k in order)
    && (forall i :: 0 <= i < |order| ==> order[i] in counts)
    && (forall i, j :: 0 <= i < j < |order| ==> counts[order[i]] <= counts[order[j]])
  }

  /** A key order covering `counts` has one position per key. */
  lemma KeysByCountLength(counts: map<Int32, int>, order: seq<Int32>)
    requires KeysByCount(counts, order)
    ensures |order| == |counts|
  {
    KeyPrefixSize(order, |order|);
    assert KeyPrefix(order, |order|) == counts.Keys;
  }

  /** Prune deleting the lowest `len - limit - 1` keys of a key order sorted
      by count: exactly `min(len, limit + 1)` entries survive, and none is
      lighter than a deleted one. */
  function PruneTopK(si: StrInfo, limit: nat, order: seq<Int32>): (r: StrInfo)
    requires KeysByCount(si.topStringCount, order)
    ensures r.cardinality == |si.topStringCount|
    ensures |r.topStringCount| == if |si.topStringCount| <= limit then |si.topStringCount| else limit + 1
    ensures r.topStringCount.Keys <= si.topStringCount.Keys
    ensures forall k :: k in r.topStringCount ==> r.topStringCount[k] == si.topStringCount[k]
    ensures forall k, d :: k in r.topStringCount && d in si.topStringCount && d !in r.topStringCount ==>
      si.topStringCount[d] <= si.topStringCount[k]
  {
    var counts := si.topStringCount;
    KeysByCountLength(counts, order);
    if |counts| > limit then
      var p := |counts| - limit - 1;
      var doomed := KeyPrefix(order, p);
      KeyPrefixSize(order, p);
      RemoveKeysSize(counts, doomed);
      var kept := counts - doomed;
      assert forall k, d :: k in kept && d in counts && d !in kept ==> counts[d] <= counts[k] by {
        forall k, d | k in kept && d in counts && d !in kept ensures counts[d] <= counts[k] {
          var j :| 0 <= j < |order| && order[j] == k;
          var i :| 0 <= i < p && order[i] == d;
          assert j >= p;
        }
      }
      StrInfo(kept, |counts|)
    else
      StrInfo(counts, |counts|)
  }

  /** Every non-empty set of keys has one of least count. */
  lemma {:induction false} LeastCountExists(counts: map<Int32, int>, ks: set<Int32>)
    requires ks != {} && ks <= counts.Keys
    ensures exists k :: k in ks && forall j :: j in ks ==> counts[k] <= counts[j]
    decreases |ks|
  {
    var x :| x in ks;
    if ks != {x} {
      LeastCountExists(counts, ks - {x});
      var y :| y in ks - {x} && forall j :: j in ks - {x} ==> counts[y] <= counts[j];
      if counts[x] <= counts[y] {
        assert forall j :: j in ks ==> counts[x] <= counts[j];
      } else {
        assert forall j :: j in ks ==> counts[y] <= counts[j];
      }
    }
  }

  /** Lists the keys of `counts` ascending by count (selection of the least
      remaining key), so `PruneTopK` can be called on every table. */
  method SortKeysByCount(counts: map<Int32, int>) returns (order: seq<Int32>)
    ensures KeysByCount(counts, order)
  {
    order := [];
    var rest := counts.Keys;
    while rest != {}
      invariant rest <= counts.Keys
      invariant Distinct(order)
      invariant forall i :: 0 <= i < |order| ==> order[i] in counts && order[i] !in rest
      invariant forall k :: k in counts ==> k in rest || k in order
      invariant forall i, j :: 0 <= i < j < |order| ==> counts[order[i]] <= counts[order[j]]
      invariant forall i, k :: 0 <= i < |order| && k in rest ==> counts[order[i]] <= counts[k]
      decreases |rest|
    {
      LeastCountExists(counts, rest);
      var k :| k in rest && forall j :: j in rest ==> counts[k] <= counts[j];
      var grown := order + [k];
      assert forall i :: 0 <= i < |order| ==> grown[i] == order[i];
      assert grown[|order|] == k;
      order, rest := grown, rest - {k};
    }
  }
}
