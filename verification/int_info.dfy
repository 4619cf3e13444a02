/** Per-column integer summaries (`IntInfo`) and their update. */
module IntInfos {
  import opened GoTypes

  /** Summary of one integer column. `avg` is Go's float64 running mean,
      modelled here with exact rational arithmetic. */
  datatype IntInfo = IntInfo(min: int, max: int, avg: real, count: int)

  /** A table of summaries keyed by column id. */
  type IntInfoTable = map<Int16, IntInfo>

  /** The entry `update_int_info` creates for a column it has not seen. */
  function FirstSight(val: int): IntInfo
  {
    IntInfo(val, val, val as real, 1)
  }

  /** The update every call applies to the (possibly just created) entry.
      Go divides by float64(Count); an entry with Count 0 (never produced
      here) would get an infinite or NaN mean, so its avg is left as is. */
  function Observe(info: IntInfo, val: int): (r: IntInfo)
    // val lies inside [min, max]
    ensures r.min <= val <= r.max
    // min only falls and max only rises, each to val or not at all
    ensures r.min <= info.min && (r.min == info.min || r.min == val)
    ensures info.max <= r.max && (r.max == info.max || r.max == val)
    ensures r.count == info.count + 1
  {
    var max := if info.max < val then val else info.max;
    var min := if info.min > val then val else info.min;
    var avg := if info.count == 0 then info.avg
               else info.avg + (val as real - info.avg) / (info.count as real);
    IntInfo(min, max, avg, info.count + 1)
  }

  /** `update_int_info`: creates the entry on first sight (count 1), then falls
      through to the ordinary update, so a fresh entry ends with count 2. */
  function UpdateIntInfo(table: IntInfoTable, name: Int16, val: int): (r: IntInfoTable)
    ensures r.Keys == table.Keys + {name}
    ensures forall n :: n in table && n != name ==> r[n] == table[n]
    ensures r[name].min <= val <= r[name].max
    ensures name !in table ==> r[name] == IntInfo(val, val, val as real, 2)
    ensures name in table ==>
      && r[name].min <= table[name].min
      && table[name].max <= r[name].max
      && (r[name].min == table[name].min || r[name].min == val)
      && (r[name].max == table[name].max || r[name].max == val)
      && r[name].count == table[name].count + 1
  {
    var info := if name in table then table[name] else FirstSight(val);
    table[name := Observe(info, val)]
  }

  /** The table after feeding `vs` to column `name`, in order. */
  function UpdateAll(table: IntInfoTable, name: Int16, vs: seq<int>): IntInfoTable
    decreases |vs|
  {
    if |vs| == 0 then table
    else UpdateIntInfo(UpdateAll(table, name, vs[..|vs| - 1]), name, vs[|vs| - 1])
  }

  /** Least element of a non-empty sequence. */
  function SeqMin(vs: seq<int>): (m: int)
    requires |vs| > 0
    ensures m in vs
    ensures forall i :: 0 <= i < |vs| ==> m <= vs[i]
    decreases |vs|
  {
    if |vs| == 1 then vs[0]
    else
      var m' := SeqMin(vs[..|vs| - 1]);
      assert forall i :: 0 <= i < |vs| - 1 ==> vs[..|vs| - 1][i] == vs[i];
      if vs[|vs| - 1] < m' then vs[|vs| - 1] else m'
  }

  /** Greatest element of a non-empty sequence. */
  function SeqMax(vs: seq<int>): (m: int)
    requires |vs| > 0
    ensures m in vs
    ensures forall i :: 0 <= i < |vs| ==> vs[i] <= m
    decreases |vs|
  {
    if |vs| == 1 then vs[0]
    else
      var m' := SeqMax(vs[..|vs| - 1]);
      assert forall i :: 0 <= i < |vs| - 1 ==> vs[..|vs| - 1][i] == vs[i];
      if vs[|vs| - 1] > m' then vs[|vs| - 1] else m'
  }

  /** Sum of a sequence. */
  function Sum(vs: seq<int>): int
    decreases |vs|
  {
    if |vs| == 0 then 0 else Sum(vs[..|vs| - 1]) + vs[|vs| - 1]
  }

  /** Feeding values to one column never touches any other column. */
  lemma {:induction false} UpdateAllFrame(table: IntInfoTable, name: Int16, vs: seq<int>)
    ensures var r := UpdateAll(table, name, vs);
      && (|vs| > 0 ==> r.Keys == table.Keys + {name})
      && forall n :: n != name ==> (n in r <==> n in table) && (n in table ==> r[n] == table[n])
    decreases |vs|
  {
    if |vs| > 0 {
      UpdateAllFrame(table, name, vs[..|vs| - 1]);
    }
  }

  /** The entry a fresh column holds after `update_int_info` has seen the
      non-empty `vs`, in order. */
  function ColumnAfter(vs: seq<int>): IntInfo
    requires |vs| > 0
    decreases |vs|
  {
    var v := vs[|vs| - 1];
    if |vs| == 1 then Observe(FirstSight(v), v)
    else Observe(ColumnAfter(vs[..|vs| - 1]), v)
  }

  /** Feeding `vs` to a column absent from the table leaves `ColumnAfter(vs)` under it. */
  lemma {:induction false} UpdateAllColumn(table: IntInfoTable, name: Int16, vs: seq<int>)
    requires name !in table
    requires |vs| > 0
    ensures name in UpdateAll(table, name, vs)
    ensures UpdateAll(table, name, vs)[name] == ColumnAfter(vs)
    decreases |vs|
  {
    if |vs| > 1 {
      UpdateAllColumn(table, name, vs[..|vs| - 1]);
    }
  }

  /** After n >= 1 updates on a fresh column: min and max are the extremes of
      the values and count is n + 1 (the first update counts twice). */
  lemma {:induction false} ColumnAfterBounds(vs: seq<int>)
    requires |vs| > 0
    ensures var info := ColumnAfter(vs);
      && info.min == SeqMin(vs)
      && info.max == SeqMax(vs)
      && info.count == |vs| + 1
    decreases |vs|
  {
    var n := |vs|;
    var init := vs[..n - 1];
    var v := vs[n - 1];
    if n > 1 {
      ColumnAfterBounds(init);
      assert forall i :: 0 <= i < n - 1 ==> init[i] == vs[i];
    }
  }

  /** Whether `avg` is the arithmetic mean of the non-empty `vs`. */
  ghost predicate IsMeanOf(avg: real, vs: seq<int>)
    requires |vs| > 0
  {
    avg * (|vs| as real) == Sum(vs) as real
  }

  /** One step of the incremental mean, over the rationals: if `info.avg` is
      the mean of the values before the last of `vs`, then observing that
      last value with `info.count == |vs|` leaves the mean of all of `vs`. */
  lemma ObserveMean(info: IntInfo, vs: seq<int>)
    requires |vs| >= 2 && info.count == |vs|
    requires IsMeanOf(info.avg, vs[..|vs| - 1])
    ensures IsMeanOf(Observe(info, vs[|vs| - 1]).avg, vs)
  {
  }

  /** After n >= 1 updates on a fresh column avg is the arithmetic mean of
      the values: the count overshoot makes every division use the number
      of values seen so far. */
  lemma {:induction false} ColumnAfterMean(vs: seq<int>)
    requires |vs| > 0
    ensures IsMeanOf(ColumnAfter(vs).avg, vs)
    decreases |vs|
  {
    var init := vs[..|vs| - 1];
    var v := vs[|vs| - 1];
    assert Sum(vs) == Sum(init) + v;
    if |vs| == 1 {
      assert init == [];
      assert ColumnAfter(vs).avg == v as real;
      assert IsMeanOf(ColumnAfter(vs).avg, vs);
    } else {
      ColumnAfterMean(init);
      ColumnAfterBounds(init);
      ObserveMean(ColumnAfter(init), vs);
    }
  }

  /** The same, read through the table `update_int_info` maintains. */
  lemma UpdateAllSummary(table: IntInfoTable, name: Int16, vs: seq<int>)
    requires name !in table
    requires |vs| > 0
    ensures name in UpdateAll(table, name, vs)
    ensures UpdateAll(table, name, vs)[name].min == SeqMin(vs)
    ensures UpdateAll(table, name, vs)[name].max == SeqMax(vs)
    ensures UpdateAll(table, name, vs)[name].count == |vs| + 1
    ensures IsMeanOf(UpdateAll(table, name, vs)[name].avg, vs)
  {
    UpdateAllColumn(table, name, vs);
    ColumnAfterBounds(vs);
    ColumnAfterMean(vs);
  }

  /** The sum of a concatenation is the sum of the parts. */
  lemma {:induction false} SumConcat(a: seq<int>, b: seq<int>)
    ensures Sum(a + b) == Sum(a) + Sum(b)
    decreases |b|
  {
    if |b| > 0 {
      assert (a + b)[..|a + b| - 1] == a + b[..|b| - 1];
      SumConcat(a, b[..|b| - 1]);
    } else {
      assert a + b == a;
    }
  }

  /** Reordering values does not change their sum. */
  lemma {:induction false} SumPermutation(a: seq<int>, b: seq<int>)
    requires multiset(a) == multiset(b)
    ensures Sum(a) == Sum(b)
    decreases |a|
  {
    if |a| == 0 {
      assert |b| == |multiset(b)| == 0;
    } else {
      var x := a[|a| - 1];
      var a' := a[..|a| - 1];
      assert a == a' + [x];
      assert x in multiset(b);
      var i :| 0 <= i < |b| && b[i] == x;
      var b' := b[..i] + b[i + 1..];
      assert b == b[..i] + [x] + b[i + 1..];
      calc {
        multiset(b);
        multiset(b[..i] + [x] + b[i + 1..]);
        multiset(b[..i]) + multiset{x} + multiset(b[i + 1..]);
        multiset(b') + multiset{x};
      }
      assert multiset(a) == multiset(a') + multiset{x};
      forall y ensures multiset(a')[y] == multiset(b')[y] {
        assert multiset(a)[y] == multiset(b)[y];
      }
      assert multiset(a') == multiset(b');
      SumPermutation(a', b');
      SumConcat(b[..i] + [x], b[i + 1..]);
      SumConcat(b[..i], [x]);
      SumConcat(b[..i], b[i + 1..]);
      assert Sum([x]) == x by { assert [x][..0] == []; }
    }
  }

  /** Two means of value sequences of the same length and sum coincide. */
  lemma MeanUnique(a: real, b: real, vs: seq<int>, ws: seq<int>)
    requires |vs| == |ws| > 0 && Sum(vs) == Sum(ws)
    requires IsMeanOf(a, vs) && IsMeanOf(b, ws)
    ensures a == b
  {
  }

  /** Order independence: a fresh column fed the same values in any order
      ends with the same entry, avg included. */
  lemma ColumnAfterPermutation(vs: seq<int>, ws: seq<int>)
    requires |vs| > 0
    requires multiset(vs) == multiset(ws)
    ensures |ws| > 0
    ensures ColumnAfter(vs) == ColumnAfter(ws)
  {
    assert |ws| == |multiset(ws)| == |multiset(vs)| == |vs|;
    ColumnAfterBounds(vs);
    ColumnAfterBounds(ws);
    ColumnAfterMean(vs);
    ColumnAfterMean(ws);
    SumPermutation(vs, ws);
    var r1 := ColumnAfter(vs);
    var r2 := ColumnAfter(ws);
    assert forall x :: x in vs <==> x in ws by {
      forall x ensures x in vs <==> x in ws {
        assert x in vs <==> x in multiset(vs);
        assert x in ws <==> x in multiset(ws);
      }
    }
    assert r1.min == r2.min;
    assert r1.max == r2.max;
    MeanUnique(r1.avg, r2.avg, vs, ws);
  }

  /** The same, read through the whole table. */
  lemma UpdateAllPermutation(table: IntInfoTable, name: Int16, vs: seq<int>, ws: seq<int>)
    requires name !in table
    requires |vs| > 0
    requires multiset(vs) == multiset(ws)
    ensures UpdateAll(table, name, vs) == UpdateAll(table, name, ws)
  {
    ColumnAfterPermutation(vs, ws);
    UpdateAllColumn(table, name, vs);
    UpdateAllColumn(table, name, ws);
    UpdateAllFrame(table, name, vs);
    UpdateAllFrame(table, name, ws);
  }

  /** Feeding 3, 1, 4, 1, 5 to a fresh column: min 1, max 5, mean 2.8, and
      count 6, one more than the number of values. */
  lemma FiveValuesExample()
    ensures ColumnAfter([3, 1, 4, 1, 5]) == IntInfo(1, 5, 2.8, 6)
  {
    assert [3, 1, 4, 1, 5][..4] == [3, 1, 4, 1];
    assert [3, 1, 4, 1][..3] == [3, 1, 4];
    assert [3, 1, 4][..2] == [3, 1];
    assert [3, 1][..1] == [3];
  }
}
