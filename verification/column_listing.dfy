/** The selection and sort behind `Table.printColsOfType`: the names of the
    columns of one declared type, in `sort.Strings` order. */
module ColumnListing {
  import opened GoTypes
  import opened Registry

  /** `sort.Strings` order: lexicographic by character code, a proper prefix
      first. On Unicode scalar values this agrees with Go's byte-wise
      comparison of UTF-8 strings. */
  predicate Less(a: string, b: string)
    // a proper prefix sorts first, and no name sorts before itself
    ensures a < b ==> Less(a, b)
    ensures Less(a, b) ==> a != b
    decreases |a|
  {
    |b| > 0 && (|a| == 0 || a[0] < b[0] || (a[0] == b[0] && Less(a[1..], b[1..])))
  }

  lemma {:induction false} LessIrreflexive(a: string)
    ensures !Less(a, a)
    decreases |a|
  {
    if |a| > 0 {
      LessIrreflexive(a[1..]);
    }
  }

  /** `Less` is the usual lexicographic order: at the first index where the
      two names differ, or where `a` ends, `a` has the smaller character. */
  lemma {:induction false} LessFirstDifference(a: string, b: string)
    ensures Less(a, b) <==>
      exists i :: 0 <= i <= |a| && i < |b| && a[..i] == b[..i] && (i == |a| || a[i] < b[i])
    decreases |a|
  {
    if |a| == 0 {
      if |b| > 0 {
        assert a[..0] == b[..0];
      }
    } else if |b| > 0 {
      if a[0] < b[0] {
        assert a[..0] == b[..0];
      } else if a[0] > b[0] {
        forall i | 0 < i <= |a| && i < |b| ensures a[..i] != b[..i] {
          assert a[..i][0] != b[..i][0];
        }
      } else {
        LessFirstDifference(a[1..], b[1..]);
        if Less(a, b) {
          var i :| 0 <= i <= |a[1..]| && i < |b[1..]| && a[1..][..i] == b[1..][..i]
            && (i == |a[1..]| || a[1..][i] < b[1..][i]);
          assert a[..i + 1] == [a[0]] + a[1..][..i];
          assert b[..i + 1] == [b[0]] + b[1..][..i];
        } else {
          forall i | 0 < i <= |a| && i < |b| && a[..i] == b[..i]
            ensures i != |a| && a[i] >= b[i]
          {
            assert a[1..][..i - 1] == a[..i][1..];
            assert b[1..][..i - 1] == b[..i][1..];
          }
        }
      }
    }
  }

  lemma {:induction false} LessTransitive(a: string, b: string, c: string)
    requires Less(a, b) && Less(b, c)
    ensures Less(a, c)
    decreases |a|
  {
    if |a| > 0 && a[0] == b[0] && b[0] == c[0] {
      LessTransitive(a[1..], b[1..], c[1..]);
    }
  }

  lemma {:induction false} LessTotal(a: string, b: string)
    requires a != b
    ensures Less(a, b) || Less(b, a)
    decreases |a|
  {
    if |a| > 0 && |b| > 0 && a[0] == b[0] {
      assert a[1..] != b[1..] by {
        assert a == [a[0]] + a[1..] && b == [b[0]] + b[1..];
      }
      LessTotal(a[1..], b[1..]);
    }
  }

  /** Strictly ascending, hence free of duplicates. */
  predicate StrictlySorted(s: seq<string>)
  {
    forall i, j :: 0 <= i < j < |s| ==> Less(s[i], s[j])
  }

  /** Inserts a new name into a strictly ascending list. */
  function Insert(s: seq<string>, x: string): (r: seq<string>)
    requires StrictlySorted(s) && x !in s
    ensures StrictlySorted(r)
    ensures |r| == |s| + 1
    ensures forall y :: y in r <==> y in s || y == x
    decreases |s|
  {
    if |s| == 0 then [x]
    else if Less(x, s[0]) then
      assert forall j :: 0 <= j < |s| ==> Less(x, s[j]) by {
        forall j | 0 < j < |s| ensures Less(x, s[j]) {
          LessTransitive(x, s[0], s[j]);
        }
      }
      [x] + s
    else
      LessTotal(x, s[0]);
      var rest := Insert(s[1..], x);
      assert forall j :: 0 <= j < |rest| ==> Less(s[0], rest[j]) by {
        forall j | 0 <= j < |rest| ensures Less(s[0], rest[j]) {
          assert rest[j] in rest;
        }
      }
      [s[0]] + rest
  }

  /** `sort.Strings` on a list without duplicates. */
  function SortStrings(s: seq<string>): (r: seq<string>)
    requires forall i, j :: 0 <= i < j < |s| ==> s[i] != s[j]
    ensures StrictlySorted(r)
    ensures |r| == |s|
    ensures forall y :: y in r <==> y in s
    decreases |s|
  {
    if |s| == 0 then []
    else
      var init := s[..|s| - 1];
      assert forall y :: y in init ==> y != s[|s| - 1];
      Insert(SortStrings(init), s[|s| - 1])
  }

  /** The type a column id is declared with; an unknown id reads as 0. */
  function TypeOf(t: Table, id: Int16): int
  {
    if id in t.keyTypes then t.keyTypes[id] else 0
  }

  /** Whether `printColsOfType(wanted)` lists the column named `n`. */
  predicate Selected(t: Table, wanted: int, n: string)
  {
    n in t.keyTable && TypeOf(t, t.keyTable[n]) == wanted
  }

  /** `printColsOfType` without the printing: the names it would print, in
      order. Ranging over the map keys, it keeps the names of type
      `wanted`, then sorts them. */
  method ColsOfType(t: Table, wanted: int) returns (keys: seq<string>)
    ensures forall n :: n in keys <==> Selected(t, wanted, n)
    ensures StrictlySorted(keys)
  {
    var found: seq<string> := [];
    var rest := t.keyTable.Keys;
    while rest != {}
      invariant rest <= t.keyTable.Keys
      invariant forall i, j :: 0 <= i < j < |found| ==> found[i] != found[j]
      invariant forall n :: n in found ==> Selected(t, wanted, n) && n !in rest
      invariant forall n :: Selected(t, wanted, n) ==> n in found || n in rest
      decreases |rest|
    {
      var n :| n in rest;
      if TypeOf(t, t.keyTable[n]) == wanted {
        found := found + [n];
      }
      rest := rest - {n};
    }
    keys := SortStrings(found);
  }

  /** The listing is determined by its contents: two strictly ascending lists
      of the same names are equal, whatever order the map was ranged in. */
  lemma {:induction false} SortedListUnique(a: seq<string>, b: seq<string>)
    requires StrictlySorted(a) && StrictlySorted(b)
    requires forall n :: n in a <==> n in b
    ensures a == b
    decreases |a|
  {
    assert |a| > 0 ==> a[0] in b;
    assert |b| > 0 ==> b[0] in a;
    if |a| > 0 && |b| > 0 {
      // both heads are the least element of the common set
      assert a[0] in b;
      assert b[0] in a;
      if a[0] != b[0] {
        var i :| 0 <= i < |b| && b[i] == a[0];
        var j :| 0 <= j < |a| && a[j] == b[0];
        assert Less(b[0], a[0]);
        assert Less(a[0], b[0]);
        LessTransitive(a[0], b[0], a[0]);
        LessIrreflexive(a[0]);
      }
      LessIrreflexive(a[0]);
      forall n ensures n in a[1..] <==> n in b[1..] {
        if n in a[1..] {
          var i :| 1 <= i < |a| && a[i] == n;
          assert n in b;
          var k :| 0 <= k < |b| && b[k] == n;
          assert k != 0;
          assert b[1..][k - 1] == n;
        }
        if n in b[1..] {
          var i :| 1 <= i < |b| && b[i] == n;
          assert n in a;
          var k :| 0 <= k < |a| && a[k] == n;
          assert k != 0;
          assert a[1..][k - 1] == n;
        }
      }
      SortedListUnique(a[1..], b[1..]);
      assert a == [a[0]] + a[1..] && b == [b[0]] + b[1..];
    }
  }
}
