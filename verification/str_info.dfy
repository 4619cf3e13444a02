/** Per-column frequency tables of interned string values (`StrInfo`). */
module StrInfos {
  import opened GoTypes

  /** Occurrence counts keyed by interned value id, and the cardinality that
      `prune` records. */
  datatype StrInfo = StrInfo(topStringCount: map<Int32, int>, cardinality: int)

  /** A table of frequency tables keyed by column id. */
  type StrInfoTable = map<Int16, StrInfo>

  /** Go's read of a map entry: an absent key reads as 0. */
  function CountOf(counts: map<Int32, int>, key: Int32): int
  {
    if key in counts then counts[key] else 0
  }

  /** The frequency table `update_str_info` starts from for a new column. */
  const EmptyStrInfo := StrInfo(map[], 0)

  /** `update_str_info`: creates an empty entry on first sight, then adds
      `increment` to the count of `int32(val)`. */
  function UpdateStrInfo(table: StrInfoTable, name: Int16, val: int, increment: int): (r: StrInfoTable)
    ensures r.Keys == table.Keys + {name}
    ensures forall n :: n in table && n != name ==> r[n] == table[n]
    ensures var before := if name in table then table[name] else EmptyStrInfo;
      var key := ToInt32(val);
      && r[name].cardinality == before.cardinality
      && r[name].topStringCount.Keys == before.topStringCount.Keys + {key}
      && r[name].topStringCount[key] == CountOf(before.topStringCount, key) + increment
      && forall k :: k in before.topStringCount && k != key ==>
           r[name].topStringCount[k] == before.topStringCount[k]
  {
    var info := if name in table then table[name] else EmptyStrInfo;
    var key := ToInt32(val);
    table[name := info.(topStringCount := info.topStringCount[key := CountOf(info.topStringCount, key) + increment])]
  }

  /** One call of `update_str_info` on a column: the raw value and the increment. */
  datatype Record = Record(val: int, increment: int)

  /** The table after applying `evs` to column `name`, in order. */
  function RecordAll(table: StrInfoTable, name: Int16, evs: seq<Record>): StrInfoTable
    decreases |evs|
  {
    if |evs| == 0 then table
    else
      var last := evs[|evs| - 1];
      UpdateStrInfo(RecordAll(table, name, evs[..|evs| - 1]), name, last.val, last.increment)
  }

  /** The ids the records of `evs` touch. */
  function IdsOf(evs: seq<Record>): set<Int32>
    decreases |evs|
  {
    if |evs| == 0 then {} else IdsOf(evs[..|evs| - 1]) + {ToInt32(evs[|evs| - 1].val)}
  }

  /** Total increment the records of `evs` add to `key`. */
  function MassOf(evs: seq<Record>, key: Int32): int
    decreases |evs|
  {
    if |evs| == 0 then 0
    else
      var last := evs[|evs| - 1];
      MassOf(evs[..|evs| - 1], key) + (if ToInt32(last.val) == key then last.increment else 0)
  }

  /** Recording into a fresh column: the column then holds exactly the ids
      touched, each with the total increment recorded for it, and its
      cardinality is still 0 (only `prune` sets it). */
  lemma {:induction false} RecordAllCounts(table: StrInfoTable, name: Int16, evs: seq<Record>)
    requires name !in table
    requires |evs| > 0
    ensures name in RecordAll(table, name, evs)
    ensures var info := RecordAll(table, name, evs)[name];
      && info.cardinality == 0
      && info.topStringCount.Keys == IdsOf(evs)
      && forall k :: CountOf(info.topStringCount, k) == MassOf(evs, k)
    decreases |evs|
  {
    var init := evs[..|evs| - 1];
    if |evs| > 1 {
      RecordAllCounts(table, name, init);
    } else {
      assert RecordAll(table, name, init) == table;
    }
  }

  /** Recording into one column never touches any other column. */
  lemma {:induction false} RecordAllFrame(table: StrInfoTable, name: Int16, evs: seq<Record>)
    ensures var r := RecordAll(table, name, evs);
      forall n :: n != name ==> (n in r <==> n in table) && (n in table ==> r[n] == table[n])
    decreases |evs|
  {
    if |evs| > 0 {
      RecordAllFrame(table, name, evs[..|evs| - 1]);
    }
  }
}
