/** The scope registry: table-owned integer summaries, and the two
    process-wide maps `INT_INFO_BLOCK` / `STR_INFO_BLOCK` keyed by block
    name, passed here as explicit state. */
module Registry {
  import opened GoTypes
  import opened IntInfos
  import opened StrInfos

  /** The fields of `Table` this bookkeeping reads or writes; the type itself
      is declared elsewhere in the repository. `keyTable` maps column names
      to ids and `keyTypes` ids to type tags. */
  datatype Table = Table(intInfo: IntInfoTable, keyTable: map<string, Int16>, keyTypes: map<Int16, int>)

  /** A block is known here only by its name. */
  datatype TableBlock = TableBlock(name: string)

  /** `INT_INFO_BLOCK` and `STR_INFO_BLOCK`. */
  datatype Blocks = Blocks(intInfoBlock: map<string, IntInfoTable>, strInfoBlock: map<string, StrInfoTable>)

  /** Both registries as the process starts: empty. */
  const NoBlocks := Blocks(map[], map[])

  /** A read result: `None` where Go returns a nil pointer. */
  datatype Option<T> = None | Some(value: T)

  /** `Table.get_int_info`: nil when the column was never written. */
  function TableGetIntInfo(t: Table, name: Int16): (r: Option<IntInfo>)
    ensures r.Some? <==> name in t.intInfo
    ensures r.Some? ==> r.value == t.intInfo[name]
  {
    if name in t.intInfo then Some(t.intInfo[name]) else None
  }

  /** `Table.update_int_info`: updates the table-owned summaries only. */
  function TableUpdateIntInfo(t: Table, name: Int16, val: int): (r: Table)
    ensures r.keyTable == t.keyTable && r.keyTypes == t.keyTypes
    ensures TableGetIntInfo(r, name).Some?
    ensures TableGetIntInfo(r, name).value.min <= val <= TableGetIntInfo(r, name).value.max
    ensures TableGetIntInfo(t, name).None? ==>
      var now := TableGetIntInfo(r, name).value;
      now.min == val == now.max && now.count == 2
    ensures TableGetIntInfo(t, name).Some? ==>
      var before, now := TableGetIntInfo(t, name).value, TableGetIntInfo(r, name).value;
      && now.min <= before.min && before.max <= now.max
      && (now.min == before.min || now.min == val)
      && (now.max == before.max || now.max == val)
      && now.count == before.count + 1
    ensures forall n :: n != name ==> TableGetIntInfo(r, n) == TableGetIntInfo(t, n)
  {
    t.(intInfo := UpdateIntInfo(t.intInfo, name, val))
  }

  /** `TableBlock.get_int_info`: nil when the block or the column was never written. */
  function BlockGetIntInfo(blocks: Blocks, tb: TableBlock, name: Int16): (r: Option<IntInfo>)
    ensures r.Some? <==> tb.name in blocks.intInfoBlock && name in blocks.intInfoBlock[tb.name]
    ensures r.Some? ==> r.value == blocks.intInfoBlock[tb.name][name]
  {
    if tb.name in blocks.intInfoBlock && name in blocks.intInfoBlock[tb.name]
    then Some(blocks.intInfoBlock[tb.name][name])
    else None
  }

  /** `TableBlock.get_str_info`: nil when the block or the column was never written. */
  function BlockGetStrInfo(blocks: Blocks, tb: TableBlock, name: Int16): (r: Option<StrInfo>)
    ensures r.Some? <==> tb.name in blocks.strInfoBlock && name in blocks.strInfoBlock[tb.name]
    ensures r.Some? ==> r.value == blocks.strInfoBlock[tb.name][name]
  {
    if tb.name in blocks.strInfoBlock && name in blocks.strInfoBlock[tb.name]
    then Some(blocks.strInfoBlock[tb.name][name])
    else None
  }

  /** `TableBlock.update_int_info`: gets or creates the block's table under
      its name, then updates it. */
  function BlockUpdateIntInfo(blocks: Blocks, tb: TableBlock, name: Int16, val: int): (r: Blocks)
    ensures tb.name in r.intInfoBlock
    ensures r.strInfoBlock == blocks.strInfoBlock
    ensures forall b :: b != tb.name ==>
      && (b in r.intInfoBlock <==> b in blocks.intInfoBlock)
      && (b in blocks.intInfoBlock ==> r.intInfoBlock[b] == blocks.intInfoBlock[b])
    ensures BlockGetIntInfo(r, tb, name).Some?
    ensures BlockGetIntInfo(r, tb, name).value.min <= val <= BlockGetIntInfo(r, tb, name).value.max
    ensures BlockGetIntInfo(blocks, tb, name).None? ==>
      var now := BlockGetIntInfo(r, tb, name).value;
      now.min == val == now.max && now.count == 2
    ensures BlockGetIntInfo(blocks, tb, name).Some? ==>
      var before, now := BlockGetIntInfo(blocks, tb, name).value, BlockGetIntInfo(r, tb, name).value;
      && now.min <= before.min && before.max <= now.max
      && (now.min == before.min || now.min == val)
      && (now.max == before.max || now.max == val)
      && now.count == before.count + 1
    ensures forall n :: n != name ==> BlockGetIntInfo(r, tb, n) == BlockGetIntInfo(blocks, tb, n)
  {
    var table := if tb.name in blocks.intInfoBlock then blocks.intInfoBlock[tb.name] else map[];
    blocks.(intInfoBlock := blocks.intInfoBlock[tb.name := UpdateIntInfo(table, name, val)])
  }

  /** `TableBlock.update_str_info`: gets or creates the block's table under
      its name, then adds `increment` to the count of `int32(val)`. */
  function BlockUpdateStrInfo(blocks: Blocks, tb: TableBlock, name: Int16, val: int, increment: int): (r: Blocks)
    ensures tb.name in r.strInfoBlock
    ensures r.intInfoBlock == blocks.intInfoBlock
    ensures forall b :: b != tb.name ==>
      && (b in r.strInfoBlock <==> b in blocks.strInfoBlock)
      && (b in blocks.strInfoBlock ==> r.strInfoBlock[b] == blocks.strInfoBlock[b])
    ensures BlockGetStrInfo(r, tb, name).Some?
    ensures var read := BlockGetStrInfo(blocks, tb, name);
      var before := if read.Some? then read.value else EmptyStrInfo;
      var after := BlockGetStrInfo(r, tb, name).value;
      && after.cardinality == before.cardinality
      && after.topStringCount.Keys == before.topStringCount.Keys + {ToInt32(val)}
      && CountOf(after.topStringCount, ToInt32(val)) == CountOf(before.topStringCount, ToInt32(val)) + increment
      && forall k :: k != ToInt32(val) ==> CountOf(after.topStringCount, k) == CountOf(before.topStringCount, k)
    ensures forall n :: n != name ==> BlockGetStrInfo(r, tb, n) == BlockGetStrInfo(blocks, tb, n)
  {
    var table := if tb.name in blocks.strInfoBlock then blocks.strInfoBlock[tb.name] else map[];
    blocks.(strInfoBlock := blocks.strInfoBlock[tb.name := UpdateStrInfo(table, name, val, increment)])
  }

  // ---------------------------------------------------------------------------
  // Histories of block writes

  /** One call of `TableBlock.update_int_info` or `TableBlock.update_str_info`. */
  datatype Write =
    | IntWrite(block: string, name: Int16, val: int)
    | StrWrite(block: string, name: Int16, val: int, increment: int)

  function Apply(blocks: Blocks, w: Write): Blocks
  {
    match w
    case IntWrite(b, n, v) => BlockUpdateIntInfo(blocks, TableBlock(b), n, v)
    case StrWrite(b, n, v, inc) => BlockUpdateStrInfo(blocks, TableBlock(b), n, v, inc)
  }

  /** The registries after the writes `ws`, in order, from process start. */
  function Replay(ws: seq<Write>): Blocks
    decreases |ws|
  {
    if |ws| == 0 then NoBlocks else Apply(Replay(ws[..|ws| - 1]), ws[|ws| - 1])
  }

  /** Whether some write of `ws` is an integer write to column `name` of block `b`. */
  predicate IntWritten(ws: seq<Write>, b: string, name: Int16)
  {
    exists i :: 0 <= i < |ws| && ws[i].IntWrite? && ws[i].block == b && ws[i].name == name
  }

  /** Whether some write of `ws` is a string write to column `name` of block `b`. */
  predicate StrWritten(ws: seq<Write>, b: string, name: Int16)
  {
    exists i :: 0 <= i < |ws| && ws[i].StrWrite? && ws[i].block == b && ws[i].name == name
  }

  /** One write makes a (block, column) pair readable exactly when it is
      addressed there, and never makes a readable pair unreadable. */
  lemma ApplyReads(blocks: Blocks, w: Write, b: string, name: Int16)
    ensures BlockGetIntInfo(Apply(blocks, w), TableBlock(b), name).Some? <==>
      BlockGetIntInfo(blocks, TableBlock(b), name).Some? || (w.IntWrite? && w.block == b && w.name == name)
    ensures BlockGetStrInfo(Apply(blocks, w), TableBlock(b), name).Some? <==>
      BlockGetStrInfo(blocks, TableBlock(b), name).Some? || (w.StrWrite? && w.block == b && w.name == name)
  {
  }

  /** Reads answer nil exactly for the (block, column) pairs no write of that
      kind ever touched. */
  lemma {:induction false} ReplayReads(ws: seq<Write>, b: string, name: Int16)
    ensures BlockGetIntInfo(Replay(ws), TableBlock(b), name).Some? <==> IntWritten(ws, b, name)
    ensures BlockGetStrInfo(Replay(ws), TableBlock(b), name).Some? <==> StrWritten(ws, b, name)
    decreases |ws|
  {
    if |ws| > 0 {
      var init := ws[..|ws| - 1];
      var w := ws[|ws| - 1];
      ReplayReads(init, b, name);
      ApplyReads(Replay(init), w, b, name);
      assert Replay(ws) == Apply(Replay(init), w);
      assert IntWritten(ws, b, name) <==> IntWritten(init, b, name) || (w.IntWrite? && w.block == b && w.name == name) by {
        WrittenSplit(ws);
      }
      assert StrWritten(ws, b, name) <==> StrWritten(init, b, name) || (w.StrWrite? && w.block == b && w.name == name) by {
        WrittenSplit(ws);
      }
    } else {
      assert Replay(ws) == NoBlocks;
    }
  }

  /** A write is in a history exactly when it is in all but the last write,
      or is the last one. */
  lemma WrittenSplit(ws: seq<Write>)
    requires |ws| > 0
    ensures var init := ws[..|ws| - 1]; var w := ws[|ws| - 1];
      forall b, name ::
        && (IntWritten(ws, b, name) <==> IntWritten(init, b, name) || (w.IntWrite? && w.block == b && w.name == name))
        && (StrWritten(ws, b, name) <==> StrWritten(init, b, name) || (w.StrWrite? && w.block == b && w.name == name))
  {
  }

  /** The writes of `ws` addressed to block `b`, in order. */
  function WritesTo(ws: seq<Write>, b: string): (r: seq<Write>)
    ensures forall i :: 0 <= i < |r| ==> r[i].block == b
    decreases |ws|
  {
    if |ws| == 0 then []
    else
      var w := ws[|ws| - 1];
      WritesTo(ws[..|ws| - 1], b) + (if w.block == b then [w] else [])
  }

  /** Scope isolation: what a block reads back depends only on the writes
      addressed to that block. */
  lemma {:induction false} ReplayIsolation(ws: seq<Write>, b: string)
    ensures var r := Replay(ws);
      var own := Replay(WritesTo(ws, b));
      && (b in r.intInfoBlock <==> b in own.intInfoBlock)
      && (b in r.intInfoBlock ==> r.intInfoBlock[b] == own.intInfoBlock[b])
      && (b in r.strInfoBlock <==> b in own.strInfoBlock)
      && (b in r.strInfoBlock ==> r.strInfoBlock[b] == own.strInfoBlock[b])
    decreases |ws|
  {
    if |ws| > 0 {
      var init := ws[..|ws| - 1];
      var w := ws[|ws| - 1];
      ReplayIsolation(init, b);
      if w.block == b {
        var own := WritesTo(ws, b);
        assert own[..|own| - 1] == WritesTo(init, b);
        assert own[|own| - 1] == w;
      } else {
        assert WritesTo(ws, b) == WritesTo(init, b);
      }
    }
  }
}
