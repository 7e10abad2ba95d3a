/** The landing histogram written at the end of a run (main.go:416-447): one
    row per block from the lowest to the highest block a confirmation landed
    in, with a bar of `*` proportional to the block's share of the processed
    transactions. Log output and the percentage column are not modelled. */
module Histogram {
  import RunLedger

  /** `math.MaxUint64`, the starting value of the running minimum. */
  const MaxUint64: nat := 0xFFFF_FFFF_FFFF_FFFF

  /** One histogram row: a block nobody landed in (count 0, no bar), or a block
      with its count and bar length. */
  datatype Row = Missing(block: nat) | Landed(block: nat, count: nat, stars: nat)

  /** The bar length: `count * 100 / processed` rounded up, so it is the least
      natural number whose multiple by `processed` covers `count * 100`. */
  function Stars(count: nat, processed: nat): (r: nat)
    requires processed > 0
    ensures r * processed >= count * 100
    ensures r == 0 || (r - 1) * processed < count * 100
  {
    var n := count * 100 + processed - 1;
    var r := n / processed;
    assert n == r * processed + n % processed;
    r
  }

  /** Multiplying by a natural keeps order. */
  lemma MulMono(a: int, b: int, p: int)
    requires a <= b && p >= 0
    ensures a * p <= b * p
  {
    assert b * p - a * p == (b - a) * p;
  }

  /** A positive factor can be cancelled from an inequality. */
  lemma MulCancel(a: int, b: int, p: int)
    requires p > 0
    ensures a * p < b * p ==> a < b
    ensures a * p <= b * p ==> a <= b
  {
    if b <= a {
      MulMono(b, a, p);
    }
    if b + 1 <= a {
      MulMono(b + 1, a, p);
    }
  }

  /** A block with at least one landing gets at least one star; a block
      holding at most all processed transactions gets at most one hundred,
      and one holding all of them gets exactly one hundred. */
  lemma StarsBounds(count: nat, processed: nat)
    requires processed > 0
    ensures count >= 1 ==> Stars(count, processed) >= 1
    ensures count <= processed ==> Stars(count, processed) <= 100
    ensures count == processed ==> Stars(count, processed) == 100
  {
    var r := Stars(count, processed);
    if r > 0 && count <= processed {
      MulCancel(r - 1, 100, processed);
    }
    if count == processed {
      MulCancel(100, r, processed);
    }
  }

  predicate IsLeast(blocks: map<nat, nat>, k: nat)
  {
    k in blocks && forall b :: b in blocks ==> k <= b
  }

  predicate IsGreatest(blocks: map<nat, nat>, k: nat)
  {
    k in blocks && forall b :: b in blocks ==> b <= k
  }

  /** The row shown for block `b`: `count, ok := TxBlocks[b]`. A block with
      no entry gets a bar-less row; any other shows its count and bar. */
  function RowFor(blocks: map<nat, nat>, processed: nat, b: nat): (r: Row)
    requires processed > 0
    ensures r.block == b
    ensures r.Landed? <==> b in blocks
    ensures r.Landed? ==> r.count == blocks[b] && r.stars * processed >= r.count * 100
    ensures r.Landed? ==> r.stars == 0 || (r.stars - 1) * processed < r.count * 100
  {
    if b in blocks then Landed(b, blocks[b], Stars(blocks[b], processed)) else Missing(b)
  }

  /** The first loop of `DisplayBlocks`: the running minimum starts at
      `math.MaxUint64` and the running maximum at zero, so for no blocks they
      stay there and the row range is empty. */
  method BlockRange(blocks: map<nat, nat>) returns (first: nat, last: nat)
    requires forall b :: b in blocks ==> b < MaxUint64
    ensures |blocks| == 0 ==> first == MaxUint64 && last == 0
    ensures |blocks| > 0 ==> IsLeast(blocks, first) && IsGreatest(blocks, last)
  {
    first, last := MaxUint64, 0;
    var todo, seen := blocks.Keys, {};
    while todo != {}
      invariant todo <= blocks.Keys && seen <= blocks.Keys
      invariant forall b :: b in blocks ==> b in seen || b in todo
      invariant seen == {} ==> first == MaxUint64 && last == 0
      invariant seen != {} ==> first in seen && last in seen
      invariant forall b :: b in seen ==> first <= b <= last
      decreases |todo|
    {
      var k :| k in todo;
      ghost var first0, last0 := first, last;
      if k < first { first := k; }
      if k > last { last := k; }
      assert first <= first0 && last0 <= last && first <= k <= last;
      todo, seen := todo - {k}, seen + {k};
    }
    EmptyKeys(blocks);
  }

  /** A map is empty exactly when its key set is. */
  lemma EmptyKeys(blocks: map<nat, nat>)
    ensures |blocks| == 0 <==> blocks.Keys == {}
  {
    if blocks.Keys == {} {
      assert blocks == map[];
    }
  }

  /** The second loop of `DisplayBlocks`: a row for each block from `first`
      to `last` inclusive, none when `first` is past `last`. */
  method RowsBetween(blocks: map<nat, nat>, processed: nat, first: nat, last: nat) returns (rows: seq<Row>)
    requires processed > 0
    ensures |rows| == if first <= last then last + 1 - first else 0
    ensures forall i :: 0 <= i < |rows| ==> rows[i] == RowFor(blocks, processed, first + i)
  {
    rows := [];
    var b := first;
    while b <= last
      invariant first <= b && (b <= last + 1 || b == first)
      invariant |rows| == b - first
      invariant forall i :: 0 <= i < |rows| ==> rows[i] == RowFor(blocks, processed, first + i)
      decreases last + 1 - b
    {
      rows := rows + [RowFor(blocks, processed, b)];
      b := b + 1;
    }
  }

  /** Rows built block by block from `first` carry consecutive block numbers,
      and each says whether its block received landings, how many, and the bar. */
  lemma RowsOfRange(blocks: map<nat, nat>, processed: nat, first: nat, rows: seq<Row>)
    requires processed > 0
    requires forall i :: 0 <= i < |rows| ==> rows[i] == RowFor(blocks, processed, first + i)
    ensures forall i :: 0 <= i < |rows| ==> rows[i].block == first + i
    ensures forall i :: 0 <= i < |rows| ==> (rows[i].Landed? <==> rows[i].block in blocks)
    ensures forall i :: 0 <= i < |rows| && rows[i].Landed? ==>
              rows[i].count == blocks[rows[i].block] && rows[i].stars == Stars(rows[i].count, processed)
  {
  }

  /** `DisplayBlocks`: one row per block from the lowest to the highest block,
      in increasing order. It is reached only after at least one confirmation
      was processed. A key equal to `math.MaxUint64` would make the source's
      `block++` wrap and never end the loop, so keys stay below it. */
  method DisplayBlocks(blocks: map<nat, nat>, processed: nat) returns (rows: seq<Row>)
    requires processed > 0
    requires forall b :: b in blocks ==> b < MaxUint64
    ensures |rows| == 0 <==> |blocks| == 0
    ensures |rows| > 0 ==> IsLeast(blocks, rows[0].block) && IsGreatest(blocks, rows[|rows| - 1].block)
    ensures forall i :: 0 <= i < |rows| ==> rows[i].block == rows[0].block + i
    ensures forall i :: 0 <= i < |rows| ==> (rows[i].Landed? <==> rows[i].block in blocks)
    ensures forall i :: 0 <= i < |rows| && rows[i].Landed? ==>
              rows[i].count == blocks[rows[i].block] && rows[i].stars == Stars(rows[i].count, processed)
    ensures forall b :: b in blocks ==> exists i :: 0 <= i < |rows| && rows[i].block == b
  {
    var first, last := BlockRange(blocks);
    rows := RowsBetween(blocks, processed, first, last);
    RowsOfRange(blocks, processed, first, rows);
    if |blocks| > 0 {
      assert rows[|rows| - 1] == RowFor(blocks, processed, last);
      forall k | k in blocks ensures exists i :: 0 <= i < |rows| && rows[i].block == k {
        assert rows[k - first].block == k;
      }
    }
  }

  /** In any reachable ledger every block that received a landing draws a bar
      of one to one hundred stars. */
  lemma BarsFit(l: RunLedger.Ledger, b: nat)
    requires RunLedger.Valid(l) && b in l.blocks
    ensures l.processed > 0
    ensures 1 <= Stars(l.blocks[b], l.processed) <= 100
  {
    RunLedger.TotalBounds(l.blocks, b);
    StarsBounds(l.blocks[b], l.processed);
  }
}
