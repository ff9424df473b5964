/** The ranking writer `update_lists` (finance_manager.py lines 119-133):
    sort the (label, amount) pairs, keep at most the requested number, and
    write entry `i` as its amount at the anchor's column, row `R + 3i`, and
    its label three columns to the left on the same row. */
module Ranking {
  import Decimal
  import opened Sorting
  import opened Worksheet

  /** An anchor address `update_lists` can use: one column character, then
      the row as decimal digits (what `int(address[1:])` accepts here), with
      a column three code points to the left of it. */
  predicate ValidAnchor(anchor: string) {
    && |anchor| >= 2
    && Decimal.AllDigits(anchor[1..])
    && 3 <= anchor[0] as int
    && !(0xD800 <= anchor[0] as int - 3 < 0xE000)
  }

  /** `int(address[1:])`. */
  function Row(anchor: string): nat
    requires ValidAnchor(anchor)
  {
    Decimal.DigitsValue(anchor[1..])
  }

  /** `chr(ord(address[0]) - 3)`: the label column. */
  function LabelColumn(anchor: string): (c: char)
    requires ValidAnchor(anchor)
    ensures c as int + 3 == anchor[0] as int
  {
    (anchor[0] as int - 3) as char
  }

  /** Where entry `i` puts its amount: the anchor's column, row `R + 3i`. */
  function ValueCell(anchor: string, i: nat): (r: string)
    requires ValidAnchor(anchor)
    ensures |r| >= 2 && r[0] == anchor[0]
    ensures Decimal.Canonical(r[1..]) && Decimal.DigitsValue(r[1..]) == Row(anchor) + 3 * i
  {
    var r := [anchor[0]] + Decimal.NatToString(Row(anchor) + 3 * i);
    assert r[1..] == Decimal.NatToString(Row(anchor) + 3 * i);
    r
  }

  /** Where entry `i` puts its label: three columns left, same row. */
  function LabelCell(anchor: string, i: nat): (r: string)
    requires ValidAnchor(anchor)
    ensures |r| >= 2 && r[0] as int + 3 == anchor[0] as int
    ensures r[1..] == ValueCell(anchor, i)[1..]
  {
    var r := [LabelColumn(anchor)] + Decimal.NatToString(Row(anchor) + 3 * i);
    assert r[1..] == Decimal.NatToString(Row(anchor) + 3 * i);
    r
  }

  /** For an anchor written without leading zeros, entry 0 lands on the
      anchor itself (`int` drops leading zeros, so "B05" would become "B5"). */
  lemma FirstValueAtAnchor(anchor: string)
    requires ValidAnchor(anchor) && Decimal.Canonical(anchor[1..])
    ensures ValueCell(anchor, 0) == anchor
  {
    Decimal.NatToStringOfCanonical(anchor[1..]);
    assert anchor == [anchor[0]] + anchor[1..];
  }

  /** The number of entries written: `num_of_items`, lowered to the list
      length when it exceeds it; `range` of a negative count is empty. */
  function Count(n: int, len: nat): (k: nat)
    ensures k <= len
    ensures k == if n <= 0 then 0 else if n < len then n else len
  {
    if n > len then len else if n < 0 then 0 else n
  }

  /** The amount cell (`isLabel` false) or the label cell (`isLabel` true) of entry `i`. */
  function Cell(anchor: string, i: nat, isLabel: bool): string
    requires ValidAnchor(anchor)
  {
    if isLabel then LabelCell(anchor, i) else ValueCell(anchor, i)
  }

  /** Different (entry, side) pairs name different cells. */
  lemma CellsDistinct(anchor: string, i: nat, li: bool, j: nat, lj: bool)
    requires ValidAnchor(anchor) && (i != j || li != lj)
    ensures Cell(anchor, i, li) != Cell(anchor, j, lj)
  {
    var ci, cj := Cell(anchor, i, li), Cell(anchor, j, lj);
    var vi, vj := ValueCell(anchor, i), ValueCell(anchor, j);
    assert ci[1..] == vi[1..] && cj[1..] == vj[1..];
    if i != j {
      assert Decimal.DigitsValue(vi[1..]) != Decimal.DigitsValue(vj[1..]);
    } else {
      assert ci[0] != cj[0];
    }
  }

  /** The writes of the loop body for entries `0 .. k-1`, in order: the
      amount cell first, then the label cell. */
  function RankWrites(sorted: seq<Entry>, anchor: string, k: nat): (r: seq<Write>)
    requires ValidAnchor(anchor) && k <= |sorted|
    ensures |r| == 2 * k
    ensures forall i :: 0 <= i < k ==>
              r[2 * i] == Write(ValueCell(anchor, i), Number(sorted[i].1))
    ensures forall i :: 0 <= i < k ==>
              r[2 * i + 1] == Write(LabelCell(anchor, i), Label(sorted[i].0))
  {
    if k == 0 then []
    else
      RankWrites(sorted, anchor, k - 1)
        + [Write(ValueCell(anchor, k - 1), Number(sorted[k - 1].1)),
           Write(LabelCell(anchor, k - 1), Label(sorted[k - 1].0))]
  }

  /** `update_lists(stats, address, worksheet, reverse, num_of_items)`: the
      list as the in-place sort leaves it, and the writes made to the sheet. */
  function UpdateLists(stats: seq<Entry>, anchor: string, descending: bool, n: int)
    : (r: (seq<Entry>, seq<Write>))
    requires ValidAnchor(anchor)
    ensures |r.0| == |stats| && Sorted(r.0, descending) && multiset(r.0) == multiset(stats)
    ensures StableReorder(r.0, stats)
    ensures |r.1| == 2 * Count(n, |stats|)
    ensures n >= |stats| ==> |r.1| == 2 * |stats|
    ensures forall i :: 0 <= i < Count(n, |stats|) ==>
              && r.1[2 * i] == Write(ValueCell(anchor, i), Number(r.0[i].1))
              && r.1[2 * i + 1] == Write(LabelCell(anchor, i), Label(r.0[i].0))
  {
    var sorted := Sort(stats, descending);
    (sorted, RankWrites(sorted, anchor, Count(n, |stats|)))
  }

  /** Write `p` of the loop addresses the amount cell of entry `p / 2` when
      `p` is even and its label cell when `p` is odd. */
  lemma RankWriteAddress(sorted: seq<Entry>, anchor: string, k: nat, p: nat)
    requires ValidAnchor(anchor) && k <= |sorted| && p < 2 * k
    ensures RankWrites(sorted, anchor, k)[p].address == Cell(anchor, p / 2, p % 2 == 1)
  {
    var i := p / 2;
    if p % 2 == 0 {
      assert p == 2 * i;
    } else {
      assert p == 2 * i + 1;
    }
  }

  /** Every write of the loop, by its index. */
  lemma RankWriteCells(sorted: seq<Entry>, anchor: string, k: nat)
    requires ValidAnchor(anchor) && k <= |sorted|
    ensures forall p :: 0 <= p < 2 * k ==>
              RankWrites(sorted, anchor, k)[p].address == Cell(anchor, p / 2, p % 2 == 1)
  {
    forall p | 0 <= p < 2 * k
      ensures RankWrites(sorted, anchor, k)[p].address == Cell(anchor, p / 2, p % 2 == 1)
    {
      RankWriteAddress(sorted, anchor, k, p);
    }
  }

  /** Two different write indices name different cells. */
  lemma WriteIndexCellsDistinct(anchor: string, p: nat, q: nat)
    requires ValidAnchor(anchor) && p < q
    ensures Cell(anchor, p / 2, p % 2 == 1) != Cell(anchor, q / 2, q % 2 == 1)
  {
    CellsDistinct(anchor, p / 2, p % 2 == 1, q / 2, q % 2 == 1);
  }

  /** The loop never writes a cell twice. */
  lemma RankWritesDistinct(sorted: seq<Entry>, anchor: string, k: nat)
    requires ValidAnchor(anchor) && k <= |sorted|
    ensures DistinctAddresses(RankWrites(sorted, anchor, k))
  {
    var ws := RankWrites(sorted, anchor, k);
    RankWriteCells(sorted, anchor, k);
    forall p, q | 0 <= p < q < |ws|
      ensures ws[p].address != ws[q].address
    {
      WriteIndexCellsDistinct(anchor, p, q);
    }
  }

  /** Distinct ranks give distinct rows, and amount and label cells differ in
      their column, so one call never writes the same cell twice. */
  lemma UpdateListsDistinct(stats: seq<Entry>, anchor: string, descending: bool, n: int)
    requires ValidAnchor(anchor)
    ensures DistinctAddresses(UpdateLists(stats, anchor, descending, n).1)
  {
    RankWritesDistinct(Sort(stats, descending), anchor, Count(n, |stats|));
  }

  /** The sheet after one `update_lists` call: the amount and label of entry
      `i` of the sorted list sit in its two cells, every other cell is as before. */
  lemma UpdateListsSheet(sheet: Sheet, stats: seq<Entry>, anchor: string, descending: bool, n: int)
    requires ValidAnchor(anchor)
    ensures var (sorted, ws) := UpdateLists(stats, anchor, descending, n);
            var after := ApplyWrites(sheet, ws);
            && (forall i :: 0 <= i < Count(n, |stats|) ==>
                  && after[ValueCell(anchor, i)] == Number(sorted[i].1)
                  && after[LabelCell(anchor, i)] == Label(sorted[i].0))
            && (forall a :: a in sheet && a !in Addresses(ws) ==> after[a] == sheet[a])
  {
    var (sorted, ws) := UpdateLists(stats, anchor, descending, n);
    UpdateListsDistinct(stats, anchor, descending, n);
    ApplyDistinctWrites(sheet, ws);
    forall i | 0 <= i < Count(n, |stats|)
      ensures ApplyWrites(sheet, ws)[ValueCell(anchor, i)] == Number(sorted[i].1)
      ensures ApplyWrites(sheet, ws)[LabelCell(anchor, i)] == Label(sorted[i].0)
    {
      assert ws[2 * i].address == ValueCell(anchor, i);
      assert ws[2 * i + 1].address == LabelCell(anchor, i);
    }
  }

  /** The first amount written, at the anchor's row, is the largest of the
      list when sorting descending and the smallest when ascending. */
  lemma UpdateListsTop(stats: seq<Entry>, anchor: string, descending: bool, n: int)
    requires ValidAnchor(anchor) && n > 0 && |stats| > 0
    ensures var ws := UpdateLists(stats, anchor, descending, n).1;
            && |ws| > 0 && ws[0].address == ValueCell(anchor, 0) && ws[0].value.Number?
            && (exists e :: e in stats && e.1 == ws[0].value.amount)
            && forall e :: e in stats ==> InOrder(descending, ws[0].value.amount, e.1)
  {
    var (sorted, ws) := UpdateLists(stats, anchor, descending, n);
    assert ws[0] == Write(ValueCell(anchor, 0), Number(sorted[0].1));
    assert sorted[0] in multiset(stats);
    forall e | e in stats
      ensures InOrder(descending, sorted[0].1, e.1)
    {
      assert e in multiset(sorted);
      var k :| 0 <= k < |sorted| && sorted[k] == e;
      if k > 0 {
        assert InOrder(descending, sorted[0].1, sorted[k].1);
      }
    }
  }
}
