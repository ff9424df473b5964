/** The year-summary worksheet as the model sees it: cell addresses mapped
    to the values written into them, and `update_value` as an overwrite. */
module Worksheet {

  /** What a write puts into a cell: an amount or a label (a month name,
      an item or a category description). */
  datatype CellValue = Number(amount: real) | Label(text: string)

  /** One `worksheet.update_value(address, value)` call. */
  datatype Write = Write(address: string, value: CellValue)

  type Sheet = map<string, CellValue>

  /** The addresses of `ws`, in order. */
  function Addresses(ws: seq<Write>): (r: seq<string>)
    ensures |r| == |ws|
    ensures forall k :: 0 <= k < |ws| ==> r[k] == ws[k].address
  {
    seq(|ws|, k requires 0 <= k < |ws| => ws[k].address)
  }

  /** No two writes of `ws` go to the same cell. */
  predicate DistinctAddresses(ws: seq<Write>) {
    forall p, q :: 0 <= p < q < |ws| ==> ws[p].address != ws[q].address
  }

  /** Performs the writes in order; a later write to a cell replaces an earlier one. */
  function ApplyWrites(sheet: Sheet, ws: seq<Write>): (r: Sheet)
    ensures forall a :: a in r <==> a in sheet || a in Addresses(ws)
  {
    if |ws| == 0 then sheet
    else
      var last := ws[|ws| - 1];
      assert Addresses(ws) == Addresses(ws[..|ws| - 1]) + [last.address];
      ApplyWrites(sheet, ws[..|ws| - 1])[last.address := last.value]
  }

  /** When no cell is written twice, every written cell holds what was
      written to it and every other cell keeps its content. */
  lemma {:induction false} ApplyDistinctWrites(sheet: Sheet, ws: seq<Write>)
    requires DistinctAddresses(ws)
    ensures forall k :: 0 <= k < |ws| ==> ApplyWrites(sheet, ws)[ws[k].address] == ws[k].value
    ensures forall a :: a in sheet && a !in Addresses(ws) ==> ApplyWrites(sheet, ws)[a] == sheet[a]
    decreases |ws|
  {
    if |ws| > 0 {
      var p := ws[..|ws| - 1];
      ApplyDistinctWrites(sheet, p);
      assert Addresses(ws) == Addresses(p) + [ws[|ws| - 1].address];
    }
  }
}
