/** GetDown of web/srv.go: query rows laid out on the sheets of a workbook. */
module Pagination {

  type Row = seq<string>

  /** "Sheet%d" and its rows, the header first. */
  datatype Sheet = Sheet(number: nat, rows: seq<Row>)

  /** cnt counts from 1 and starts a new sheet at 65534. */
  const DATA_ROWS := 65533

  function Min(a: int, b: int): int {
    if a < b then a else b
  }

  /** The k-th sheet of a full layout. */
  predicate IsPage(sheet: Sheet, k: nat, items: seq<Row>, cols: Row) {
    && DATA_ROWS * k < |items|
    && sheet == Sheet(k + 1, [cols] + items[DATA_ROWS * k..Min(DATA_ROWS * (k + 1), |items|)])
  }

  /** The workbook of `items`: ceil(n / 65533) sheets numbered from 1, each with its own header. */
  predicate IsWorkbook(sheets: seq<Sheet>, items: seq<Row>, cols: Row) {
    && |sheets| == (|items| + DATA_ROWS - 1) / DATA_ROWS
    && forall k :: 0 <= k < |sheets| ==> IsPage(sheets[k], k, items, cols)
  }

  lemma PageKept(sheet: Sheet, k: nat, items: seq<Row>, item: Row, cols: Row)
    requires IsPage(sheet, k, items, cols) && DATA_ROWS * (k + 1) <= |items|
    ensures IsPage(sheet, k, items + [item], cols)
  {
    var lo, hi := DATA_ROWS * k, DATA_ROWS * (k + 1);
    assert (items + [item])[lo..hi] == items[lo..hi];
  }

  /** The row is appended to the last sheet, or to a new one when the last is full. */
  lemma PagesGrow(sheets: seq<Sheet>, items: seq<Row>, item: Row, cols: Row, next: seq<Sheet>)
    requires IsWorkbook(sheets, items, cols)
    requires var k := |sheets|;
      next == if |items| % DATA_ROWS == 0 then sheets + [Sheet(k + 1, [cols] + [item])]
              else if k == 0 then sheets
              else sheets[k - 1 := Sheet(sheets[k - 1].number, sheets[k - 1].rows + [item])]
    ensures IsWorkbook(next, items + [item], cols)
  {
    var all := items + [item];
    forall k | 0 <= k < |next| ensures IsPage(next[k], k, all, cols) {
      var lo := DATA_ROWS * k;
      if DATA_ROWS * (k + 1) <= |items| {
        PageKept(sheets[k], k, items, item, cols);
      } else if lo == |items| {
        assert all[lo..|all|] == [item];
      } else {
        assert all[lo..|all|] == items[lo..|items|] + [item];
        assert [cols] + items[lo..|items|] + [item] == [cols] + all[lo..|all|];
      }
    }
  }

  lemma CountStep(i: nat)
    ensures (i + 1) % DATA_ROWS == if i % DATA_ROWS == DATA_ROWS - 1 then 0 else i % DATA_ROWS + 1
    ensures (i + 1) / DATA_ROWS == if i % DATA_ROWS == DATA_ROWS - 1 then i / DATA_ROWS + 1 else i / DATA_ROWS
    ensures i % DATA_ROWS == 0 ==> (i + DATA_ROWS - 1) / DATA_ROWS == i / DATA_ROWS
    ensures i % DATA_ROWS != 0 ==> (i + DATA_ROWS - 1) / DATA_ROWS == i / DATA_ROWS + 1
  {}

  /** A row of the query: on a new sheet with a header if cnt is 1, else below the last row. */
  method AddRow(sheets: seq<Sheet>, cnt: nat, sheetPage: nat, item: Row, cols: Row, ghost items: seq<Row>)
    returns (next: seq<Sheet>)
    requires IsWorkbook(sheets, items, cols)
    requires cnt == |items| % DATA_ROWS + 1 && sheetPage == |items| / DATA_ROWS + 1
    ensures IsWorkbook(next, items + [item], cols)
  {
    hide IsPage;
    CountStep(|items|);
    next := sheets;
    if cnt == 1 {
      next := next + [Sheet(sheetPage, [cols])];
    }
    var last := |next| - 1;
    next := next[last := Sheet(next[last].number, next[last].rows + [item])];
    PagesGrow(sheets, items, item, cols, next);
  }

  method GetDown(items: seq<Row>, cols: Row) returns (sheets: seq<Sheet>)
    ensures IsWorkbook(sheets, items, cols)
  {
    sheets := [];
    var cnt := 1;
    var sheetPage := 1;
    assert items[..0] == [];
    for i := 0 to |items|
      invariant IsWorkbook(sheets, items[..i], cols)
      invariant cnt == i % DATA_ROWS + 1
      invariant sheetPage == i / DATA_ROWS + 1
    {
      hide IsWorkbook;
      sheets := AddRow(sheets, cnt, sheetPage, items[i], cols, items[..i]);
      assert items[..i + 1] == items[..i] + [items[i]];
      CountStep(i);
      cnt := cnt + 1;
      if cnt >= 65534 {
        sheetPage := sheetPage + 1;
        cnt := 1;
      }
    }
    assert items[..|items|] == items;
  }

  function DataRows(sheets: seq<Sheet>): seq<Row> {
    if sheets == [] then [] else
    (if sheets[0].rows == [] then [] else sheets[0].rows[1..]) + DataRows(sheets[1..])
  }

  lemma {:induction false} DataRowsFrom(sheets: seq<Sheet>, k: nat, items: seq<Row>, cols: Row)
    requires IsWorkbook(sheets, items, cols) && k <= |sheets|
    ensures DataRows(sheets[k..]) == items[Min(DATA_ROWS * k, |items|)..]
    decreases |sheets| - k
  {
    if k < |sheets| {
      DataRowsFrom(sheets, k + 1, items, cols);
      var lo, hi := DATA_ROWS * k, Min(DATA_ROWS * (k + 1), |items|);
      assert IsPage(sheets[k], k, items, cols);
      assert sheets[k].rows[1..] == items[lo..hi];
      assert sheets[k..][1..] == sheets[k + 1..];
      assert items[lo..] == items[lo..hi] + items[hi..];
    }
  }

  predicate IsFull(sheets: seq<Sheet>, k: nat, cols: Row)
    requires k < |sheets|
  {
    && sheets[k].number == k + 1 && 2 <= |sheets[k].rows| <= 65534 && sheets[k].rows[0] == cols
    && (k < |sheets| - 1 ==> |sheets[k].rows| == 65534)
  }

  lemma PageIsFull(sheets: seq<Sheet>, k: nat, items: seq<Row>, cols: Row)
    requires IsWorkbook(sheets, items, cols) && k < |sheets|
    ensures IsFull(sheets, k, cols)
  {
    assert IsPage(sheets[k], k, items, cols);
  }

  /** No row is lost, repeated or moved; there are as many sheets as 65533 rows a sheet need, numbered from 1, each
      with the header on top and at most 65534 rows in all, and all but the last have just that. */
  lemma WorkbookConserves(sheets: seq<Sheet>, items: seq<Row>, cols: Row)
    requires IsWorkbook(sheets, items, cols)
    ensures DataRows(sheets) == items
    ensures 65533 * (|sheets| - 1) < |items| <= 65533 * |sheets| || |items| == |sheets| == 0
    ensures forall k :: 0 <= k < |sheets| ==> IsFull(sheets, k, cols)
  {
    DataRowsFrom(sheets, 0, items, cols);
    assert sheets[0..] == sheets && items[0..] == items;
    forall k | 0 <= k < |sheets| ensures IsFull(sheets, k, cols) {
      PageIsFull(sheets, k, items, cols);
    }
  }
}
