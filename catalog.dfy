/** The record builder of `scrape_with_catalog`: the rows of the certificate
    table, each a sequence of cell texts, become one record per row. */
module Catalog {
  import opened Wrappers
  import opened Text
  import opened LotNumber
  import opened ValidityDate
  import opened Certificate

  /** One output tuple: product code, cleaned lot number, normalised validity
      and certificate link. */
  datatype Record = Record(keyword: string, lot: string, validity: string, url: string)

  /** The cell texts of one table row. */
  type Row = seq<string>

  /** The record of a row with at least three cells: the lot number is the first
      cell, the validity the third, both stripped first. */
  function RowRecord(keyword: string, row: Row): (r: Record)
    requires |row| >= 3
    ensures r.keyword == keyword
    ensures r.url == CertificateUrl(keyword, r.lot)
    ensures |r.lot| <= |row[0]|
    ensures r.validity == CurrentToken || r.validity == InvalidToken || IsDisplayShape(r.validity)
    ensures r.validity == CurrentToken <==> Contains(Strip(row[2]), CurrentMarker)
  {
    var lot := CleanLot(Strip(row[0]));
    Record(keyword, lot, NormaliseDate(Strip(row[2])), CertificateUrl(keyword, lot))
  }

  /** Every row has the three cells the loop reads. */
  predicate AllRowsComplete(rows: seq<Row>) {
    forall i :: 0 <= i < |rows| ==> |rows[i]| >= 3
  }

  /** The value the row loop produces, row after row: the records of all rows in
      order, or `None` when some row is too short and indexing it raises
      `IndexError`. */
  function Extract(keyword: string, rows: seq<Row>): (r: Option<seq<Record>>)
    ensures r.Some? ==> |r.value| == |rows|
    ensures r.Some? && rows != [] ==> |rows[0]| >= 3 && r.value[0] == RowRecord(keyword, rows[0])
  {
    if rows == [] then Some([])
    else if |rows[0]| < 3 then None
    else
      match Extract(keyword, rows[1..])
      case None => None
      case Some(rest) => Some([RowRecord(keyword, rows[0])] + rest)
  }

  /** A non-empty table is complete when its first row and the rest are. */
  lemma AllRowsCompleteCons(rows: seq<Row>)
    requires rows != []
    ensures AllRowsComplete(rows) <==> |rows[0]| >= 3 && AllRowsComplete(rows[1..])
  {
    if |rows[0]| >= 3 && AllRowsComplete(rows[1..]) {
      forall i | 0 < i < |rows| ensures |rows[i]| >= 3 {
        assert rows[i] == rows[1..][i - 1];
      }
    }
  }

  /** The extraction fails exactly when some row is short. */
  lemma {:induction false} ExtractFailsIff(keyword: string, rows: seq<Row>)
    ensures Extract(keyword, rows).Some? <==> AllRowsComplete(rows)
  {
    if rows != [] {
      ExtractFailsIff(keyword, rows[1..]);
      AllRowsCompleteCons(rows);
    }
  }

  /** Otherwise it yields one record per row, in row order, each made from its row
      alone and carrying the product code. */
  lemma {:induction false} ExtractPerRow(keyword: string, rows: seq<Row>)
    requires AllRowsComplete(rows)
    ensures Extract(keyword, rows).Some?
    ensures |Extract(keyword, rows).value| == |rows|
    ensures forall i :: 0 <= i < |rows| ==> Extract(keyword, rows).value[i] == RowRecord(keyword, rows[i])
  {
    ExtractFailsIff(keyword, rows);
    if rows != [] {
      ExtractPerRow(keyword, rows[1..]);
    }
  }

  /** The `for row in ...` loop: `lotData` gains the record of each row in turn;
      a row with fewer than three cells raises, the handler reports it
      (`failed`) and the keyword yields `[]`. */
  method ScrapeRows(keyword: string, rows: seq<Row>) returns (lotData: seq<Record>, failed: bool)
    ensures failed <==> !AllRowsComplete(rows)
    ensures failed ==> lotData == []
    ensures !failed ==> |lotData| == |rows|
    ensures !failed ==> forall i :: 0 <= i < |rows| ==> lotData[i] == RowRecord(keyword, rows[i])
  {
    lotData := [];
    var i := 0;
    while i < |rows|
      invariant 0 <= i <= |rows|
      invariant forall j :: 0 <= j < i ==> |rows[j]| >= 3
      invariant |lotData| == i
      invariant forall j :: 0 <= j < i ==> lotData[j] == RowRecord(keyword, rows[j])
    {
      var row := rows[i];
      if |row| < 3 {
        return [], true;
      }
      lotData := lotData + [RowRecord(keyword, row)];
      i := i + 1;
    }
    failed := false;
  }

  /** `scrape_with_catalog` as a whole: `link` is the catalog page it loads, and
      `rows` the rows of its certificate tables, or `None` when loading the page
      or waiting for it raised; that error, like a short row, is reported and the
      keyword yields `[]`. Otherwise the records are the row-by-row extraction. */
  method ScrapeWithCatalog(keyword: string, rows: Option<seq<Row>>)
    returns (link: string, lotData: seq<Record>, failed: bool)
    ensures link == ProductPageUrl(keyword)
    ensures rows.None? ==> lotData == [] && failed
    ensures rows.Some? ==> (failed <==> Extract(keyword, rows.value).None?)
    ensures failed ==> lotData == []
    ensures !failed ==> rows.Some? && Extract(keyword, rows.value) == Some(lotData)
  {
    link := ProductPageUrl(keyword);
    if rows.None? {
      return link, [], true;
    }
    lotData, failed := ScrapeRows(keyword, rows.value);
    ExtractFailsIff(keyword, rows.value);
    if !failed {
      ExtractPerRow(keyword, rows.value);
      assert Extract(keyword, rows.value).value == lotData;
    }
  }
}
