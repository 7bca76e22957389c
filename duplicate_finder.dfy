/** The decision logic of duplicate_finder.js: counting how many returned
    products carry a SKU (fetchProductBySku), and the row loop of
    checkAllSkus that picks the SKU column, stops at the first row without a
    SKU, records every SKU counted more than once and writes the report.
    The catalog is an oracle from the SKU queried to the answer of the
    query; the SKUs queried are returned, in order, as a trace. */
module DuplicateFinder {
  import opened Catalog
  import opened DuplicateReport

  // ---------------------------------------------------------------------------
  // fetchProductBySku: the count
  // ---------------------------------------------------------------------------

  /** The `some` test: one of the product's variants has exactly this SKU
      (case-sensitive). */
  predicate HasMatchingSku(p: Product, sku: string) {
    sku in p.variantSkus
  }

  /** The number of products of ps that have a matching variant. */
  function MatchCount(ps: seq<Product>, sku: string): (c: nat)
    ensures c <= |ps|
  {
    if |ps| == 0 then 0
    else MatchCount(ps[..|ps| - 1], sku) + (if HasMatchingSku(ps[|ps| - 1], sku) then 1 else 0)
  }

  /** The count is zero exactly when no product matches, and the number of
      products exactly when every product matches. */
  lemma {:induction false} MatchCountExtremes(ps: seq<Product>, sku: string)
    ensures MatchCount(ps, sku) == 0 <==> forall i :: 0 <= i < |ps| ==> !HasMatchingSku(ps[i], sku)
    ensures MatchCount(ps, sku) == |ps| <==> forall i :: 0 <= i < |ps| ==> HasMatchingSku(ps[i], sku)
  {
    if |ps| > 0 {
      var front := ps[..|ps| - 1];
      MatchCountExtremes(front, sku);
      assert forall i :: 0 <= i < |front| ==> front[i] == ps[i];
    }
  }

  /** Counting a concatenation counts each part: every product is counted
      on its own, whatever else was returned. */
  lemma {:induction false} MatchCountAppend(ps: seq<Product>, qs: seq<Product>, sku: string)
    ensures MatchCount(ps + qs, sku) == MatchCount(ps, sku) + MatchCount(qs, sku)
  {
    if |qs| == 0 {
      assert ps + qs == ps;
    } else {
      var front := qs[..|qs| - 1];
      assert (ps + qs)[..|ps + qs| - 1] == ps + front;
      MatchCountAppend(ps, front, sku);
    }
  }

  /** What fetchProductBySku of duplicate_finder.js returns for an answer:
      0 for a response with errors or an exception, otherwise the count. */
  function SkuCount(r: Response, sku: string): (c: nat)
    ensures !r.Products? ==> c == 0
    ensures r.Products? ==> c <= |r.nodes|
  {
    if r.Products? then MatchCount(r.nodes, sku) else 0
  }

  /** fetchProductBySku with the query answered by r: the forEach loop that
      increments productIdCount. */
  method FetchProductCount(r: Response, sku: string) returns (productIdCount: nat)
    ensures productIdCount == SkuCount(r, sku)
  {
    if !r.Products? {
      return 0;
    }
    var products := r.nodes;
    if |products| == 0 {
      return 0;
    }
    productIdCount := 0;
    for i := 0 to |products|
      invariant productIdCount == MatchCount(products[..i], sku)
    {
      assert products[..i + 1][..i] == products[..i];
      var hasMatchingSku := sku in products[i].variantSkus;
      if hasMatchingSku {
        productIdCount := productIdCount + 1;
      }
    }
    assert products[..|products|] == products;
  }

  // ---------------------------------------------------------------------------
  // checkAllSkus
  // ---------------------------------------------------------------------------

  /** The column read on every row: 'Variant SKU' when the first row has that
      key, 'SKU' otherwise. */
  function SkuColumn(first: Row): (column: string)
    ensures column == "Variant SKU" <==> "Variant SKU" in first
    ensures column == "Variant SKU" || column == "SKU"
  {
    if "Variant SKU" in first then "Variant SKU" else "SKU"
  }

  /** A cell JavaScript reads as true: present and not the empty string. */
  predicate Truthy(v: Option<string>) {
    v.Some? && v.value != ""
  }

  /** The number of rows checkAllSkus visits before it breaks: the position
      of the first row whose cell is missing or empty, or all rows. */
  function ScanLength(rows: seq<Row>, column: string): (n: nat)
    ensures n <= |rows|
    ensures forall i :: 0 <= i < n ==> Truthy(Cell(rows[i], column))
    ensures n < |rows| ==> !Truthy(Cell(rows[n], column))
  {
    if |rows| == 0 || !Truthy(Cell(rows[0], column)) then 0
    else 1 + ScanLength(rows[1..], column)
  }

  /** The SKUs of rows in the chosen column (rows without the column read as
      the empty string). */
  function SkusOf(rows: seq<Row>, column: string): (skus: seq<string>)
    ensures |skus| == |rows|
    ensures forall i :: 0 <= i < |rows| ==> (column in rows[i] ==> skus[i] == rows[i][column])
  {
    seq(|rows|, i requires 0 <= i < |rows| => if column in rows[i] then rows[i][column] else "")
  }

  /** The entries pushed into duplicateSkus for the SKUs looked up, in order:
      one for every lookup whose count is above 1. */
  function DuplicateEntries(skus: seq<string>, catalog: string -> Response): seq<Entry> {
    if |skus| == 0 then []
    else
      var sku := skus[|skus| - 1];
      var count := SkuCount(catalog(sku), sku);
      DuplicateEntries(skus[..|skus| - 1], catalog) + (if count > 1 then [Entry(sku, count)] else [])
  }

  /** An entry is recorded exactly for a looked-up SKU whose count is above
      1, and carries that count. */
  lemma {:induction false} EntriesAreDuplicates(skus: seq<string>, catalog: string -> Response)
    ensures forall e :: e in DuplicateEntries(skus, catalog) ==>
      e.sku in skus && 1 < e.count && e.count == SkuCount(catalog(e.sku), e.sku)
    ensures forall i :: 0 <= i < |skus| && 1 < SkuCount(catalog(skus[i]), skus[i]) ==>
      Entry(skus[i], SkuCount(catalog(skus[i]), skus[i])) in DuplicateEntries(skus, catalog)
  {
    if |skus| > 0 {
      var front := skus[..|skus| - 1];
      EntriesAreDuplicates(front, catalog);
      assert skus == front + [skus[|skus| - 1]];
      forall i | 0 <= i < |front|
        ensures front[i] == skus[i]
      {
      }
    }
  }

  /** The rows are handled one at a time and in order, with no memory of
      earlier rows: the entries of a concatenation are the entries of its
      parts. */
  lemma {:induction false} EntriesAppend(a: seq<string>, b: seq<string>, catalog: string -> Response)
    ensures DuplicateEntries(a + b, catalog) == DuplicateEntries(a, catalog) + DuplicateEntries(b, catalog)
  {
    if |b| == 0 {
      assert a + b == a;
    } else {
      var front := b[..|b| - 1];
      assert (a + b)[..|a + b| - 1] == a + front;
      EntriesAppend(a, front, catalog);
    }
  }

  /** There is no seen-set: a duplicated SKU that appears on two rows is
      looked up twice and recorded twice. */
  lemma RepeatedSkuRecordedTwice(sku: string, catalog: string -> Response)
    requires 1 < SkuCount(catalog(sku), sku)
    ensures DuplicateEntries([sku, sku], catalog) ==
      [Entry(sku, SkuCount(catalog(sku), sku)), Entry(sku, SkuCount(catalog(sku), sku))]
  {
    var e := Entry(sku, SkuCount(catalog(sku), sku));
    assert [sku][..0] == [];
    assert DuplicateEntries([sku], catalog) == [e];
    assert [sku, sku][..1] == [sku];
    assert DuplicateEntries([sku, sku], catalog) == DuplicateEntries([sku], catalog) + [e];
  }

  /** checkAllSkus on the rows of the extract, with the catalog answering the
      queries. It returns the SKUs it queried (in order), the entries it
      recorded and the text of the report it writes. */
  method CheckAllSkus(rows: seq<Row>, catalog: string -> Response)
    returns (queried: seq<string>, duplicateSkus: seq<Entry>, csv: string)
    requires 0 < |rows|
    ensures queried == SkusOf(rows[..ScanLength(rows, SkuColumn(rows[0]))], SkuColumn(rows[0]))
    ensures duplicateSkus == DuplicateEntries(queried, catalog)
    ensures csv == CsvText(duplicateSkus)
    ensures |queried| <= |rows| && forall i :: 0 <= i < |queried| ==> queried[i] != ""
  {
    var skuColumn := "SKU";
    if "Variant SKU" in rows[0] {
      skuColumn := "Variant SKU";
    }
    ghost var n := ScanLength(rows, skuColumn);
    queried, duplicateSkus := [], [];
    var i := 0;
    while i < |rows|
      invariant i <= n
      invariant queried == SkusOf(rows[..i], skuColumn)
      invariant duplicateSkus == DuplicateEntries(queried, catalog)
    {
      var sku := Cell(rows[i], skuColumn);
      if !Truthy(sku) {
        break;
      }
      var skuCount := FetchProductCount(catalog(sku.value), sku.value);
      if skuCount > 1 {
        duplicateSkus := duplicateSkus + [Entry(sku.value, skuCount)];
      }
      EntriesStep(queried, sku.value, catalog);
      SkusOfStep(rows, i, skuColumn);
      queried := queried + [sku.value];
      i := i + 1;
    }
    assert i == n;
    csv := WriteCsv(duplicateSkus);
  }

  lemma EntriesStep(skus: seq<string>, sku: string, catalog: string -> Response)
    ensures DuplicateEntries(skus + [sku], catalog) == DuplicateEntries(skus, catalog) +
      (if SkuCount(catalog(sku), sku) > 1 then [Entry(sku, SkuCount(catalog(sku), sku))] else [])
  {
    assert (skus + [sku])[..|skus|] == skus;
  }

  lemma SkusOfStep(rows: seq<Row>, i: nat, column: string)
    requires i < |rows| && column in rows[i]
    ensures SkusOf(rows[..i + 1], column) == SkusOf(rows[..i], column) + [rows[i][column]]
  {
    assert rows[..i + 1] == rows[..i] + [rows[i]];
  }

  /** Only the rows before the first one without a SKU matter: rows after it
      are never read, so two extracts that agree up to and including that
      row give the same queries. */
  lemma {:induction false} RowsAfterStopIgnored(rows: seq<Row>, other: seq<Row>, column: string)
    requires ScanLength(rows, column) < |rows|
    requires ScanLength(rows, column) < |other|
    requires other[..ScanLength(rows, column) + 1] == rows[..ScanLength(rows, column) + 1]
    ensures ScanLength(other, column) == ScanLength(rows, column)
  {
    var n := ScanLength(rows, column);
    assert other[n] == rows[n];
    forall i | 0 <= i < n
      ensures other[i] == rows[i]
    {
      assert other[..n + 1][i] == rows[..n + 1][i];
    }
    ScanLengthIsFirstStop(other, column, n);
  }

  lemma {:induction false} ScanLengthIsFirstStop(rows: seq<Row>, column: string, n: nat)
    requires n < |rows| && !Truthy(Cell(rows[n], column))
    requires forall i :: 0 <= i < n ==> Truthy(Cell(rows[i], column))
    ensures ScanLength(rows, column) == n
  {
    if n > 0 {
      ScanLengthIsFirstStop(rows[1..], column, n - 1);
    }
  }

  /** The column is chosen once, from the first row, and not per row: a later
      row that lacks the chosen column ends the scan, even when it carries
      the other one. */
  lemma ColumnChosenOnce(rows: seq<Row>, k: nat)
    requires k < |rows|
    ensures (("Variant SKU" in rows[0] && "Variant SKU" !in rows[k]) ||
             ("Variant SKU" !in rows[0] && "SKU" !in rows[k])) ==>
      ScanLength(rows, SkuColumn(rows[0])) <= k
  {
  }

  // ---------------------------------------------------------------------------
  // checkAllSkus as written: the log stream called as a function
  // ---------------------------------------------------------------------------

  /** How checkAllSkus as written ends: having written the report, or with
      the TypeError thrown by calling the log stream. queried are the SKUs
      looked up until then. */
  datatype FinderOutcome = Written(queried: seq<string>, csv: string) | Threw(queried: seq<string>)

  /** The row loop of checkAllSkus as written, from the first of rows on.
      logFile is a write stream, so `logFile(...)` throws a TypeError. It is
      called on the first row without a SKU (line 110), before the break,
      and on the first SKU counted more than once (line 117), before the
      push. Nothing is ever pushed, so a pass over every row writes a report
      with no entries. */
  function CheckAllSkusAsWritten(rows: seq<Row>, column: string, catalog: string -> Response): FinderOutcome {
    if |rows| == 0 then Written([], CsvText([]))
    else if !Truthy(Cell(rows[0], column)) then Threw([])
    else
      var sku := rows[0][column];
      if SkuCount(catalog(sku), sku) > 1 then Threw([sku])
      else match CheckAllSkusAsWritten(rows[1..], column, catalog)
        case Written(q, csv) => Written([sku] + q, csv)
        case Threw(q) => Threw([sku] + q)
  }

  /** As written, checkAllSkus writes its report exactly when every row has a
      SKU and no SKU is counted more than once, and that report is the bare
      header. Every extract for which the intended loop records a duplicate
      makes it throw instead. */
  lemma {:induction false} AsWrittenReportsNoDuplicate(rows: seq<Row>, column: string, catalog: string -> Response)
    ensures var o := CheckAllSkusAsWritten(rows, column, catalog);
      (o.Written? <==> ScanLength(rows, column) == |rows| && DuplicateEntries(SkusOf(rows, column), catalog) == []) &&
      (o.Written? ==> o.csv == Header && o.queried == SkusOf(rows, column))
  {
    if |rows| == 0 {
      assert CsvText([]) == Header;
    } else if Truthy(Cell(rows[0], column)) {
      var sku := rows[0][column];
      AsWrittenReportsNoDuplicate(rows[1..], column, catalog);
      assert SkusOf(rows, column) == [sku] + SkusOf(rows[1..], column);
      EntriesAppend([sku], SkusOf(rows[1..], column), catalog);
      assert [sku][..0] == [];
    }
  }
}
