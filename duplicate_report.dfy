/** The text of the two-column CSV that duplicate_finder.js writes at the
    end of checkAllSkus: a header line, then one "sku,count" line per
    recorded duplicate, with no quoting or escaping. A reader for that text
    is defined beside it so that the format can be checked by a round trip. */
module DuplicateReport {
  import opened Catalog

  /** One recorded duplicate: a SKU and how many products carry it. */
  datatype Entry = Entry(sku: string, count: nat)

  const Header: string := "SKU,Count\n"

  predicate IsDigit(c: char) {
    '0' <= c <= '9'
  }

  function DigitChar(d: nat): (c: char)
    requires d < 10
    ensures IsDigit(c) && c as int - '0' as int == d
  {
    "0123456789"[d]
  }

  /** The decimal rendering `${count}` of a non-negative integer. */
  function Decimal(n: nat): (s: string)
    ensures 0 < |s|
    ensures forall i :: 0 <= i < |s| ==> IsDigit(s[i])
  {
    if n < 10 then [DigitChar(n)] else Decimal(n / 10) + [DigitChar(n % 10)]
  }

  /** Reads a non-empty run of decimal digits. */
  function ParseDecimal(s: string): Option<nat> {
    if |s| == 0 || !IsDigit(s[|s| - 1]) then None
    else
      var d := s[|s| - 1] as int - '0' as int;
      if |s| == 1 then Some(d)
      else match ParseDecimal(s[..|s| - 1])
        case None => None
        case Some(v) => Some(10 * v + d)
  }

  lemma {:induction false} DecimalRoundTrip(n: nat)
    ensures ParseDecimal(Decimal(n)) == Some(n)
  {
    if n >= 10 {
      DecimalRoundTrip(n / 10);
      var s := Decimal(n);
      assert s[..|s| - 1] == Decimal(n / 10);
    }
  }

  /** The line written for one entry. */
  function EntryLine(e: Entry): string {
    e.sku + "," + Decimal(e.count) + "\n"
  }

  /** The lines written for the entries, in order. */
  function Lines(entries: seq<Entry>): string {
    if |entries| == 0 then "" else EntryLine(entries[0]) + Lines(entries[1..])
  }

  /** The whole file contents. */
  function CsvText(entries: seq<Entry>): string {
    Header + Lines(entries)
  }

  lemma {:induction false} LinesAppend(entries: seq<Entry>, e: Entry)
    ensures Lines(entries + [e]) == Lines(entries) + EntryLine(e)
  {
    if |entries| == 0 {
      assert entries + [e] == [e];
      assert Lines([e]) == EntryLine(e) + Lines([]);
    } else {
      assert (entries + [e])[1..] == entries[1..] + [e];
      LinesAppend(entries[1..], e);
    }
  }

  /** The write loop at the end of checkAllSkus: the header, then one line
      per entry; out is everything written to the stream. */
  method WriteCsv(entries: seq<Entry>) returns (out: string)
    ensures out == CsvText(entries)
  {
    out := Header;
    for i := 0 to |entries|
      invariant out == Header + Lines(entries[..i])
    {
      assert entries[..i + 1] == entries[..i] + [entries[i]];
      LinesAppend(entries[..i], entries[i]);
      out := out + EntryLine(entries[i]);
    }
    assert entries[..|entries|] == entries;
  }

  // ---------------------------------------------------------------------------
  // Reading the report back
  // ---------------------------------------------------------------------------

  /** Position of the first c in s. */
  function IndexOf(s: string, c: char): (r: Option<nat>)
    ensures r.Some? ==> r.value < |s| && s[r.value] == c && c !in s[..r.value]
    ensures r.None? ==> c !in s
  {
    if |s| == 0 then None
    else if s[0] == c then Some(0)
    else match IndexOf(s[1..], c)
      case None => None
      case Some(k) =>
        assert s[..k + 1] == [s[0]] + s[1..][..k];
        Some(k + 1)
  }

  lemma IndexOfSplit(a: string, c: char, b: string)
    requires c !in a
    ensures IndexOf(a + [c] + b, c) == Some(|a|)
  {
    var s := a + [c] + b;
    assert s[|a|] == c;
    assert s[..|a|] == a;
    var r := IndexOf(s, c);
    assert r.Some?;
  }

  /** Reads one line "sku,count" (without its newline), splitting at the
      first comma. */
  function ParseLine(line: string): Option<Entry> {
    match IndexOf(line, ',')
    case None => None
    case Some(k) =>
      match ParseDecimal(line[k + 1..])
      case None => None
      case Some(n) => Some(Entry(line[..k], n))
  }

  /** Reads newline-terminated lines. */
  function ParseLines(s: string): Option<seq<Entry>>
    decreases |s|
  {
    if |s| == 0 then Some([])
    else match IndexOf(s, '\n')
      case None => None
      case Some(k) =>
        match ParseLine(s[..k])
        case None => None
        case Some(e) =>
          match ParseLines(s[k + 1..])
          case None => None
          case Some(rest) => Some([e] + rest)
  }

  /** Reads a whole report: the header, then the lines. */
  function ParseReport(text: string): Option<seq<Entry>> {
    if |Header| <= |text| && text[..|Header|] == Header then ParseLines(text[|Header|..]) else None
  }

  /** A SKU that the unescaped format can carry. */
  predicate PlainSku(sku: string) {
    ',' !in sku && '\n' !in sku
  }

  lemma EntryLineParses(e: Entry, rest: string)
    requires PlainSku(e.sku)
    ensures exists k ::
      IndexOf(EntryLine(e) + rest, '\n') == Some(k) &&
      (EntryLine(e) + rest)[..k] == e.sku + "," + Decimal(e.count) &&
      (EntryLine(e) + rest)[k + 1..] == rest &&
      ParseLine((EntryLine(e) + rest)[..k]) == Some(e)
  {
    var digits := Decimal(e.count);
    var body := e.sku + "," + digits;
    var s := EntryLine(e) + rest;
    assert s == body + ['\n'] + rest;
    IndexOfSplit(body, '\n', rest);
    assert s[..|body|] == body;
    assert s[|body| + 1..] == rest;
    assert body == e.sku + [','] + digits;
    IndexOfSplit(e.sku, ',', digits);
    assert body[..|e.sku|] == e.sku;
    assert body[|e.sku| + 1..] == digits;
    DecimalRoundTrip(e.count);
  }

  lemma {:induction false} LinesRoundTrip(entries: seq<Entry>)
    requires forall i :: 0 <= i < |entries| ==> PlainSku(entries[i].sku)
    ensures ParseLines(Lines(entries)) == Some(entries)
  {
    if |entries| > 0 {
      var rest := Lines(entries[1..]);
      EntryLineParses(entries[0], rest);
      LinesRoundTrip(entries[1..]);
      assert [entries[0]] + entries[1..] == entries;
    }
  }

  /** The report is the header followed by exactly one line per entry, in
      order: reading it back gives the entries, as long as no SKU holds a
      comma or a newline. */
  lemma ReportRoundTrip(entries: seq<Entry>)
    requires forall i :: 0 <= i < |entries| ==> PlainSku(entries[i].sku)
    ensures ParseReport(CsvText(entries)) == Some(entries)
  {
    var text := CsvText(entries);
    assert text[..|Header|] == Header;
    assert text[|Header|..] == Lines(entries);
    LinesRoundTrip(entries);
  }

  lemma {:induction false} ParsedDecimalIsDigits(s: string)
    ensures ParseDecimal(s).Some? ==> forall i :: 0 <= i < |s| ==> IsDigit(s[i])
  {
    if |s| > 1 {
      ParsedDecimalIsDigits(s[..|s| - 1]);
      assert forall i :: 0 <= i < |s| - 1 ==> s[..|s| - 1][i] == s[i];
    }
  }

  /** Without escaping, a SKU with a comma does not survive: its line is
      split at that comma, and the report no longer reads back. */
  lemma CommaInSkuIsNotEscaped(entries: seq<Entry>)
    requires 0 < |entries| && ',' in entries[0].sku && '\n' !in entries[0].sku
    ensures ParseReport(CsvText(entries)) == None
  {
    var e := entries[0];
    var digits := Decimal(e.count);
    var body := e.sku + [','] + digits;
    var rest := Lines(entries[1..]);
    var text := CsvText(entries);
    assert text[..|Header|] == Header;
    assert text[|Header|..] == body + ['\n'] + rest;
    IndexOfSplit(body, '\n', rest);
    assert (body + ['\n'] + rest)[..|body|] == body;
    var j :| 0 <= j < |e.sku| && e.sku[j] == ',';
    assert body[j] == ',';
    var k := IndexOf(body, ',').value;
    assert k <= j;
    var tail := body[k + 1..];
    assert tail[|e.sku| - k - 1] == ',';
    ParsedDecimalIsDigits(tail);
    assert ParseLine(body) == None;
  }
}
