/**
 * `get_form4_filings`: walking the EDGAR daily master indexes from
 * `today - days_back` to `today`, fetching each day's index (or its
 * gzipped copy) and collecting the Form 4 rows that follow the header.
 */
module Form4Index {
  import opened Wrappers
  import opened Text
  import opened Numbers
  import opened Calendar

  const BaseUrl: string := "https://www.sec.gov/Archives/edgar/daily-index"
  const ArchivesUrl: string := "https://www.sec.gov/Archives/"
  const HeaderPrefix: string := "CIK|Company Name|Form Type"
  const GzSuffix: string := ".gz"
  const Form4Type: string := "4"

  const TooManyFields: string := "ValueError: too many values to unpack (expected 5)"
  const ConnectionFailed: string := "ConnectionError"
  const DateOutOfRange: string := "OverflowError: date value out of range"

  /** One Form 4 row of an index: the filer, the company, the filing date as written, and the filing's URL. */
  datatype IndexRecord = IndexRecord(cik: string, company: string, date: string, url: string)

  /** What a request for an index gives: a status with the lines of its (decompressed) text, or a connection error. */
  datatype IndexResponse = IndexPage(status: int, lines: seq<string>) | IndexUnreachable

  /** `f"{BASE_URL}/{year}/QTR{quarter}/master.{date:%Y%m%d}.idx"`. */
  function IndexUrl(d: Date): (u: string)
    requires IsValid(d) && d.year >= 0
    ensures StartsWith(u, BaseUrl + "/") && EndsWith(u, ".idx")
    ensures StartsWith(u, BaseUrl + "/" + (NatText(d.year) + "/QTR" + NatText(Quarter(d.month)) + "/master."))
    ensures d.year <= 9999 ==> |u| >= 12 && u[|u| - 12..|u| - 4] == CompactDate(d)
  {
    var mid := NatText(d.year) + "/QTR" + NatText(Quarter(d.month)) + "/master.";
    UrlParts(BaseUrl + "/", mid, CompactDate(d), ".idx");
    assert d.year <= 9999 ==> |CompactDate(d)| == 8 by {
      if d.year <= 9999 {
        CompactDateDigits(d);
      }
    }
    BaseUrl + "/" + mid + CompactDate(d) + ".idx"
  }

  lemma UrlParts(head: string, mid: string, date: string, ext: string)
    ensures var u := head + mid + date + ext;
      && StartsWith(u, head) && StartsWith(u, head + mid) && EndsWith(u, ext)
      && u[|u| - |ext| - |date|..|u| - |ext|] == date
  {
    var u := head + mid + date + ext;
    assert u[..|head|] == head;
    assert u[..|head + mid|] == head + mid;
    assert u[|u| - |ext|..] == ext;
    assert u[|u| - |ext| - |date|..|u| - |ext|] == date;
  }

  lemma CompactValueDeterminesDate(a: Date, b: Date)
    requires IsValid(a) && IsValid(b)
    requires a.year * 10000 + a.month * 100 + a.day == b.year * 10000 + b.month * 100 + b.day
    ensures a == b
  {
    var v := a.year * 10000 + a.month * 100 + a.day;
    assert a.year == v / 10000 == b.year;
    var w := a.month * 100 + a.day;
    assert w == b.month * 100 + b.day;
    assert a.month == w / 100 == b.month;
  }

  /** Different days request different indexes: the URL determines the date. */
  lemma IndexUrlDeterminesDate(a: Date, b: Date)
    requires IsValid(a) && IsValid(b) && 0 <= a.year <= 9999 && 0 <= b.year <= 9999
    requires IndexUrl(a) == IndexUrl(b)
    ensures a == b
  {
    CompactDateDigits(a);
    CompactDateDigits(b);
    CompactValueDeterminesDate(a, b);
  }

  /** One line after the header: skipped with fewer than five fields, an error with more, a record for form type `4`. */
  function ParseLine(line: string): (r: Result<Option<IndexRecord>>)
    ensures r.Err? ==> r.error == TooManyFields
    ensures r.Ok? && r.value.Some? ==> StartsWith(r.value.value.url, ArchivesUrl)
    ensures '|' !in line ==> r == Ok(None)
  {
    var parts := Split(Strip(line), '|');
    assert '|' !in line ==> |parts| == 1 by {
      if '|' !in line {
        if '|' in Strip(line) {
          StripKeepsCharacters(line, '|');
        }
        SplitWithoutSep(Strip(line), '|');
      }
    }
    if |parts| < 5 then Ok(None)
    else if |parts| > 5 then Err(TooManyFields)
    else if parts[2] == Form4Type then
      ArchivePrefix(parts[4]);
      Ok(Some(IndexRecord(parts[0], parts[1], parts[3], ArchivesUrl + parts[4])))
    else Ok(None)
  }

  /**
   * A row written as its fields joined by `|`, with surrounding white
   * space, parses back to those fields.
   */
  lemma ParseJoinedLine(fields: seq<string>, ws1: string, ws2: string)
    requires |fields| >= 1 && forall k :: 0 <= k < |fields| ==> '|' !in fields[k]
    requires AllSpace(ws1) && AllSpace(ws2) && IsStripped(Join(fields, '|'))
    ensures ParseLine(ws1 + Join(fields, '|') + ws2) ==
      if |fields| < 5 then Ok(None)
      else if |fields| > 5 then Err(TooManyFields)
      else if fields[2] == Form4Type then
        Ok(Some(IndexRecord(fields[0], fields[1], fields[3], ArchivesUrl + fields[4])))
      else Ok(None)
  {
    var line := ws1 + Join(fields, '|') + ws2;
    StripSurrounded(ws1, Join(fields, '|'), ws2);
    SplitJoin(fields, '|');
    assert Split(Strip(line), '|') == fields;
  }

  /**
   * The records of the rows after the header, in file order, or the error
   * of the first row that raises.  `parse` is the row parser, `ParseLine`
   * for an index; keeping it a parameter lets the facts about the loop be
   * proved once, apart from the text operations inside a row.
   */
  function RowRecords(parse: string -> Result<Option<IndexRecord>>, rows: seq<string>): Result<seq<IndexRecord>> {
    if rows == [] then Ok([])
    else
      match RowRecords(parse, rows[..|rows| - 1])
      case Err(msg) => Err(msg)
      case Ok(prev) =>
        match parse(rows[|rows| - 1])
        case Err(msg) => Err(msg)
        case Ok(None) => Ok(prev)
        case Ok(Some(rec)) => Ok(prev + [rec])
  }

  /** Once a prefix of the rows fails, the whole run fails with the same error. */
  lemma {:induction false} RowErrorPersists(parse: string -> Result<Option<IndexRecord>>, rows: seq<string>, k: nat)
    requires k <= |rows| && RowRecords(parse, rows[..k]).Err?
    ensures RowRecords(parse, rows) == RowRecords(parse, rows[..k])
    decreases |rows|
  {
    if |rows| == k {
      assert rows[..k] == rows;
    } else {
      var prefix := rows[..|rows| - 1];
      assert prefix[..k] == rows[..k];
      RowErrorPersists(parse, prefix, k);
    }
  }

  /** One more row: the records through row `i` from those before it. */
  lemma RowStep(parse: string -> Result<Option<IndexRecord>>, lines: seq<string>, from: nat, i: nat)
    requires from <= i < |lines| && RowRecords(parse, lines[from..i]).Ok?
    ensures RowRecords(parse, lines[from..i + 1]) ==
      match parse(lines[i])
      case Err(msg) => Err(msg)
      case Ok(None) => RowRecords(parse, lines[from..i])
      case Ok(Some(rec)) => Ok(RowRecords(parse, lines[from..i]).value + [rec])
  {
    var seen := lines[from..i + 1];
    assert seen[..|seen| - 1] == lines[from..i] && seen[|seen| - 1] == lines[i];
  }

  /** A row that raises ends the parse of the index with its error. */
  lemma RowStops(parse: string -> Result<Option<IndexRecord>>, lines: seq<string>, from: nat, i: nat)
    requires from <= i < |lines| && RowRecords(parse, lines[from..i + 1]).Err?
    ensures RowRecords(parse, lines[from..]) == RowRecords(parse, lines[from..i + 1])
  {
    var rows := lines[from..];
    assert rows[..i + 1 - from] == lines[from..i + 1];
    RowErrorPersists(parse, rows, i + 1 - from);
  }

  /** The rows parse exactly when each row does. */
  lemma {:induction false} RowsParse(parse: string -> Result<Option<IndexRecord>>, rows: seq<string>)
    ensures RowRecords(parse, rows).Ok? <==> forall i :: 0 <= i < |rows| ==> parse(rows[i]).Ok?
  {
    if rows != [] {
      var prefix := rows[..|rows| - 1];
      RowsParse(parse, prefix);
      if RowRecords(parse, rows).Ok? {
        forall i | 0 <= i < |rows| ensures parse(rows[i]).Ok? {
          if i < |prefix| {
            assert rows[i] == prefix[i];
          }
        }
      } else if RowRecords(parse, prefix).Err? {
        var i :| 0 <= i < |prefix| && !parse(prefix[i]).Ok?;
        assert rows[i] == prefix[i];
      }
    }
  }

  /** At most one record per row, each with a URL under the archives when the row parser only makes such URLs. */
  lemma {:induction false} RowsUrls(parse: string -> Result<Option<IndexRecord>>, rows: seq<string>)
    requires forall line :: parse(line).Ok? && parse(line).value.Some? ==> StartsWith(parse(line).value.value.url, ArchivesUrl)
    requires RowRecords(parse, rows).Ok?
    ensures |RowRecords(parse, rows).value| <= |rows|
    ensures forall k :: 0 <= k < |RowRecords(parse, rows).value| ==> StartsWith(RowRecords(parse, rows).value[k].url, ArchivesUrl)
  {
    if rows != [] {
      var prefix := rows[..|rows| - 1];
      var line := rows[|rows| - 1];
      RowsUrls(parse, prefix);
      var prev := RowRecords(parse, prefix).value;
      if parse(line).value.Some? {
        assert RowRecords(parse, rows).value == prev + [parse(line).value.value];
      } else {
        assert RowRecords(parse, rows).value == prev;
      }
    }
  }

  /** A row splits into at most five fields, so unpacking it cannot fail. */
  predicate Unpackable(line: string) {
    |Split(Strip(line), '|')| <= 5
  }

  lemma ParseLineFails(line: string)
    ensures ParseLine(line).Err? <==> !Unpackable(line)
  {
  }

  /** The rows of an index fail exactly when one of them has more than five fields. */
  lemma RowRecordsOkIff(rows: seq<string>)
    ensures RowRecords(ParseLine, rows).Ok? <==> forall i :: 0 <= i < |rows| ==> Unpackable(rows[i])
  {
    RowsParse(ParseLine, rows);
    forall i | 0 <= i < |rows| ensures ParseLine(rows[i]).Ok? <==> Unpackable(rows[i]) {
      ParseLineFails(rows[i]);
    }
  }

  lemma ArchivePrefix(name: string)
    ensures StartsWith(ArchivesUrl + name, ArchivesUrl)
  {
    assert (ArchivesUrl + name)[..|ArchivesUrl|] == ArchivesUrl;
  }

  /** At most one record per row of an index, each with a URL under the archives. */
  lemma RowRecordsUrls(rows: seq<string>)
    requires RowRecords(ParseLine, rows).Ok?
    ensures |RowRecords(ParseLine, rows).value| <= |rows|
    ensures forall k :: 0 <= k < |RowRecords(ParseLine, rows).value| ==>
      StartsWith(RowRecords(ParseLine, rows).value[k].url, ArchivesUrl)
  {
    RowsUrls(ParseLine, rows);
  }

  /** The first line starting with the header, if any. */
  function FirstHeader(lines: seq<string>): (r: Option<nat>)
    ensures r.Some? ==> r.value < |lines| && StartsWith(lines[r.value], HeaderPrefix)
    ensures forall j :: 0 <= j < |lines| && (r.None? || j < r.value) ==> !StartsWith(lines[j], HeaderPrefix)
  {
    if lines == [] then None
    else if StartsWith(lines[0], HeaderPrefix) then Some(0)
    else
      match FirstHeader(lines[1..])
      case None => None
      case Some(i) => Some(i + 1)
  }

  /** The records of one index: nothing without a header, else those `parse` makes of the rows after the first header. */
  function IndexRecords(parse: string -> Result<Option<IndexRecord>>, lines: seq<string>): Result<seq<IndexRecord>> {
    match FirstHeader(lines)
    case None => Ok([])
    case Some(h) => RowRecords(parse, lines[h + 1..])
  }

  /** Every record of a parsed index, with or without a header, points into the archives. */
  lemma IndexRecordsUrls(lines: seq<string>)
    ensures IndexRecords(ParseLine, lines).Ok? ==>
      forall k :: 0 <= k < |IndexRecords(ParseLine, lines).value| ==>
        StartsWith(IndexRecords(ParseLine, lines).value[k].url, ArchivesUrl)
  {
    if FirstHeader(lines).Some? && IndexRecords(ParseLine, lines).Ok? {
      RowRecordsUrls(lines[FirstHeader(lines).value + 1..]);
    }
  }

  /** No line up to and including the header produces a record. */
  lemma PreambleIgnored(parse: string -> Result<Option<IndexRecord>>, preamble: seq<string>, header: string, rows: seq<string>)
    requires forall i :: 0 <= i < |preamble| ==> !StartsWith(preamble[i], HeaderPrefix)
    requires StartsWith(header, HeaderPrefix)
    ensures IndexRecords(parse, preamble + [header] + rows) == RowRecords(parse, rows)
  {
    var lines := preamble + [header] + rows;
    var h := FirstHeader(lines);
    assert lines[|preamble|] == header;
    assert lines[|preamble| + 1..] == rows;
  }

  /** A header line with none before it is the one `FirstHeader` finds. */
  lemma {:induction false} FirstHeaderAt(lines: seq<string>, i: nat)
    requires i < |lines| && StartsWith(lines[i], HeaderPrefix)
    requires forall j :: 0 <= j < i ==> !StartsWith(lines[j], HeaderPrefix)
    ensures FirstHeader(lines) == Some(i)
  {
    if i > 0 {
      var tail := lines[1..];
      assert !StartsWith(lines[0], HeaderPrefix);
      assert tail[i - 1] == lines[i];
      forall j | 0 <= j < i - 1 ensures !StartsWith(tail[j], HeaderPrefix) {
        assert tail[j] == lines[j + 1];
      }
      FirstHeaderAt(tail, i - 1);
    }
  }

  /** The header line found by the loop is the first one, and no row follows it yet. */
  lemma HeaderFound(parse: string -> Result<Option<IndexRecord>>, lines: seq<string>, i: nat)
    requires i < |lines| && StartsWith(lines[i], HeaderPrefix)
    requires forall j :: 0 <= j < i ==> !StartsWith(lines[j], HeaderPrefix)
    ensures FirstHeader(lines) == Some(i)
    ensures RowRecords(parse, lines[i + 1..i + 1]) == Ok([])
  {
    FirstHeaderAt(lines, i);
    assert lines[i + 1..i + 1] == [];
  }

  /**
   * The loop over one index's lines: a `start` flag turned on by the
   * first header line, then every later line parsed by `parse` (the row
   * parser, `ParseLine`) and its record appended.
   */
  method ParseIndexLines(parse: string -> Result<Option<IndexRecord>>, lines: seq<string>) returns (r: Result<seq<IndexRecord>>)
    ensures r == IndexRecords(parse, lines)
  {
    var start := false;
    var results: seq<IndexRecord> := [];
    ghost var h := 0;
    for i := 0 to |lines|
      invariant !start ==> results == [] && forall j :: 0 <= j < i ==> !StartsWith(lines[j], HeaderPrefix)
      invariant start ==> h < i && FirstHeader(lines) == Some(h) && RowRecords(parse, lines[h + 1..i]) == Ok(results)
    {
      var line := lines[i];
      if !start {
        if StartsWith(line, HeaderPrefix) {
          start := true;
          h := i;
          HeaderFound(parse, lines, i);
        }
        continue;
      }
      RowStep(parse, lines, h + 1, i);
      match parse(line)
      case Err(msg) =>
        RowStops(parse, lines, h + 1, i);
        return Err(msg);
      case Ok(None) =>
      case Ok(Some(rec)) =>
        results := results + [rec];
    }
    if start {
      assert lines[h + 1..|lines|] == lines[h + 1..];
    }
    return Ok(results);
  }

  /** One day: the plain index, else the `.gz` copy, else nothing for that day. */
  function DayRecords(fetch: string -> IndexResponse, d: Date): (r: Result<seq<IndexRecord>>)
    requires IsValid(d) && d.year >= 0
    ensures r.Ok? ==> forall k :: 0 <= k < |r.value| ==> StartsWith(r.value[k].url, ArchivesUrl)
  {
    var url := IndexUrl(d);
    match fetch(url)
    case IndexUnreachable => Err(ConnectionFailed)
    case IndexPage(status, lines) =>
      if status == 200 then (IndexRecordsUrls(lines); IndexRecords(ParseLine, lines))
      else
        match fetch(url + GzSuffix)
        case IndexUnreachable => Err(ConnectionFailed)
        case IndexPage(gzStatus, gzLines) =>
          if gzStatus != 200 then Ok([]) else (IndexRecordsUrls(gzLines); IndexRecords(ParseLine, gzLines))
  }

  /** Without either index the day contributes nothing, and is no error. */
  lemma MissingDayIsEmpty(fetch: string -> IndexResponse, d: Date)
    requires IsValid(d) && d.year >= 0
    requires fetch(IndexUrl(d)).IndexPage? && fetch(IndexUrl(d)).status != 200
    requires fetch(IndexUrl(d) + GzSuffix).IndexPage? && fetch(IndexUrl(d) + GzSuffix).status != 200
    ensures DayRecords(fetch, d) == Ok([])
  {
  }

  /**
   * A plain index served with status 200 is the day's answer: what the
   * server would say about the `.gz` copy makes no difference.
   */
  lemma PlainIndexSuffices(fetch: string -> IndexResponse, other: string -> IndexResponse, d: Date)
    requires IsValid(d) && d.year >= 0
    requires fetch(IndexUrl(d)).IndexPage? && fetch(IndexUrl(d)).status == 200
    requires other(IndexUrl(d)) == fetch(IndexUrl(d))
    ensures DayRecords(fetch, d) == DayRecords(other, d) == IndexRecords(ParseLine, fetch(IndexUrl(d)).lines)
  {
  }

  /** The days the loop visits: `today - days_back` through `today`. */
  function Days(today: Date, daysBack: int): (ds: seq<Date>)
    requires IsValid(today)
    ensures |ds| == if daysBack < 0 then 0 else daysBack + 1
  {
    if daysBack < 0 then []
    else
      var start := Backward(today, daysBack);
      seq(daysBack + 1, k requires 0 <= k < daysBack + 1 => Forward(start, k))
  }

  /** Consecutive days, none after today, the last one today. */
  lemma DaysAreConsecutive(today: Date, daysBack: nat)
    requires IsValid(today)
    ensures var ds := Days(today, daysBack);
      && ds[0] == Backward(today, daysBack) && ds[daysBack] == today
      && (forall k :: 0 <= k < daysBack ==> ds[k + 1] == NextDay(ds[k]))
      && (forall k :: 0 <= k <= daysBack ==> !Before(today, ds[k]))
  {
    var ds := Days(today, daysBack);
    ForwardBackward(today, daysBack);
    forall k | 0 <= k < daysBack ensures ds[k + 1] == NextDay(ds[k]) {
      ForwardStep(Backward(today, daysBack), k);
    }
    forall k | 0 <= k <= daysBack ensures !Before(today, ds[k]) {
      WalkReachesToday(today, daysBack, k);
    }
  }

  predicate Indexable(days: seq<Date>) {
    forall k :: 0 <= k < |days| ==> IsValid(days[k]) && days[k].year >= 0
  }

  /** The records of the visited days, day after day, or the first error. */
  function CollectDays(fetch: string -> IndexResponse, days: seq<Date>): Result<seq<IndexRecord>>
    requires Indexable(days)
  {
    if days == [] then Ok([])
    else
      match CollectDays(fetch, days[..|days| - 1])
      case Err(msg) => Err(msg)
      case Ok(prev) =>
        match DayRecords(fetch, days[|days| - 1])
        case Err(msg) => Err(msg)
        case Ok(more) => Ok(prev + more)
  }

  /** Once a prefix of the days fails, the whole walk fails with the same error. */
  lemma {:induction false} CollectErrorPersists(fetch: string -> IndexResponse, days: seq<Date>, k: nat)
    requires Indexable(days) && k <= |days|
    requires Indexable(days[..k]) && CollectDays(fetch, days[..k]).Err?
    ensures CollectDays(fetch, days) == CollectDays(fetch, days[..k])
    decreases |days|
  {
    if |days| == k {
      assert days[..k] == days;
    } else {
      var prefix := days[..|days| - 1];
      assert prefix[..k] == days[..k];
      assert Indexable(prefix);
      CollectErrorPersists(fetch, prefix, k);
    }
  }

  /** Every record collected over the walk points into the archives. */
  lemma {:induction false} CollectedUrls(fetch: string -> IndexResponse, days: seq<Date>)
    requires Indexable(days) && CollectDays(fetch, days).Ok?
    ensures forall k :: 0 <= k < |CollectDays(fetch, days).value| ==> StartsWith(CollectDays(fetch, days).value[k].url, ArchivesUrl)
  {
    if days != [] {
      var prefix := days[..|days| - 1];
      assert Indexable(prefix);
      CollectedUrls(fetch, prefix);
      assert CollectDays(fetch, days).value ==
        CollectDays(fetch, prefix).value + DayRecords(fetch, days[|days| - 1]).value;
    }
  }

  /** A day without an index leaves the records so far as they are and the walk goes on. */
  lemma MissingDayContinues(fetch: string -> IndexResponse, days: seq<Date>, d: Date)
    requires Indexable(days) && IsValid(d) && d.year >= 0
    requires fetch(IndexUrl(d)).IndexPage? && fetch(IndexUrl(d)).status != 200
    requires fetch(IndexUrl(d) + GzSuffix).IndexPage? && fetch(IndexUrl(d) + GzSuffix).status != 200
    ensures Indexable(days + [d])
    ensures CollectDays(fetch, days + [d]) == CollectDays(fetch, days)
  {
    var all := days + [d];
    assert all[..|all| - 1] == days && all[|all| - 1] == d;
    assert Indexable(all);
    MissingDayIsEmpty(fetch, d);
    if CollectDays(fetch, days).Ok? {
      assert CollectDays(fetch, days).value + [] == CollectDays(fetch, days).value;
    }
  }

  /** `today - timedelta(days = days_back)`, the first day visited. */
  function StartDate(today: Date, daysBack: int): (d: Date)
    requires IsValid(today)
    ensures IsValid(d)
  {
    AddDays(today, -daysBack)
  }

  /** Python dates run from year 1 to year 9999. */
  predicate InDateRange(d: Date) {
    1 <= d.year <= 9999
  }

  /** One more day: the walk's result after day `k` from its result before. */
  lemma CollectStep(fetch: string -> IndexResponse, days: seq<Date>, k: nat)
    requires Indexable(days) && k < |days| && CollectDays(fetch, days[..k]).Ok?
    ensures Indexable(days[..k + 1])
    ensures CollectDays(fetch, days[..k + 1]) ==
      match DayRecords(fetch, days[k])
      case Err(msg) => Err(msg)
      case Ok(more) => Ok(CollectDays(fetch, days[..k]).value + more)
  {
    var prefix := days[..k + 1];
    assert prefix[..k] == days[..k] && prefix[k] == days[k];
    assert Indexable(prefix);
  }

  /** A failing day ends the walk with that day's error. */
  lemma CollectStops(fetch: string -> IndexResponse, days: seq<Date>, k: nat)
    requires Indexable(days) && k < |days| && Indexable(days[..k + 1]) && CollectDays(fetch, days[..k + 1]).Err?
    ensures CollectDays(fetch, days) == CollectDays(fetch, days[..k + 1])
  {
    CollectErrorPersists(fetch, days, k + 1);
  }

  /** The body of the date loop for one day: the plain index, the gzipped one, or nothing. */
  method IndexOfDay(fetch: string -> IndexResponse, d: Date) returns (r: Result<seq<IndexRecord>>)
    requires IsValid(d) && d.year >= 0
    ensures r == DayRecords(fetch, d)
  {
    var url := IndexUrl(d);
    var response := fetch(url);
    if response.IndexUnreachable? {
      return Err(ConnectionFailed);
    }
    var lines := response.lines;
    if response.status != 200 {
      url := url + GzSuffix;
      response := fetch(url);
      if response.IndexUnreachable? {
        return Err(ConnectionFailed);
      }
      if response.status != 200 {
        return Ok([]);
      }
      lines := response.lines;
    }
    r := ParseIndexLines(ParseLine, lines);
  }

  /**
   * `get_form4_filings`: the records of every day from `today - days_back`
   * through `today`, in date order, or the first error.
   */
  method GetForm4Filings(today: Date, daysBack: int, fetch: string -> IndexResponse)
    returns (r: Result<seq<IndexRecord>>)
    requires IsValid(today) && 1 <= today.year <= 9998
    ensures !InDateRange(StartDate(today, daysBack)) ==> r == Err(DateOutOfRange)
    ensures InDateRange(StartDate(today, daysBack)) ==>
      Indexable(Days(today, daysBack)) && r == CollectDays(fetch, Days(today, daysBack))
  {
    var current := StartDate(today, daysBack);
    if !InDateRange(current) {
      return Err(DateOutOfRange);
    }
    ghost var days := Days(today, daysBack);
    ghost var n: nat := if daysBack < 0 then 0 else daysBack + 1;
    ghost var k: nat := 0;
    if daysBack < 0 {
      ForwardIsLater(today, -daysBack);
    } else {
      DaysAreConsecutive(today, daysBack);
    }
    var results: seq<IndexRecord> := [];
    while !Before(today, current)
      invariant k <= n && |days| == n && Indexable(days)
      invariant daysBack < 0 ==> Before(today, current)
      invariant daysBack >= 0 ==> current == Forward(Backward(today, daysBack), k)
      invariant CollectDays(fetch, days[..k]) == Ok(results)
      decreases n - k
    {
      WalkReachesToday(today, daysBack, k);
      assert current == days[k];
      CollectStep(fetch, days, k);
      var dayRecords := IndexOfDay(fetch, current);
      if dayRecords.Err? {
        CollectStops(fetch, days, k);
        return Err(dayRecords.error);
      }
      ForwardStep(Backward(today, daysBack), k);
      results := results + dayRecords.value;
      current := NextDay(current);
      k := k + 1;
    }
    if daysBack >= 0 {
      WalkReachesToday(today, daysBack, k);
    }
    assert days[..k] == days;
    return Ok(results);
  }
}
