/**
 * Turning one fetched Form 4 document into a filing record: the URL
 * rewrite before the request, the XML section of the response, the
 * first-occurrence tag lookup, and the record with its parsed numbers.
 */
module Form4Payload {
  import opened Wrappers
  import opened Text
  import opened Numbers
  import opened Calendar
  import opened Dedup
  import opened Subsequences

  /** The sentinel a missing tag extracts to. */
  const NotAvailable: string := "N/A"

  const IndexSuffix: string := "-index.htm"
  const TextSuffix: string := ".txt"

  /** The document actually requested for a feed URL: the `.txt` form of an `-index.htm` page. */
  function FetchUrl(url: string): string {
    if EndsWith(url, IndexSuffix) then ReplaceAll(url, IndexSuffix, TextSuffix) else url
  }

  /** An index page URL whose only `-index.htm` is its suffix is requested as the same path ending in `.txt`. */
  lemma FetchUrlOfIndexPage(url: string)
    requires EndsWith(url, IndexSuffix) && Find(url, IndexSuffix) == |url| - |IndexSuffix|
    ensures FetchUrl(url) == url[..|url| - |IndexSuffix|] + TextSuffix
  {
    ReplaceSuffix(url, IndexSuffix, TextSuffix);
  }

  /** Exactly the URLs ending in `-index.htm` are rewritten; every other URL is requested unchanged. */
  lemma FetchUrlChangesOnlyIndexPages(url: string)
    ensures FetchUrl(url) == url <==> !EndsWith(url, IndexSuffix)
  {
    if EndsWith(url, IndexSuffix) {
      var at := |url| - |IndexSuffix|;
      assert url[at..at + |IndexSuffix|] == IndexSuffix;
      assert OccursAt(url, IndexSuffix, at);
      ReplaceAllShortens(url, IndexSuffix, TextSuffix);
    }
  }

  const XmlOpen: string := "<XML>"
  const XmlClose: string := "</XML>"
  const XmlDeclaration: string := "<?xml"

  /** `text[text.find(open):text.find(close) + len(close)]`, with Python's slice rules. */
  function Span(text: string, open: string, close: string): string {
    PySlice(text, Find(text, open), Find(text, close) + |close|)
  }

  /** `section[section.find(mark):]`, with Python's slice rules. */
  function FromMark(section: string, mark: string): string {
    PySlice(section, Find(section, mark), |section|)
  }

  /** The payload of a fetched document: its `<XML>`…`</XML>` section, from the `<?xml` declaration on. */
  function XmlPayload(text: string): string {
    FromMark(Span(text, XmlOpen, XmlClose), XmlDeclaration)
  }

  lemma SpanAt(text: string, open: string, close: string, start: nat, closeAt: nat)
    requires Find(text, open) == start && Find(text, close) == closeAt
    requires start <= closeAt + |close| <= |text|
    ensures Span(text, open, close) == text[start..closeAt + |close|]
  {
  }

  lemma FromMarkAt(section: string, mark: string, at: nat)
    requires Find(section, mark) == at
    ensures FromMark(section, mark) == section[at..]
  {
  }

  /** Markers found in `pre + section` stay where they are when text follows. */
  lemma SpanOf(pre: string, section: string, post: string, open: string, close: string)
    requires Find(pre + section, open) == |pre|
    requires |close| <= |section| && Find(pre + section, close) == |pre + section| - |close|
    ensures Span(pre + section + post, open, close) == section
  {
    var text := pre + section + post;
    FindInPrefix(pre + section, post, open);
    FindInPrefix(pre + section, post, close);
    assert text[|pre|..|pre + section|] == section;
    SpanAt(text, open, close, |pre|, |pre + section| - |close|);
  }

  lemma FindThroughTail(p: string, a: string, b: string, c: string, d: string, pat: string)
    requires Find(p, pat) != -1
    ensures Find(p + a + b + c + d, pat) == Find(p, pat)
  {
    FindInPrefix(p, a, pat);
    FindInPrefix(p + a, b, pat);
    FindInPrefix(p + a + b, c, pat);
    FindInPrefix(p + a + b + c, d, pat);
  }

  lemma WrappedParts(pre: string, open: string, mid: string, decl: string, body: string, close: string, post: string)
    ensures var section := open + mid + decl + body + close;
      && pre + open + mid + decl + body + close == pre + section
      && pre + open + mid + decl + body + close + post == pre + section + post
      && section[|open + mid|..] == decl + body + close
  {
    var section := open + mid + decl + body + close;
    assert section == (open + mid) + (decl + body + close);
  }

  /**
   * For a document `pre <XML> mid <?xml body </XML> post` whose markers
   * are the first of their kind, the payload is the text from the
   * declaration through the closing marker.
   */
  lemma XmlPayloadOfWrappedDocument(pre: string, mid: string, body: string, post: string)
    requires Find(pre + XmlOpen, XmlOpen) == |pre|
    requires Find(pre + XmlOpen + mid + XmlDeclaration + body + XmlClose, XmlClose)
             == |pre + XmlOpen + mid + XmlDeclaration + body|
    requires Find(XmlOpen + mid + XmlDeclaration, XmlDeclaration) == |XmlOpen + mid|
    ensures XmlPayload(pre + XmlOpen + mid + XmlDeclaration + body + XmlClose + post)
            == XmlDeclaration + body + XmlClose
  {
    WrappedAt(pre, XmlOpen, mid, XmlDeclaration, body, XmlClose, post);
  }

  lemma WrappedAt(pre: string, open: string, mid: string, decl: string, body: string, close: string, post: string)
    requires Find(pre + open, open) == |pre|
    requires Find(pre + open + mid + decl + body + close, close) == |pre + open + mid + decl + body|
    requires Find(open + mid + decl, decl) == |open + mid|
    ensures FromMark(Span(pre + open + mid + decl + body + close + post, open, close), decl) == decl + body + close
  {
    WrappedParts(pre, open, mid, decl, body, close, post);
    var section := open + mid + decl + body + close;
    FindThroughTail(pre + open, mid, decl, body, close, open);
    FindInPrefix(open + mid + decl, body, decl);
    FindInPrefix(open + mid + decl + body, close, decl);
    SpanOf(pre, section, post, open, close);
    FromMarkAt(section, decl, |open + mid|);
  }

  function OpenTag(tag: string): string { "<" + tag + ">" }
  function CloseTag(tag: string): string { "</" + tag + ">" }

  const ValueOpen: string := "<value>"
  const ValueClose: string := "</value>"

  /** `s[s.find(open) + len(open):s.find(close)]`, with Python's slice rules. */
  function Between(s: string, open: string, close: string): string {
    PySlice(s, Find(s, open) + |open|, Find(s, close))
  }

  /**
   * `extract_tag`: the stripped text between the first `<tag>` and the
   * first `</tag>`; when that text holds both `<value>` and `</value>`,
   * the stripped text between the first of each instead; `"N/A"` when
   * either marker of the tag is missing.
   */
  function ExtractTag(xml: string, tag: string): (r: string)
    ensures !Contains(xml, OpenTag(tag)) || !Contains(xml, CloseTag(tag)) ==> r == NotAvailable
  {
    if Find(xml, OpenTag(tag)) != -1 && Find(xml, CloseTag(tag)) != -1 then
      var inner := Strip(Between(xml, OpenTag(tag), CloseTag(tag)));
      if Contains(inner, ValueOpen) && Contains(inner, ValueClose) then
        Strip(Between(inner, ValueOpen, ValueClose))
      else inner
    else NotAvailable
  }

  lemma BetweenAt(s: string, open: string, close: string, start: nat, closeAt: nat)
    requires Find(s, open) == start && Find(s, close) == closeAt
    requires start + |open| <= closeAt <= |s|
    ensures Between(s, open, close) == s[start + |open|..closeAt]
  {
  }

  lemma ElementParts(pre: string, open: string, body: string, close: string, post: string)
    ensures var s := pre + open + body + close + post;
      |pre + open + body| <= |s| && s[|pre + open|..|pre + open + body|] == body
  {
  }

  /** In `pre open body close post`, with `open` and `close` first found where they stand, the text between them is `body`. */
  lemma BetweenOf(pre: string, open: string, body: string, close: string, post: string)
    requires Find(pre + open, open) == |pre|
    requires Find(pre + open + body + close, close) == |pre + open + body|
    ensures var s := pre + open + body + close + post;
      && Find(s, open) == |pre| && Find(s, close) == |pre + open + body|
      && Between(s, open, close) == body
  {
    var s := pre + open + body + close + post;
    FindsInElement(pre, open, body, close, post);
    ElementParts(pre, open, body, close, post);
    BetweenAt(s, open, close, |pre|, |pre + open + body|);
  }

  lemma FindsInElement(pre: string, open: string, body: string, close: string, post: string)
    requires Find(pre + open, open) == |pre|
    requires Find(pre + open + body + close, close) == |pre + open + body|
    ensures var s := pre + open + body + close + post;
      Find(s, open) == |pre| && Find(s, close) == |pre + open + body|
  {
    FindInPrefix(pre + open, body, open);
    FindInPrefix(pre + open + body, close, open);
    FindInPrefix(pre + open + body + close, post, open);
    FindInPrefix(pre + open + body + close, post, close);
  }

  /** A document holding `<tag>body</tag>` with both markers the first of their kind. */
  predicate FirstElement(pre: string, tag: string, body: string) {
    && Find(pre + OpenTag(tag), OpenTag(tag)) == |pre|
    && Find(pre + OpenTag(tag) + body + CloseTag(tag), CloseTag(tag)) == |pre + OpenTag(tag) + body|
  }

  lemma NoValueInside(body: string)
    requires !('<' in body)
    ensures !Contains(Strip(body), ValueOpen)
  {
    if '<' in Strip(body) {
      StripKeepsCharacters(body, '<');
    }
    AbsentLeadNoOccurrence(Strip(body), ValueOpen);
  }

  /** A plain element extracts to its stripped text. */
  lemma ExtractPlainElement(pre: string, tag: string, body: string, post: string)
    requires FirstElement(pre, tag, body)
    requires !('<' in body)
    ensures ExtractTag(pre + OpenTag(tag) + body + CloseTag(tag) + post, tag) == Strip(body)
  {
    BetweenOf(pre, OpenTag(tag), body, CloseTag(tag), post);
    NoValueInside(body);
  }

  lemma NoMarkerBefore(s: string, pat: string, i: nat)
    requires 0 < |pat| && pat[0] == '<' && i < |s| && s[i] != '<'
    ensures !OccursAt(s, pat, i)
  {
    if i + |pat| <= |s| {
      assert s[i..i + |pat|][0] == s[i];
    }
  }

  /** Inside `<value>v</value>` with `v` free of `<`, the value markers are found where they stand. */
  lemma ValueMarkers(v: string)
    requires !('<' in v)
    ensures var w := ValueOpen + v + ValueClose;
      && Find(w, ValueOpen) == 0 && Find(w, ValueClose) == |ValueOpen + v|
      && Between(w, ValueOpen, ValueClose) == v
  {
    var w := ValueOpen + v + ValueClose;
    assert OccursAt(w, ValueOpen, 0);
    FindIsFirst(w, ValueOpen, 0);
    assert w[7 + |v|..7 + |v| + 8] == ValueClose;
    assert OccursAt(w, ValueClose, 7 + |v|);
    forall j | 0 <= j < 7 + |v| ensures !OccursAt(w, ValueClose, j) {
      if j == 0 {
        assert w[1] != ValueClose[1];
        assert w[j..j + 8][1] == w[1];
      } else if j < 7 {
        assert w[j] == ValueOpen[j];
        NoMarkerBefore(w, ValueClose, j);
      } else {
        assert w[j] == v[j - 7];
        NoMarkerBefore(w, ValueClose, j);
      }
    }
    FindIsFirst(w, ValueClose, 7 + |v|);
    assert w[7..7 + |v|] == v;
    BetweenAt(w, ValueOpen, ValueClose, 0, 7 + |v|);
  }

  lemma ValueElementParts(pre: string, tag: string, ws1: string, v: string, rest: string, post: string)
    ensures var body := ws1 + (ValueOpen + v + ValueClose) + rest;
      && ws1 + ValueOpen + v + ValueClose + rest == body
      && pre + OpenTag(tag) + ws1 + ValueOpen + v + ValueClose + rest + CloseTag(tag) + post
         == pre + OpenTag(tag) + body + CloseTag(tag) + post
  {
  }

  lemma WrappedValueIsStripped(v: string)
    ensures IsStripped(ValueOpen + v + ValueClose)
  {
    var w := ValueOpen + v + ValueClose;
    assert w[0] == '<' && w[|w| - 1] == '>';
  }

  /** A text that starts with `<value>v</value>` has its first value markers around `v`, whatever follows. */
  lemma LeadingValue(v: string, tail: string)
    requires !('<' in v)
    ensures var s := ValueOpen + v + ValueClose + tail;
      Contains(s, ValueOpen) && Contains(s, ValueClose) && Between(s, ValueOpen, ValueClose) == v
  {
    var w := ValueOpen + v + ValueClose;
    var s := w + tail;
    ValueMarkers(v);
    FindInPrefix(w, tail, ValueOpen);
    FindInPrefix(w, tail, ValueClose);
    assert s[|ValueOpen|..|ValueOpen + v|] == v;
    BetweenAt(s, ValueOpen, ValueClose, 0, |ValueOpen + v|);
  }

  /** The stripped text of a field that starts (after white space) with a value element still starts with it. */
  lemma ValueInner(ws1: string, v: string, rest: string)
    requires AllSpace(ws1) && !('<' in v)
    ensures var inner := Strip(ws1 + (ValueOpen + v + ValueClose) + rest);
      Contains(inner, ValueOpen) && Contains(inner, ValueClose) && Between(inner, ValueOpen, ValueClose) == v
  {
    var w := ValueOpen + v + ValueClose;
    WrappedValueIsStripped(v);
    StripKeepsLead(ws1, w, rest);
    StartsWithValue(Strip(ws1 + w + rest), v);
  }

  /** A text whose first characters are `<value>v</value>` has its first value markers around `v`. */
  lemma StartsWithValue(s: string, v: string)
    requires !('<' in v)
    requires var w := ValueOpen + v + ValueClose; |s| >= |w| && s[..|w|] == w
    ensures Contains(s, ValueOpen) && Contains(s, ValueClose) && Between(s, ValueOpen, ValueClose) == v
  {
    var w := ValueOpen + v + ValueClose;
    var tail := s[|w|..];
    assert s == w + tail;
    LeadingValue(v, tail);
  }

  /** `extract_tag` of a field whose stripped text holds both value markers: the stripped text between them. */
  lemma ExtractFromInner(xml: string, tag: string, body: string)
    requires Find(xml, OpenTag(tag)) != -1 && Find(xml, CloseTag(tag)) != -1
    requires Between(xml, OpenTag(tag), CloseTag(tag)) == body
    requires Contains(Strip(body), ValueOpen) && Contains(Strip(body), ValueClose)
    ensures ExtractTag(xml, tag) == Strip(Between(Strip(body), ValueOpen, ValueClose))
  {
  }

  /**
   * A Form 4 field written as `<tag> <value>v</value> ... </tag>`
   * extracts to the stripped value, whatever follows the value element
   * inside the field (a footnote reference, say).
   */
  lemma ExtractValueElement(pre: string, tag: string, ws1: string, v: string, rest: string, post: string)
    requires AllSpace(ws1) && !('<' in v)
    requires FirstElement(pre, tag, ws1 + ValueOpen + v + ValueClose + rest)
    ensures ExtractTag(pre + OpenTag(tag) + ws1 + ValueOpen + v + ValueClose + rest + CloseTag(tag) + post, tag)
            == Strip(v)
  {
    var body := ws1 + (ValueOpen + v + ValueClose) + rest;
    var xml := pre + OpenTag(tag) + body + CloseTag(tag) + post;
    ValueElementParts(pre, tag, ws1, v, rest, post);
    BetweenOf(pre, OpenTag(tag), body, CloseTag(tag), post);
    ValueInner(ws1, v, rest);
    ExtractFromInner(xml, tag, body);
  }

  /** One parsed Form 4 filing; role flags keep the text of their tags. */
  datatype Filing = Filing(
    sourceUrl: string,
    timestamp: Timestamp,
    issuer: string,
    symbol: string,
    owner: string,
    transactionCode: string,
    shares: real,
    price: real,
    isDirector: string,
    isOfficer: string,
    title: string,
    isPurchased: bool)

  const AcquiredCode: string := "A"
  const SharesTag: string := "transactionShares"
  const PriceTag: string := "transactionPricePerShare"
  const AcquiredDisposedTag: string := "transactionAcquiredDisposedCode"

  /**
   * The record of one payload: there is one exactly when both the shares
   * and the price extract to numbers, and it carries those numbers with
   * the URL and timestamp it was fetched for.
   */
  function BuildFiling(url: string, ts: Timestamp, xml: string): (r: Option<Filing>)
    ensures r.Some? <==> ParseFloat(ExtractTag(xml, SharesTag)).Some? && ParseFloat(ExtractTag(xml, PriceTag)).Some?
    ensures r.Some? ==>
      && r.value.sourceUrl == url && r.value.timestamp == ts
      && ParseFloat(ExtractTag(xml, SharesTag)) == Some(r.value.shares)
      && ParseFloat(ExtractTag(xml, PriceTag)) == Some(r.value.price)
  {
    match (ParseFloat(ExtractTag(xml, SharesTag)), ParseFloat(ExtractTag(xml, PriceTag)))
    case (Some(shares), Some(price)) =>
      Some(Filing(
        url, ts,
        ExtractTag(xml, "issuerName"),
        ExtractTag(xml, "issuerTradingSymbol"),
        ExtractTag(xml, "rptOwnerName"),
        ExtractTag(xml, "transactionCode"),
        shares, price,
        ExtractTag(xml, "isDirector"),
        ExtractTag(xml, "isOfficer"),
        ExtractTag(xml, "officerTitle"),
        ExtractTag(xml, AcquiredDisposedTag) == AcquiredCode))
    case _ => None
  }

  /** A filing is a purchase only when its payload has an acquired-or-disposed element at all. */
  lemma PurchasedOnlyWhenAcquired(url: string, ts: Timestamp, xml: string)
    requires BuildFiling(url, ts, xml).Some? && BuildFiling(url, ts, xml).value.isPurchased
    ensures Contains(xml, OpenTag(AcquiredDisposedTag)) && Contains(xml, CloseTag(AcquiredDisposedTag))
  {
  }

  /** The purchase flag of a built record compares the extracted code with `A`. */
  lemma PurchaseFlag(url: string, ts: Timestamp, xml: string)
    requires BuildFiling(url, ts, xml).Some?
    ensures BuildFiling(url, ts, xml).value.isPurchased == (ExtractTag(xml, AcquiredDisposedTag) == AcquiredCode)
  {
  }

  /** The usual `<transactionAcquiredDisposedCode><value>A</value>...` element makes the filing a purchase. */
  lemma AcquiredElementIsPurchase(url: string, ts: Timestamp, xml: string, pre: string, ws: string, rest: string, post: string)
    requires AllSpace(ws)
    requires FirstElement(pre, AcquiredDisposedTag, ws + ValueOpen + AcquiredCode + ValueClose + rest)
    requires xml == pre + OpenTag(AcquiredDisposedTag) + ws + ValueOpen + AcquiredCode + ValueClose + rest
                    + CloseTag(AcquiredDisposedTag) + post
    requires BuildFiling(url, ts, xml).Some?
    ensures BuildFiling(url, ts, xml).value.isPurchased
  {
    AcquiredCodeExtracted(xml, pre, ws, rest, post);
    PurchaseFlag(url, ts, xml);
  }

  lemma AcquiredCodeExtracted(xml: string, pre: string, ws: string, rest: string, post: string)
    requires AllSpace(ws)
    requires FirstElement(pre, AcquiredDisposedTag, ws + ValueOpen + AcquiredCode + ValueClose + rest)
    requires xml == pre + OpenTag(AcquiredDisposedTag) + ws + ValueOpen + AcquiredCode + ValueClose + rest
                    + CloseTag(AcquiredDisposedTag) + post
    ensures ExtractTag(xml, AcquiredDisposedTag) == AcquiredCode
  {
    ExtractValueElement(pre, AcquiredDisposedTag, ws, AcquiredCode, rest, post);
    AcquiredCodeStripped();
  }

  lemma AcquiredCodeStripped()
    ensures Strip(AcquiredCode) == AcquiredCode
  {
    assert AllSpace([]);
    StripSurrounded([], AcquiredCode, []);
    assert [] + AcquiredCode + [] == AcquiredCode;
  }

  lemma NotAvailableIsNoNumber()
    ensures ParseFloat(NotAvailable) == None
  {
    assert NoDigits(NotAvailable) by {
      forall i | 0 <= i < |NotAvailable| ensures !IsDigit(NotAvailable[i]) {
        assert NotAvailable[i] in {'N', '/', 'A'};
      }
    }
  }

  /** A payload without a shares or a price element yields no record. */
  lemma MissingAmountNoFiling(url: string, ts: Timestamp, xml: string)
    requires !Contains(xml, OpenTag(SharesTag)) || !Contains(xml, OpenTag(PriceTag))
    ensures BuildFiling(url, ts, xml) == None
  {
    NotAvailableIsNoNumber();
  }

  /** What `requests.get` gives back: a status and body, or a connection error. */
  datatype Response = Response(status: int, text: string) | ConnectionError

  /** One iteration of the unpacking loop: the filing of one URL, or `None` when it is skipped. */
  function ParseOne(fetch: string -> Response, url: string, ts: Timestamp): (r: Option<Filing>)
    ensures r.Some? ==> r.value.sourceUrl == url && r.value.timestamp == ts
  {
    match fetch(FetchUrl(url))
    case ConnectionError => None
    case Response(status, text) =>
      if status != 200 then None else BuildFiling(url, ts, XmlPayload(text))
  }

  /** What one pair of the batch contributes: its filing, or nothing when it is skipped. */
  function StepFilings(fetch: string -> Response, p: Pair): seq<Filing> {
    match ParseOne(fetch, p.0, p.1)
    case Some(f) => [f]
    case None => []
  }

  /** The outputs of `step` on each pair of a batch, concatenated in batch order. */
  function Flatten(step: Pair -> seq<Filing>, batch: seq<Pair>): seq<Filing> {
    if batch == [] then []
    else Flatten(step, batch[..|batch| - 1]) + step(batch[|batch| - 1])
  }

  /** One pair appended to a batch adds that pair's outputs at the end. */
  lemma FlattenSnoc(step: Pair -> seq<Filing>, batch: seq<Pair>, p: Pair)
    ensures Flatten(step, batch + [p]) == Flatten(step, batch) + step(p)
  {
    var all := batch + [p];
    assert all[..|all| - 1] == batch && all[|all| - 1] == p;
  }

  lemma {:induction false} FlattenAppend(step: Pair -> seq<Filing>, a: seq<Pair>, b: seq<Pair>)
    ensures Flatten(step, a + b) == Flatten(step, a) + Flatten(step, b)
  {
    if b == [] {
      assert a + b == a;
    } else {
      var b', last := b[..|b| - 1], b[|b| - 1];
      assert b == b' + [last];
      assert a + b == (a + b') + [last];
      FlattenAppend(step, a, b');
      FlattenSnoc(step, b', last);
      FlattenSnoc(step, a + b', last);
    }
  }

  /** The filings of a zipped batch, in batch order, each skipped pair left out. */
  function ParsedFilings(fetch: string -> Response, batch: seq<Pair>): seq<Filing> {
    Flatten(p => StepFilings(fetch, p), batch)
  }

  /** A skipped document does not stop the batch: the filings of two halves are those of each half. */
  lemma ParsedFilingsAppend(fetch: string -> Response, a: seq<Pair>, b: seq<Pair>)
    ensures ParsedFilings(fetch, a + b) == ParsedFilings(fetch, a) + ParsedFilings(fetch, b)
  {
    FlattenAppend(p => StepFilings(fetch, p), a, b);
  }

  /** One pair appended to a batch adds that pair's filings at the end. */
  lemma ParsedSnoc(fetch: string -> Response, batch: seq<Pair>, p: Pair)
    ensures ParsedFilings(fetch, batch + [p]) == ParsedFilings(fetch, batch) + StepFilings(fetch, p)
  {
    FlattenSnoc(q => StepFilings(fetch, q), batch, p);
  }

  function Origin(f: Filing): Pair { (f.sourceUrl, f.timestamp) }

  function Origins(fs: seq<Filing>): (ps: seq<Pair>)
    ensures |ps| == |fs| && forall i :: 0 <= i < |fs| ==> ps[i] == Origin(fs[i])
  {
    seq(|fs|, i requires 0 <= i < |fs| => Origin(fs[i]))
  }

  lemma OriginsAppend(a: seq<Filing>, b: seq<Filing>)
    ensures Origins(a + b) == Origins(a) + Origins(b)
  {
  }

  /** A pair contributes nothing or one filing, which records that pair as its origin. */
  lemma StepOrigins(fetch: string -> Response, p: Pair)
    ensures Origins(StepFilings(fetch, p)) == [] || Origins(StepFilings(fetch, p)) == [p]
  {
    var o := ParseOne(fetch, p.0, p.1);
    assert StepFilings(fetch, p) == if o.Some? then [o.value] else [];
    OptionOrigins(o, p);
  }

  lemma OptionOrigins(o: Option<Filing>, p: Pair)
    requires o.Some? ==> Origin(o.value) == p
    ensures var fs := if o.Some? then [o.value] else []; Origins(fs) == [] || Origins(fs) == [p]
  {
    if o.Some? {
      assert Origins([o.value])[0] == Origin(o.value);
    }
  }

  /** The filings keep the order of their URLs in the batch, each with the URL and timestamp it came from. */
  lemma {:induction false} ParsedFilingsInBatchOrder(fetch: string -> Response, batch: seq<Pair>)
    ensures IsSubsequence(Origins(ParsedFilings(fetch, batch)), batch)
    ensures |ParsedFilings(fetch, batch)| <= |batch|
  {
    if batch != [] {
      var b' := batch[..|batch| - 1];
      var p := batch[|batch| - 1];
      assert batch == b' + [p];
      ParsedFilingsInBatchOrder(fetch, b');
      var prev := ParsedFilings(fetch, b');
      var step := StepFilings(fetch, p);
      StepOrigins(fetch, p);
      ParsedSnoc(fetch, b', p);
      OriginsAppend(prev, step);
      if Origins(step) == [] {
        assert Origins(prev + step) == Origins(prev);
        SkipLast(Origins(prev), b', p);
      } else {
        KeepLast(Origins(prev), b', p);
      }
    }
  }

  /** Every parsed filing was fetched for a URL of the batch. */
  lemma ParsedFilingFromBatch(fetch: string -> Response, urls: seq<string>, stamps: seq<Timestamp>, f: Filing)
    requires f in ParsedFilings(fetch, Zip(urls, stamps))
    ensures f.sourceUrl in urls
  {
    var batch := Zip(urls, stamps);
    var fs := ParsedFilings(fetch, batch);
    var k :| 0 <= k < |fs| && fs[k] == f;
    ParsedFilingsInBatchOrder(fetch, batch);
    assert Origins(fs)[k] == Origin(f);
    SubsequenceMembers(Origins(fs), batch, Origin(f));
    var i :| 0 <= i < |batch| && batch[i] == Origin(f);
  }

  /** One more pair: the filings through pair `i` from those before it. */
  lemma ParsedStep(fetch: string -> Response, batch: seq<Pair>, i: nat)
    requires i < |batch|
    ensures ParsedFilings(fetch, batch[..i + 1]) == ParsedFilings(fetch, batch[..i]) + StepFilings(fetch, batch[i])
  {
    assert batch[..i + 1] == batch[..i] + [batch[i]];
    ParsedSnoc(fetch, batch[..i], batch[i]);
  }

  /**
   * The loop of `unpack_urls`: fetches each URL of the zipped batch,
   * skips it on a connection error, a status other than 200 or a number
   * that does not parse, and otherwise appends its filing.
   */
  method UnpackUrls(fetch: string -> Response, newUrls: seq<string>, newTimestamps: seq<Timestamp>)
    returns (filings: seq<Filing>)
    ensures filings == ParsedFilings(fetch, Zip(newUrls, newTimestamps))
  {
    if newUrls == [] {
      return [];
    }
    var batch := Zip(newUrls, newTimestamps);
    filings := [];
    for i := 0 to |batch|
      invariant filings == ParsedFilings(fetch, batch[..i])
    {
      var (url, ts) := batch[i];
      ParsedStep(fetch, batch, i);
      var txtUrl := if EndsWith(url, IndexSuffix) then ReplaceAll(url, IndexSuffix, TextSuffix) else url;
      var response := fetch(txtUrl);
      if response.ConnectionError? || response.status != 200 {
        continue;
      }
      var xml := XmlPayload(response.text);
      var shares := ParseFloat(ExtractTag(xml, SharesTag));
      var price := ParseFloat(ExtractTag(xml, PriceTag));
      if shares.None? || price.None? {
        continue;
      }
      var filing := Filing(
        url, ts,
        ExtractTag(xml, "issuerName"),
        ExtractTag(xml, "issuerTradingSymbol"),
        ExtractTag(xml, "rptOwnerName"),
        ExtractTag(xml, "transactionCode"),
        shares.value, price.value,
        ExtractTag(xml, "isDirector"),
        ExtractTag(xml, "isOfficer"),
        ExtractTag(xml, "officerTitle"),
        ExtractTag(xml, AcquiredDisposedTag) == AcquiredCode);
      filings := filings + [filing];
    }
    assert batch[..|batch|] == batch;
  }
}
