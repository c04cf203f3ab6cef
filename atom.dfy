/**
 * Selecting filing URLs from the entries of the EDGAR "current Form 4"
 * Atom feed (RFC 4287: `entry` in section 4.1.2, `updated` in section
 * 4.2.15, `link` in section 4.2.7).  The scraper keeps an entry when its
 * title mentions the issuer and its link points into the EDGAR archives;
 * the earlier variant also drops entries not updated today.
 */
module AtomFeed {
  import opened Wrappers
  import opened Text
  import opened Calendar
  import opened Dedup

  /**
   * One `atom:entry` as the loop sees it: the parsed `updated` value
   * (`None` when the element is missing or not an ISO timestamp), the
   * title text (`None` when the element is missing or empty) and the
   * attributes of the first `link` element (`None` when there is none).
   */
  datatype Entry = Entry(updated: Option<Timestamp>, title: Option<string>, link: Option<map<string, string>>)

  /** What the scraper finds where the browser saved the feed: no file, a file that is not XML, or its entries. */
  datatype Feed = FeedMissing | FeedUnparsable | FeedEntries(entries: seq<Entry>)

  const IssuerMark: string := "Issuer"
  const ArchivesMark: string := "Archives"
  const HrefKey: string := "href"

  /** The entry has a link whose `href` points into the EDGAR archives. */
  predicate HasArchiveLink(e: Entry) {
    e.link.Some? && HrefKey in e.link.value && Contains(e.link.value[HrefKey], ArchivesMark)
  }

  /**
   * One iteration of the entry loop: the error that escapes the loop,
   * nothing (`continue`), or the entry's URL with its timestamp.
   * `today == None` is the version without the same-day check.
   */
  function Select(e: Entry, today: Option<Date>): Result<seq<Pair>> {
    match e.updated
    case None => Err("entry without a readable updated timestamp")
    case Some(ts) =>
      if today.Some? && ts.date != today.value then Ok([])
      else
        match e.title
        case None => Err("entry without title text")
        case Some(title) =>
          if !Contains(title, IssuerMark) then Ok([])
          else if HasArchiveLink(e) then Ok([(e.link.value[HrefKey], ts)])
          else Ok([])
  }

  /** The whole loop: the pairs of the entries in feed order, or the error of the first entry that raises. */
  function Selected(es: seq<Entry>, today: Option<Date>): Result<seq<Pair>> {
    if es == [] then Ok([])
    else
      match Selected(es[..|es| - 1], today)
      case Err(msg) => Err(msg)
      case Ok(prev) =>
        match Select(es[|es| - 1], today)
        case Err(msg) => Err(msg)
        case Ok(more) => Ok(prev + more)
  }

  /** One more entry: the loop's result after entry `i` from its result before. */
  lemma SelectedStep(es: seq<Entry>, i: nat, today: Option<Date>)
    requires i < |es| && Selected(es[..i], today).Ok?
    ensures Selected(es[..i + 1], today) ==
      match Select(es[i], today)
      case Err(msg) => Err(msg)
      case Ok(more) => Ok(Selected(es[..i], today).value + more)
  {
    assert es[..i + 1][..i] == es[..i];
  }

  /** Once an entry has raised, the entries after it change nothing. */
  lemma {:induction false} ErrorPersists(a: seq<Entry>, b: seq<Entry>, today: Option<Date>)
    requires Selected(a, today).Err?
    ensures Selected(a + b, today) == Selected(a, today)
  {
    if b != [] {
      var b' := b[..|b| - 1];
      assert (a + b)[..|a + b| - 1] == a + b';
      ErrorPersists(a, b', today);
    } else {
      assert a + b == a;
    }
  }

  /** Entry `e` raises: its timestamp is unreadable, or it passes the date check and has no title text. */
  predicate Raises(e: Entry, today: Option<Date>) {
    e.updated.None?
    || ((today.None? || e.updated.value.date == today.value) && e.title.None?)
  }

  /** Entry `e` contributes its URL: dated today when that is checked, an issuer title, an archive link. */
  predicate Keeps(e: Entry, today: Option<Date>) {
    && e.updated.Some?
    && (today.None? || e.updated.value.date == today.value)
    && e.title.Some? && Contains(e.title.value, IssuerMark)
    && HasArchiveLink(e)
  }

  function PairOf(e: Entry): Pair
    requires e.updated.Some? && HasArchiveLink(e)
  {
    (e.link.value[HrefKey], e.updated.value)
  }

  /** Reference definition: the pairs of the kept entries, in feed order. */
  function Accepted(es: seq<Entry>, today: Option<Date>): seq<Pair> {
    if es == [] then []
    else
      var e := es[|es| - 1];
      Accepted(es[..|es| - 1], today) + (if Keeps(e, today) then [PairOf(e)] else [])
  }

  lemma SelectOne(e: Entry, today: Option<Date>)
    ensures Select(e, today).Err? <==> Raises(e, today)
    ensures Select(e, today).Ok? ==>
      Select(e, today).value == (if Keeps(e, today) then [PairOf(e)] else [])
  {
  }

  /**
   * The loop succeeds exactly when no entry raises, and then yields the
   * pairs of the kept entries in feed order.
   */
  lemma {:induction false} SelectedIsAccepted(es: seq<Entry>, today: Option<Date>)
    ensures Selected(es, today).Ok? <==> forall i :: 0 <= i < |es| ==> !Raises(es[i], today)
    ensures Selected(es, today).Ok? ==> Selected(es, today).value == Accepted(es, today)
  {
    if es != [] {
      var prefix := es[..|es| - 1];
      var e := es[|es| - 1];
      SelectedIsAccepted(prefix, today);
      SelectOne(e, today);
      if Selected(prefix, today).Err? {
        var i :| 0 <= i < |prefix| && Raises(prefix[i], today);
        assert es[i] == prefix[i];
      }
    }
  }

  /** The entry a selected pair comes from: a kept entry at an index no later than the pair's. */
  lemma {:induction false} AcceptedSource(es: seq<Entry>, today: Option<Date>, k: nat) returns (i: nat)
    requires k < |Accepted(es, today)|
    ensures k <= i < |es| && Keeps(es[i], today) && Accepted(es, today)[k] == PairOf(es[i])
  {
    var prefix := es[..|es| - 1];
    var prev := Accepted(prefix, today);
    var e := es[|es| - 1];
    assert Accepted(es, today) == prev + (if Keeps(e, today) then [PairOf(e)] else []);
    if k < |prev| {
      i := AcceptedSource(prefix, today, k);
      assert es[i] == prefix[i];
    } else {
      if prev != [] {
        var j := AcceptedSource(prefix, today, |prev| - 1);
      }
      i := |es| - 1;
    }
  }

  /** Every selected URL is an archive link with the timestamp of its entry, and there are never more pairs than entries. */
  lemma AcceptedComeFromKeptEntries(es: seq<Entry>, today: Option<Date>)
    ensures |Accepted(es, today)| <= |es|
    ensures forall k :: 0 <= k < |Accepted(es, today)| ==>
      exists i :: 0 <= i < |es| && Keeps(es[i], today) && Accepted(es, today)[k] == PairOf(es[i])
  {
    var a := Accepted(es, today);
    if a != [] {
      var last := AcceptedSource(es, today, |a| - 1);
    }
    forall k | 0 <= k < |a|
      ensures exists i :: 0 <= i < |es| && Keeps(es[i], today) && a[k] == PairOf(es[i])
    {
      var i := AcceptedSource(es, today, k);
    }
  }

  /** A selected URL contains "Archives". */
  lemma AcceptedAreArchiveLinks(es: seq<Entry>, today: Option<Date>, k: int)
    requires 0 <= k < |Accepted(es, today)|
    ensures Contains(Accepted(es, today)[k].0, ArchivesMark)
  {
    AcceptedComeFromKeptEntries(es, today);
  }

  /** A selected URL, looked up by value, contains "Archives". */
  lemma SelectedUrlIsArchiveLink(es: seq<Entry>, today: Option<Date>, u: string)
    requires u in Urls(Accepted(es, today))
    ensures Contains(u, ArchivesMark)
  {
    var k :| 0 <= k < |Accepted(es, today)| && Urls(Accepted(es, today))[k] == u;
    AcceptedAreArchiveLinks(es, today, k);
  }

  /** The entries that survive the same-day check: those dated `day`, and those whose timestamp is unreadable (they raise first). */
  function SameDay(es: seq<Entry>, day: Date): (r: seq<Entry>)
    ensures |r| <= |es|
  {
    if es == [] then []
    else
      var e := es[|es| - 1];
      SameDay(es[..|es| - 1], day) + (if e.updated.None? || e.updated.value.date == day then [e] else [])
  }

  /** Per entry: the date check either lets the entry through to the main checks or drops it. */
  lemma SelectOnDay(e: Entry, day: Date)
    ensures e.updated.None? || e.updated.value.date == day ==> Select(e, Some(day)) == Select(e, None)
    ensures e.updated.Some? && e.updated.value.date != day ==> Select(e, Some(day)) == Ok([])
  {
  }

  /** The variant's selection is the main selection run on the entries dated today. */
  lemma {:induction false} VariantIsSameDaySelection(es: seq<Entry>, day: Date)
    ensures Selected(es, Some(day)) == Selected(SameDay(es, day), None)
  {
    if es != [] {
      var prefix := es[..|es| - 1];
      var e := es[|es| - 1];
      VariantIsSameDaySelection(prefix, day);
      SelectOnDay(e, day);
      var rest := SameDay(prefix, day);
      var before := Selected(prefix, Some(day));
      assert Selected(es, Some(day)) ==
        match before
        case Err(msg) => Err(msg)
        case Ok(prev) =>
          match Select(e, Some(day))
          case Err(msg) => Err(msg)
          case Ok(more) => Ok(prev + more);
      if e.updated.None? || e.updated.value.date == day {
        var kept := rest + [e];
        assert SameDay(es, day) == kept;
        assert kept[..|kept| - 1] == rest && kept[|kept| - 1] == e;
      } else {
        assert SameDay(es, day) == rest;
        if before.Ok? {
          assert before.value + [] == before.value;
        }
      }
    }
  }

  /**
   * The entry loop of `fetch_recent_form4`, shared by both versions:
   * appends each kept entry's URL and timestamp to two lists, which
   * therefore always have the same length.
   */
  method SelectEntries(entries: seq<Entry>, today: Option<Date>)
    returns (r: Result<(seq<string>, seq<Timestamp>)>)
    ensures r.Ok? <==> Selected(entries, today).Ok?
    ensures r.Ok? ==> r.value.0 == Urls(Selected(entries, today).value)
                      && r.value.1 == Stamps(Selected(entries, today).value)
  {
    var newUrls: seq<string> := [];
    var timestamps: seq<Timestamp> := [];
    ghost var pairs: seq<Pair> := [];
    for i := 0 to |entries|
      invariant Selected(entries[..i], today) == Ok(pairs)
      invariant newUrls == Urls(pairs) && timestamps == Stamps(pairs)
    {
      var e := entries[i];
      SelectedStep(entries, i, today);
      assert entries[..i + 1] + entries[i + 1..] == entries;
      assert pairs + [] == pairs;
      if e.updated.None? {
        ErrorPersists(entries[..i + 1], entries[i + 1..], today);
        return Err("entry without a readable updated timestamp");
      }
      var ts := e.updated.value;
      if today.Some? && ts.date != today.value {
        continue;
      }
      if e.title.None? {
        ErrorPersists(entries[..i + 1], entries[i + 1..], today);
        return Err("entry without title text");
      }
      if !Contains(e.title.value, IssuerMark) {
        continue;
      }
      if e.link.Some? && HrefKey in e.link.value {
        var link := e.link.value[HrefKey];
        if Contains(link, ArchivesMark) {
          UrlsAppend(pairs, (link, ts));
          pairs := pairs + [(link, ts)];
          newUrls := newUrls + [link];
          timestamps := timestamps + [ts];
        }
      }
    }
    assert entries[..|entries|] == entries;
    return Ok((newUrls, timestamps));
  }
}
