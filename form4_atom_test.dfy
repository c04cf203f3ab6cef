/**
 * The earlier, module-level version of the ingestion steps: entry
 * selection with a same-day check, an update of the daily files whose
 * every failure returns the batch, and a filter without the value check.
 */
module Form4AtomTest {
  import opened Wrappers
  import opened Calendar
  import opened Dedup
  import opened AtomFeed
  import opened Form4Payload
  import opened Eligibility
  import opened Text
  import opened Subsequences

  /** `fetch_recent_form4` after the download, keeping only entries updated on `today`. */
  method FetchRecentForm4(feed: Feed, today: Date) returns (r: Result<(seq<string>, seq<Timestamp>)>)
    ensures !feed.FeedEntries? ==> r == Ok(([], []))
    ensures feed.FeedEntries? ==>
      var sameDay := SameDay(feed.entries, today);
      && (r.Ok? <==> forall i :: 0 <= i < |sameDay| ==> !Raises(sameDay[i], None))
      && (r.Ok? ==> r.value == (Urls(Accepted(sameDay, None)), Stamps(Accepted(sameDay, None))))
  {
    match feed
    case FeedMissing => return Ok(([], []));
    case FeedUnparsable => return Ok(([], []));
    case FeedEntries(entries) =>
      r := SelectEntries(entries, Some(today));
      VariantIsSameDaySelection(entries, today);
      SelectedIsAccepted(SameDay(entries, today), None);
  }

  /** What the earlier `update_daily_urls` leaves behind: the lists it returns and both files' new contents. */
  datatype DailyUpdate = DailyUpdate(
    urls: seq<string>,
    timestamps: seq<Timestamp>,
    urlsFile: Option<seq<string>>,
    timestampsFile: Option<seq<Timestamp>>)

  /**
   * The outcome of the earlier `update_daily_urls` on stored files
   * `urlsFile` and `timestampsFile` (`None` when absent): the admission
   * when both are readable, the batch itself otherwise, and on a first
   * run both files created from the batch as far as the writes succeed.
   */
  function VariantUpdate(urlsFile: Option<seq<string>>, timestampsFile: Option<seq<Timestamp>>,
                         newUrls: seq<string>, newTimestamps: seq<Timestamp>, io: FileIo): (u: DailyUpdate)
    ensures !(urlsFile.Some? && io.readOk && timestampsFile.Some?) ==> u.urls == newUrls && u.timestamps == newTimestamps
    ensures urlsFile.Some? ==> u.urlsFile.Some? && u.timestampsFile.Some? == timestampsFile.Some?
  {
    if urlsFile.Some? then
      if !io.readOk || timestampsFile.None? then DailyUpdate(newUrls, newTimestamps, urlsFile, timestampsFile)
      else
        var admitted := Admitted(urlsFile.value, Zip(newUrls, newTimestamps));
        DailyUpdate(
          Urls(admitted), Stamps(admitted),
          if io.urlsWriteOk then Some(urlsFile.value + Urls(admitted)) else urlsFile,
          if io.timestampsWriteOk then Some(timestampsFile.value + Stamps(admitted)) else timestampsFile)
    else
      DailyUpdate(
        newUrls, newTimestamps,
        if io.urlsWriteOk then Some(newUrls) else None,
        if io.urlsWriteOk && timestampsFile.None? && io.timestampsWriteOk then Some(newTimestamps) else timestampsFile)
  }

  /**
   * `update_daily_urls` of the earlier version: the same admission when
   * both files are readable, and the batch itself on every failure,
   * including a failed creation of the files.
   */
  method UpdateDailyUrls(files: DailyFiles, newUrls: seq<string>, newTimestamps: seq<Timestamp>, io: FileIo)
    returns (updatedUrls: seq<string>, updatedTimestamps: seq<Timestamp>)
    modifies files
    ensures old(files.urls).Some? && io.readOk && old(files.timestamps).Some? ==>
      var admitted := Admitted(old(files.urls).value, Zip(newUrls, newTimestamps));
      && updatedUrls == Urls(admitted) && updatedTimestamps == Stamps(admitted)
      && files.urls == (if io.urlsWriteOk then Some(old(files.urls).value + Urls(admitted)) else old(files.urls))
      && files.timestamps ==
           (if io.timestampsWriteOk then Some(old(files.timestamps).value + Stamps(admitted)) else old(files.timestamps))
    ensures !(old(files.urls).Some? && io.readOk && old(files.timestamps).Some?) ==>
      updatedUrls == newUrls && updatedTimestamps == newTimestamps
    ensures old(files.urls).Some? && !(io.readOk && old(files.timestamps).Some?) ==>
      files.urls == old(files.urls) && files.timestamps == old(files.timestamps)
    ensures old(files.urls).None? ==>
      && files.urls == (if io.urlsWriteOk then Some(newUrls) else None)
      && files.timestamps ==
           (if io.urlsWriteOk && old(files.timestamps).None? && io.timestampsWriteOk then Some(newTimestamps)
            else old(files.timestamps))
    ensures DailyUpdate(updatedUrls, updatedTimestamps, files.urls, files.timestamps)
            == VariantUpdate(old(files.urls), old(files.timestamps), newUrls, newTimestamps, io)
  {
    if files.urls.Some? {
      if !io.readOk || files.timestamps.None? {
        return newUrls, newTimestamps;
      }
      var dailyUrls, dailyTimestamps;
      updatedUrls, updatedTimestamps, dailyUrls, dailyTimestamps :=
        AdmitNew(files.urls.value, files.timestamps.value, newUrls, newTimestamps);
      if io.urlsWriteOk {
        files.urls := Some(dailyUrls);
      }
      if io.timestampsWriteOk {
        files.timestamps := Some(dailyTimestamps);
      }
    } else {
      if io.urlsWriteOk {
        files.urls := Some(newUrls);
        if files.timestamps.None? && io.timestampsWriteOk {
          files.timestamps := Some(newTimestamps);
        }
      }
      return newUrls, newTimestamps;
    }
  }

  /** `filter_filings` of the earlier version: `minValue` is accepted and never consulted. */
  method FilterFilings(unfiltered: seq<Filing>, minValue: real, transactionCodes: seq<string>)
    returns (filtered: seq<Filing>)
    ensures filtered == Eligible(unfiltered, Criteria(None, transactionCodes))
    ensures IsSubsequence(Eligible(unfiltered, Criteria(Some(minValue), transactionCodes)), filtered)
  {
    filtered := KeepEligible(unfiltered, Criteria(None, transactionCodes));
    ValueCheckOnlyNarrows(unfiltered, minValue, transactionCodes);
  }

  /** The pairs the variant's fetch hands on: those of the entries kept today, none without a feed. */
  function TodaysPairs(feed: Feed, today: Date): seq<Pair> {
    if feed.FeedEntries? then Accepted(SameDay(feed.entries, today), None) else []
  }

  /**
   * The script's own run: fetch, update, unpack and filter with the
   * defaults. The run fails only when an entry of the feed raises, and
   * then leaves the files alone; otherwise the files are updated with
   * today's pairs and the result is the eligible filings of the pairs
   * the update hands on.
   */
  method RunOnce(feed: Feed, today: Date, files: DailyFiles, io: FileIo, fetch: string -> Response)
    returns (r: Result<seq<Filing>>)
    modifies files
    ensures r.Err? <==> feed.FeedEntries? && Selected(feed.entries, Some(today)).Err?
    ensures r.Err? ==> files.urls == old(files.urls) && files.timestamps == old(files.timestamps)
    ensures r.Ok? ==>
      var pairs := TodaysPairs(feed, today);
      var u := VariantUpdate(old(files.urls), old(files.timestamps), Urls(pairs), Stamps(pairs), io);
      && files.urls == u.urlsFile && files.timestamps == u.timestampsFile
      && r.value == Eligible(ParsedFilings(fetch, Zip(u.urls, u.timestamps)), Criteria(None, DefaultExcludedCodes))
    ensures r.Ok? ==> forall f :: f in r.value ==> IsEligible(f, Criteria(None, DefaultExcludedCodes))
    ensures r.Ok? ==> forall f :: f in r.value ==> Contains(f.sourceUrl, ArchivesMark)
  {
    var fetched := FetchRecentForm4(feed, today);
    if fetched.Err? {
      VariantIsSameDaySelection(feed.entries, today);
      SelectedIsAccepted(SameDay(feed.entries, today), None);
      return Err(fetched.error);
    }
    var (urls, timestamps) := fetched.value;
    ghost var selected := TodaysPairs(feed, today);
    if feed.FeedEntries? {
      VariantIsSameDaySelection(feed.entries, today);
      SelectedIsAccepted(SameDay(feed.entries, today), None);
    }
    assert urls == Urls(selected) && timestamps == Stamps(selected);
    var updatedUrls, updatedTimestamps := UpdateDailyUrls(files, urls, timestamps, io);
    var filings := UnpackUrls(fetch, updatedUrls, updatedTimestamps);
    var filtered := FilterFilings(filings, DefaultMinValue, DefaultExcludedCodes);
    forall f | f in filtered
      ensures IsEligible(f, Criteria(None, DefaultExcludedCodes)) && Contains(f.sourceUrl, ArchivesMark)
    {
      EligibleMembers(filings, Criteria(None, DefaultExcludedCodes), f);
      ParsedFilingFromBatch(fetch, updatedUrls, updatedTimestamps, f);
      if updatedUrls != urls {
        AdmittedUrlFromBatch(old(files.urls).value, urls, timestamps, f.sourceUrl);
      }
      if feed.FeedEntries? {
        SelectedUrlIsArchiveLink(SameDay(feed.entries, today), None, f.sourceUrl);
      }
    }
    return Ok(filtered);
  }
}
