/**
 * `Form4Parser`, the polling cycle's ingestion object: it selects filing
 * URLs from the feed, admits the ones not yet seen today against the
 * two daily files and filters parsed filings by the trading criteria.
 * Parsing itself is `Form4Payload.UnpackUrls`.
 */
module FormParser {
  import opened Wrappers
  import opened Calendar
  import opened Dedup
  import opened AtomFeed
  import opened Form4Payload
  import opened Eligibility

  const AttributeErrorMessage: string := "'Form4Parser' object has no attribute 'new_url_list'"

  class Form4Parser {
    /** The day's `daily_urls_<day>` and `daily_timestamps_<day>` files. */
    const files: DailyFiles

    constructor (files: DailyFiles)
      ensures this.files == files
    {
      this.files := files;
    }

    /**
     * The part of `fetch_recent_form4` after the browser download: no
     * feed file or an unparsable one gives two empty lists; otherwise
     * the entry loop, without a date check, decides.
     */
    method FetchRecentForm4(feed: Feed) returns (r: Result<(seq<string>, seq<Timestamp>)>)
      ensures !feed.FeedEntries? ==> r == Ok(([], []))
      ensures feed.FeedEntries? ==>
        && (r.Ok? <==> forall i :: 0 <= i < |feed.entries| ==> !Raises(feed.entries[i], None))
        && (r.Ok? ==> r.value == (Urls(Accepted(feed.entries, None)), Stamps(Accepted(feed.entries, None))))
    {
      match feed
      case FeedMissing => return Ok(([], []));
      case FeedUnparsable => return Ok(([], []));
      case FeedEntries(entries) =>
        r := SelectEntries(entries, None);
        SelectedIsAccepted(entries, None);
    }

    /**
     * `update_daily_urls`.  With both files readable, returns the
     * admitted pairs and appends them to each file whose write succeeds;
     * with the URL file present but a file unreadable, returns the batch
     * and changes nothing; with no URL file, creates both files from the
     * whole batch and returns it, and when creating the timestamp file
     * fails, fails itself (the error path names an attribute the object
     * does not have).
     */
    method UpdateDailyUrls(newUrls: seq<string>, newTimestamps: seq<Timestamp>, io: FileIo)
      returns (r: Result<(seq<string>, seq<Timestamp>)>)
      modifies files
      ensures old(files.urls).Some? && io.readOk && old(files.timestamps).Some? ==>
        var admitted := Admitted(old(files.urls).value, Zip(newUrls, newTimestamps));
        && r == Ok((Urls(admitted), Stamps(admitted)))
        && files.urls == (if io.urlsWriteOk then Some(old(files.urls).value + Urls(admitted)) else old(files.urls))
        && files.timestamps ==
             (if io.timestampsWriteOk then Some(old(files.timestamps).value + Stamps(admitted)) else old(files.timestamps))
      ensures old(files.urls).Some? && !(io.readOk && old(files.timestamps).Some?) ==>
        r == Ok((newUrls, newTimestamps)) && files.urls == old(files.urls) && files.timestamps == old(files.timestamps)
      ensures old(files.urls).None? ==>
        var created := io.urlsWriteOk && old(files.timestamps).None? && io.timestampsWriteOk;
        && files.urls == (if io.urlsWriteOk then Some(newUrls) else None)
        && files.timestamps == (if created then Some(newTimestamps) else old(files.timestamps))
        && r == (if created then Ok((newUrls, newTimestamps)) else Err(AttributeErrorMessage))
    {
      if files.urls.Some? {
        if !io.readOk || files.timestamps.None? {
          return Ok((newUrls, newTimestamps));
        }
        var updatedUrls, updatedTimestamps, dailyUrls, dailyTimestamps :=
          AdmitNew(files.urls.value, files.timestamps.value, newUrls, newTimestamps);
        if io.urlsWriteOk {
          files.urls := Some(dailyUrls);
        }
        if io.timestampsWriteOk {
          files.timestamps := Some(dailyTimestamps);
        }
        return Ok((updatedUrls, updatedTimestamps));
      } else {
        if !io.urlsWriteOk {
          return Err(AttributeErrorMessage);
        }
        files.urls := Some(newUrls);
        if files.timestamps.Some? || !io.timestampsWriteOk {
          return Err(AttributeErrorMessage);
        }
        files.timestamps := Some(newTimestamps);
        return Ok((newUrls, newTimestamps));
      }
    }

    /** `filter_filings` with all four checks. */
    method FilterFilings(unfiltered: seq<Filing>, minValue: real, transactionCodes: seq<string>)
      returns (filtered: seq<Filing>)
      ensures filtered == Eligible(unfiltered, Criteria(Some(minValue), transactionCodes))
    {
      filtered := KeepEligible(unfiltered, Criteria(Some(minValue), transactionCodes));
    }
  }
}
