/**
 * The day-scoped "seen" list of filing URLs: which URLs of a polled batch
 * are admitted, and the two on-disk files (URLs and their timestamps)
 * that hold the list between polling cycles.
 */
module Dedup {
  import opened Calendar
  import opened Subsequences
  import opened Wrappers

  /** A feed URL paired with the timestamp the feed reported for it. */
  type Pair = (string, Timestamp)

  /** Python's `zip(urls, timestamps)`: pairs up to the shorter list. */
  function Zip(urls: seq<string>, stamps: seq<Timestamp>): (ps: seq<Pair>)
    ensures |ps| == if |urls| <= |stamps| then |urls| else |stamps|
    ensures forall i :: 0 <= i < |ps| ==> ps[i] == (urls[i], stamps[i])
  {
    var n := if |urls| <= |stamps| then |urls| else |stamps|;
    seq(n, i requires 0 <= i < n => (urls[i], stamps[i]))
  }

  function Urls(ps: seq<Pair>): (us: seq<string>)
    ensures |us| == |ps| && forall i :: 0 <= i < |ps| ==> us[i] == ps[i].0
  {
    seq(|ps|, i requires 0 <= i < |ps| => ps[i].0)
  }

  function Stamps(ps: seq<Pair>): (ts: seq<Timestamp>)
    ensures |ts| == |ps| && forall i :: 0 <= i < |ps| ==> ts[i] == ps[i].1
  {
    seq(|ps|, i requires 0 <= i < |ps| => ps[i].1)
  }

  lemma UrlsAppend(ps: seq<Pair>, p: Pair)
    ensures Urls(ps + [p]) == Urls(ps) + [p.0]
    ensures Stamps(ps + [p]) == Stamps(ps) + [p.1]
  {
  }

  /**
   * The pairs of `batch` admitted against the stored list `seen`, in
   * batch order: a pair is admitted when its URL is neither stored nor
   * admitted earlier in the same batch.
   */
  function Admitted(seen: seq<string>, batch: seq<Pair>): seq<Pair> {
    if batch == [] then []
    else
      var prev := Admitted(seen, batch[..|batch| - 1]);
      var p := batch[|batch| - 1];
      if p.0 in seen + Urls(prev) then prev else prev + [p]
  }

  /**
   * The loop of `update_daily_urls`: walks the zipped batch, skips URLs
   * already in the daily list, and appends every other pair to both the
   * returned lists and the daily lists.
   */
  method AdmitNew(dailyUrls: seq<string>, dailyTimestamps: seq<Timestamp>,
                  newUrls: seq<string>, newTimestamps: seq<Timestamp>)
    returns (updatedUrls: seq<string>, updatedTimestamps: seq<Timestamp>,
             urlsAfter: seq<string>, timestampsAfter: seq<Timestamp>)
    ensures updatedUrls == Urls(Admitted(dailyUrls, Zip(newUrls, newTimestamps)))
    ensures updatedTimestamps == Stamps(Admitted(dailyUrls, Zip(newUrls, newTimestamps)))
    ensures urlsAfter == dailyUrls + updatedUrls
    ensures timestampsAfter == dailyTimestamps + updatedTimestamps
  {
    var batch := Zip(newUrls, newTimestamps);
    updatedUrls, updatedTimestamps := [], [];
    urlsAfter, timestampsAfter := dailyUrls, dailyTimestamps;
    ghost var admitted: seq<Pair> := [];
    var i := 0;
    while i < |batch|
      invariant 0 <= i <= |batch|
      invariant admitted == Admitted(dailyUrls, batch[..i])
      invariant updatedUrls == Urls(admitted) && updatedTimestamps == Stamps(admitted)
      invariant urlsAfter == dailyUrls + updatedUrls
      invariant timestampsAfter == dailyTimestamps + updatedTimestamps
    {
      var (url, ts) := batch[i];
      assert batch[..i + 1][..i] == batch[..i];
      if url !in urlsAfter {
        UrlsAppend(admitted, (url, ts));
        admitted := admitted + [(url, ts)];
        updatedUrls := updatedUrls + [url];
        urlsAfter := urlsAfter + [url];
        updatedTimestamps := updatedTimestamps + [ts];
        timestampsAfter := timestampsAfter + [ts];
      }
      i := i + 1;
    }
    assert batch[..i] == batch;
  }

  /** After admission a URL is known (stored or admitted) exactly when it was stored or is in the batch. */
  lemma {:induction false} AdmittedKnown(seen: seq<string>, batch: seq<Pair>, x: string)
    ensures x in seen + Urls(Admitted(seen, batch)) <==> x in seen + Urls(batch)
  {
    if batch != [] {
      var b' := batch[..|batch| - 1];
      var p := batch[|batch| - 1];
      AdmittedKnown(seen, b', x);
      assert batch == b' + [p];
      UrlsAppend(b', p);
      UrlsAppend(Admitted(seen, b'), p);
    }
  }

  /** The pair at `i` is the first of the batch with its URL, and that URL is not stored. */
  predicate IsFirstUnseen(seen: seq<string>, batch: seq<Pair>, i: int)
    requires 0 <= i < |batch|
  {
    batch[i].0 !in seen && forall j :: 0 <= j < i ==> batch[j].0 != batch[i].0
  }

  /** Reference definition: keep each position holding the first occurrence of a URL not already stored. */
  function FirstUnseen(seen: seq<string>, batch: seq<Pair>): seq<Pair> {
    if batch == [] then []
    else
      FirstUnseen(seen, batch[..|batch| - 1])
      + (if IsFirstUnseen(seen, batch, |batch| - 1) then [batch[|batch| - 1]] else [])
  }

  /** Admission keeps exactly the first occurrence of every URL that was not stored before the call. */
  lemma {:induction false} AdmittedIsFirstUnseen(seen: seq<string>, batch: seq<Pair>)
    ensures Admitted(seen, batch) == FirstUnseen(seen, batch)
  {
    if batch != [] {
      var n := |batch| - 1;
      var b' := batch[..n];
      var p := batch[n];
      AdmittedIsFirstUnseen(seen, b');
      AdmittedKnown(seen, b', p.0);
      var urlsBefore := Urls(b');
      assert (p.0 in urlsBefore) <==> exists j :: 0 <= j < n && batch[j].0 == p.0 by {
        if p.0 in urlsBefore {
          var j :| 0 <= j < n && urlsBefore[j] == p.0;
          assert batch[j] == b'[j];
        }
        if exists j :: 0 <= j < n && batch[j].0 == p.0 {
          var j :| 0 <= j < n && batch[j].0 == p.0;
          assert urlsBefore[j] == b'[j].0;
        }
      }
    }
  }

  /** Admission returns an order-preserving subsequence of the batch. */
  lemma {:induction false} AdmittedSubsequence(seen: seq<string>, batch: seq<Pair>)
    ensures IsSubsequence(Admitted(seen, batch), batch)
  {
    if batch != [] {
      var b' := batch[..|batch| - 1];
      var p := batch[|batch| - 1];
      AdmittedSubsequence(seen, b');
      assert batch == b' + [p];
      var prev := Admitted(seen, b');
      if p.0 in seen + Urls(prev) {
        SkipLast(prev, b', p);
      } else {
        KeepLast(prev, b', p);
      }
    }
  }

  /** No admitted URL was stored before the call, and no URL is admitted twice. */
  lemma {:induction false} AdmittedFresh(seen: seq<string>, batch: seq<Pair>)
    ensures forall k :: 0 <= k < |Admitted(seen, batch)| ==> Admitted(seen, batch)[k].0 !in seen
    ensures forall j, k :: 0 <= j < k < |Admitted(seen, batch)| ==>
              Admitted(seen, batch)[j].0 != Admitted(seen, batch)[k].0
  {
    if batch != [] {
      var b' := batch[..|batch| - 1];
      var p := batch[|batch| - 1];
      AdmittedFresh(seen, b');
      var prev := Admitted(seen, b');
      if p.0 !in seen + Urls(prev) {
        forall j | 0 <= j < |prev| ensures prev[j].0 != p.0 {
          assert Urls(prev)[j] == prev[j].0;
        }
      }
    }
  }

  /** Everything a batch holds is known once it has been admitted. */
  lemma {:induction false} AllKnownAdmitsNothing(seen: seq<string>, batch: seq<Pair>)
    requires forall i :: 0 <= i < |batch| ==> batch[i].0 in seen
    ensures Admitted(seen, batch) == []
  {
    if batch != [] {
      AllKnownAdmitsNothing(seen, batch[..|batch| - 1]);
    }
  }

  /** Admitting the same batch a second time, against the list the first call left, admits nothing. */
  lemma AdmitTwiceAdmitsNothing(seen: seq<string>, batch: seq<Pair>)
    ensures Admitted(seen + Urls(Admitted(seen, batch)), batch) == []
  {
    var after := seen + Urls(Admitted(seen, batch));
    forall i | 0 <= i < |batch| ensures batch[i].0 in after {
      assert Urls(batch)[i] == batch[i].0;
      AdmittedKnown(seen, batch, batch[i].0);
    }
    AllKnownAdmitsNothing(after, batch);
  }

  /** An admitted URL is a URL of the batch. */
  lemma AdmittedUrlFromBatch(seen: seq<string>, urls: seq<string>, stamps: seq<Timestamp>, u: string)
    requires u in Urls(Admitted(seen, Zip(urls, stamps)))
    ensures u in urls
  {
    var batch := Zip(urls, stamps);
    var admitted := Admitted(seen, batch);
    var k :| 0 <= k < |admitted| && Urls(admitted)[k] == u;
    AdmittedSubsequence(seen, batch);
    SubsequenceMembers(admitted, batch, admitted[k]);
    var i :| 0 <= i < |batch| && batch[i] == admitted[k];
  }

  /** What `update_daily_urls` finds when it tries to read the two daily files. */
  datatype FileIo = FileIo(readOk: bool, urlsWriteOk: bool, timestampsWriteOk: bool)

  /**
   * The two files of the day, `daily_urls_<day>` and
   * `daily_timestamps_<day>`, as their decoded contents; `None` when the
   * file does not exist.
   */
  class DailyFiles {
    var urls: Option<seq<string>>
    var timestamps: Option<seq<Timestamp>>

    /** No file has been written yet today. */
    constructor ()
      ensures urls == None && timestamps == None
    {
      urls := None;
      timestamps := None;
    }
  }
}
