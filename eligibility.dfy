/**
 * The trading criteria `filter_filings` applies to parsed filings: a
 * minimum notional value (absent in the earlier variant), an officer or
 * director role, a purchase, and a transaction code outside an excluded
 * list.
 */
module Eligibility {
  import opened Wrappers
  import opened Subsequences
  import opened Form4Payload

  /** The filter's parameters; `minValue == None` is the variant that never checks the value. */
  datatype Criteria = Criteria(minValue: Option<real>, excludedCodes: seq<string>)

  /** The defaults of the variant's `filter_filings`: a minimum of 1000 and codes `S` and `D`. */
  const DefaultMinValue: real := 1000.0
  const DefaultExcludedCodes: seq<string> := ["S", "D"]

  /** A role flag that says "no": exactly the texts `false` and `0`, so `N/A` does not count as no. */
  predicate SaysNo(flag: string) {
    flag == "false" || flag == "0"
  }

  /**
   * The four checks of one loop iteration; a filing is kept when none of
   * them skips it. So a kept filing is a purchase outside the excluded
   * codes, is not marked as neither officer nor director, and reaches the
   * minimum value when there is one.
   */
  predicate IsEligible(f: Filing, c: Criteria): (ok: bool)
    ensures ok ==> f.isPurchased && f.transactionCode !in c.excludedCodes
    ensures ok ==> !SaysNo(f.isOfficer) || !SaysNo(f.isDirector)
    ensures ok && c.minValue.Some? ==> f.shares * f.price >= c.minValue.value
  {
    && (c.minValue.None? || !(f.shares * f.price < c.minValue.value))
    && !(SaysNo(f.isOfficer) && SaysNo(f.isDirector))
    && f.isPurchased
    && f.transactionCode !in c.excludedCodes
  }

  /** The filings that pass, in input order. */
  function Eligible(fs: seq<Filing>, c: Criteria): seq<Filing> {
    if fs == [] then []
    else
      var f := fs[|fs| - 1];
      Eligible(fs[..|fs| - 1], c) + (if IsEligible(f, c) then [f] else [])
  }

  /** The kept filings are an order-preserving subsequence of the input, so never more of them. */
  lemma {:induction false} EligibleSubsequence(fs: seq<Filing>, c: Criteria)
    ensures IsSubsequence(Eligible(fs, c), fs)
    ensures |Eligible(fs, c)| <= |fs|
  {
    if fs != [] {
      var prefix := fs[..|fs| - 1];
      var f := fs[|fs| - 1];
      assert fs == prefix + [f];
      EligibleSubsequence(prefix, c);
      if IsEligible(f, c) {
        assert Eligible(fs, c) == Eligible(prefix, c) + [f];
        KeepLast(Eligible(prefix, c), prefix, f);
      } else {
        assert Eligible(fs, c) == Eligible(prefix, c);
        SkipLast(Eligible(prefix, c), prefix, f);
      }
    }
    SubsequenceLength(Eligible(fs, c), fs);
  }

  /** A filing is in the output exactly when it is in the input and passes all four checks. */
  lemma {:induction false} EligibleMembers(fs: seq<Filing>, c: Criteria, g: Filing)
    ensures g in Eligible(fs, c) <==> g in fs && IsEligible(g, c)
  {
    if fs != [] {
      var prefix := fs[..|fs| - 1];
      assert fs == prefix + [fs[|fs| - 1]];
      EligibleMembers(prefix, c, g);
    }
  }

  /** The filter keeps every filing when every filing passes. */
  lemma {:induction false} AllEligibleKeepsAll(fs: seq<Filing>, c: Criteria)
    requires forall i :: 0 <= i < |fs| ==> IsEligible(fs[i], c)
    ensures Eligible(fs, c) == fs
  {
    if fs != [] {
      var prefix := fs[..|fs| - 1];
      AllEligibleKeepsAll(prefix, c);
      assert prefix + [fs[|fs| - 1]] == fs;
    }
  }

  /** The filter keeps nothing when every filing fails a check. */
  lemma {:induction false} NoneEligibleKeepsNone(fs: seq<Filing>, c: Criteria)
    requires forall i :: 0 <= i < |fs| ==> !IsEligible(fs[i], c)
    ensures Eligible(fs, c) == []
  {
    if fs != [] {
      NoneEligibleKeepsNone(fs[..|fs| - 1], c);
    }
  }

  /** Adding the value check only removes filings: the strict filter's output is a subsequence of the lenient one's. */
  lemma {:induction false} ValueCheckOnlyNarrows(fs: seq<Filing>, minValue: real, codes: seq<string>)
    ensures IsSubsequence(Eligible(fs, Criteria(Some(minValue), codes)), Eligible(fs, Criteria(None, codes)))
  {
    if fs != [] {
      var strict, lenient := Criteria(Some(minValue), codes), Criteria(None, codes);
      var prefix := fs[..|fs| - 1];
      var f := fs[|fs| - 1];
      ValueCheckOnlyNarrows(prefix, minValue, codes);
      var s, l := Eligible(prefix, strict), Eligible(prefix, lenient);
      if IsEligible(f, strict) {
        assert Eligible(fs, strict) == s + [f] && Eligible(fs, lenient) == l + [f];
        KeepLast(s, l, f);
      } else if IsEligible(f, lenient) {
        assert Eligible(fs, strict) == s && Eligible(fs, lenient) == l + [f];
        SkipLast(s, l, f);
      } else {
        assert Eligible(fs, strict) == s && Eligible(fs, lenient) == l;
      }
    }
  }

  /** When every filing reaches the minimum value, the strict and the lenient filter agree. */
  lemma {:induction false} ValueCheckIrrelevant(fs: seq<Filing>, minValue: real, codes: seq<string>)
    requires forall i :: 0 <= i < |fs| ==> fs[i].shares * fs[i].price >= minValue
    ensures Eligible(fs, Criteria(Some(minValue), codes)) == Eligible(fs, Criteria(None, codes))
  {
    if fs != [] {
      ValueCheckIrrelevant(fs[..|fs| - 1], minValue, codes);
    }
  }

  /** A role flag that was missing (`N/A`) never gets a filing skipped for its role. */
  lemma MissingRoleDoesNotExclude(f: Filing, c: Criteria)
    requires f.isOfficer == NotAvailable || f.isDirector == NotAvailable
    ensures IsEligible(f, c) <==>
      && (c.minValue.None? || f.shares * f.price >= c.minValue.value)
      && f.isPurchased
      && f.transactionCode !in c.excludedCodes
  {
    assert !SaysNo(NotAvailable) by {
      assert NotAvailable[0] == 'N';
    }
  }

  /** The loop of `filter_filings`: appends every filing that passes the checks. */
  method KeepEligible(fs: seq<Filing>, c: Criteria) returns (kept: seq<Filing>)
    ensures kept == Eligible(fs, c)
  {
    if fs == [] {
      return [];
    }
    kept := [];
    for i := 0 to |fs|
      invariant kept == Eligible(fs[..i], c)
    {
      var f := fs[i];
      assert fs[..i + 1][..i] == fs[..i];
      if c.minValue.Some? && f.shares * f.price < c.minValue.value {
        continue;
      }
      if SaysNo(f.isOfficer) && SaysNo(f.isDirector) {
        continue;
      }
      if !f.isPurchased {
        continue;
      }
      if f.transactionCode in c.excludedCodes {
        continue;
      }
      kept := kept + [f];
    }
    assert fs[..|fs|] == fs;
  }
}
