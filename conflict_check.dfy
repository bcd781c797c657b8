/**
 * The two verdicts the workload reaches about one round.
 *
 * When the second transaction fails with `not_committed`, every range in the
 * conflicting-keys report must be sound (it contains one of the read
 * conflict ranges the workload recorded, since the resolver reports an
 * original or merged read range) and relevant (it intersects one of the
 * recorded write conflict ranges of the first transaction). When the second
 * transaction commits, no recorded read range may intersect a recorded
 * write range.
 */
module ConflictCheck {
  import opened Keys
  import opened ConflictReport
  import opened Wrappers
  import opened Sequences

  /** `std::any_of(readRanges, kr.contains(rCR))`: the reported range spans some recorded read range. */
  predicate Sound(kr: KeyRange, readRanges: seq<KeyRange>)
  {
    exists i :: 0 <= i < |readRanges| && Contains(kr, readRanges[i])
  }

  /** `std::any_of(writeRanges, kr.intersects(wCR))`: the reported range meets some recorded write range. */
  predicate Relevant(kr: KeyRange, writeRanges: seq<KeyRange>)
  {
    exists j :: 0 <= j < |writeRanges| && Intersects(kr, writeRanges[j])
  }

  /**
   * How much one reported range adds to `invalidReports`: one when it is not
   * sound, else one when it is not relevant, else nothing. The `else if`
   * makes a range count at most once.
   */
  function ReportPenalty(kr: KeyRange, readRanges: seq<KeyRange>, writeRanges: seq<KeyRange>): (d: nat)
    ensures d <= 1
    ensures d == 1 <==> !Sound(kr, readRanges) || (Sound(kr, readRanges) && !Relevant(kr, writeRanges))
  {
    if !Sound(kr, readRanges) then 1
    else if !Relevant(kr, writeRanges) then 1
    else 0
  }

  /** What the reported ranges `krs` add to `invalidReports`, one penalty per range. */
  function CountInvalid(krs: seq<KeyRange>, readRanges: seq<KeyRange>, writeRanges: seq<KeyRange>): (r: nat)
    ensures r <= |krs|
    decreases |krs|
  {
    if |krs| == 0 then 0
    else CountInvalid(krs[..|krs| - 1], readRanges, writeRanges) + ReportPenalty(krs[|krs| - 1], readRanges, writeRanges)
  }

  /** Counting one range more adds that range's penalty. */
  lemma CountInvalidSnoc(krs: seq<KeyRange>, kr: KeyRange, readRanges: seq<KeyRange>, writeRanges: seq<KeyRange>)
    ensures CountInvalid(krs + [kr], readRanges, writeRanges) ==
            CountInvalid(krs, readRanges, writeRanges) + ReportPenalty(kr, readRanges, writeRanges)
  {
    assert (krs + [kr])[..|krs|] == krs;
  }

  /** No penalty is counted exactly when every reported range is sound and relevant. */
  lemma {:induction false} CountInvalidZero(krs: seq<KeyRange>, readRanges: seq<KeyRange>, writeRanges: seq<KeyRange>)
    ensures CountInvalid(krs, readRanges, writeRanges) == 0 <==>
              forall k :: 0 <= k < |krs| ==> Sound(krs[k], readRanges) && Relevant(krs[k], writeRanges)
    decreases |krs|
  {
    if |krs| > 0 {
      var init := krs[..|krs| - 1];
      CountInvalidZero(init, readRanges, writeRanges);
      assert forall k :: 0 <= k < |init| ==> init[k] == krs[k];
    }
  }

  /** Every reported range is penalised exactly when each one is unsound or irrelevant. */
  lemma {:induction false} CountInvalidAll(krs: seq<KeyRange>, readRanges: seq<KeyRange>, writeRanges: seq<KeyRange>)
    ensures CountInvalid(krs, readRanges, writeRanges) == |krs| <==>
              forall k :: 0 <= k < |krs| ==> !(Sound(krs[k], readRanges) && Relevant(krs[k], writeRanges))
    decreases |krs|
  {
    if |krs| > 0 {
      var init := krs[..|krs| - 1];
      CountInvalidAll(init, readRanges, writeRanges);
      assert forall k :: 0 <= k < |init| ==> init[k] == krs[k];
    }
  }

  /** `std::any_of(writeRanges, wCR.intersects(rCR))`: some recorded write range meets the read range. */
  predicate HitByWrite(r: KeyRange, writeRanges: seq<KeyRange>)
  {
    exists j :: 0 <= j < |writeRanges| && Intersects(writeRanges[j], r)
  }

  /** A committed second transaction should have conflicted: some read range is hit by a write. */
  predicate MissedConflict(readRanges: seq<KeyRange>, writeRanges: seq<KeyRange>)
  {
    exists i :: 0 <= i < |readRanges| && HitByWrite(readRanges[i], writeRanges)
  }

  /**
   * A range justified by the round: it spans a recorded read range that some
   * recorded write range meets, as an original or merged read range reported
   * by a resolver that found a real conflict would.
   */
  predicate Justified(kr: KeyRange, readRanges: seq<KeyRange>, writeRanges: seq<KeyRange>)
  {
    exists i :: 0 <= i < |readRanges| && Contains(kr, readRanges[i]) && HitByWrite(readRanges[i], writeRanges)
  }

  /** A justified range is sound and relevant. */
  lemma JustifiedPasses(kr: KeyRange, readRanges: seq<KeyRange>, writeRanges: seq<KeyRange>)
    requires Justified(kr, readRanges, writeRanges)
    ensures Sound(kr, readRanges) && Relevant(kr, writeRanges)
  {
    var i :| 0 <= i < |readRanges| && Contains(kr, readRanges[i]) && HitByWrite(readRanges[i], writeRanges);
    var j :| 0 <= j < |writeRanges| && Intersects(writeRanges[j], readRanges[i]);
    IntersectsSymmetric(writeRanges[j], readRanges[i]);
    ContainsIntersects(kr, readRanges[i], writeRanges[j]);
  }

  /** A report made only of justified ranges adds nothing to `invalidReports`. */
  lemma HonestReportPasses(krs: seq<KeyRange>, readRanges: seq<KeyRange>, writeRanges: seq<KeyRange>)
    requires forall k :: 0 <= k < |krs| ==> Justified(krs[k], readRanges, writeRanges)
    ensures CountInvalid(krs, readRanges, writeRanges) == 0
  {
    forall k | 0 <= k < |krs|
      ensures Sound(krs[k], readRanges) && Relevant(krs[k], writeRanges)
    {
      JustifiedPasses(krs[k], readRanges, writeRanges);
    }
    CountInvalidZero(krs, readRanges, writeRanges);
  }

  /** Reporting exactly recorded read ranges that a write hits, unmerged, passes the check. */
  lemma ExactReportPasses(krs: seq<KeyRange>, readRanges: seq<KeyRange>, writeRanges: seq<KeyRange>)
    requires forall k :: 0 <= k < |krs| ==> krs[k] in readRanges && HitByWrite(krs[k], writeRanges)
    ensures CountInvalid(krs, readRanges, writeRanges) == 0
  {
    forall k | 0 <= k < |krs|
      ensures Justified(krs[k], readRanges, writeRanges)
    {
      var i :| 0 <= i < |readRanges| && readRanges[i] == krs[k];
      ContainsReflexive(krs[k]);
    }
    HonestReportPasses(krs, readRanges, writeRanges);
  }

  /**
   * The two paths ask the same question from either side: a committed
   * second transaction missed a conflict exactly when some recorded read
   * range would have passed the relevance check.
   */
  lemma MissedConflictIsRelevance(readRanges: seq<KeyRange>, writeRanges: seq<KeyRange>)
    ensures MissedConflict(readRanges, writeRanges) <==> exists i :: 0 <= i < |readRanges| && Relevant(readRanges[i], writeRanges)
  {
    forall i, j | 0 <= i < |readRanges| && 0 <= j < |writeRanges|
      ensures Intersects(writeRanges[j], readRanges[i]) <==> Intersects(readRanges[i], writeRanges[j])
    {
      IntersectsSymmetric(writeRanges[j], readRanges[i]);
    }
  }

  /**
   * The conflict path: walks the report two rows at a time with the same
   * checks, in the same order, as the workload, and returns what it adds to
   * `invalidReports` and the first reason the report was refused, if any. A
   * refused report still counts the penalties of the pairs before the one
   * that failed, as the workload's increments happen before its assertion
   * or `KeyRangeRef`'s constructor throws.
   */
  method CountInvalidReports(rows: seq<KeyValue>, readRanges: seq<KeyRange>, writeRanges: seq<KeyRange>)
    returns (delta: nat, refused: Option<ReportError>)
    ensures refused == DecodePartial(rows).error
    ensures refused.None? <==> Decode(rows).Success?
    ensures delta == CountInvalid(DecodePartial(rows).ranges, readRanges, writeRanges)
  {
    if |rows| == 0 || |rows| % 2 != 0 {
      return 0, Some(EmptyOrOddReport);
    }
    ghost var done: seq<KeyRange> := [];
    delta := 0;
    var k := 0;
    while 2 * k < |rows|
      invariant 2 * k <= |rows|
      invariant DecodeFrom(rows, 0).ranges == done + DecodeFrom(rows, k).ranges
      invariant DecodeFrom(rows, 0).error == DecodeFrom(rows, k).error
      invariant delta == CountInvalid(done, readRanges, writeRanges)
    {
      var pair := DecodePair(rows, k);
      if pair.Failure? {
        DecodedUpTo(rows, k, done);
        return delta, Some(pair.error);
      }
      var kr := pair.value;
      CountedPair(rows, k, done, readRanges, writeRanges);
      done := done + [kr];
      if !Sound(kr, readRanges) {
        delta := delta + 1;
      } else if !Relevant(kr, writeRanges) {
        delta := delta + 1;
      }
      k := k + 1;
    }
    DecodedUpTo(rows, k, done);
    refused := None;
  }

  /**
   * Where the decoding loop leaves off: at the end of the report, or at a
   * pair that fails; either way what it decoded is all the report yields.
   */
  lemma DecodedUpTo(rows: seq<KeyValue>, k: nat, done: seq<KeyRange>)
    requires |rows| > 0 && |rows| % 2 == 0 && 2 * k <= |rows|
    requires DecodeFrom(rows, 0).ranges == done + DecodeFrom(rows, k).ranges
    requires DecodeFrom(rows, 0).error == DecodeFrom(rows, k).error
    requires 2 * k == |rows| || DecodePair(rows, k).Failure?
    ensures DecodePartial(rows).ranges == done
    ensures DecodePartial(rows).error == if 2 * k == |rows| then None else Some(DecodePair(rows, k).error)
  {
    assert done + [] == done;
  }

  /** Decoding pair `k` moves its range from what is left to decode to what has been counted. */
  lemma CountedPair(rows: seq<KeyValue>, k: nat, done: seq<KeyRange>, readRanges: seq<KeyRange>, writeRanges: seq<KeyRange>)
    requires |rows| % 2 == 0 && 2 * k < |rows| && DecodePair(rows, k).Success?
    requires DecodeFrom(rows, 0).ranges == done + DecodeFrom(rows, k).ranges
    requires DecodeFrom(rows, 0).error == DecodeFrom(rows, k).error
    ensures DecodeFrom(rows, 0).ranges == done + [DecodePair(rows, k).value] + DecodeFrom(rows, k + 1).ranges
    ensures DecodeFrom(rows, 0).error == DecodeFrom(rows, k + 1).error
    ensures CountInvalid(done + [DecodePair(rows, k).value], readRanges, writeRanges) ==
            CountInvalid(done, readRanges, writeRanges) + ReportPenalty(DecodePair(rows, k).value, readRanges, writeRanges)
  {
    var kr := DecodePair(rows, k).value;
    CountInvalidSnoc(done, kr, readRanges, writeRanges);
    ConcatAssociates(done, [kr], DecodeFrom(rows, k + 1).ranges);
  }

  /**
   * The commit path: scans the recorded read ranges and stops at the first
   * one a write range hits, adding one to `invalidReports` at most once.
   */
  method CheckNoMissedConflict(readRanges: seq<KeyRange>, writeRanges: seq<KeyRange>) returns (delta: nat)
    ensures delta == if MissedConflict(readRanges, writeRanges) then 1 else 0
  {
    delta := 0;
    for i := 0 to |readRanges|
      invariant delta == 0
      invariant forall k :: 0 <= k < i ==> !HitByWrite(readRanges[k], writeRanges)
    {
      if HitByWrite(readRanges[i], writeRanges) {
        delta := 1;
        break;
      }
    }
  }
}
