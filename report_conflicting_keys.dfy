/**
 * The ReportConflictingKeys workload: two transactions share a read
 * version; the first commits with random write conflict ranges, then the
 * second, with random read conflict ranges, tries to commit. If it fails
 * with `not_committed`, the conflicting keys it reports are checked against
 * the ranges the workload recorded; if it commits, the recorded ranges must
 * not have conflicted at all.
 *
 * The store is not modelled: what it answers to each request is an input.
 * Random choices go through the generator of `FlowRandom`. `random01()`
 * divides its draw by the largest 64-bit value, which is monotone in the
 * draw, so a comparison `random01() < probability` holds exactly for the
 * draws below some bound: each probability is given as that bound.
 */
module ReportConflictingKeys {
  import opened FixedWidth
  import opened Wrappers
  import opened Keys
  import opened ConflictReport
  import opened ConflictCheck
  import opened FlowRandom
  import opened Sequences

  // ---------------------------------------------------------------------------
  // The objects the workload hands ranges to
  // ---------------------------------------------------------------------------

  /** The conflict ranges added to a transaction, in the order they were added. */
  class Transaction {
    var readConflictRanges: seq<KeyRange>
    var writeConflictRanges: seq<KeyRange>

    constructor ()
      ensures readConflictRanges == [] && writeConflictRanges == []
    {
      readConflictRanges := [];
      writeConflictRanges := [];
    }

    /** `tr->addReadConflictRange(r)`. */
    method AddReadConflictRange(r: KeyRange)
      modifies this`readConflictRanges
      ensures readConflictRanges == old(readConflictRanges) + [r]
    {
      readConflictRanges := readConflictRanges + [r];
    }

    /** `tr->addWriteConflictRange(r)`. */
    method AddWriteConflictRange(r: KeyRange)
      modifies this`writeConflictRanges
      ensures writeConflictRanges == old(writeConflictRanges) + [r]
    {
      writeConflictRanges := writeConflictRanges + [r];
    }

    /** `tr.reset()`: the transaction starts over with no conflict ranges. */
    method Reset()
      modifies this
      ensures readConflictRanges == [] && writeConflictRanges == []
    {
      readConflictRanges := [];
      writeConflictRanges := [];
    }
  }

  /** A `std::vector<KeyRange>` the workload records ranges in. */
  class KeyRangeVector {
    var items: seq<KeyRange>

    constructor ()
      ensures items == []
    {
      items := [];
    }

    method PushBack(r: KeyRange)
      modifies this
      ensures items == old(items) + [r]
    {
      items := items + [r];
    }

    method Clear()
      modifies this
      ensures items == []
    {
      items := [];
    }
  }

  // ---------------------------------------------------------------------------
  // Drawing one range
  // ---------------------------------------------------------------------------

  /**
   * The indices of one drawn range: `startIdx = randomInt(0, nodeCount)` from
   * draw `g0`, then `endIdx = randomInt(startIdx, nodeCount + 1)` from draw
   * `g1`. The end may equal the start, so a drawn range may be empty.
   */
  function IndexPair(g0: uint64, g1: uint64, nodeCount: int32): (p: (int32, int32))
    requires 0 < nodeCount < 0x7FFF_FFFF
    ensures 0 <= p.0 < nodeCount && p.0 <= p.1 <= nodeCount
  {
    var startIdx := RandomIntOf(g0, 0, nodeCount);
    var endIdx := RandomIntOf(g1, startIdx, nodeCount + 1);
    (startIdx, endIdx)
  }

  /**
   * Every index pair the bounds allow is drawn by some pair of draws, an
   * empty one (`startIdx == endIdx`) included.
   */
  lemma IndexPairOnto(s: int32, e: int32, nodeCount: int32)
    requires 0 < nodeCount < 0x7FFF_FFFF
    requires 0 <= s < nodeCount && s <= e <= nodeCount
    ensures IndexPair(s as uint64, (e - s) as uint64, nodeCount) == (s, e)
  {
    RandomIntOfOnto(s, 0, nodeCount);
    RandomIntOfOnto(e, s, nodeCount + 1);
  }

  /**
   * The range drawn from the next two draws of a generator whose twister
   * stands at `p`: the keys of the index pair the draws give.
   */
  ghost function RangeOf(source: nat -> uint32, highFirst: bool, nodeCount: int32, keys: seq<Key>, p: nat): KeyRange
    requires p >= 2 && 0 < nodeCount < 0x7FFF_FFFF && |keys| == nodeCount + 1
  {
    var idx := IndexPair(Draw(source, highFirst, p, 0), Draw(source, highFirst, p, 1), nodeCount);
    KeyRange(keys[idx.0], keys[idx.1])
  }

  /**
   * The range of the two `randomInt` calls made from position `p`: the start
   * index from the value built at `p - 2`, the end index from the one built
   * two positions later.
   */
  lemma RangeFromIndices(source: nat -> uint32, highFirst: bool, nodeCount: int32, keys: seq<Key>,
                         p: nat, q: nat, s: int32, e: int32)
    requires p >= 2 && q == p + 2 && 0 < nodeCount < 0x7FFF_FFFF && |keys| == nodeCount + 1
    requires s == RandomIntOf(Word(source, highFirst, p - 2), 0, nodeCount)
    requires e == RandomIntOf(Word(source, highFirst, q - 2), s, nodeCount + 1)
    ensures 0 <= s <= e < |keys|
    ensures RangeOf(source, highFirst, nodeCount, keys, p) == KeyRange(keys[s], keys[e])
  {
  }

  /** The draw `random01` compares at the end of a round whose twister stood at `p` when it began. */
  ghost function ComparedOf(source: nat -> uint32, highFirst: bool, p: nat): uint64
    requires p >= 2
  {
    Draw(source, highFirst, p, 2)
  }

  /** After the two draws of the range the twister stands at `q = p + 4`, and the next draw is the compared one. */
  lemma ComparedAfterRange(source: nat -> uint32, highFirst: bool, p: nat, q: nat)
    requires p >= 2 && q == p + 4
    ensures ComparedOf(source, highFirst, p) == Word(source, highFirst, q - 2)
  {
  }

  // ---------------------------------------------------------------------------
  // Outcomes of store requests, and one round of the client loop
  // ---------------------------------------------------------------------------

  /**
   * The errors that matter to the loop: `not_committed`, the
   * `internal_error` a failed `ASSERT` throws, the `inverted_range` that
   * `KeyRangeRef`'s constructor throws, and any error other than these,
   * which the transaction's `onError` either retries or rethrows.
   */
  datatype Error = NotCommitted | InternalError | InvertedRange | OtherError(retryable: bool)

  /** Whether `onError` swallows the error (and the loop goes on) or rethrows it. */
  predicate Retryable(e: Error)
  {
    match e
    case NotCommitted => true
    case InternalError => false
    case InvertedRange => false
    case OtherError(retryable) => retryable
  }

  /** The error the decoding of a refused report throws: `inverted_range` for an inverted pair, else a failed `ASSERT`. */
  function Raised(e: ReportError): (r: Error)
    ensures !Retryable(r)
    ensures r == InvertedRange <==> e.InvertedPair?
  {
    if e.InvertedPair? then InvertedRange else InternalError
  }

  /** What the store answers to a request. */
  datatype Outcome = Ok | Err(error: Error)

  /**
   * The store's side of one round: the answer to `getReadVersion`, to the
   * first and the second commit, and every row of the conflicting-keys range
   * the second transaction would return without a limit.
   */
  datatype RoundInput = RoundInput(readVersion: Outcome, commit1: Outcome, commit2: Outcome, report: seq<KeyValue>)

  /** The rounds of a pass's four generator loops: the first transaction's reads and writes, then the second's. */
  datatype PassRounds = PassRounds(n1: nat, n2: nat, m1: nat, m2: nat)

  /** How a round ends: the loop goes on, or the client stops with the error `onError` rethrew. */
  datatype IterationEnd = Continued | Stopped(error: Error)

  /** The rows the second transaction reads: at most two per recorded read range. */
  function ReportRows(input: RoundInput, readRanges: seq<KeyRange>): seq<KeyValue>
  {
    Limit(input.report, 2 * |readRanges|)
  }

  /** Commit attempts in a round: none if the read version fails, one if the first commit fails. */
  function CommitAttempts(input: RoundInput): nat
  {
    if input.readVersion.Err? then 0 else if input.commit1.Err? then 1 else 2
  }

  /** Successful commits in a round. */
  function Successes(input: RoundInput): nat
  {
    if input.readVersion.Err? || input.commit1.Err? then 0
    else if input.commit2.Ok? then 2
    else 1
  }

  /** The second commit failed with `not_committed` (the first having succeeded). */
  predicate Conflicted(input: RoundInput)
  {
    input.readVersion.Ok? && input.commit1.Ok? && input.commit2 == Err(NotCommitted)
  }

  /** What a round adds to `invalidReports`, given the ranges it recorded. */
  function Verdict(input: RoundInput, readRanges: seq<KeyRange>, writeRanges: seq<KeyRange>): nat
  {
    if input.readVersion.Err? || input.commit1.Err? then 0
    else if input.commit2.Ok? then (if MissedConflict(readRanges, writeRanges) then 1 else 0)
    else if Conflicted(input) then CountInvalid(DecodePartial(ReportRows(input, readRanges)).ranges, readRanges, writeRanges)
    else 0
  }

  /** The error that reaches the round's `catch`, if any. */
  function Thrown(input: RoundInput, readRanges: seq<KeyRange>): Option<Error>
  {
    if input.readVersion.Err? then Some(input.readVersion.error)
    else if input.commit1.Err? then Some(input.commit1.error)
    else if input.commit2.Err? && input.commit2.error != NotCommitted then Some(input.commit2.error)
    else if Conflicted(input) && DecodePartial(ReportRows(input, readRanges)).error.Some? then
      Some(Raised(DecodePartial(ReportRows(input, readRanges)).error.value))
    else None
  }

  /** A round stops the client exactly when the error that reached its `catch` is not retryable. */
  function EndOf(input: RoundInput, readRanges: seq<KeyRange>): IterationEnd
  {
    match Thrown(input, readRanges)
    case None => Continued
    case Some(e) => if Retryable(e) then Continued else Stopped(e)
  }

  /**
   * The counter bookkeeping of a round never lets successes and conflicts
   * outrun the commit attempts: `xacts` and `conflicts` are each incremented
   * only after a matching increment of `commits`.
   */
  lemma RoundBookkeeping(input: RoundInput)
    ensures Successes(input) + (if Conflicted(input) then 1 else 0) <= CommitAttempts(input)
    ensures CommitAttempts(input) <= 2
  {
  }

  /** 1 for a pass whose second commit conflicted, else 0. */
  function ConflictCount(input: RoundInput): nat
  {
    if Conflicted(input) then 1 else 0
  }

  /** Commit attempts over a run of passes. */
  function TotalAttempts(inputs: seq<RoundInput>): nat
  {
    if inputs == [] then 0 else TotalAttempts(inputs[..|inputs| - 1]) + CommitAttempts(inputs[|inputs| - 1])
  }

  /** Successful commits over a run of passes. */
  function TotalSuccesses(inputs: seq<RoundInput>): nat
  {
    if inputs == [] then 0 else TotalSuccesses(inputs[..|inputs| - 1]) + Successes(inputs[|inputs| - 1])
  }

  /** Conflicts over a run of passes. */
  function TotalConflicts(inputs: seq<RoundInput>): nat
  {
    if inputs == [] then 0 else TotalConflicts(inputs[..|inputs| - 1]) + ConflictCount(inputs[|inputs| - 1])
  }

  /**
   * Over any run of passes, successes plus conflicts never exceed the commit
   * attempts, and there are at most two attempts per pass.
   */
  lemma {:induction false} TotalBookkeeping(inputs: seq<RoundInput>)
    ensures TotalSuccesses(inputs) + TotalConflicts(inputs) <= TotalAttempts(inputs) <= 2 * |inputs|
    decreases |inputs|
  {
    if inputs != [] {
      TotalBookkeeping(inputs[..|inputs| - 1]);
      RoundBookkeeping(inputs[|inputs| - 1]);
    }
  }

  /** What a run of passes adds to `invalidReports`: the verdict of each pass over the ranges it recorded. */
  function TotalVerdicts(inputs: seq<RoundInput>, passReads: seq<seq<KeyRange>>, passWrites: seq<seq<KeyRange>>): nat
    requires |passReads| == |inputs| && |passWrites| == |inputs|
    decreases |inputs|
  {
    if inputs == [] then 0
    else
      var k := |inputs| - 1;
      TotalVerdicts(inputs[..k], passReads[..k], passWrites[..k]) + Verdict(inputs[k], passReads[k], passWrites[k])
  }

  /**
   * The workload's `check()` asks for `invalidReports == 0`: over a run that
   * starts from zero, that holds exactly when no pass's verdict counted anything.
   */
  lemma {:induction false} TotalVerdictsZero(inputs: seq<RoundInput>, passReads: seq<seq<KeyRange>>, passWrites: seq<seq<KeyRange>>)
    requires |passReads| == |inputs| && |passWrites| == |inputs|
    ensures TotalVerdicts(inputs, passReads, passWrites) == 0 <==>
              forall t :: 0 <= t < |inputs| ==> Verdict(inputs[t], passReads[t], passWrites[t]) == 0
    decreases |inputs|
  {
    if inputs != [] {
      var k := |inputs| - 1;
      TotalVerdictsZero(inputs[..k], passReads[..k], passWrites[..k]);
      assert forall t :: 0 <= t < k ==> inputs[..k][t] == inputs[t] && passReads[..k][t] == passReads[t] && passWrites[..k][t] == passWrites[t];
    }
  }

  /** One more pass adds its own attempts, successes, conflict and verdict to the totals. */
  lemma TotalsSnoc(inputs: seq<RoundInput>, n: nat, passReads: seq<seq<KeyRange>>, passWrites: seq<seq<KeyRange>>,
                   r: seq<KeyRange>, w: seq<KeyRange>)
    requires n < |inputs| && |passReads| == n && |passWrites| == n
    ensures TotalAttempts(inputs[..n + 1]) == TotalAttempts(inputs[..n]) + CommitAttempts(inputs[n])
    ensures TotalSuccesses(inputs[..n + 1]) == TotalSuccesses(inputs[..n]) + Successes(inputs[n])
    ensures TotalConflicts(inputs[..n + 1]) == TotalConflicts(inputs[..n]) + ConflictCount(inputs[n])
    ensures TotalVerdicts(inputs[..n + 1], passReads + [r], passWrites + [w]) ==
              TotalVerdicts(inputs[..n], passReads, passWrites) + Verdict(inputs[n], r, w)
  {
    assert inputs[..n + 1][..n] == inputs[..n];
    assert (passReads + [r])[..n] == passReads && (passWrites + [w])[..n] == passWrites;
  }

  /** The report of a committed round is never read, and a round that stops had an error thrown. */
  lemma RoundEnds(input: RoundInput, readRanges: seq<KeyRange>)
    ensures EndOf(input, readRanges).Stopped? ==> Thrown(input, readRanges).Some?
    ensures Conflicted(input) && EndOf(input, readRanges) == Continued ==>
              Decode(ReportRows(input, readRanges)).Success?
    ensures Conflicted(input) && Decode(ReportRows(input, readRanges)).Failure? ==>
              EndOf(input, readRanges) == Stopped(Raised(Decode(ReportRows(input, readRanges)).error))
  {
  }

  /** A pass whose first commit fails: one attempt, no success, no conflict, nothing checked, and that commit's error thrown. */
  lemma FirstCommitFailed(input: RoundInput, writeRanges: seq<KeyRange>)
    requires input.readVersion.Ok? && input.commit1.Err?
    ensures CommitAttempts(input) == 1 && Successes(input) == 0 && !Conflicted(input)
    ensures Verdict(input, [], writeRanges) == 0 && Thrown(input, []) == Some(input.commit1.error)
  {
  }

  /** A pass whose read version fails: no attempt, no success, no conflict, nothing checked, and that error thrown. */
  lemma ReadVersionFailed(input: RoundInput)
    requires input.readVersion.Err?
    ensures CommitAttempts(input) == 0 && Successes(input) == 0 && !Conflicted(input)
    ensures Verdict(input, [], []) == 0 && Thrown(input, []) == Some(input.readVersion.error)
  {
  }

  /** A pass closed as `EndPass` closes it, on the error its `catch` received, ends as `EndOf` says. */
  lemma ClosedAsEndOf(input: RoundInput, readRanges: seq<KeyRange>, thrown: Option<Error>, end: IterationEnd)
    requires thrown == Thrown(input, readRanges)
    requires end.Stopped? <==> thrown.Some? && !Retryable(thrown.value)
    requires end.Stopped? ==> end.error == thrown.value
    ensures end == EndOf(input, readRanges)
  {
  }

  /** A pass whose first commit succeeds: two attempts, and one or two successes as the second commit goes. */
  lemma FirstCommitSucceeded(input: RoundInput)
    requires input.readVersion.Ok? && input.commit1.Ok?
    ensures CommitAttempts(input) == 2 && Successes(input) == if input.commit2.Ok? then 2 else 1
  {
  }

  /** The end of every pass that goes on: both vectors cleared, both transactions reset. */
  method StartOver(tr1: Transaction, tr2: Transaction, readRanges: KeyRangeVector, writeRanges: KeyRangeVector)
    modifies tr1, tr2, readRanges, writeRanges
    ensures readRanges.items == [] && writeRanges.items == []
    ensures tr1.readConflictRanges == [] && tr1.writeConflictRanges == []
    ensures tr2.readConflictRanges == [] && tr2.writeConflictRanges == []
  {
    readRanges.Clear();
    writeRanges.Clear();
    tr1.Reset();
    tr2.Reset();
  }

  /**
   * The close of a pass: an error that is not retryable stops the client and
   * leaves the vectors and transactions as the pass left them; any other
   * outcome starts the next pass over.
   */
  method EndPass(thrown: Option<Error>, tr1: Transaction, tr2: Transaction,
                 readRanges: KeyRangeVector, writeRanges: KeyRangeVector) returns (end: IterationEnd)
    modifies tr1, tr2, readRanges, writeRanges
    ensures end.Stopped? <==> thrown.Some? && !Retryable(thrown.value)
    ensures end.Stopped? ==> end.error == thrown.value && unchanged(tr1, tr2, readRanges, writeRanges)
    ensures end.Continued? ==>
              readRanges.items == [] && writeRanges.items == [] &&
              tr1.readConflictRanges == [] && tr1.writeConflictRanges == [] &&
              tr2.readConflictRanges == [] && tr2.writeConflictRanges == []
  {
    if thrown.Some? && !Retryable(thrown.value) {
      end := Stopped(thrown.value);
    } else {
      StartOver(tr1, tr2, readRanges, writeRanges);
      end := Continued;
    }
  }

  // ---------------------------------------------------------------------------
  // The workload
  // ---------------------------------------------------------------------------

  class ReportConflictingKeysWorkload {
    const nodeCount: int32
    /** `keyForIndex(i)` for every index `0 .. nodeCount` the generators can draw. */
    const keys: seq<Key>
    /** The process's `deterministicRandom()`. */
    const rng: DeterministicRandom
    /** `random01() < addReadConflictRangeProb` holds exactly for the draws below this bound. */
    const readBound: nat
    /** `random01() < addWriteConflictRangeProb` holds exactly for the draws below this bound. */
    const writeBound: nat
    /** `RangeOf` for this workload's generator, table and node count, at every position from 2 on. */
    ghost const rangeAt: nat -> KeyRange
    /** `ComparedOf` for this workload's generator, at every position from 2 on. */
    ghost const comparedAt: nat -> uint64

    var invalidReports: nat
    var commits: nat
    var conflicts: nat
    var xacts: nat

    /** The node table is complete, and `rangeAt` and `comparedAt` are the generator's ranges and compared draws. */
    ghost predicate Tabled()
    {
      0 < nodeCount < 0x7FFF_FFFF && |keys| == nodeCount + 1 &&
      (forall p: nat {:trigger RangeOf(rng.source, rng.highFirst, nodeCount, keys, p)} ::
        p >= 2 ==> rangeAt(p) == RangeOf(rng.source, rng.highFirst, nodeCount, keys, p)) &&
      (forall p: nat {:trigger ComparedOf(rng.source, rng.highFirst, p)} ::
        p >= 2 ==> comparedAt(p) == ComparedOf(rng.source, rng.highFirst, p))
    }

    ghost predicate Valid()
      reads this, rng
    {
      Tabled() && rng.Valid() && xacts + conflicts <= commits
    }

    constructor (nodeCount: int32, keys: seq<Key>, rng: DeterministicRandom, readBound: nat, writeBound: nat)
      requires 0 < nodeCount < 0x7FFF_FFFF && |keys| == nodeCount + 1 && rng.Valid()
      ensures Valid()
      ensures this.nodeCount == nodeCount && this.keys == keys && this.rng == rng
      ensures this.readBound == readBound && this.writeBound == writeBound
      ensures invalidReports == 0 && commits == 0 && conflicts == 0 && xacts == 0
    {
      this.nodeCount := nodeCount;
      this.keys := keys;
      this.rng := rng;
      this.readBound := readBound;
      this.writeBound := writeBound;
      rangeAt := p => if p >= 2 then RangeOf(rng.source, rng.highFirst, nodeCount, keys, p) else KeyRange([], []);
      comparedAt := p => if p >= 2 then ComparedOf(rng.source, rng.highFirst, p) else 0;
      invalidReports := 0;
      commits := 0;
      conflicts := 0;
      xacts := 0;
    }

    /**
     * Draw `k` of round `t` of a generator loop that starts with the twister
     * at `p0`: each round draws the start index (k = 0), the end index
     * (k = 1) and the value `random01` compares (k = 2).
     */
    ghost function RoundDraw(p0: nat, t: nat, k: nat): uint64
      requires p0 >= 2 && k < 3
    {
      Draw(rng.source, rng.highFirst, p0 + 6 * t, k)
    }


    /** The draw `random01` compares in round `t`, the third of the round. */
    ghost function Compared(p0: nat, t: nat): uint64
      requires p0 >= 2
    {
      comparedAt(p0 + 6 * t)
    }

    /** The range round `t` draws: the first two of its three draws. */
    ghost function DrawnRange(p0: nat, t: nat): (r: KeyRange)
      requires p0 >= 2 && 0 < nodeCount < 0x7FFF_FFFF && |keys| == nodeCount + 1
    {
      rangeAt(p0 + 6 * t)
    }

    /** Steps one and two of a round: `randomInt` for the start index, then for the end index. */
    method RandomRange() returns (r: KeyRange)
      requires Valid()
      modifies rng
      ensures Valid() && rng.mtPos == old(rng.mtPos) + 4
      ensures r == rangeAt(old(rng.mtPos))
    {
      ghost var p := rng.mtPos;
      var startIdx := rng.RandomInt(0, nodeCount);
      ghost var q := rng.mtPos;
      var endIdx := rng.RandomInt(startIdx, nodeCount + 1);
      RangeFromIndices(rng.source, rng.highFirst, nodeCount, keys, p, q, startIdx, endIdx);
      r := KeyRange(keys[startIdx], keys[endIdx]);
    }

    /** The three draws of round `t`: the range, then the value `random01` compares. */
    method DrawRound(ghost p0: nat, ghost t: nat) returns (r: KeyRange, g: uint64)
      requires Valid() && p0 >= 2 && rng.mtPos == p0 + 6 * t
      modifies rng
      ensures Valid() && rng.mtPos == p0 + 6 * (t + 1)
      ensures r == DrawnRange(p0, t) && g == Compared(p0, t)
    {
      r := RandomRange();
      ghost var q := rng.mtPos;
      g := rng.Gen64();
      ComparedAfterRange(rng.source, rng.highFirst, p0 + 6 * t, q);
    }

    /** The ranges of rounds `0 .. n`, in order: round 0's, then those of a loop starting six values later. */
    ghost function DrawnRanges(p0: nat, n: nat): (rs: seq<KeyRange>)
      requires p0 >= 2 && 0 < nodeCount < 0x7FFF_FFFF && |keys| == nodeCount + 1
      ensures |rs| == n
      decreases n
    {
      if n == 0 then [] else DrawnRanges(p0, n - 1) + [DrawnRange(p0, n - 1)]
    }

    /** Range `t` of the list is the range round `t` draws. */
    lemma {:induction false} DrawnRangesElement(p0: nat, n: nat, t: nat)
      requires p0 >= 2 && 0 < nodeCount < 0x7FFF_FFFF && |keys| == nodeCount + 1
      requires t < n
      ensures DrawnRanges(p0, n)[t] == DrawnRange(p0, t)
      decreases n
    {
      if t < n - 1 {
        DrawnRangesElement(p0, n - 1, t);
      }
    }

    /** The comparison of every round before round `t` held, so the loop went on to round `t`. */
    ghost predicate WentOn(bound: nat, p0: nat, t: nat)
      requires p0 >= 2
      decreases t
    {
      t == 0 || (WentOn(bound, p0, t - 1) && Compared(p0, t - 1) < bound)
    }

    lemma {:induction false} WentOnEvery(bound: nat, p0: nat, t: nat)
      requires p0 >= 2
      ensures WentOn(bound, p0, t) <==> forall k :: 0 <= k < t ==> Compared(p0, k) < bound
      decreases t
    {
      if t > 0 {
        WentOnEvery(bound, p0, t - 1);
      }
    }

    /** A loop starting at `p0` makes exactly `n` rounds: it went on to round `n - 1`, whose comparison fails. */
    ghost predicate Rounds(bound: nat, p0: nat, n: nat)
      requires p0 >= 2
    {
      n >= 1 && WentOn(bound, p0, n - 1) && Compared(p0, n - 1) >= bound
    }

    /** Going on to round `t` and failing its comparison makes `t + 1` rounds. */
    lemma LastRound(bound: nat, p0: nat, t: nat)
      requires p0 >= 2 && WentOn(bound, p0, t) && Compared(p0, t) >= bound
      ensures Rounds(bound, p0, t + 1)
    {
    }

    /** Two rounds whose comparisons differ are different rounds. */
    lemma DistinctRounds(bound: nat, p0: nat, t: nat, u: nat)
      requires p0 >= 2 && Compared(p0, t) < bound && Compared(p0, u) >= bound
      ensures t != u
    {
    }

    /** A round of a loop that has not yet ended: its comparison holding leads to a later round, failing makes it the last. */
    lemma RoundOutcome(bound: nat, p0: nat, t: nat, last: nat)
      requires p0 >= 2 && t <= last && WentOn(bound, p0, t) && Compared(p0, last) >= bound
      ensures Compared(p0, t) < bound ==> t + 1 <= last && WentOn(bound, p0, t + 1)
      ensures Compared(p0, t) >= bound ==> Rounds(bound, p0, t + 1)
    {
      if Compared(p0, t) < bound {
        DistinctRounds(bound, p0, t, last);
      } else {
        LastRound(bound, p0, t);
      }
    }

    /** The number of rounds is determined: the loop stops at the first failing comparison. */
    lemma RoundsUnique(bound: nat, p0: nat, n: nat, m: nat)
      requires p0 >= 2 && Rounds(bound, p0, n) && Rounds(bound, p0, m)
      ensures n == m
    {
      WentOnEvery(bound, p0, n - 1);
      WentOnEvery(bound, p0, m - 1);
    }

    /**
     * The first transaction's draws from `p0`: its loop of read conflict
     * ranges makes `n1` rounds, then its loop of write conflict ranges makes
     * `n2` rounds, and `recorded` are the ranges of the second loop.
     */
    ghost predicate FirstRanges(p0: nat, n1: nat, n2: nat, recorded: seq<KeyRange>)
      requires p0 >= 2 && 0 < nodeCount < 0x7FFF_FFFF && |keys| == nodeCount + 1
    {
      Rounds(readBound, p0, n1) && Rounds(writeBound, p0 + 6 * n1, n2) && recorded == DrawnRanges(p0 + 6 * n1, n2)
    }

    /**
     * The second transaction's draws from `p0`: its loop of read conflict
     * ranges makes `m1` rounds, then its loop of write conflict ranges makes
     * `m2` rounds, and `recorded` are the ranges of the first loop.
     */
    ghost predicate SecondRanges(p0: nat, m1: nat, m2: nat, recorded: seq<KeyRange>)
      requires p0 >= 2 && 0 < nodeCount < 0x7FFF_FFFF && |keys| == nodeCount + 1
    {
      Rounds(readBound, p0, m1) && Rounds(writeBound, p0 + 6 * m1, m2) && recorded == DrawnRanges(p0, m1)
    }

    /** The draws from `p0` fix the first transaction's round counts and recorded ranges. */
    lemma FirstRangesUnique(p0: nat, n1: nat, n2: nat, recorded: seq<KeyRange>, k1: nat, k2: nat, other: seq<KeyRange>)
      requires p0 >= 2 && 0 < nodeCount < 0x7FFF_FFFF && |keys| == nodeCount + 1
      requires FirstRanges(p0, n1, n2, recorded) && FirstRanges(p0, k1, k2, other)
      ensures n1 == k1 && n2 == k2 && recorded == other
    {
      RoundsUnique(readBound, p0, n1, k1);
      RoundsUnique(writeBound, p0 + 6 * n1, n2, k2);
    }

    /** The draws from `p0` fix the second transaction's round counts and recorded ranges. */
    lemma SecondRangesUnique(p0: nat, m1: nat, m2: nat, recorded: seq<KeyRange>, k1: nat, k2: nat, other: seq<KeyRange>)
      requires p0 >= 2 && 0 < nodeCount < 0x7FFF_FFFF && |keys| == nodeCount + 1
      requires SecondRanges(p0, m1, m2, recorded) && SecondRanges(p0, k1, k2, other)
      ensures m1 == k1 && m2 == k2 && recorded == other
    {
      RoundsUnique(readBound, p0, m1, k1);
      RoundsUnique(writeBound, p0 + 6 * m1, m2, k2);
    }

    /**
     * The draws of a whole pass from `p0`, as far as the store's answers in
     * `input` let it run: the first transaction's loops once it has its read
     * version and the second's once the first committed, recording the write
     * ranges of the first and the read ranges of the second. A stage not
     * reached draws and records nothing.
     */
    ghost predicate PassRanges(input: RoundInput, p0: nat, n1: nat, n2: nat, m1: nat, m2: nat,
                               readRanges: seq<KeyRange>, writeRanges: seq<KeyRange>)
      requires p0 >= 2 && 0 < nodeCount < 0x7FFF_FFFF && |keys| == nodeCount + 1
    {
      (if input.readVersion.Ok? then FirstRanges(p0, n1, n2, writeRanges)
       else n1 == 0 && n2 == 0 && writeRanges == []) &&
      (if input.readVersion.Ok? && input.commit1.Ok? then SecondRanges(p0 + 6 * (n1 + n2), m1, m2, readRanges)
       else m1 == 0 && m2 == 0 && readRanges == [])
    }

    /**
     * The draws of a whole pass that starts with the twister at `p` and ends
     * with it at `q`: the two option draws, then generator loops of
     * `c.n1`, `c.n2`, `c.m1` and `c.m2` rounds that record `writeRanges` and
     * `readRanges` as `PassRanges` says.
     */
    ghost predicate PassDrawn(input: RoundInput, p: nat, c: PassRounds,
                              readRanges: seq<KeyRange>, writeRanges: seq<KeyRange>, q: nat)
    {
      p >= 2 && 0 < nodeCount < 0x7FFF_FFFF && |keys| == nodeCount + 1 &&
      q == p + 4 + 6 * (c.n1 + c.n2 + c.m1 + c.m2) &&
      PassRanges(input, p + 4, c.n1, c.n2, c.m1, c.m2, readRanges, writeRanges)
    }

    /**
     * The record of the first `n` passes of a client: pass `t` ran on
     * `inputs[t]` with the twister going from `at[t]` to `at[t + 1]`, made
     * `counts[t]` rounds and recorded `passReads[t]` and `passWrites[t]`.
     */
    ghost predicate PassRecord(inputs: seq<RoundInput>, n: nat, passReads: seq<seq<KeyRange>>, passWrites: seq<seq<KeyRange>>,
                               at: seq<nat>, counts: seq<PassRounds>)
    {
      n <= |inputs| && |passReads| == n && |passWrites| == n && |at| == n + 1 && |counts| == n &&
      forall t :: 0 <= t < n ==> PassDrawn(inputs[t], at[t], counts[t], passReads[t], passWrites[t], at[t + 1])
    }

    /** A record grows by one pass. */
    lemma PassRecordSnoc(inputs: seq<RoundInput>, n: nat, passReads: seq<seq<KeyRange>>, passWrites: seq<seq<KeyRange>>,
                         at: seq<nat>, counts: seq<PassRounds>, r: seq<KeyRange>, w: seq<KeyRange>, q: nat, c: PassRounds)
      requires PassRecord(inputs, n, passReads, passWrites, at, counts) && n < |inputs|
      requires PassDrawn(inputs[n], at[n], c, r, w, q)
      ensures PassRecord(inputs, n + 1, passReads + [r], passWrites + [w], at + [q], counts + [c])
    {
      assert (at + [q])[n + 1] == q;
    }

    /**
     * After `n` passes recording `passReads`, a client ends as `end`: every
     * pass but the last went on, and the client ends as its last pass did.
     */
    ghost predicate EndsAsRecorded(inputs: seq<RoundInput>, n: nat, passReads: seq<seq<KeyRange>>, end: IterationEnd)
    {
      n <= |inputs| && |passReads| == n &&
      (forall t :: 0 <= t < n - 1 ==> EndOf(inputs[t], passReads[t]).Continued?) &&
      end == if n == 0 then Continued else EndOf(inputs[n - 1], passReads[n - 1])
    }

    /** A pass after passes that all went on. */
    lemma EndsAsRecordedSnoc(inputs: seq<RoundInput>, n: nat, passReads: seq<seq<KeyRange>>, r: seq<KeyRange>)
      requires EndsAsRecorded(inputs, n, passReads, Continued) && n < |inputs|
      ensures EndsAsRecorded(inputs, n + 1, passReads + [r], EndOf(inputs[n], r))
    {
      var passReads' := passReads + [r];
      forall t | 0 <= t < n
        ensures EndOf(inputs[t], passReads'[t]).Continued?
      {
        if t < n - 1 {
          assert passReads'[t] == passReads[t];
        } else {
          assert passReads'[t] == passReads[n - 1];
        }
      }
    }

    /** A pass whose read version failed draws and records nothing. */
    lemma PassRangesSkipped(input: RoundInput, p0: nat)
      requires p0 >= 2 && 0 < nodeCount < 0x7FFF_FFFF && |keys| == nodeCount + 1
      requires input.readVersion.Err?
      ensures PassRanges(input, p0, 0, 0, 0, 0, [], []) && DrawnRanges(p0, 0) == []
    {
    }

    /** A pass that got its read version: the first transaction's stages, then the second's if the first committed. */
    lemma PassRangesReached(input: RoundInput, p0: nat, n1: nat, n2: nat, m1: nat, m2: nat,
                            readRanges: seq<KeyRange>, writeRanges: seq<KeyRange>)
      requires p0 >= 2 && 0 < nodeCount < 0x7FFF_FFFF && |keys| == nodeCount + 1
      requires input.readVersion.Ok? && FirstRanges(p0, n1, n2, writeRanges)
      requires input.commit1.Err? ==> m1 == 0 && m2 == 0 && readRanges == []
      requires input.commit1.Ok? ==> SecondRanges(p0 + 6 * (n1 + n2), m1, m2, readRanges)
      ensures PassRanges(input, p0, n1, n2, m1, m2, readRanges, writeRanges)
    {
    }

    /** Every loop makes at least one round, so a stage reached records at least one range. */
    lemma PassRangesRecorded(input: RoundInput, p0: nat, n1: nat, n2: nat, m1: nat, m2: nat,
                             readRanges: seq<KeyRange>, writeRanges: seq<KeyRange>)
      requires p0 >= 2 && 0 < nodeCount < 0x7FFF_FFFF && |keys| == nodeCount + 1
      requires PassRanges(input, p0, n1, n2, m1, m2, readRanges, writeRanges)
      ensures input.readVersion.Ok? ==> |writeRanges| == n2 >= 1
      ensures input.readVersion.Ok? && input.commit1.Ok? ==> |readRanges| == m1 >= 1
    {
    }

    /** Some round of a loop starting at `p0` ends it. */
    ghost predicate StopsFrom(bound: nat, p0: nat)
      requires p0 >= 2
    {
      exists n: nat :: Compared(p0, n) >= bound
    }

    /** Both generator loops end from every position of the twister. */
    ghost predicate Terminating()
    {
      forall p0: nat :: p0 >= 2 ==> StopsFrom(readBound, p0) && StopsFrom(writeBound, p0)
    }

    /** `keyForIndex` respects the order of indices `0 .. nodeCount`. */
    ghost predicate MonotoneKeys()
    {
      forall i, j :: 0 <= i <= j < |keys| ==> KeyLeq(keys[i], keys[j])
    }

    /**
     * With an order-respecting `keyForIndex`, every drawn range is well
     * ordered and lies within the keys of indices `0 .. nodeCount`.
     */
    lemma DrawnRangeInKeySpace(p0: nat, t: nat)
      requires Valid() && p0 >= 2
      requires MonotoneKeys()
      ensures KeyLeq(DrawnRange(p0, t).begin, DrawnRange(p0, t).end)
      ensures Contains(KeyRange(keys[0], keys[nodeCount]), DrawnRange(p0, t))
    {
      assert DrawnRange(p0, t) == RangeOf(rng.source, rng.highFirst, nodeCount, keys, p0 + 6 * t);
      var p := IndexPair(RoundDraw(p0, t, 0), RoundDraw(p0, t, 1), nodeCount);
      assert KeyLeq(keys[0], keys[p.0]);
      assert KeyLeq(keys[p.0], keys[p.1]);
      assert KeyLeq(keys[p.1], keys[nodeCount]);
    }

    /**
     * One round of `addRandomReadConflictRange`: draws a range, adds it to
     * the transaction and to `record` when there is one, then makes the
     * draw `random01` compares. Returns the range and whether the loop goes on.
     */
    method ReadRound(tr: Transaction, record: KeyRangeVector?, ghost p0: nat, ghost t: nat,
                      ghost trBase: seq<KeyRange>, ghost recordBase: seq<KeyRange>)
      returns (goesOn: bool)
      requires Valid() && p0 >= 2 && rng.mtPos == p0 + 6 * t
      requires tr.readConflictRanges == trBase + DrawnRanges(p0, t)
      requires record != null ==> record.items == recordBase + DrawnRanges(p0, t)
      modifies rng, tr`readConflictRanges, record
      ensures Valid() && rng.mtPos == p0 + 6 * (t + 1)
      ensures goesOn == (Compared(p0, t) < readBound)
      ensures tr.readConflictRanges == trBase + DrawnRanges(p0, t + 1)
      ensures record != null ==> record.items == recordBase + DrawnRanges(p0, t + 1)
    {
      var r, g := DrawRound(p0, t);
      assert DrawnRanges(p0, t + 1) == DrawnRanges(p0, t) + [r];
      ConcatAssociates(trBase, DrawnRanges(p0, t), [r]);
      ConcatAssociates(recordBase, DrawnRanges(p0, t), [r]);
      tr.AddReadConflictRange(r);
      if record != null {
        record.PushBack(r);
      }
      goesOn := g < readBound;
    }

    /**
     * `addRandomReadConflictRange`: at least one round, and another for as
     * long as the comparison holds. Each round draws a range, adds it to the
     * transaction and, when a vector is given, appends it there too. Returns
     * the number of rounds.
     */
    method AddRandomReadConflictRange(tr: Transaction, record: KeyRangeVector?, ghost p0: nat) returns (ghost n: nat)
      requires Valid() && rng.mtPos == p0 && StopsFrom(readBound, p0)
      modifies rng, tr`readConflictRanges, record
      ensures Valid()
      ensures Rounds(readBound, p0, n)
      ensures rng.mtPos == p0 + 6 * n
      ensures tr.readConflictRanges == old(tr.readConflictRanges) + DrawnRanges(p0, n)
      ensures record != null ==> record.items == old(record.items) + DrawnRanges(p0, n)
    {
      ghost var last: nat :| Compared(p0, last) >= readBound;
      ghost var trBase := tr.readConflictRanges;
      ghost var recordBase := if record != null then record.items else [];
      ghost var t: nat := 0;
      while true
        invariant Valid() && rng.mtPos == p0 + 6 * t
        invariant t <= last && WentOn(readBound, p0, t)
        invariant tr.readConflictRanges == trBase + DrawnRanges(p0, t)
        invariant record != null ==> record.items == recordBase + DrawnRanges(p0, t)
        decreases last - t
      {
        var goesOn := ReadRound(tr, record, p0, t, trBase, recordBase);
        RoundOutcome(readBound, p0, t, last);
        if !goesOn {
          n := t + 1;
          break;
        }
        t := t + 1;
      }
    }

    /**
     * One round of `addRandomWriteConflictRange`: draws a range, adds it to
     * the transaction and to `record` when there is one, then makes the
     * draw `random01` compares. Returns the range and whether the loop goes on.
     */
    method WriteRound(tr: Transaction, record: KeyRangeVector?, ghost p0: nat, ghost t: nat,
                      ghost trBase: seq<KeyRange>, ghost recordBase: seq<KeyRange>)
      returns (goesOn: bool)
      requires Valid() && p0 >= 2 && rng.mtPos == p0 + 6 * t
      requires tr.writeConflictRanges == trBase + DrawnRanges(p0, t)
      requires record != null ==> record.items == recordBase + DrawnRanges(p0, t)
      modifies rng, tr`writeConflictRanges, record
      ensures Valid() && rng.mtPos == p0 + 6 * (t + 1)
      ensures goesOn == (Compared(p0, t) < writeBound)
      ensures tr.writeConflictRanges == trBase + DrawnRanges(p0, t + 1)
      ensures record != null ==> record.items == recordBase + DrawnRanges(p0, t + 1)
    {
      var r, g := DrawRound(p0, t);
      assert DrawnRanges(p0, t + 1) == DrawnRanges(p0, t) + [r];
      ConcatAssociates(trBase, DrawnRanges(p0, t), [r]);
      ConcatAssociates(recordBase, DrawnRanges(p0, t), [r]);
      tr.AddWriteConflictRange(r);
      if record != null {
        record.PushBack(r);
      }
      goesOn := g < writeBound;
    }

    /** `addRandomWriteConflictRange`: the same loop, adding write conflict ranges. */
    method AddRandomWriteConflictRange(tr: Transaction, record: KeyRangeVector?, ghost p0: nat) returns (ghost n: nat)
      requires Valid() && rng.mtPos == p0 && StopsFrom(writeBound, p0)
      modifies rng, tr`writeConflictRanges, record
      ensures Valid()
      ensures Rounds(writeBound, p0, n)
      ensures rng.mtPos == p0 + 6 * n
      ensures tr.writeConflictRanges == old(tr.writeConflictRanges) + DrawnRanges(p0, n)
      ensures record != null ==> record.items == old(record.items) + DrawnRanges(p0, n)
    {
      ghost var last: nat :| Compared(p0, last) >= writeBound;
      ghost var trBase := tr.writeConflictRanges;
      ghost var recordBase := if record != null then record.items else [];
      ghost var t: nat := 0;
      while true
        invariant Valid() && rng.mtPos == p0 + 6 * t
        invariant t <= last && WentOn(writeBound, p0, t)
        invariant tr.writeConflictRanges == trBase + DrawnRanges(p0, t)
        invariant record != null ==> record.items == recordBase + DrawnRanges(p0, t)
        decreases last - t
      {
        var goesOn := WriteRound(tr, record, p0, t, trBase, recordBase);
        RoundOutcome(writeBound, p0, t, last);
        if !goesOn {
          n := t + 1;
          break;
        }
        t := t + 1;
      }
    }

    /**
     * The first transaction's ranges: `n1` rounds of random read conflict
     * ranges, not recorded, then `n2` rounds of random write conflict
     * ranges, each recorded in `recorded` as it is added.
     */
    method AddFirstRanges(tr1: Transaction, recorded: KeyRangeVector, ghost p0: nat) returns (ghost n1: nat, ghost n2: nat)
      requires Valid() && Terminating() && rng.mtPos == p0
      requires tr1.readConflictRanges == [] && tr1.writeConflictRanges == [] && recorded.items == []
      modifies rng, tr1, recorded
      ensures Valid()
      ensures FirstRanges(p0, n1, n2, recorded.items)
      ensures rng.mtPos == p0 + 6 * (n1 + n2)
      ensures tr1.readConflictRanges == DrawnRanges(p0, n1)
      ensures tr1.writeConflictRanges == recorded.items
    {
      n1 := AddRandomReadConflictRange(tr1, null, p0);
      assert tr1.readConflictRanges == [] + DrawnRanges(p0, n1) == DrawnRanges(p0, n1);
      ghost var p1 := p0 + 6 * n1;
      assert StopsFrom(writeBound, p1);
      n2 := AddRandomWriteConflictRange(tr1, recorded, p1);
      assert recorded.items == tr1.writeConflictRanges == DrawnRanges(p1, n2);
    }

    /** The first transaction's ranges as in `AddFirstRanges`, then one commit attempt counted. */
    method FirstTransaction(tr1: Transaction, recorded: KeyRangeVector, ghost p0: nat) returns (ghost n1: nat, ghost n2: nat)
      requires Valid() && Terminating() && rng.mtPos == p0
      requires tr1.readConflictRanges == [] && tr1.writeConflictRanges == [] && recorded.items == []
      modifies this, rng, tr1, recorded
      ensures Valid() && xacts + conflicts < commits
      ensures commits == old(commits) + 1 && xacts == old(xacts) && conflicts == old(conflicts)
      ensures invalidReports == old(invalidReports)
      ensures FirstRanges(p0, n1, n2, recorded.items)
      ensures rng.mtPos == p0 + 6 * (n1 + n2)
      ensures tr1.readConflictRanges == DrawnRanges(p0, n1)
      ensures tr1.writeConflictRanges == recorded.items
    {
      n1, n2 := AddFirstRanges(tr1, recorded, p0);
      commits := commits + 1;
    }

    /**
     * The second transaction's ranges: `m1` rounds of random read conflict
     * ranges, each recorded in `recorded` as it is added, then `m2` rounds
     * of random write conflict ranges, not recorded.
     */
    method AddSecondRanges(tr2: Transaction, recorded: KeyRangeVector, ghost p0: nat) returns (ghost m1: nat, ghost m2: nat)
      requires Valid() && Terminating() && rng.mtPos == p0
      requires tr2.readConflictRanges == [] && tr2.writeConflictRanges == [] && recorded.items == []
      modifies rng, tr2, recorded
      ensures Valid()
      ensures SecondRanges(p0, m1, m2, recorded.items)
      ensures rng.mtPos == p0 + 6 * (m1 + m2)
      ensures tr2.readConflictRanges == recorded.items
      ensures tr2.writeConflictRanges == DrawnRanges(p0 + 6 * m1, m2)
    {
      m1 := AddRandomReadConflictRange(tr2, recorded, p0);
      assert recorded.items == tr2.readConflictRanges == DrawnRanges(p0, m1);
      ghost var p1 := p0 + 6 * m1;
      assert StopsFrom(writeBound, p1);
      m2 := AddRandomWriteConflictRange(tr2, null, p1);
      assert tr2.writeConflictRanges == [] + DrawnRanges(p1, m2) == DrawnRanges(p1, m2);
    }

    /**
     * The second commit and the checks after it: the attempt is counted,
     * then a success, or a conflict followed by the check of the report, or
     * for the commit path the check that nothing should have conflicted.
     * Returns the error that reaches the round's `catch`, if any.
     */
    method CommitSecond(input: RoundInput, readRanges: seq<KeyRange>, writeRanges: seq<KeyRange>) returns (thrown: Option<Error>)
      requires Valid() && input.readVersion.Ok? && input.commit1.Ok?
      modifies this`commits, this`xacts, this`conflicts, this`invalidReports
      ensures Valid()
      ensures commits == old(commits) + 1
      ensures xacts == old(xacts) + (if input.commit2.Ok? then 1 else 0)
      ensures conflicts == old(conflicts) + (if Conflicted(input) then 1 else 0)
      ensures invalidReports == old(invalidReports) + Verdict(input, readRanges, writeRanges)
      ensures thrown == Thrown(input, readRanges)
    {
      thrown := None;
      var foundConflict := false;
      commits := commits + 1;
      if input.commit2.Ok? {
        xacts := xacts + 1;
      } else if input.commit2.error == NotCommitted {
        foundConflict := true;
        conflicts := conflicts + 1;
      } else {
        thrown := Some(input.commit2.error);
      }
      if foundConflict {
        var rows := Limit(input.report, 2 * |readRanges|);
        var delta, refused := CountInvalidReports(rows, readRanges, writeRanges);
        invalidReports := invalidReports + delta;
        if refused.Some? {
          thrown := Some(Raised(refused.value));
        }
      } else if thrown.None? {
        var delta := CheckNoMissedConflict(readRanges, writeRanges);
        invalidReports := invalidReports + delta;
      }
    }

    /**
     * The two `random01() < 0.5` choices of READ_YOUR_WRITES_DISABLE, one
     * per transaction. The option changes only how the store merges
     * overlapping ranges, which the store's answers already stand for, so
     * only the two draws matter here.
     */
    method ChooseReadYourWrites()
      requires Valid()
      modifies rng
      ensures Valid() && rng.mtPos == old(rng.mtPos) + 4
    {
      var disable1 := rng.Gen64();
      var disable2 := rng.Gen64();
    }

    /**
     * The rest of a pass once the first transaction committed: that success
     * is counted, then come the second transaction's ranges (`m1` rounds of
     * read ranges, recorded, then `m2` rounds of write ranges, not recorded),
     * its commit and the checks
     * against the first transaction's recorded `writeRanges`.
     */
    method SecondTransaction(tr2: Transaction, readConflictRanges: KeyRangeVector, writeRanges: seq<KeyRange>,
                             input: RoundInput, ghost p0: nat)
      returns (thrown: Option<Error>, ghost m1: nat, ghost m2: nat)
      requires Valid() && Terminating() && rng.mtPos == p0 && input.readVersion.Ok? && input.commit1.Ok?
      requires xacts + conflicts < commits
      requires readConflictRanges.items == [] && tr2.readConflictRanges == [] && tr2.writeConflictRanges == []
      modifies this, rng, tr2, readConflictRanges
      ensures Valid()
      ensures commits == old(commits) + 1 && xacts == old(xacts) + (if input.commit2.Ok? then 2 else 1)
      ensures conflicts == old(conflicts) + (if Conflicted(input) then 1 else 0)
      ensures invalidReports == old(invalidReports) + Verdict(input, readConflictRanges.items, writeRanges)
      ensures thrown == Thrown(input, readConflictRanges.items)
      ensures rng.mtPos == p0 + 6 * (m1 + m2)
      ensures SecondRanges(p0, m1, m2, readConflictRanges.items)
      ensures tr2.readConflictRanges == readConflictRanges.items
      ensures tr2.writeConflictRanges == DrawnRanges(p0 + 6 * m1, m2)
    {
      xacts := xacts + 1;
      m1, m2 := AddSecondRanges(tr2, readConflictRanges, p0);
      thrown := CommitSecond(input, readConflictRanges.items, writeRanges);
    }

    /**
     * The rest of a pass once the first transaction has its read version:
     * its ranges, its commit and, if that succeeds, the second transaction.
     */
    method AfterReadVersion(tr1: Transaction, tr2: Transaction,
                            readConflictRanges: KeyRangeVector, writeConflictRanges: KeyRangeVector,
                            input: RoundInput, ghost p0: nat)
      returns (thrown: Option<Error>, ghost n1: nat, ghost n2: nat, ghost m1: nat, ghost m2: nat)
      requires Valid() && Terminating() && rng.mtPos == p0 && input.readVersion.Ok?
      requires tr1 != tr2 && readConflictRanges != writeConflictRanges
      requires readConflictRanges.items == [] && writeConflictRanges.items == []
      requires tr1.readConflictRanges == [] && tr1.writeConflictRanges == []
      requires tr2.readConflictRanges == [] && tr2.writeConflictRanges == []
      modifies this, rng, tr1, tr2, readConflictRanges, writeConflictRanges
      ensures Valid()
      ensures commits == old(commits) + CommitAttempts(input)
      ensures xacts == old(xacts) + Successes(input)
      ensures conflicts == old(conflicts) + (if Conflicted(input) then 1 else 0)
      ensures invalidReports == old(invalidReports) + Verdict(input, readConflictRanges.items, writeConflictRanges.items)
      ensures thrown == Thrown(input, readConflictRanges.items)
      ensures rng.mtPos == p0 + 6 * (n1 + n2 + m1 + m2)
      ensures FirstRanges(p0, n1, n2, writeConflictRanges.items)
      ensures input.commit1.Err? ==> m1 == 0 && m2 == 0 && readConflictRanges.items == []
      ensures input.commit1.Ok? ==> SecondRanges(p0 + 6 * (n1 + n2), m1, m2, readConflictRanges.items)
      ensures tr2.readConflictRanges == readConflictRanges.items && tr1.writeConflictRanges == writeConflictRanges.items
      ensures tr1.readConflictRanges == DrawnRanges(p0, n1)
      ensures tr2.writeConflictRanges == DrawnRanges(p0 + 6 * (n1 + n2) + 6 * m1, m2)
    {
      n1, n2 := FirstTransaction(tr1, writeConflictRanges, p0);
      if input.commit1.Err? {
        thrown, m1, m2 := Some(input.commit1.error), 0, 0;
        FirstCommitFailed(input, writeConflictRanges.items);
        assert DrawnRanges(p0 + 6 * (n1 + n2) + 6 * m1, m2) == [];
      } else {
        thrown, m1, m2 := SecondTransaction(tr2, readConflictRanges, writeConflictRanges.items, input, p0 + 6 * (n1 + n2));
        FirstCommitSucceeded(input);
      }
      assert FirstRanges(p0, n1, n2, writeConflictRanges.items);
    }

    /**
     * The two transactions of a pass, from the read version of the first to
     * the checks after the second commit, with the store's answers taken
     * from `input`. Returns the error that reaches the pass's `catch`, if
     * any, and the rounds of each generator loop (see `Iteration`), which
     * run one after the other from the twister's position on entry.
     */
    method RunTransactions(tr1: Transaction, tr2: Transaction,
                           readConflictRanges: KeyRangeVector, writeConflictRanges: KeyRangeVector,
                           input: RoundInput, ghost p0: nat)
      returns (thrown: Option<Error>, ghost n1: nat, ghost n2: nat, ghost m1: nat, ghost m2: nat)
      requires Valid() && Terminating() && rng.mtPos == p0
      requires tr1 != tr2 && readConflictRanges != writeConflictRanges
      requires readConflictRanges.items == [] && writeConflictRanges.items == []
      requires tr1.readConflictRanges == [] && tr1.writeConflictRanges == []
      requires tr2.readConflictRanges == [] && tr2.writeConflictRanges == []
      modifies this, rng, tr1, tr2, readConflictRanges, writeConflictRanges
      ensures Valid()
      ensures commits == old(commits) + CommitAttempts(input)
      ensures xacts == old(xacts) + Successes(input)
      ensures conflicts == old(conflicts) + (if Conflicted(input) then 1 else 0)
      ensures invalidReports == old(invalidReports) + Verdict(input, readConflictRanges.items, writeConflictRanges.items)
      ensures thrown == Thrown(input, readConflictRanges.items)
      ensures rng.mtPos == p0 + 6 * (n1 + n2 + m1 + m2)
      ensures PassRanges(input, p0, n1, n2, m1, m2, readConflictRanges.items, writeConflictRanges.items)
      ensures tr2.readConflictRanges == readConflictRanges.items && tr1.writeConflictRanges == writeConflictRanges.items
      ensures tr1.readConflictRanges == DrawnRanges(p0, n1)
      ensures tr2.writeConflictRanges == DrawnRanges(p0 + 6 * (n1 + n2) + 6 * m1, m2)
    {
      if input.readVersion.Err? {
        thrown, n1, n2, m1, m2 := Some(input.readVersion.error), 0, 0, 0, 0;
        PassRangesSkipped(input, p0);
        ReadVersionFailed(input);
      } else {
        thrown, n1, n2, m1, m2 := AfterReadVersion(tr1, tr2, readConflictRanges, writeConflictRanges, input, p0);
        PassRangesReached(input, p0, n1, n2, m1, m2, readConflictRanges.items, writeConflictRanges.items);
      }
    }

    /**
     * One pass of the `conflictingClient` loop, with the store's answers
     * taken from `input`. Returns how the pass ended and, as ghosts, the
     * read and write ranges it recorded for the checks and the number of
     * rounds of each generator loop: `n1` rounds of reads and `n2` of writes
     * for the first transaction, `m1` of reads and `m2` of writes for the
     * second; only the `n2` and `m1` loops are recorded. The
     * loops run one after the other from the twister position after the two
     * option draws; `writeRanges` are the ranges of the `n2` loop and
     * `readRanges` those of the `m1` loop. The draws determine every
     * count (`FirstRangesUnique`, `SecondRangesUnique`), so the checks are
     * made over exactly the ranges drawn.
     */
    method Iteration(tr1: Transaction, tr2: Transaction,
                     readConflictRanges: KeyRangeVector, writeConflictRanges: KeyRangeVector,
                     input: RoundInput, ghost p0: nat)
      returns (end: IterationEnd, ghost readRanges: seq<KeyRange>, ghost writeRanges: seq<KeyRange>,
               ghost n1: nat, ghost n2: nat, ghost m1: nat, ghost m2: nat)
      requires Valid() && Terminating() && rng.mtPos == p0
      requires tr1 != tr2 && readConflictRanges != writeConflictRanges
      requires readConflictRanges.items == [] && writeConflictRanges.items == []
      requires tr1.readConflictRanges == [] && tr1.writeConflictRanges == []
      requires tr2.readConflictRanges == [] && tr2.writeConflictRanges == []
      modifies this, rng, tr1, tr2, readConflictRanges, writeConflictRanges
      ensures Valid()
      ensures commits == old(commits) + CommitAttempts(input)
      ensures xacts == old(xacts) + Successes(input)
      ensures conflicts == old(conflicts) + (if Conflicted(input) then 1 else 0)
      ensures invalidReports == old(invalidReports) + Verdict(input, readRanges, writeRanges)
      ensures end == EndOf(input, readRanges)
      ensures rng.mtPos == p0 + 4 + 6 * (n1 + n2 + m1 + m2)
      ensures PassRanges(input, p0 + 4, n1, n2, m1, m2, readRanges, writeRanges)
      ensures input.readVersion.Ok? ==> |writeRanges| >= 1
      ensures input.readVersion.Ok? && input.commit1.Ok? ==> |readRanges| >= 1
      ensures end.Continued? ==>
                readConflictRanges.items == [] && writeConflictRanges.items == [] &&
                tr1.readConflictRanges == [] && tr1.writeConflictRanges == [] &&
                tr2.readConflictRanges == [] && tr2.writeConflictRanges == []
      ensures end.Stopped? ==>
                readConflictRanges.items == readRanges && writeConflictRanges.items == writeRanges &&
                tr2.readConflictRanges == readRanges && tr1.writeConflictRanges == writeRanges &&
                tr1.readConflictRanges == DrawnRanges(p0 + 4, n1) &&
                tr2.writeConflictRanges == DrawnRanges(p0 + 4 + 6 * (n1 + n2) + 6 * m1, m2)
    {
      ChooseReadYourWrites();
      var thrown;
      thrown, n1, n2, m1, m2 := RunTransactions(tr1, tr2, readConflictRanges, writeConflictRanges, input, p0 + 4);
      PassRangesRecorded(input, p0 + 4, n1, n2, m1, m2, readConflictRanges.items, writeConflictRanges.items);
      readRanges := readConflictRanges.items;
      writeRanges := writeConflictRanges.items;
      end := EndPass(thrown, tr1, tr2, readConflictRanges, writeConflictRanges);
      ClosedAsEndOf(input, readRanges, thrown, end);
    }

    /**
     * From counters `c0`, `x0`, `f0`, `v0`, each counter has grown by the
     * totals of the first `n` passes, which recorded `passReads` and `passWrites`.
     */
    ghost predicate Counted(inputs: seq<RoundInput>, n: nat, passReads: seq<seq<KeyRange>>, passWrites: seq<seq<KeyRange>>,
                            c0: nat, x0: nat, f0: nat, v0: nat)
      reads this
    {
      n <= |inputs| && |passReads| == n && |passWrites| == n &&
      commits == c0 + TotalAttempts(inputs[..n]) && xacts == x0 + TotalSuccesses(inputs[..n]) &&
      conflicts == f0 + TotalConflicts(inputs[..n]) && invalidReports == v0 + TotalVerdicts(inputs[..n], passReads, passWrites)
    }

    /**
     * Pass `n` of `conflictingClient`, after passes that all went on:
     * `Iteration` on `inputs[n]`, with the pass's ranges and rounds added
     * to the record.
     */
    method ClientPass(tr1: Transaction, tr2: Transaction,
                      readConflictRanges: KeyRangeVector, writeConflictRanges: KeyRangeVector,
                      inputs: seq<RoundInput>, n: nat,
                      ghost passReads: seq<seq<KeyRange>>, ghost passWrites: seq<seq<KeyRange>>,
                      ghost at: seq<nat>, ghost counts: seq<PassRounds>,
                      ghost c0: nat, ghost x0: nat, ghost f0: nat, ghost v0: nat)
      returns (end: IterationEnd,
               ghost passReads': seq<seq<KeyRange>>, ghost passWrites': seq<seq<KeyRange>>,
               ghost at': seq<nat>, ghost counts': seq<PassRounds>)
      requires Valid() && Terminating() && n < |inputs|
      requires PassRecord(inputs, n, passReads, passWrites, at, counts) && at[n] == rng.mtPos
      requires EndsAsRecorded(inputs, n, passReads, Continued)
      requires Counted(inputs, n, passReads, passWrites, c0, x0, f0, v0)
      requires tr1 != tr2 && readConflictRanges != writeConflictRanges
      requires readConflictRanges.items == [] && writeConflictRanges.items == []
      requires tr1.readConflictRanges == [] && tr1.writeConflictRanges == []
      requires tr2.readConflictRanges == [] && tr2.writeConflictRanges == []
      modifies this, rng, tr1, tr2, readConflictRanges, writeConflictRanges
      ensures Valid()
      ensures PassRecord(inputs, n + 1, passReads', passWrites', at', counts')
      ensures at'[0] == at[0] && at'[n + 1] == rng.mtPos
      ensures EndsAsRecorded(inputs, n + 1, passReads', end)
      ensures Counted(inputs, n + 1, passReads', passWrites', c0, x0, f0, v0)
      ensures end.Continued? ==>
                readConflictRanges.items == [] && writeConflictRanges.items == [] &&
                tr1.readConflictRanges == [] && tr1.writeConflictRanges == [] &&
                tr2.readConflictRanges == [] && tr2.writeConflictRanges == []
    {
      ghost var p := rng.mtPos;
      ghost var r, w, n1, n2, m1, m2;
      end, r, w, n1, n2, m1, m2 := Iteration(tr1, tr2, readConflictRanges, writeConflictRanges, inputs[n], p);
      ghost var c := PassRounds(n1, n2, m1, m2);
      assert PassDrawn(inputs[n], p, c, r, w, rng.mtPos);
      PassRecordSnoc(inputs, n, passReads, passWrites, at, counts, r, w, rng.mtPos, c);
      EndsAsRecordedSnoc(inputs, n, passReads, r);
      TotalsSnoc(inputs, n, passReads, passWrites, r, w);
      passReads', passWrites', at', counts' := passReads + [r], passWrites + [w], at + [rng.mtPos], counts + [c];
    }

    /**
     * `conflictingClient`: passes of the loop, one per element of `inputs`
     * (the test duration ends the loop after the last), until one stops.
     * Returns how the client ended and how many passes it made and, as
     * ghosts, for each pass the read and write ranges it recorded and the
     * twister's positions between passes. Every pass but the last went on;
     * the client ends as its last pass did, so it stops only with an error
     * `onError` rethrew. Each counter grows by the totals of the passes made.
     */
    method ConflictingClient(inputs: seq<RoundInput>)
      returns (end: IterationEnd, rounds: nat,
               ghost passReads: seq<seq<KeyRange>>, ghost passWrites: seq<seq<KeyRange>>,
               ghost at: seq<nat>, ghost counts: seq<PassRounds>)
      requires Valid() && Terminating()
      modifies this, rng
      ensures Valid()
      ensures PassRecord(inputs, rounds, passReads, passWrites, at, counts)
      ensures at[0] == old(rng.mtPos) && at[rounds] == rng.mtPos
      ensures EndsAsRecorded(inputs, rounds, passReads, end)
      ensures end.Continued? ==> rounds == |inputs|
      ensures end.Stopped? ==> !Retryable(end.error)
      ensures commits == old(commits) + TotalAttempts(inputs[..rounds])
      ensures xacts == old(xacts) + TotalSuccesses(inputs[..rounds])
      ensures conflicts == old(conflicts) + TotalConflicts(inputs[..rounds])
      ensures invalidReports == old(invalidReports) + TotalVerdicts(inputs[..rounds], passReads, passWrites)
    {
      var tr1 := new Transaction();
      var tr2 := new Transaction();
      var readConflictRanges := new KeyRangeVector();
      var writeConflictRanges := new KeyRangeVector();
      end := Continued;
      rounds, passReads, passWrites, at, counts := 0, [], [], [rng.mtPos], [];
      while rounds < |inputs| && end.Continued?
        invariant Valid()
        invariant PassRecord(inputs, rounds, passReads, passWrites, at, counts)
        invariant at[0] == old(rng.mtPos) && at[rounds] == rng.mtPos
        invariant EndsAsRecorded(inputs, rounds, passReads, end)
        invariant end.Continued? ==>
                    readConflictRanges.items == [] && writeConflictRanges.items == [] &&
                    tr1.readConflictRanges == [] && tr1.writeConflictRanges == [] &&
                    tr2.readConflictRanges == [] && tr2.writeConflictRanges == []
        invariant tr1 != tr2 && readConflictRanges != writeConflictRanges
        invariant Counted(inputs, rounds, passReads, passWrites, old(commits), old(xacts), old(conflicts), old(invalidReports))
        invariant fresh(tr1) && fresh(tr2) && fresh(readConflictRanges) && fresh(writeConflictRanges)
      {
        end, passReads, passWrites, at, counts :=
          ClientPass(tr1, tr2, readConflictRanges, writeConflictRanges, inputs, rounds, passReads, passWrites, at, counts,
                     old(commits), old(xacts), old(conflicts), old(invalidReports));
        rounds := rounds + 1;
      }
    }
  }
}
