/**
 * The conflicting-keys report as the workload reads it from the special key
 * space: a list of key/value rows, each key carrying the conflicting-keys
 * prefix, alternating between a range's begin (value "1") and its end
 * (value "0"). Decoding turns the rows into key ranges; the inverse
 * encoding is the shape the workload expects the store to produce.
 */
module ConflictReport {
  import opened FixedWidth
  import opened Wrappers
  import opened Keys

  datatype KeyValue = KeyValue(key: Key, value: Key)

  /** Bytes of an ASCII string. */
  function Ascii(s: string): (b: seq<uint8>)
    ensures |b| == |s|
  {
    seq(|s|, i requires 0 <= i < |s| => (s[i] as int) % 0x100)
  }

  /** `conflictingKeysAbsolutePrefix`: `\xff\xff/transaction/conflicting_keys/`. */
  const ConflictingKeysPrefix: Key := [0xFF, 0xFF] + Ascii("/transaction/conflicting_keys/")

  /** `conflictingKeysTrue`, the value "1" that marks the begin of a reported range. */
  const ConflictingKeysTrue: Key := [0x31]

  /** `conflictingKeysFalse`, the value "0" that marks the end of a reported range. */
  const ConflictingKeysFalse: Key := [0x30]

  datatype ReportError =
    | EmptyOrOddReport            // the size check fails
    | WrongMarker(row: nat)        // a begin row not marked true, or an end row not marked false
    | MissingPrefix(row: nat)      // a key without the conflicting-keys prefix
    | InvertedPair(row: nat)       // a begin after its end: `KeyRangeRef` throws `inverted_range`

  predicate HasPrefix(k: Key, p: Key)
  {
    |p| <= |k| && k[..|p|] == p
  }

  /** `key.removePrefix(conflictingKeysAbsolutePrefix)`. */
  function RemovePrefix(k: Key): (r: Key)
    requires HasPrefix(k, ConflictingKeysPrefix)
    ensures ConflictingKeysPrefix + r == k
  {
    k[|ConflictingKeysPrefix|..]
  }

  /**
   * Rows `2i` and `2i + 1` form a well-formed begin/end pair: marked true
   * and false, both prefixed, and the begin not after the end once the
   * prefixes are removed.
   */
  predicate PairWellFormed(rows: seq<KeyValue>, i: nat)
    requires 2 * i + 1 < |rows|
  {
    rows[2 * i].value == ConflictingKeysTrue && rows[2 * i + 1].value == ConflictingKeysFalse &&
    HasPrefix(rows[2 * i].key, ConflictingKeysPrefix) && HasPrefix(rows[2 * i + 1].key, ConflictingKeysPrefix) &&
    Ordered(KeyRange(RemovePrefix(rows[2 * i].key), RemovePrefix(rows[2 * i + 1].key)))
  }

  /** The range a well-formed pair denotes: both keys with the prefix removed. */
  function PairRange(rows: seq<KeyValue>, i: nat): KeyRange
    requires 2 * i + 1 < |rows| && PairWellFormed(rows, i)
  {
    KeyRange(RemovePrefix(rows[2 * i].key), RemovePrefix(rows[2 * i + 1].key))
  }

  /**
   * Decoding of pair `i`, the checks in the order the workload makes them:
   * the begin marker, the end marker, the two prefixes, then the order of
   * the keys that `KeyRangeRef`'s constructor checks.
   */
  function DecodePair(rows: seq<KeyValue>, i: nat): (r: Result<KeyRange, ReportError>)
    requires 2 * i + 1 < |rows|
    ensures r.Success? <==> PairWellFormed(rows, i)
    ensures r.Success? ==> r.value == PairRange(rows, i)
  {
    if rows[2 * i].value != ConflictingKeysTrue then Failure(WrongMarker(2 * i))
    else if rows[2 * i + 1].value != ConflictingKeysFalse then Failure(WrongMarker(2 * i + 1))
    else if !HasPrefix(rows[2 * i].key, ConflictingKeysPrefix) then Failure(MissingPrefix(2 * i))
    else if !HasPrefix(rows[2 * i + 1].key, ConflictingKeysPrefix) then Failure(MissingPrefix(2 * i + 1))
    else
      var kr := KeyRange(RemovePrefix(rows[2 * i].key), RemovePrefix(rows[2 * i + 1].key));
      if !Ordered(kr) then Failure(InvertedPair(2 * i)) else Success(kr)
  }

  /** What a decoding that stops at the first malformed pair has produced. */
  datatype Partial = Partial(ranges: seq<KeyRange>, error: Option<ReportError>)

  /** Decodes pairs `i, i + 1, ...` of an even-length report until one is malformed. */
  function DecodeFrom(rows: seq<KeyValue>, i: nat): Partial
    requires |rows| % 2 == 0 && 2 * i <= |rows|
    decreases |rows| - 2 * i
  {
    if 2 * i == |rows| then Partial([], None)
    else
      match DecodePair(rows, i)
      case Failure(e) => Partial([], Some(e))
      case Success(r) =>
        var rest := DecodeFrom(rows, i + 1);
        Partial([r] + rest.ranges, rest.error)
  }

  /**
   * What `DecodeFrom(rows, i)` produces holds the ranges of pairs `i, i + 1,
   * ...` in order, every one of them well formed; the pair after the last
   * one decoded, if any, is malformed, and there is no failure exactly when
   * every remaining pair was decoded.
   */
  lemma {:induction false} DecodeFromSpec(rows: seq<KeyValue>, i: nat)
    requires |rows| % 2 == 0 && 2 * i <= |rows|
    ensures |DecodeFrom(rows, i).ranges| <= |rows| / 2 - i
    ensures DecodeFrom(rows, i).error.None? <==> |DecodeFrom(rows, i).ranges| == |rows| / 2 - i
    ensures forall j :: i <= j < i + |DecodeFrom(rows, i).ranges| ==>
              2 * j + 1 < |rows| && PairWellFormed(rows, j) &&
              DecodeFrom(rows, i).ranges[j - i] == PairRange(rows, j)
    ensures 2 * (i + |DecodeFrom(rows, i).ranges|) < |rows| ==>
              !PairWellFormed(rows, i + |DecodeFrom(rows, i).ranges|)
    decreases |rows| - 2 * i
  {
    if 2 * i < |rows| && DecodePair(rows, i).Success? {
      DecodeFromSpec(rows, i + 1);
      var rest := DecodeFrom(rows, i + 1);
      var p := DecodeFrom(rows, i);
      assert p.ranges == [PairRange(rows, i)] + rest.ranges;
      forall j | i + 1 <= j < i + |p.ranges|
        ensures p.ranges[j - i] == PairRange(rows, j)
      {
        assert p.ranges[j - i] == rest.ranges[j - (i + 1)];
      }
    }
  }

  /**
   * Decoding as the workload does it: the size check first, then the pairs in
   * order. The ranges are those of the pairs decoded before any failure.
   */
  function DecodePartial(rows: seq<KeyValue>): Partial
  {
    if |rows| == 0 || |rows| % 2 != 0 then Partial([], Some(EmptyOrOddReport))
    else DecodeFrom(rows, 0)
  }

  /** The decoded report, or the first reason it is refused. */
  function Decode(rows: seq<KeyValue>): Result<seq<KeyRange>, ReportError>
  {
    var p := DecodePartial(rows);
    if p.error.None? then Success(p.ranges) else Failure(p.error.value)
  }

  /**
   * A report is accepted exactly when it is non-empty, of even length, and
   * every pair is well formed; range `i` is then pair `i` without prefixes.
   */
  lemma DecodeAccepts(rows: seq<KeyValue>)
    ensures Decode(rows).Success? <==>
              |rows| > 0 && |rows| % 2 == 0 &&
              forall i :: 0 <= i < |rows| / 2 ==> PairWellFormed(rows, i)
    ensures Decode(rows).Success? ==>
              |Decode(rows).value| == |rows| / 2 &&
              forall i :: 0 <= i < |rows| / 2 ==> Decode(rows).value[i] == PairRange(rows, i)
  {
    if |rows| > 0 && |rows| % 2 == 0 {
      DecodeFromSpec(rows, 0);
      if forall i :: 0 <= i < |rows| / 2 ==> PairWellFormed(rows, i) {
        AllPairsDecode(rows, 0);
      }
    }
  }

  lemma {:induction false} AllPairsDecode(rows: seq<KeyValue>, i: nat)
    requires |rows| % 2 == 0 && 2 * i <= |rows|
    requires forall k :: i <= k < |rows| / 2 ==> PairWellFormed(rows, k)
    ensures DecodeFrom(rows, i).error.None?
    decreases |rows| - 2 * i
  {
    if 2 * i < |rows| {
      assert PairWellFormed(rows, i);
      AllPairsDecode(rows, i + 1);
    }
  }

  /** The rows the store writes for a list of ranges: begin marked true, end marked false. */
  function Encode(ranges: seq<KeyRange>): (rows: seq<KeyValue>)
    ensures |rows| == 2 * |ranges|
  {
    if ranges == [] then []
    else [KeyValue(ConflictingKeysPrefix + ranges[0].begin, ConflictingKeysTrue),
          KeyValue(ConflictingKeysPrefix + ranges[0].end, ConflictingKeysFalse)] + Encode(ranges[1..])
  }

  lemma {:induction false} EncodeRows(ranges: seq<KeyRange>, i: nat)
    requires i < |ranges|
    ensures Encode(ranges)[2 * i] == KeyValue(ConflictingKeysPrefix + ranges[i].begin, ConflictingKeysTrue)
    ensures Encode(ranges)[2 * i + 1] == KeyValue(ConflictingKeysPrefix + ranges[i].end, ConflictingKeysFalse)
  {
    if i > 0 {
      EncodeRows(ranges[1..], i - 1);
    }
  }

  /** A key built by prepending the prefix carries it, and removing it gives the key back. */
  lemma PrefixRoundTrip(k: Key)
    ensures HasPrefix(ConflictingKeysPrefix + k, ConflictingKeysPrefix)
    ensures RemovePrefix(ConflictingKeysPrefix + k) == k
  {
    assert (ConflictingKeysPrefix + k)[..|ConflictingKeysPrefix|] == ConflictingKeysPrefix;
  }

  /** Pair `i` of an encoding is well formed exactly when range `i` is ordered, and then denotes that range. */
  lemma EncodedPair(ranges: seq<KeyRange>, i: nat)
    requires i < |ranges|
    ensures 2 * i + 1 < |Encode(ranges)|
    ensures PairWellFormed(Encode(ranges), i) <==> Ordered(ranges[i])
    ensures PairWellFormed(Encode(ranges), i) ==> PairRange(Encode(ranges), i) == ranges[i]
  {
    EncodeRows(ranges, i);
    PrefixRoundTrip(ranges[i].begin);
    PrefixRoundTrip(ranges[i].end);
  }

  /** The encoding of a non-empty list of ranges is accepted exactly when no range in it is inverted. */
  lemma EncodingAccepted(ranges: seq<KeyRange>)
    requires |ranges| > 0
    ensures Decode(Encode(ranges)).Success? <==> forall i :: 0 <= i < |ranges| ==> Ordered(ranges[i])
  {
    var rows := Encode(ranges);
    assert |rows| == 2 * |ranges| && |rows| / 2 == |ranges| && |rows| % 2 == 0;
    DecodeAccepts(rows);
    if forall i :: 0 <= i < |ranges| ==> Ordered(ranges[i]) {
      forall i | 0 <= i < |rows| / 2
        ensures PairWellFormed(rows, i)
      {
        EncodedPair(ranges, i);
      }
    } else {
      var k :| 0 <= k < |ranges| && !Ordered(ranges[k]);
      EncodedPair(ranges, k);
    }
  }

  /**
   * The encoding of a non-empty list of ranges is accepted exactly when no
   * range in it is inverted, and decoding then gives the list back.
   */
  lemma DecodeEncode(ranges: seq<KeyRange>)
    requires |ranges| > 0
    ensures Decode(Encode(ranges)).Success? <==> forall i :: 0 <= i < |ranges| ==> Ordered(ranges[i])
    ensures (forall i :: 0 <= i < |ranges| ==> Ordered(ranges[i])) ==> Decode(Encode(ranges)) == Success(ranges)
  {
    EncodingAccepted(ranges);
    if forall i :: 0 <= i < |ranges| ==> Ordered(ranges[i]) {
      var rows := Encode(ranges);
      assert |rows| == 2 * |ranges| && |rows| / 2 == |ranges|;
      DecodeAccepts(rows);
      var decoded := Decode(rows).value;
      forall i | 0 <= i < |ranges|
        ensures decoded[i] == ranges[i]
      {
        EncodedPair(ranges, i);
      }
      assert decoded == ranges;
    }
  }

  /** Every accepted report is the encoding of what it decodes to. */
  lemma EncodeDecode(rows: seq<KeyValue>)
    requires Decode(rows).Success?
    ensures Encode(Decode(rows).value) == rows
  {
    DecodeAccepts(rows);
    var ranges := Decode(rows).value;
    var back := Encode(ranges);
    forall j | 0 <= j < |rows|
      ensures back[j] == rows[j]
    {
      var i := j / 2;
      EncodeRows(ranges, i);
      assert PairWellFormed(rows, i);
    }
  }

  /** `getRange(range, limit)`: the first `limit` rows of the range. */
  function Limit(rows: seq<KeyValue>, limit: nat): (r: seq<KeyValue>)
    ensures |r| <= limit && |r| <= |rows| && r == rows[..|r|]
    ensures |rows| <= limit ==> r == rows
  {
    if |rows| <= limit then rows else rows[..limit]
  }

  /** Read with limit `2 * n`, a report decodes to at most `n` ranges. */
  lemma DecodeWithinLimit(rows: seq<KeyValue>, n: nat)
    ensures |DecodePartial(Limit(rows, 2 * n)).ranges| <= n
  {
    var limited := Limit(rows, 2 * n);
    if |limited| > 0 && |limited| % 2 == 0 {
      DecodeFromSpec(limited, 0);
    }
  }
}
