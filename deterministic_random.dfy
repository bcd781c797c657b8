/**
 * The integer side of flow's DeterministicRandom: a one-value look-ahead
 * buffer over a Mersenne Twister, the mapping of a 64-bit draw into a
 * half-open integer interval, truncation to 32 bits, unique ids,
 * alphanumeric characters and strings, and filling a byte buffer.
 *
 * The Mersenne Twister itself is a stream of 32-bit values `source`; its
 * internal state is the position `mtPos` in that stream.
 */
module FlowRandom {
  import opened FixedWidth
  import opened Wrappers

  // ---------------------------------------------------------------------------
  // Building a 64-bit draw from two 32-bit values
  // ---------------------------------------------------------------------------

  /**
   * `(uint64(hi) << 32) ^ lo` for a 32-bit `lo`: the shift leaves the low 32
   * bits zero, so the exclusive or places `lo` there unchanged.
   */
  function Join(hi: uint32, lo: uint32): uint64
  {
    hi * 0x1_0000_0000 + lo
  }

  /** The top 32 bits of a 64-bit value. */
  function High32(w: uint64): uint32
  {
    w / 0x1_0000_0000
  }

  /** Truncation of a `uint64_t` to `uint32_t`. */
  function Low32(w: uint64): uint32
  {
    ToU32(w)
  }

  /** Splitting a joined value gives back its two halves. */
  lemma JoinHalves(hi: uint32, lo: uint32)
    ensures High32(Join(hi, lo)) == hi && Low32(Join(hi, lo)) == lo
  {
  }

  /** Joining the two halves of a value gives the value back. */
  lemma SplitJoin(w: uint64)
    ensures Join(High32(w), Low32(w)) == w
  {
  }

  /**
   * The value of `(uint64_t(random()) << 32) ^ random()` when the first call
   * of `random()` yields `first` and the second yields `second`. C++ does not
   * fix which operand of `^` is evaluated first, so `highFirst` says whether
   * the first value drawn lands in the high half.
   */
  function Combine(first: uint32, second: uint32, highFirst: bool): uint64
  {
    if highFirst then Join(first, second) else Join(second, first)
  }

  /**
   * Whatever the evaluation order, the two halves of the combined value are
   * the two values drawn; the order decides only which half holds which.
   */
  lemma CombineHalves(first: uint32, second: uint32, highFirst: bool)
    ensures multiset{High32(Combine(first, second, highFirst)), Low32(Combine(first, second, highFirst))}
            == multiset{first, second}
    ensures Low32(Combine(first, second, highFirst)) == if highFirst then second else first
  {
    var w := Combine(first, second, highFirst);
    if highFirst {
      JoinHalves(first, second);
      assert High32(w) == first && Low32(w) == second;
    } else {
      JoinHalves(second, first);
      assert High32(w) == second && Low32(w) == first;
    }
  }

  /** The 64-bit value built from the twister's outputs at positions `p` and `p + 1`. */
  function Word(source: nat -> uint32, highFirst: bool, p: nat): uint64
  {
    Combine(source(p), source(p + 1), highFirst)
  }

  /**
   * The value returned by the `k`-th call of `gen64` (counting from 0) made
   * by a generator whose twister stands at position `mtPos`: call 0 returns
   * the buffered value, built from positions `mtPos - 2` and `mtPos - 1`, and
   * every call after it consumes two fresh positions.
   */
  function Draw(source: nat -> uint32, highFirst: bool, mtPos: nat, k: nat): uint64
    requires mtPos >= 2
  {
    Word(source, highFirst, mtPos - 2 + 2 * k)
  }

  // ---------------------------------------------------------------------------
  // randomInt: a draw mapped into [min, maxPlusOne) over 32-bit integers
  // ---------------------------------------------------------------------------

  /**
   * The `unsigned int range` of `randomInt`. A negative `maxPlusOne` takes
   * `std::abs(maxPlusOne - min)` on `int`; otherwise `range = maxPlusOne; range
   * -= min;` computes on `unsigned int`, modulo 2^32. Either way the result is
   * the exact width of the interval: the signed subtraction does not
   * overflow and the unsigned one does not wrap.
   */
  function RandomIntRange(min: int32, maxPlusOne: int32): (range: uint32)
    requires min < maxPlusOne
    ensures range == maxPlusOne - min
  {
    if maxPlusOne < 0 then
      var diff: int := maxPlusOne - min;
      assert -0x8000_0000 <= diff < 0x8000_0000;
      ToU32(Abs(diff))
    else
      var range: int := ToU32(maxPlusOne);
      ToU32(range - ToU32(min))
  }

  /**
   * The reconstruction of the result of `randomInt` from the offset `v`.
   * For a negative `min` with `v <= -(min + 1)` the sum `v + min` is negative,
   * and the code forms it as `-int(-unsigned(min + 1) - v) - 1` so that no
   * step leaves its type; otherwise it adds in `uint64_t` and converts to
   * `int`. Both ways give exactly `v + min`.
   */
  function RandomIntOffset(v: uint64, min: int32): (i: int32)
    requires min + v < 0x8000_0000 - 1
    ensures i == min + v
  {
    RandomIntOffsetAgrees(v, min);
    var back: int := ToU32(-(ToU32(min + 1) as int));
    if min < 0 && back >= v then -ToI32(ToU64(back - v)) - 1
    else ToI32(ToU64(v + ToU64(min)))
  }

  /** Both branches of the reconstruction give `v + min`, and neither leaves its type. */
  lemma RandomIntOffsetAgrees(v: uint64, min: int32)
    requires min + v < 0x8000_0000 - 1
    ensures var back: int := ToU32(-(ToU32(min + 1) as int));
            (min < 0 && back >= v ==> 0 <= back - v < 0x8000_0000 && -ToI32(ToU64(back - v)) - 1 == min + v) &&
            (!(min < 0 && back >= v) ==> ToI32(ToU64(v + ToU64(min))) == min + v)
  {
    NegatedSuccessor32(min);
  }

  /** For a negative `min`, `-static_cast<unsigned int>(min + 1)` is `-(min + 1)`. */
  lemma NegatedSuccessor32(min: int32)
    requires min < 0x7FFF_FFFF
    ensures min < 0 ==> ToU32(-(ToU32(min + 1) as int)) == -(min + 1)
  {
    if min < -1 {
      assert ToU32(min + 1) == min + 1 + 0x1_0000_0000;
    }
  }

  /**
   * What `randomInt(min, maxPlusOne)` returns for the draw `g`: the draw
   * reduced modulo the width of the interval and moved to `min`, a value of
   * `[min, maxPlusOne)`.
   */
  function RandomIntOf(g: uint64, min: int32, maxPlusOne: int32): (i: int32)
    requires min < maxPlusOne
    ensures min <= i < maxPlusOne
  {
    min + g % (maxPlusOne - min)
  }

  /** Every value of `[min, maxPlusOne)` is what `randomInt` returns for some draw: its offset from `min`. */
  lemma RandomIntOfOnto(k: int32, min: int32, maxPlusOne: int32)
    requires min <= k < maxPlusOne
    ensures RandomIntOf((k - min) as uint64, min, maxPlusOne) == k
  {
    ModOfSmaller(k - min, maxPlusOne - min);
  }

  /** A value below the modulus is its own remainder. */
  lemma ModOfSmaller(a: nat, m: nat)
    requires a < m
    ensures a % m == a
  {
  }

  // ---------------------------------------------------------------------------
  // randomInt64: the same over 64-bit integers
  // ---------------------------------------------------------------------------

  /** The `uint64_t range` of `randomInt64`, exact in both branches. */
  function RandomInt64Range(min: int64, maxPlusOne: int64): (range: uint64)
    requires min < maxPlusOne
    ensures range == maxPlusOne - min
  {
    if maxPlusOne < 0 then
      var diff: int := maxPlusOne - min;
      assert -0x8000_0000_0000_0000 <= diff < 0x8000_0000_0000_0000;
      ToU64(Abs(diff))
    else
      var range: int := ToU64(maxPlusOne);
      ToU64(range - ToU64(min))
  }

  /** The reconstruction of the result of `randomInt64` from the offset `v`. */
  function RandomInt64Offset(v: uint64, min: int64): (i: int64)
    requires min + v < 0x8000_0000_0000_0000 - 1
    ensures i == min + v
  {
    RandomInt64OffsetAgrees(v, min);
    var back: int := ToU64(-(ToU64(min + 1) as int));
    if min < 0 && back >= v then -ToI64(ToU64(back - v)) - 1
    else ToI64(ToU64(v + ToU64(min)))
  }

  /** Both branches of the reconstruction give `v + min`, and neither leaves its type. */
  lemma RandomInt64OffsetAgrees(v: uint64, min: int64)
    requires min + v < 0x8000_0000_0000_0000 - 1
    ensures var back: int := ToU64(-(ToU64(min + 1) as int));
            (min < 0 && back >= v ==> 0 <= back - v < 0x8000_0000_0000_0000 && -ToI64(ToU64(back - v)) - 1 == min + v) &&
            (!(min < 0 && back >= v) ==> ToI64(ToU64(v + ToU64(min))) == min + v)
  {
    NegatedSuccessor64(min);
  }

  /** For a negative `min`, `-static_cast<uint64_t>(min + 1)` is `-(min + 1)`. */
  lemma NegatedSuccessor64(min: int64)
    requires min < 0x7FFF_FFFF_FFFF_FFFF
    ensures min < 0 ==> ToU64(-(ToU64(min + 1) as int)) == -(min + 1)
  {
    if min < -1 {
      assert ToU64(min + 1) == min + 1 + 0x1_0000_0000_0000_0000;
    }
  }

  /** What `randomInt64(min, maxPlusOne)` returns for the draw `g`. */
  function RandomInt64Of(g: uint64, min: int64, maxPlusOne: int64): (i: int64)
    requires min < maxPlusOne
    ensures min <= i < maxPlusOne
  {
    min + g % (maxPlusOne - min)
  }

  /** Every value of `[min, maxPlusOne)` is what `randomInt64` returns for some draw. */
  lemma RandomInt64OfOnto(k: int64, min: int64, maxPlusOne: int64)
    requires min <= k < maxPlusOne
    ensures RandomInt64Of((k - min) as uint64, min, maxPlusOne) == k
  {
    ModOfSmaller(k - min, maxPlusOne - min);
  }

  // ---------------------------------------------------------------------------
  // Alphanumeric characters
  // ---------------------------------------------------------------------------

  const Digits: string := "0123456789"
  const UpperCase: string := "ABCDEFGHIJKLMNOPQRSTUVWXYZ"
  const LowerCase: string := "abcdefghijklmnopqrstuvwxyz"

  /** The table `alphanum` of `randomAlphaNumeric`, written as its three runs (its terminating NUL is never indexed). */
  const Alphanum: string := Digits + UpperCase + LowerCase

  predicate IsAlphaNumeric(c: char)
  {
    ('0' <= c <= '9') || ('A' <= c <= 'Z') || ('a' <= c <= 'z')
  }

  /** Position of an alphanumeric character in `Alphanum`. */
  function AlphanumIndex(c: char): (k: nat)
    requires IsAlphaNumeric(c)
    ensures k < 62
  {
    if c <= '9' then (c - '0') as int
    else if c <= 'Z' then 10 + (c - 'A') as int
    else 36 + (c - 'a') as int
  }

  /** The character at index `k` of `[0-9A-Za-z]`, computed from the three runs. */
  function AlphanumAt(k: nat): (c: char)
    requires k < 62
    ensures IsAlphaNumeric(c)
  {
    if k < 10 then ('0' as int + k) as char
    else if k < 36 then ('A' as int + (k - 10)) as char
    else ('a' as int + (k - 36)) as char
  }

  /**
   * The table holds 62 characters, entry `k` being `AlphanumAt(k)`, so every
   * entry is alphanumeric.
   */
  lemma AlphanumTable()
    ensures |Alphanum| == 62
    ensures forall k :: 0 <= k < 62 ==> Alphanum[k] == AlphanumAt(k)
  {
    assert forall k :: 0 <= k < 10 ==> Digits[k] == ('0' as int + k) as char;
    assert forall k :: 0 <= k < 26 ==> UpperCase[k] == ('A' as int + k) as char;
    assert forall k :: 0 <= k < 26 ==> LowerCase[k] == ('a' as int + k) as char;
  }

  /** `AlphanumIndex` and `AlphanumAt` are inverse bijections between `[0, 62)` and the alphanumeric characters. */
  lemma AlphanumIndexAt(k: nat, c: char)
    requires k < 62 && IsAlphaNumeric(c)
    ensures AlphanumIndex(AlphanumAt(k)) == k
    ensures AlphanumAt(AlphanumIndex(c)) == c
  {
  }

  /** Every alphanumeric character sits in the table at its index: the table is exactly `[0-9A-Za-z]`. */
  lemma AlphanumIndexInverse(c: char)
    requires IsAlphaNumeric(c)
    ensures Alphanum[AlphanumIndex(c)] == c
  {
    AlphanumTable();
    AlphanumIndexAt(AlphanumIndex(c), c);
  }

  /** The character `randomAlphaNumeric()` returns for the draw `g`: entry `g % 62` of the table. */
  function AlphaNumericOf(g: uint64): (c: char)
    ensures IsAlphaNumeric(c)
  {
    AlphanumAt(g % 62)
  }

  /** The character computed is the entry `g % 62` of the table `alphanum`. */
  lemma AlphaNumericOfTable(g: uint64)
    ensures AlphaNumericOf(g) == Alphanum[g % 62]
  {
    AlphanumTable();
  }

  /** Every alphanumeric character is the image of some draw. */
  lemma AlphaNumericOfOnto(c: char)
    requires IsAlphaNumeric(c)
    ensures AlphaNumericOf(AlphanumIndex(c)) == c
  {
    var k := AlphanumIndex(c);
    assert k % 62 == k;
    AlphanumIndexAt(k, c);
  }

  /** The characters of `n` successive draws of a generator whose twister stands at `mtPos`, in order. */
  function AlphaNumerics(source: nat -> uint32, highFirst: bool, mtPos: nat, n: nat): (s: string)
    requires mtPos >= 2
    ensures |s| == n
  {
    if n == 0 then [] else AlphaNumerics(source, highFirst, mtPos, n - 1) + [AlphaNumericOf(Draw(source, highFirst, mtPos, n - 1))]
  }

  /** Character `k` of the string comes from draw `k`, and every character is alphanumeric. */
  lemma {:induction false} AlphaNumericsElements(source: nat -> uint32, highFirst: bool, mtPos: nat, n: nat)
    requires mtPos >= 2
    ensures forall k :: 0 <= k < n ==>
              AlphaNumerics(source, highFirst, mtPos, n)[k] == AlphaNumericOf(Draw(source, highFirst, mtPos, k))
    ensures forall k :: 0 <= k < n ==> IsAlphaNumeric(AlphaNumerics(source, highFirst, mtPos, n)[k])
  {
    if n > 0 {
      AlphaNumericsElements(source, highFirst, mtPos, n - 1);
    }
  }

  // ---------------------------------------------------------------------------
  // Bytes of a 32-bit draw, as `memcpy` copies them on a little-endian target
  // ---------------------------------------------------------------------------

  /** Byte `j` (0 = least significant) of a 32-bit value. */
  function ByteOf(w: uint32, j: nat): (b: uint8)
    requires j < 4
  {
    match j
    case 0 => w % 0x100
    case 1 => (w / 0x100) % 0x100
    case 2 => (w / 0x1_0000) % 0x100
    case _ => w / 0x100_0000
  }

  /** The four bytes of a value read back in little-endian order give the value. */
  lemma ByteOfRoundTrip(w: uint32)
    ensures ByteOf(w, 0) + 0x100 * ByteOf(w, 1) + 0x1_0000 * ByteOf(w, 2) + 0x100_0000 * ByteOf(w, 3) == w
  {
    var q1 := w / 0x100;
    var q2 := q1 / 0x100;
    assert w / 0x1_0000 == q2;
    assert w / 0x100_0000 == q2 / 0x100;
    assert w == ByteOf(w, 0) + 0x100 * q1;
    assert q1 == ByteOf(w, 1) + 0x100 * q2;
    assert q2 == ByteOf(w, 2) + 0x100 * ByteOf(w, 3);
  }

  /** Number of 4-byte chunks, hence of draws, that `generateRandomData` uses for `length` bytes. */
  function Chunks(length: int): (n: nat)
    ensures length <= 0 ==> n == 0
    ensures length > 0 ==> 4 * (n - 1) < length <= 4 * n
  {
    if length <= 0 then 0 else (length + 3) / 4
  }

  datatype UID = UID(first: uint64, second: uint64)

  // ---------------------------------------------------------------------------
  // The generator object
  // ---------------------------------------------------------------------------

  class DeterministicRandom {
    /** The values the Mersenne Twister produces for the seed, in order. */
    const source: nat -> uint32
    /** Whether the first of the two `random()` calls in `gen64` forms the high half. */
    const highFirst: bool
    /** How many values the twister has produced so far. */
    var mtPos: nat
    /** The look-ahead buffer: the value the next `gen64` returns. */
    var next: uint64

    /** `next` was built from the last two values the twister produced. */
    ghost predicate Valid()
      reads this
    {
      mtPos >= 2 && next == Word(source, highFirst, mtPos - 2)
    }

    /**
     * Seeds the twister (`stream` is its output for `seed`) and primes
     * `next` from its first two values. Seed 0 is refused.
     */
    constructor (seed: uint32, stream: nat -> uint32, highFirst: bool)
      requires seed != 0
      ensures Valid()
      ensures source == stream && this.highFirst == highFirst && mtPos == 2
      ensures next == Combine(stream(0), stream(1), highFirst)
    {
      source := stream;
      this.highFirst := highFirst;
      mtPos := 0;
      next := 0;
      new;
      var first := Random();
      var second := Random();
      next := Combine(first, second, highFirst);
    }

    /** One call of the Mersenne Twister. */
    method Random() returns (r: uint32)
      modifies this
      ensures r == source(old(mtPos))
      ensures mtPos == old(mtPos) + 1 && next == old(next)
    {
      r := source(mtPos);
      mtPos := mtPos + 1;
    }

    /** The value the next `gen64` returns. */
    function Peek(): (r: uint64)
      reads this
      requires Valid()
      ensures r == Word(source, highFirst, mtPos - 2)
    {
      next
    }

    /** Returns the buffered value and refills the buffer from two fresh twister values. */
    method Gen64() returns (curr: uint64)
      requires Valid()
      modifies this
      ensures Valid()
      ensures curr == old(Peek())
      ensures mtPos == old(mtPos) + 2
      ensures next == Combine(source(old(mtPos)), source(old(mtPos) + 1), highFirst)
    {
      curr := next;
      var first := Random();
      var second := Random();
      next := Combine(first, second, highFirst);
    }

    /**
     * A value of `[min, maxPlusOne)` from one draw, computed as the code
     * does: the width in `unsigned int`, the offset in `uint64_t`, then the
     * reconstruction that never leaves the range of `int`.
     */
    method RandomInt(min: int32, maxPlusOne: int32) returns (i: int32)
      requires Valid()
      requires min < maxPlusOne
      modifies this
      ensures Valid() && mtPos == old(mtPos) + 2
      ensures i == RandomIntOf(old(Peek()), min, maxPlusOne)
      ensures min <= i < maxPlusOne
    {
      var g := Gen64();
      var range := RandomIntRange(min, maxPlusOne);
      var v := ToU64(g % range);
      i := RandomIntOffset(v, min);
    }

    /** A value of `[min, maxPlusOne)` over 64-bit integers from one draw. */
    method RandomInt64(min: int64, maxPlusOne: int64) returns (i: int64)
      requires Valid()
      requires min < maxPlusOne
      modifies this
      ensures Valid() && mtPos == old(mtPos) + 2
      ensures i == RandomInt64Of(old(Peek()), min, maxPlusOne)
      ensures min <= i < maxPlusOne
    {
      var g := Gen64();
      var range := RandomInt64Range(min, maxPlusOne);
      var v := g % range;
      i := RandomInt64Offset(v, min);
    }

    /** The low 32 bits of one draw. */
    method RandomUInt32() returns (r: uint32)
      requires Valid()
      modifies this
      ensures Valid() && mtPos == old(mtPos) + 2
      ensures r == Low32(old(Peek()))
    {
      var g := Gen64();
      r := Low32(g);
    }

    /** One draw, unchanged. */
    method RandomUInt64() returns (r: uint64)
      requires Valid()
      modifies this
      ensures Valid() && mtPos == old(mtPos) + 2
      ensures r == old(Peek())
    {
      r := Gen64();
    }

    /** Two draws: the first becomes the id's first half, the second its second half. */
    method RandomUniqueID() returns (id: UID)
      requires Valid()
      modifies this
      ensures Valid() && mtPos == old(mtPos) + 4
      ensures id.first == Draw(source, highFirst, old(mtPos), 0)
      ensures id.second == Draw(source, highFirst, old(mtPos), 1)
    {
      var x := Gen64();
      var y := Gen64();
      id := UID(x, y);
    }

    /** One alphanumeric character from one draw. */
    method RandomAlphaNumeric() returns (c: char)
      requires Valid()
      modifies this
      ensures Valid() && mtPos == old(mtPos) + 2
      ensures c == AlphaNumericOf(old(Peek()))
      ensures IsAlphaNumeric(c)
    {
      var g := Gen64();
      c := AlphaNumericOf(g);
    }

    /**
     * A string of `length` alphanumeric characters, character `k` from draw
     * `k`. A negative `length` makes `std::string::reserve` throw
     * `std::length_error` (the converted size exceeds `max_size()`) before
     * anything is drawn: that is `None`.
     */
    method RandomAlphaNumericString(length: int32) returns (s: Option<string>)
      requires Valid()
      modifies this
      ensures Valid()
      ensures length < 0 ==> s == None && mtPos == old(mtPos)
      ensures length >= 0 ==> s == Some(AlphaNumerics(source, highFirst, old(mtPos), length)) &&
                                mtPos == old(mtPos) + 2 * length
    {
      if length < 0 {
        return None;
      }
      ghost var p0 := mtPos;
      var str: string := "";
      var i := 0;
      while i < length
        invariant 0 <= i <= length
        invariant Valid() && mtPos == p0 + 2 * i
        invariant str == AlphaNumerics(source, highFirst, p0, i)
      {
        var c := RandomAlphaNumeric();
        AlphaNumericsStep(source, highFirst, p0, i, c);
        str := str + [c];
        i := i + 1;
      }
      assert str == AlphaNumerics(source, highFirst, p0, length) && mtPos == p0 + 2 * length;
      s := Some(str);
    }
  }

  /** One more draw, made with the twister at `p0 + 2 * i`, appends its character. */
  lemma AlphaNumericsStep(source: nat -> uint32, highFirst: bool, p0: nat, i: nat, c: char)
    requires p0 >= 2 && c == AlphaNumericOf(Word(source, highFirst, p0 + 2 * i - 2))
    ensures AlphaNumerics(source, highFirst, p0, i) + [c] == AlphaNumerics(source, highFirst, p0, i + 1)
  {
  }

  // ---------------------------------------------------------------------------
  // generateRandomData
  // ---------------------------------------------------------------------------

  /** The four bytes of a 32-bit value in memory order on a little-endian target. */
  function ChunkBytes(w: uint32): (b: seq<uint8>)
    ensures |b| == 4
  {
    [ByteOf(w, 0), ByteOf(w, 1), ByteOf(w, 2), ByteOf(w, 3)]
  }

  /** The bytes of the first `k` chunks: chunk `t` holds the bytes of the low half of draw `t`. */
  function RandomData(source: nat -> uint32, highFirst: bool, mtPos: nat, k: nat): (data: seq<uint8>)
    requires mtPos >= 2
    ensures |data| == 4 * k
  {
    if k == 0 then [] else RandomData(source, highFirst, mtPos, k - 1) + ChunkBytes(Low32(Draw(source, highFirst, mtPos, k - 1)))
  }

  /** Byte `j` of the data is byte `j % 4` of the low half of draw `j / 4`. */
  lemma {:induction false} RandomDataElements(source: nat -> uint32, highFirst: bool, mtPos: nat, k: nat)
    requires mtPos >= 2
    ensures forall j :: 0 <= j < 4 * k ==>
              RandomData(source, highFirst, mtPos, k)[j] == ByteOf(Low32(Draw(source, highFirst, mtPos, j / 4)), j % 4)
  {
    if k > 0 {
      RandomDataElements(source, highFirst, mtPos, k - 1);
      var data := RandomData(source, highFirst, mtPos, k);
      forall j | 4 * (k - 1) <= j < 4 * k
        ensures data[j] == ByteOf(Low32(Draw(source, highFirst, mtPos, j / 4)), j % 4)
      {
        ChunkIndex(j, k - 1);
      }
    }
  }

  /** `s` after `memcpy(&s[at], &val, count)`: the first `count` bytes of `val`, in memory order, written from `at` on. */
  function Copied(s: seq<uint8>, at: nat, val: uint32, count: nat): (r: seq<uint8>)
    requires count <= 4 && at + count <= |s|
    ensures |r| == |s|
    decreases count
  {
    if count == 0 then s else Copied(s, at, val, count - 1)[at + count - 1 := ByteOf(val, count - 1)]
  }

  /** The copy replaces exactly `s[at .. at + count)`, by the first `count` bytes of `val`. */
  lemma {:induction false} CopiedBytes(s: seq<uint8>, at: nat, val: uint32, count: nat)
    requires count <= 4 && at + count <= |s|
    ensures Copied(s, at, val, count) == s[..at] + ChunkBytes(val)[..count] + s[at + count..]
    decreases count
  {
    if count > 0 {
      CopiedBytes(s, at, val, count - 1);
      var b := ChunkBytes(val);
      assert b[count - 1] == ByteOf(val, count - 1);
      OverwriteNext(s, at, b, count);
    }
  }

  /** Writing byte `count - 1` of `b` after a copy of its first `count - 1` bytes extends the copy by one. */
  lemma OverwriteNext(s: seq<uint8>, at: nat, b: seq<uint8>, count: nat)
    requires 0 < count <= |b| && at + count <= |s|
    ensures (s[..at] + b[..count - 1] + s[at + count - 1..])[at + count - 1 := b[count - 1]] == s[..at] + b[..count] + s[at + count..]
  {
    var u := (s[..at] + b[..count - 1] + s[at + count - 1..])[at + count - 1 := b[count - 1]];
    var v := s[..at] + b[..count] + s[at + count..];
    assert |u| == |v|;
    forall j | 0 <= j < |u|
      ensures u[j] == v[j]
    {
      if j < at {
      } else if j < at + count {
      }
    }
  }

  /** `memcpy(&buffer[at], &val, count)`, one byte at a time. */
  method CopyBytes(buffer: array<uint8>, at: nat, val: uint32, count: nat)
    requires count <= 4 && at + count <= buffer.Length
    modifies buffer
    ensures buffer[..] == Copied(old(buffer[..]), at, val, count)
  {
    ghost var orig := buffer[..];
    for k := 0 to count
      invariant buffer[..] == Copied(orig, at, val, k)
    {
      buffer[at + k] := ByteOf(val, k);
    }
  }

  /** `orig` with its first `m` bytes replaced by those of `data`, written in order. */
  function Fill(data: seq<uint8>, orig: seq<uint8>, m: nat): (r: seq<uint8>)
    requires m <= |data| && m <= |orig|
    ensures |r| == |orig|
    decreases m
  {
    if m == 0 then orig else Fill(data, orig, m - 1)[m - 1 := data[m - 1]]
  }

  /** The filled buffer is the first `m` bytes of `data`, then `orig` from `m` on. */
  lemma {:induction false} FillBytes(data: seq<uint8>, orig: seq<uint8>, m: nat)
    requires m <= |data| && m <= |orig|
    ensures Fill(data, orig, m) == data[..m] + orig[m..]
    decreases m
  {
    if m > 0 {
      FillBytes(data, orig, m - 1);
    }
  }

  /** Copying chunk `data[i .. i + 4)` into a buffer filled up to `i` fills it up to `i + n`. */
  lemma {:induction false} FillChunkStep(data: seq<uint8>, orig: seq<uint8>, i: nat, n: nat, val: uint32)
    requires n <= 4 && i + 4 <= |data| && i + n <= |orig|
    requires data[i .. i + 4] == ChunkBytes(val)
    ensures Copied(Fill(data, orig, i), i, val, n) == Fill(data, orig, i + n)
    decreases n
  {
    if n > 0 {
      FillChunkStep(data, orig, i, n - 1, val);
      assert data[i + n - 1] == data[i .. i + 4][n - 1];
    }
  }

  /** How many bytes of the buffer the loop has written once its index reaches `i`. */
  function Written(i: nat, length: int): (m: nat)
    ensures m <= i && (length > 0 ==> m <= length)
  {
    if length <= 0 then 0 else Min(i, length)
  }

  /** How many bytes `generateRandomData` writes for `length`: none when it is not positive. */
  function Filled(length: int): (m: nat)
    ensures length > 0 ==> m == length
    ensures length <= 0 ==> m == 0
  {
    if length <= 0 then 0 else length
  }

  /**
   * Chunk `t` of the data is the four bytes of the low half of draw `t`,
   * the value `Peek` returns once the twister stands at `q`.
   */
  lemma {:induction false} RandomDataChunk(source: nat -> uint32, highFirst: bool, mtPos: nat, n: nat, t: nat, q: nat)
    requires mtPos >= 2 && t < n && q == mtPos + 2 * t
    ensures RandomData(source, highFirst, mtPos, n)[4 * t .. 4 * t + 4] == ChunkBytes(Low32(Word(source, highFirst, q - 2)))
    decreases n
  {
    var prev := RandomData(source, highFirst, mtPos, n - 1);
    var last := ChunkBytes(Low32(Draw(source, highFirst, mtPos, n - 1)));
    assert RandomData(source, highFirst, mtPos, n) == prev + last;
    if t < n - 1 {
      RandomDataChunk(source, highFirst, mtPos, n - 1, t, q);
      SliceOfLeft(prev, last, 4 * t, 4 * t + 4);
    } else {
      SliceOfRight(prev, last);
    }
  }

  lemma SliceOfLeft(a: seq<uint8>, b: seq<uint8>, lo: nat, hi: nat)
    requires lo <= hi <= |a|
    ensures (a + b)[lo .. hi] == a[lo .. hi]
  {
  }

  lemma SliceOfRight(a: seq<uint8>, b: seq<uint8>)
    ensures (a + b)[|a| .. |a| + |b|] == b
  {
  }

  /**
   * Fills `buffer[0 .. length)` four bytes at a time, each chunk from one
   * `randomUInt32` draw; the last chunk may be partial. Bytes from `length`
   * on are not touched.
   */
  method GenerateRandomData(rng: DeterministicRandom, buffer: array<uint8>, length: int32)
    requires rng.Valid()
    requires length <= buffer.Length
    modifies rng, buffer
    ensures rng.Valid()
    ensures rng.mtPos == old(rng.mtPos) + 2 * Chunks(length)
    ensures buffer[..] == Fill(RandomData(rng.source, rng.highFirst, old(rng.mtPos), Chunks(length)), old(buffer[..]), Filled(length))
  {
    ghost var p0 := rng.mtPos;
    ghost var orig := buffer[..];
    ghost var n := Chunks(length);
    ghost var all := RandomData(rng.source, rng.highFirst, p0, n);
    ghost var k := 0;
    var i := 0;
    while i < length
      invariant i == 4 * k && (k == 0 || 4 * (k - 1) < length)
      invariant rng.Valid() && rng.mtPos == p0 + 2 * k
      invariant buffer[..] == Fill(all, orig, Written(i, length))
      decreases length - i
    {
      FillChunk(rng, buffer, length, i, p0, k, n, all, orig);
      i := i + 4;
      k := k + 1;
    }
    ChunksOf(k, length);
  }

  /** One iteration of `generateRandomData`: draw chunk `k` and copy what fits of it to `buffer[i ..]`. */
  method FillChunk(rng: DeterministicRandom, buffer: array<uint8>, length: int32, i: int,
                   ghost p0: nat, ghost k: nat, ghost n: nat, ghost all: seq<uint8>, ghost orig: seq<uint8>)
    requires rng.Valid() && p0 >= 2 && rng.mtPos == p0 + 2 * k
    requires i == 4 * k && 0 <= i < length <= 4 * n && length <= buffer.Length == |orig|
    requires all == RandomData(rng.source, rng.highFirst, p0, n)
    requires buffer[..] == Fill(all, orig, i)
    modifies rng, buffer
    ensures rng.Valid() && rng.mtPos == p0 + 2 * (k + 1)
    ensures buffer[..] == Fill(all, orig, Written(i + 4, length))
  {
    var val := rng.RandomUInt32();
    CopyChunk(buffer, length, i, val, rng.source, rng.highFirst, p0, k, n, all, orig);
  }

  /**
   * The copy of one iteration: what fits of chunk `k` of the data, the bytes
   * of `val`, the low half of draw `k`, goes to `buffer[i ..]`.
   */
  method CopyChunk(buffer: array<uint8>, length: int32, i: int, val: uint32, ghost source: nat -> uint32, ghost highFirst: bool,
                   ghost p0: nat, ghost k: nat, ghost n: nat, ghost all: seq<uint8>, ghost orig: seq<uint8>)
    requires p0 >= 2 && val == Low32(Word(source, highFirst, p0 + 2 * k - 2))
    requires i == 4 * k && 0 <= i < length <= 4 * n && length <= buffer.Length == |orig|
    requires all == RandomData(source, highFirst, p0, n)
    requires buffer[..] == Fill(all, orig, i)
    modifies buffer
    ensures buffer[..] == Fill(all, orig, Written(i + 4, length))
  {
    ChunkCopied(source, highFirst, p0, k, n, all, orig, i, length, val);
    CopyBytes(buffer, i, val, Min(length - i, 4));
  }

  /** The state change `CopyChunk` makes, on values. */
  lemma ChunkCopied(source: nat -> uint32, highFirst: bool, p0: nat, k: nat, n: nat, all: seq<uint8>, orig: seq<uint8>,
                    i: int, length: int, val: uint32)
    requires p0 >= 2 && val == Low32(Word(source, highFirst, p0 + 2 * k - 2))
    requires i == 4 * k && 0 <= i < length <= 4 * n && length <= |orig|
    requires all == RandomData(source, highFirst, p0, n)
    ensures Copied(Fill(all, orig, i), i, val, Min(length - i, 4)) == Fill(all, orig, Written(i + 4, length))
  {
    RandomDataChunk(source, highFirst, p0, n, k, p0 + 2 * k);
    FillChunkStep(all, orig, i, Min(length - i, 4), val);
    assert Written(i + 4, length) == i + Min(length - i, 4);
  }

  /** A loop that stops after `k` chunks, with `4 * k` past `length`, has drawn `Chunks(length)` times and written `Filled(length)` bytes. */
  lemma ChunksOf(k: nat, length: int)
    requires k == 0 || 4 * (k - 1) < length
    requires 4 * k >= length
    ensures Chunks(length) == k
    ensures Written(4 * k, length) == Filled(length)
  {
  }

  /** Byte `j` of the buffer lies in chunk `j / 4`, at offset `j % 4`. */
  lemma ChunkIndex(j: int, k: nat)
    requires 4 * k <= j < 4 * k + 4
    ensures j / 4 == k && j % 4 == j - 4 * k
  {
  }
}
