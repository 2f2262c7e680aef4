/** The Internet checksum of RFC 1071, as `cksum` and as `calculate_checksum` compute it. */
module Checksum {
  import opened Bytes

  // ----- specification: the words of a buffer and their unbounded sum

  /** The buffer as big-endian 16-bit words; an odd last byte is the high half of a word. */
  function Words(b: seq<byte>): seq<uint16>
    decreases |b|
  {
    if |b| >= 2 then [Join16(b[1], b[0])] + Words(b[2..])
    else if |b| == 1 then [Join16(0, b[0])]
    else []
  }

  function Sum(ws: seq<int>): int {
    if ws == [] then 0 else ws[0] + Sum(ws[1..])
  }

  function WordSum(b: seq<byte>): (s: nat)
    decreases |b|
  {
    if |b| >= 2 then Join16(b[1], b[0]) + WordSum(b[2..])
    else if |b| == 1 then Join16(0, b[0])
    else 0
  }

  /** The recursion adds up the words. */
  lemma {:induction false} WordSumIsSum(b: seq<byte>)
    ensures WordSum(b) == Sum(Words(b))
    decreases |b|
  {
    if |b| >= 2 {
      WordSumIsSum(b[2..]);
    }
  }

  /** The same buffer summed as the host's little-endian words. */
  function NativeSum(b: seq<byte>): (s: nat)
    decreases |b|
  {
    if |b| >= 2 then Join16(b[0], b[1]) + NativeSum(b[2..])
    else if |b| == 1 then b[0]
    else 0
  }

  /** The value an unsigned 32-bit variable holds. */
  function Wrap32(x: int): uint32 {
    x % 0x1_0000_0000
  }

  /** The summing loop and the odd tail, from an accumulator already holding `acc`. */
  function Accumulate(acc: uint32, b: seq<byte>): uint32
    decreases |b|
  {
    if |b| >= 2 then Accumulate(Wrap32(acc + Join16(b[1], b[0])), b[2..])
    else if |b| == 1 then Wrap32(acc + Join16(0, b[0]))
    else acc
  }

  function FoldRound(s: uint32): uint32 {
    s / 0x1_0000 + s % 0x1_0000
  }

  /** The fold loop. */
  function Fold(s: uint32): (r: uint16)
    decreases s
  {
    if s > 0xffff then Fold(FoldRound(s)) else s
  }

  /** Complement, swap, and the mapping of 0 to 0xffff. */
  function Finish(folded: uint16): uint16 {
    var r := Swap16(0xffff - folded);
    if r != 0 then r else 0xffff
  }

  /** The one's-complement checksum of RFC 1071 for words that add up to `sum`, as the host stores it,
      in the representation `cksum` chooses: 0xffff where the RFC's arithmetic may also give 0. */
  function Rfc1071(sum: nat): uint16 {
    Swap16(0xffff - sum % 0xffff)
  }

  /** What `cksum` returns for a buffer of any length. */
  function CksumOf(b: seq<byte>): uint16 {
    Finish(Fold(Accumulate(0, b)))
  }

  /** The two fixed folds of `calculate_checksum`. */
  function TwoFolds(v: nat): nat {
    var s := v / 0x1_0000 + v % 0x1_0000;
    s + s / 0x1_0000
  }

  /** What `calculate_checksum` returns, where no buffer overflows its 64-bit `long`. */
  function CalculateOf(b: seq<byte>): uint16 {
    0xffff - TwoFolds(NativeSum(b)) % 0x1_0000
  }

  // ----- the two implementations

  lemma NoWrap(x: nat)
    requires x < 0x1_0000_0000
    ensures Wrap32(x) == x
  {
  }

  lemma WrapAdd(x: int, y: int)
    ensures Wrap32(Wrap32(x) + y) == Wrap32(x + y)
  {
    assert x + y == Wrap32(x) + y + 0x1_0000_0000 * (x / 0x1_0000_0000);
  }

  /** Truncating `~sum` to 16 bits. */
  lemma LowHalfOfComplement(sum: int)
    ensures (-1 - sum) % 0x1_0000 == 0xffff - sum % 0x1_0000
    ensures (0xffff_ffff - sum) % 0x1_0000 == 0xffff - sum % 0x1_0000
  {
    assert 0xffff_ffff - sum == 0xffff - sum % 0x1_0000 + 0x1_0000 * (0xffff - sum / 0x1_0000);
    assert -1 - sum == 0xffff - sum % 0x1_0000 + 0x1_0000 * (-1 - sum / 0x1_0000);
  }

  lemma FinishComplements(folded: uint16)
    ensures Swap16((0xffff_ffff - folded) % 0x1_0000) == Swap16(0xffff - folded)
  {
    hide Swap16;
    LowHalfOfComplement(folded);
    assert (folded as int) % 0x1_0000 == folded;
  }

  method Cksum(data: array<byte>, at: nat, len: int32) returns (sum: uint16)
    requires at <= data.Length && at + len <= data.Length
    ensures sum == CksumOf(if len <= 0 then [] else data[at..at + len])
  {
    hide Swap16, Wrap32;
    ghost var end := if len <= 0 then at else at + len;
    var acc: uint32, p: nat, n := 0, at, len;
    while n >= 2
      invariant at <= p <= end <= data.Length
      invariant if 0 < len then p + n == end else n == len
      invariant Accumulate(acc, data[p..end]) == Accumulate(0, data[at..end])
    {
      assert data[p..end][2..] == data[p + 2..end];
      acc := Wrap32(acc + Join16(data[p + 1], data[p]));
      p, n := p + 2, n - 2;
    }
    if n > 0 {
      acc := Wrap32(acc + Join16(0, data[p]));
    }
    ghost var total := acc;
    while acc > 0xffff
      invariant Fold(acc) == Fold(total)
      decreases acc
    {
      acc := FoldRound(acc);
    }
    FinishComplements(acc);
    var swapped := Swap16((0xffff_ffff - acc) % 0x1_0000);
    sum := if swapped != 0 then swapped else 0xffff;
  }

  method VerifyChecksum(buf: array<byte>, len: int32, oldCksum: uint16) returns (r: int)
    requires len <= buf.Length
    ensures r == if CksumOf(if len <= 0 then [] else buf[..len]) == oldCksum then 0 else -1
  {
    var c := Cksum(buf, 0, len);
    assert len > 0 ==> buf[0..len] == buf[..len];
    r := if c == oldCksum then 0 else -1;
  }

  method CalculateChecksum(data: array<byte>, nbytes: int32) returns (answer: uint16)
    requires nbytes <= data.Length
    ensures answer == CalculateOf(if nbytes <= 0 then [] else data[..nbytes])
  {
    ghost var whole := if nbytes <= 0 then [] else data[..nbytes];
    var sum: int, ptr: nat, n := 0, 0, nbytes;
    while n > 1
      invariant ptr + n == nbytes
      invariant 0 < nbytes ==> 0 <= n
      invariant 0 >= nbytes ==> n == nbytes
      invariant 0 <= sum <= ptr * 0x8000  // far below the range of a 64-bit long
      invariant sum + NativeSum(if n <= 0 then [] else data[ptr..ptr + n]) == NativeSum(whole)
    {
      assert data[ptr..ptr + n][2..] == data[ptr + 2..ptr + n];
      sum := sum + Join16(data[ptr], data[ptr + 1]);
      ptr, n := ptr + 2, n - 2;
    }
    if n == 1 {
      sum := sum + data[ptr];
    }
    sum := sum / 0x1_0000 + sum % 0x1_0000;
    sum := sum + sum / 0x1_0000;
    assert sum == TwoFolds(NativeSum(whole));
    LowHalfOfComplement(sum);
    answer := (-1 - sum) % 0x1_0000;
  }

  // ----- closed form

  lemma FoldUnfolds(s: uint32)
    ensures Fold(s) == if s > 0xffff then Fold(FoldRound(s)) else s
  {
  }

  /** One round on a sum with high half `h` and low half `l`. */
  lemma RoundOf(s: uint32, h: nat, l: nat)
    requires s == 0x1_0000 * h + l && l <= 0xffff
    ensures FoldRound(s) == h + l && s / 0x1_0000 == h && s % 0x1_0000 == l
  {
  }

  /** The fold loop ends within two rounds. */
  lemma FoldWithinTwoRounds(s: uint32)
    ensures FoldRound(FoldRound(s)) <= 0xffff
    ensures Fold(s) == FoldRound(FoldRound(s))
  {
    hide Fold, FoldRound;
    var h, l := s / 0x1_0000, s % 0x1_0000;
    RoundOf(s, h, l);
    var h1 := if h + l > 0xffff then 1 else 0;
    RoundOf(h + l, h1, h + l - 0x1_0000 * h1);
    FoldUnfolds(s);
    FoldUnfolds(FoldRound(s));
    FoldUnfolds(FoldRound(FoldRound(s)));
  }

  /** `calculate_checksum`'s two fixed folds do the work of the loop on every 32-bit sum. */
  lemma TwoFoldsMatchLoop(v: uint32)
    ensures TwoFolds(v) % 0x1_0000 == Fold(v)
  {
    hide Fold, FoldRound;
    var h, l := v / 0x1_0000, v % 0x1_0000;
    RoundOf(v, h, l);
    var h1 := if h + l > 0xffff then 1 else 0;
    RoundOf(h + l, h1, h + l - 0x1_0000 * h1);
    FoldWithinTwoRounds(v);
    RoundOf(h + l + h1, h1, h + l + h1 - 0x1_0000 * h1);
  }

  lemma FoldKeepsResidue(s: uint32)
    ensures Fold(s) % 0xffff == s % 0xffff
    ensures Fold(s) == 0 <==> s == 0
    decreases s
  {
    if s > 0xffff {
      FoldKeepsResidue(FoldRound(s));
      assert s == FoldRound(s) + 0xffff * (s / 0x1_0000);
    }
  }

  lemma FoldCases(s: uint32)
    ensures Fold(s) == s % 0xffff || (Fold(s) == 0xffff && s % 0xffff == 0)
  {
    FoldKeepsResidue(s);
  }

  lemma SwapOfZero(v: uint16)
    ensures Swap16(v) == 0 <==> v == 0
  {
  }

  lemma {:induction false} AccumulateIsWrappedSum(acc: uint32, b: seq<byte>)
    ensures Accumulate(acc, b) == Wrap32(acc + WordSum(b))
    decreases |b|
  {
    if |b| >= 2 {
      AccumulateIsWrappedSum(Wrap32(acc + Join16(b[1], b[0])), b[2..]);
      WrapAdd(acc + Join16(b[1], b[0]), WordSum(b[2..]));
    }
  }

  /** For every length: the result is determined by the residue of the accumulator, and is never 0. */
  lemma CksumClosedForm(b: seq<byte>)
    ensures CksumOf(b) == Rfc1071(Wrap32(WordSum(b)))
    ensures CksumOf(b) != 0
  {
    hide Swap16, Fold, Accumulate, Wrap32, WordSum;
    var s := Wrap32(WordSum(b));
    AccumulateIsWrappedSum(0, b);
    SwapOfExtremes();
    FoldCases(s);
    SwapOfZero(0xffff - Fold(s));
    SwapOfZero(0xffff - s % 0xffff);
  }

  // ----- how long a buffer may be

  /** The longest buffer whose words cannot overflow the 32-bit accumulator. */
  const MAX_EXACT: nat := 131074

  lemma {:induction false} WordSumBound(b: seq<byte>)
    ensures WordSum(b) <= 0xffff * ((|b| + 1) / 2)
    decreases |b|
  {
    if |b| >= 2 {
      WordSumBound(b[2..]);
    }
  }

  lemma {:induction false} NativeSumBound(b: seq<byte>)
    ensures NativeSum(b) <= 0xffff * ((|b| + 1) / 2)
    decreases |b|
  {
    if |b| >= 2 {
      NativeSumBound(b[2..]);
    }
  }

  /** 65537 words of 0xffff sum to exactly 2^32 - 1, so up to MAX_EXACT bytes nothing wraps. */
  lemma AccumulatorNeverWraps(b: seq<byte>)
    requires |b| <= MAX_EXACT
    ensures WordSum(b) < 0x1_0000_0000
    ensures CksumOf(b) == Rfc1071(WordSum(b))
  {
    hide CksumOf, Rfc1071, WordSum, Wrap32;
    WordSumBound(b);
    NoWrap(WordSum(b));
    CksumClosedForm(b);
  }

  lemma {:induction false} WordSumOfOnes(n: nat)
    ensures WordSum(seq(n, _ => 0xff)) == n / 2 * 0xffff + n % 2 * 0xff00
    decreases n
  {
    if n >= 2 {
      assert seq(n, _ => 0xff)[2..] == seq(n - 2, _ => 0xff);
      WordSumOfOnes(n - 2);
    }
  }

  /** The bound is sharp: one byte more can wrap. */
  lemma AccumulatorWrapsBeyond()
    ensures WordSum(seq(MAX_EXACT + 1, _ => 0xff)) >= 0x1_0000_0000
  {
    WordSumOfOnes(MAX_EXACT + 1);
  }

  lemma SameResidue(x: int, y: int, k: int)
    requires x == y + 0xffff * k
    ensures x % 0xffff == y % 0xffff
  {
  }

  /** Both sides of an equality of residues can be moved into one difference. */
  lemma ResidueDifference(x: int, y: int)
    ensures x % 0xffff == y % 0xffff <==> (x - y) % 0xffff == 0
  {
    assert x == x % 0xffff + 0xffff * (x / 0xffff);
    assert y == y % 0xffff + 0xffff * (y / 0xffff);
    SameResidue(x - y, x % 0xffff - y % 0xffff, x / 0xffff - y / 0xffff);
  }

  lemma SameRfc1071(x: nat, y: nat)
    ensures Rfc1071(x) == Rfc1071(y) <==> x % 0xffff == y % 0xffff
  {
    Swap16Involution(0xffff - x % 0xffff);
    Swap16Involution(0xffff - y % 0xffff);
  }

  /** Each wrap drops 2^32, which is 1 modulo 65535. */
  lemma WrapLosesCarries(x: nat)
    requires x < 0xffff * 0x1_0000_0000
    ensures x % 0xffff == Wrap32(x) % 0xffff <==> x < 0x1_0000_0000
  {
    var q := x / 0x1_0000_0000;
    assert x - Wrap32(x) == 0x1_0000_0000 * q;
    ResidueDifference(x, Wrap32(x));
    SameResidue(x - Wrap32(x), q, 0x1_0001 * q);
  }

  /** Beyond the bound: for every buffer an `int` length can describe, the result is the
      one's-complement checksum of the words exactly when their sum fits the accumulator. */
  lemma ExactIffSumFits(b: seq<byte>)
    requires |b| < 0x8000_0000
    ensures CksumOf(b) == Rfc1071(WordSum(b)) <==> WordSum(b) < 0x1_0000_0000
  {
    WordSumBound(b);
    CksumClosedForm(b);
    SameRfc1071(WordSum(b), Wrap32(WordSum(b)));
    WrapLosesCarries(WordSum(b));
  }

  // ----- byte-order independence, section 2(B) of RFC 1071

  lemma Swap16IsTimes256(v: uint16)
    ensures Swap16(v) == 0x100 * v - 0xffff * (v / 0x100)
  {
  }

  lemma {:induction false} NativeSumIsTimes256(b: seq<byte>)
    ensures NativeSum(b) % 0xffff == 0x100 * WordSum(b) % 0xffff
    decreases |b|
  {
    if |b| >= 2 {
      NativeSumIsTimes256(b[2..]);
      var w := Join16(b[1], b[0]);
      Swap16IsTimes256(w);
      ResidueDifference(NativeSum(b[2..]), 0x100 * WordSum(b[2..]));
      ResidueDifference(NativeSum(b), 0x100 * WordSum(b));
      SameResidue(NativeSum(b) - 0x100 * WordSum(b), NativeSum(b[2..]) - 0x100 * WordSum(b[2..]), -(b[0] as int));
    } else if |b| == 1 {
      SameResidue(NativeSum(b), 0x100 * WordSum(b), -(b[0] as int));
    }
  }

  lemma {:induction false} SumsVanishTogether(b: seq<byte>)
    ensures NativeSum(b) == 0 <==> WordSum(b) == 0
    decreases |b|
  {
    if |b| >= 2 {
      SumsVanishTogether(b[2..]);
    }
  }

  /** The value `cksum` returns, with the residue it carries. */
  lemma CksumResidue(b: seq<byte>)
    ensures 0 < CksumOf(b)
    ensures (CksumOf(b) + 0x100 * Wrap32(WordSum(b))) % 0xffff == 0
  {
    var r := Wrap32(WordSum(b)) % 0xffff;
    CksumClosedForm(b);
    Swap16IsTimes256(0xffff - r);
    SameResidue(CksumOf(b) + 0x100 * Wrap32(WordSum(b)), 0,
                0x100 - (0xffff - r) / 0x100 + 0x100 * (Wrap32(WordSum(b)) / 0xffff));
  }

  /** The carries `calculate_checksum` loses because it folds only twice. */
  function LostCarry(v: nat): nat {
    var s := v / 0x1_0000 + v % 0x1_0000;
    (s / 0x1_0000 + s % 0x1_0000) / 0x1_0000
  }

  lemma TwoFoldsResidue(v: nat)
    ensures (TwoFolds(v) % 0x1_0000 - (v - LostCarry(v))) % 0xffff == 0
  {
    var s := v / 0x1_0000 + v % 0x1_0000;
    var h, l := s / 0x1_0000, s % 0x1_0000;
    assert TwoFolds(v) == 0x1_0000 * h + (h + l);
    assert TwoFolds(v) % 0x1_0000 == h + l - 0x1_0000 * LostCarry(v);
    SameResidue(TwoFolds(v) % 0x1_0000 - (v - LostCarry(v)), 0, 0 - v / 0x1_0000 - h - LostCarry(v));
  }
}
