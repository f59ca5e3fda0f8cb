/** The Internet checksum: the 128-bit accumulator of the source against the plain 16-bit
    end-around-carry sum of section 1 of RFC 1071. */
module Checksum {
  import opened Wrappers
  import opened Bytes

  const TWO_16: nat := 0x1_0000
  const TWO_32: nat := 0x1_0000_0000
  const TWO_64: nat := 0x1_0000_0000_0000_0000
  const TWO_128: nat := 0x1_0000_0000_0000_0000_0000_0000_0000_0000

  type u128 = n: int | 0 <= n < 0x1_0000_0000_0000_0000_0000_0000_0000_0000

  // ----- The definition of RFC 1071 -----

  function OnesAdd(a: u16, b: u16): u16 {
    if a + b >= 0x1_0000 then a + b - 0xFFFF else a + b
  }

  function Word(high: byte, low: byte): u16 {
    256 * (high as int) + low
  }

  /** The end-around-carry sum of the 16-bit words; an odd last byte is padded with zero. */
  function OnesSum(data: seq<byte>): u16 {
    if data == [] then 0
    else if |data| == 1 then Word(data[0], 0)
    else OnesAdd(Word(data[0], data[1]), OnesSum(data[2..]))
  }

  function RfcChecksum(data: seq<byte>): u16 {
    0xFFFF - OnesSum(data)
  }

  /** The same words added without wrapping. */
  function WordSum(data: seq<byte>): nat {
    if data == [] then 0
    else if |data| == 1 then Word(data[0], 0)
    else Word(data[0], data[1]) + WordSum(data[2..])
  }

  /** The representative of `x` modulo 65535 that is zero only for zero. */
  function Canon(x: nat): u16 {
    if x == 0 then 0 else 1 + (x - 1) % 0xFFFF
  }

  lemma CanonUnique(x: nat, v: nat, k: int)
    requires x == v + 0xFFFF * k && v <= 0xFFFF && (x == 0 <==> v == 0)
    ensures v == Canon(x)
  {
  }

  lemma CanonCongruent(x: nat, y: nat, k: int)
    requires x == y + 0xFFFF * k && (x == 0 <==> y == 0)
    ensures Canon(x) == Canon(y)
  {
    if x > 0 {
      var v := 1 + (y - 1) % 0xFFFF;
      CanonUnique(x, v, k + (y - 1) / 0xFFFF);
    }
  }

  lemma OnesAddCanon(w: u16, rest: nat)
    ensures OnesAdd(w, Canon(rest)) == Canon(w + rest)
  {
    var v := Canon(rest);
    var k := if rest == 0 then 0 else (rest - 1) / 0xFFFF;
    assert rest == v + 0xFFFF * k;
    CanonUnique(w + rest, OnesAdd(w, v), if w + v >= 0x1_0000 then k + 1 else k);
  }

  lemma {:induction false} OnesSumIsCanon(data: seq<byte>)
    ensures OnesSum(data) == Canon(WordSum(data))
  {
    if |data| >= 2 {
      OnesSumIsCanon(data[2..]);
      OnesAddCanon(Word(data[0], data[1]), WordSum(data[2..]));
    }
  }

  // ----- Sums modulo 65535: only the parity of a byte's position counts -----

  function EvenSum(s: seq<byte>): nat {
    if s == [] then 0 else s[0] + OddSum(s[1..])
  }

  function OddSum(s: seq<byte>): nat {
    if s == [] then 0 else EvenSum(s[1..])
  }

  lemma {:induction false} WordSumByParity(s: seq<byte>)
    ensures WordSum(s) == 256 * EvenSum(s) + OddSum(s)
  {
    if |s| >= 2 {
      WordSumByParity(s[2..]);
      assert s[1..][1..] == s[2..];
    }
  }

  lemma {:induction false} ParityConcatPairs(a: seq<byte>, b: seq<byte>, pairs: nat)
    requires |a| == 2 * pairs
    ensures EvenSum(a + b) == EvenSum(a) + EvenSum(b)
    ensures OddSum(a + b) == OddSum(a) + OddSum(b)
  {
    if pairs == 0 {
      assert a + b == b;
    } else {
      ParityConcatPairs(a[2..], b, pairs - 1);
      assert (a + b)[1..][1..] == a[2..] + b && a[1..][1..] == a[2..];
    }
  }

  lemma ParityConcat(a: seq<byte>, b: seq<byte>)
    requires |a| % 2 == 0
    ensures EvenSum(a + b) == EvenSum(a) + EvenSum(b)
    ensures OddSum(a + b) == OddSum(a) + OddSum(b)
  {
    ParityConcatPairs(a, b, |a| / 2);
  }

  lemma WordSumConcat(a: seq<byte>, b: seq<byte>)
    requires |a| % 2 == 0
    ensures WordSum(a + b) == WordSum(a) + WordSum(b)
  {
    ParityConcat(a, b);
    WordSumByParity(a + b);
    WordSumByParity(a);
    WordSumByParity(b);
  }

  lemma Sum16(n: u16)
    ensures WordSum(ToBE(n, 2)) == n
  {
    var s := ToBE(n, 2);
    assert s == [n / 256, n % 256];
    assert s[2..] == [];
  }

  lemma {:induction false} LEByParity(s: seq<byte>) returns (k: int)
    ensures FromLE(s) == EvenSum(s) + 256 * OddSum(s) + 0xFFFF * k
  {
    if s == [] {
      k := 0;
    } else {
      var j := LEByParity(s[1..]);
      k := OddSum(s[1..]) + 256 * j;
    }
  }

  lemma {:induction false} BEByParity(s: seq<byte>) returns (k: int)
    requires |s| % 2 == 0
    ensures FromBE(s) == 256 * EvenSum(s) + OddSum(s) + 0xFFFF * k
  {
    if s == [] {
      k := 0;
    } else {
      var n := |s| - 2;
      var j := BEByParity(s[..n]);
      assert s[..n + 1][..n] == s[..n];
      var last := [s[n], s[n + 1]];
      assert s == s[..n] + last;
      ParityConcat(s[..n], last);
      assert last[1..] == [s[n + 1]] && EvenSum([s[n + 1]]) == s[n + 1] && OddSum([s[n + 1]]) == 0;
      k := FromBE(s[..n]) + j;
    }
  }

  lemma {:induction false} ParityZero(s: seq<byte>)
    ensures EvenSum(s) == 0 && OddSum(s) == 0 <==> AllZero(s)
  {
    if s != [] {
      ParityZero(s[1..]);
      assert s == [s[0]] + s[1..];
    }
  }

  // ----- The 128-bit accumulator -----

  /** Reverses the sixteen bytes of a 128-bit number. */
  function Swap128(x: nat): nat {
    FromBE(ToLE(x, 16))
  }

  /** The sum of the first `n` eight-byte words, each read in little-endian order. */
  function LittleWords(data: seq<byte>, n: nat): nat
    requires 8 * n <= |data|
  {
    if n == 0 then 0 else LittleWords(data, n - 1) + FromLE(data[8 * n - 8..8 * n])
  }

  function BigWords(data: seq<byte>, n: nat): nat
    requires 8 * n <= |data|
  {
    if n == 0 then 0 else BigWords(data, n - 1) + FromBE(data[8 * n - 8..8 * n])
  }

  function Shifted(b: byte, places: nat): nat {
    b * Pow256(places)
  }

  /** The sum of the first `n` bytes, each shifted to its place in a big-endian eight-byte word. */
  function TailSum(tail: seq<byte>, n: nat): nat
    requires n <= |tail| < 8
  {
    if n == 0 then 0 else TailSum(tail, n - 1) + Shifted(tail[n - 1], 8 - n)
  }

  /** What is left after the full eight-byte words. */
  function Tail(data: seq<byte>): (tail: seq<byte>)
    ensures |tail| == |data| % 8
  {
    data[8 * (|data| / 8)..]
  }

  datatype Endian = Little | Big

  /** The unchecked value of the partial sum on a target of the given byte order. */
  function Unchecked(target: Endian, data: seq<byte>): nat {
    var n := |data| / 8;
    (if target.Little? then Swap128(LittleWords(data, n)) else BigWords(data, n)) + TailSum(Tail(data), |data| % 8)
  }

  // ----- The accumulator stands for the word sum -----

  lemma Swap128Congruent(x: nat) returns (k: int)
    requires x < TWO_128
    ensures Swap128(x) == 256 * x + 0xFFFF * k
    ensures Swap128(x) < TWO_128 && (Swap128(x) == 0 <==> x == 0)
  {
    var b := ToLE(x, 16);
    PowerValues();
    FromToLE(x, 16);
    ToFromBE(b);
    LEZero(b);
    BEZero(b);
    var j := LEByParity(b);
    var m := BEByParity(b);
    k := m - OddSum(b) - 256 * j;
  }

  lemma OneMoreWord(data: seq<byte>, n: nat)
    requires 0 < n && 8 * n <= |data|
    ensures EvenSum(data[..8 * n]) == EvenSum(data[..8 * (n - 1)]) + EvenSum(data[8 * n - 8..8 * n])
    ensures OddSum(data[..8 * n]) == OddSum(data[..8 * (n - 1)]) + OddSum(data[8 * n - 8..8 * n])
  {
    var a, b := data[..8 * (n - 1)], data[8 * n - 8..8 * n];
    assert data[..8 * n] == a + b;
    ParityConcatPairs(a, b, 4 * (n - 1));
  }

  lemma {:induction false} LittleWordsCongruent(data: seq<byte>, n: nat) returns (k: int)
    requires 8 * n <= |data|
    ensures LittleWords(data, n) == EvenSum(data[..8 * n]) + 256 * OddSum(data[..8 * n]) + 0xFFFF * k
  {
    if n == 0 {
      k := 0;
    } else {
      var b := data[8 * n - 8..8 * n];
      var j := LittleWordsCongruent(data, n - 1);
      var m := LEByParity(b);
      k := j + m;
      OneMoreWord(data, n);
      assert LittleWords(data, n) == LittleWords(data, n - 1) + FromLE(b);
    }
  }

  lemma {:induction false} BigWordsCongruent(data: seq<byte>, n: nat) returns (k: int)
    requires 8 * n <= |data|
    ensures BigWords(data, n) == 256 * EvenSum(data[..8 * n]) + OddSum(data[..8 * n]) + 0xFFFF * k
  {
    if n == 0 {
      k := 0;
    } else {
      var b := data[8 * n - 8..8 * n];
      var j := BigWordsCongruent(data, n - 1);
      var m := BEByParity(b);
      k := j + m;
      OneMoreWord(data, n);
      assert BigWords(data, n) == BigWords(data, n - 1) + FromBE(b);
    }
  }

  lemma {:induction false} WordsBounded(data: seq<byte>, n: nat)
    requires 8 * n <= |data|
    ensures LittleWords(data, n) <= n * (TWO_64 - 1) && BigWords(data, n) <= n * (TWO_64 - 1)
  {
    if n > 0 {
      WordsBounded(data, n - 1);
      var b := data[8 * n - 8..8 * n];
      FromLEBound(b);
      ToFromBE(b);
      PowerValues();
    }
  }

  lemma {:induction false} WordsZero(data: seq<byte>, n: nat)
    requires 8 * n <= |data|
    ensures LittleWords(data, n) == 0 <==> AllZero(data[..8 * n])
    ensures BigWords(data, n) == 0 <==> AllZero(data[..8 * n])
  {
    if n > 0 {
      WordsZero(data, n - 1);
      var a, b := data[..8 * (n - 1)], data[8 * n - 8..8 * n];
      LEZero(b);
      BEZero(b);
      AllZeroConcat(a, b);
      assert data[..8 * n] == a + b;
    }
  }

  lemma AllZeroConcat(a: seq<byte>, b: seq<byte>)
    ensures AllZero(a + b) <==> AllZero(a) && AllZero(b)
  {
    if AllZero(a + b) {
      assert forall i :: 0 <= i < |a| ==> a[i] == (a + b)[i];
      assert forall i :: 0 <= i < |b| ==> b[i] == (a + b)[|a| + i];
    }
  }

  lemma OneMorePlace(f: int, b: int, p: int)
    ensures f * (256 * p) + b * p == (256 * f + b) * p
  {
  }

  /** A shifted tail is the big-endian value of the tail padded to eight bytes. */
  lemma {:induction false} TailSumIsPadded(tail: seq<byte>, n: nat)
    requires n <= |tail| < 8
    ensures TailSum(tail, n) == FromBE(tail[..n]) * Pow256(8 - n)
  {
    if n > 0 {
      TailSumIsPadded(tail, n - 1);
      assert tail[..n][..n - 1] == tail[..n - 1];
      assert Pow256(9 - n) == 256 * Pow256(8 - n);
      OneMorePlace(FromBE(tail[..n - 1]), tail[n - 1], Pow256(8 - n));
    }
  }

  function Zeros(n: nat): (s: seq<byte>)
    ensures |s| == n
  {
    seq(n, i => 0)
  }

  lemma {:induction false} ZerosParity(n: nat)
    ensures EvenSum(Zeros(n)) == 0 && OddSum(Zeros(n)) == 0 && FromBE(Zeros(n)) == 0
  {
    ParityZero(Zeros(n));
    BEZero(Zeros(n));
  }

  /** Padding with zeros changes neither parity sum. */
  lemma {:induction false} PaddingParity(tail: seq<byte>, n: nat)
    ensures EvenSum(tail + Zeros(n)) == EvenSum(tail) && OddSum(tail + Zeros(n)) == OddSum(tail)
  {
    if tail == [] {
      assert tail + Zeros(n) == Zeros(n);
      ZerosParity(n);
    } else {
      PaddingParity(tail[1..], n);
      assert (tail + Zeros(n))[1..] == tail[1..] + Zeros(n);
    }
  }

  lemma TailSumCongruent(tail: seq<byte>) returns (k: int)
    requires |tail| < 8
    ensures TailSum(tail, |tail|) == WordSum(tail) + 0xFFFF * k
    ensures TailSum(tail, |tail|) <= TWO_64 - 256
    ensures TailSum(tail, |tail|) == 0 <==> AllZero(tail)
  {
    var n := 8 - |tail|;
    var padded := tail + Zeros(n);
    TailSumIsPadded(tail, |tail|);
    assert tail[..|tail|] == tail;
    BEConcat(tail, Zeros(n));
    ZerosParity(n);
    PaddingParity(tail, n);
    WordSumByParity(tail);
    k := BEByParity(padded);
    BEZero(padded);
    AllZeroConcat(tail, Zeros(n));
    PaddedBound(padded);
  }

  lemma PaddedBound(s: seq<byte>)
    requires |s| == 8 && s[7] == 0
    ensures FromBE(s) <= TWO_64 - 256
  {
    ToFromBE(s[..7]);
    PowerValues();
    assert s[..|s| - 1] == s[..7] && FromBE(s) == 256 * FromBE(s[..7]);
  }

  /** The head of full words and the tail, in terms of which the data is summed. */
  lemma HeadAndTail(data: seq<byte>)
    ensures var head, tail := data[..8 * (|data| / 8)], Tail(data);
            && WordSum(data) == 256 * EvenSum(head) + OddSum(head) + WordSum(tail)
            && (WordSum(data) == 0 <==> AllZero(head) && AllZero(tail))
  {
    SplitSums(data, 4 * (|data| / 8));
  }

  lemma SplitSums(data: seq<byte>, pairs: nat)
    requires 2 * pairs <= |data|
    ensures var head, tail := data[..2 * pairs], data[2 * pairs..];
            && WordSum(data) == 256 * EvenSum(head) + OddSum(head) + WordSum(tail)
            && (WordSum(data) == 0 <==> AllZero(head) && AllZero(tail))
  {
    var head, tail := data[..2 * pairs], data[2 * pairs..];
    assert data == head + tail;
    ParityConcatPairs(head, tail, pairs);
    WordSumByParity(data);
    WordSumByParity(tail);
    ParityZero(data);
    AllZeroConcat(head, tail);
  }

  lemma LittlePartCongruent(data: seq<byte>) returns (k: int)
    requires |data| < TWO_64
    ensures var n, head := |data| / 8, data[..8 * (|data| / 8)];
            && Swap128(LittleWords(data, n)) == 256 * EvenSum(head) + OddSum(head) + 0xFFFF * k
            && (Swap128(LittleWords(data, n)) == 0 <==> AllZero(head))
            && Swap128(LittleWords(data, n)) < TWO_128
  {
    var n, head := |data| / 8, data[..8 * (|data| / 8)];
    LittleWordsFit(data);
    var j := LittleWordsCongruent(data, n);
    var m := Swap128Congruent(LittleWords(data, n));
    WordsZero(data, n);
    k := m + 256 * j + OddSum(head);
  }

  /** On either target the unchecked partial sum is congruent to the plain word sum, and it is zero
      only for data that is all zero. */
  lemma PartialCongruent(target: Endian, data: seq<byte>) returns (k: int)
    requires |data| < TWO_64
    ensures Unchecked(target, data) == WordSum(data) + 0xFFFF * k
    ensures Unchecked(target, data) == 0 <==> WordSum(data) == 0
  {
    HeadAndTail(data);
    var t := TailSumCongruent(Tail(data));
    if target.Little? {
      var j := LittlePartCongruent(data);
      k := j + t;
    } else {
      var j := BigWordsCongruent(data, |data| / 8);
      WordsZero(data, |data| / 8);
      k := j + t;
    }
  }

  lemma LittleWordsFit(data: seq<byte>)
    requires |data| < TWO_64
    ensures LittleWords(data, |data| / 8) < TWO_128 && BigWords(data, |data| / 8) < TWO_128 - TWO_64
  {
    var n := |data| / 8;
    WordsBounded(data, n);
    assert n * (TWO_64 - 1) <= (TWO_64 / 8) * (TWO_64 - 1);
  }

  // ----- Computing it -----

  method SumWords(target: Endian, data: seq<byte>) returns (sum: nat)
    requires |data| < TWO_64
    ensures sum == if target.Little? then Swap128(LittleWords(data, |data| / 8)) else BigWords(data, |data| / 8)
    ensures sum < TWO_128
  {
    sum := 0;
    for i := 0 to |data| / 8
      invariant sum == if target.Little? then LittleWords(data, i) else BigWords(data, i)
    {
      var word := data[8 * i..8 * i + 8];
      assert word == data[8 * (i + 1) - 8..8 * (i + 1)];
      sum := sum + if target.Little? then FromLE(word) else FromBE(word);
    }
    LittleWordsFit(data);
    if target.Little? {
      ghost var k := Swap128Congruent(sum);
      sum := Swap128(sum);
    }
  }

  /** The partial sum with 128-bit arithmetic; `None` where an addition leaves the range. */
  method PartialResult(target: Endian, data: seq<byte>) returns (r: Option<u128>)
    requires |data| < TWO_64
    ensures r == if Unchecked(target, data) < TWO_128 then Some(Unchecked(target, data)) else None
  {
    var sum := SumWords(target, data);
    ghost var base := sum;
    var tail := Tail(data);
    for i := 0 to |tail|
      invariant sum == base + TailSum(tail, i) && sum < TWO_128
    {
      sum := sum + Shifted(tail[i], 7 - i);
      if sum >= TWO_128 {
        TailSumGrows(tail, i + 1);
        return None;
      }
    }
    r := Some(sum);
  }

  lemma {:induction false} TailSumGrows(tail: seq<byte>, n: nat)
    requires n <= |tail| < 8
    ensures TailSum(tail, n) <= TailSum(tail, |tail|)
    decreases |tail| - n
  {
    if n < |tail| {
      TailSumGrows(tail, n + 1);
    }
  }

  // ----- Folding -----

  /** Six folds, on any 128-bit accumulator. */
  method FinalResult(accumulator: u128) returns (r: u16)
    ensures r == 0xFFFF - Canon(accumulator)
  {
    var x: nat := accumulator;
    ghost var k: int := 0;
    ghost var h: int := x / TWO_64;
    x := x % TWO_64 + x / TWO_64;
    k := k + h * 0x1_0001_0001_0001;
    h := x / TWO_64;
    x := x % TWO_64 + x / TWO_64;
    k := k + h * 0x1_0001_0001_0001;
    h := x / TWO_32;
    x := x % TWO_32 + x / TWO_32;
    k := k + h * 0x1_0001;
    h := x / TWO_32;
    x := x % TWO_32 + x / TWO_32;
    k := k + h * 0x1_0001;
    h := x / TWO_16;
    x := x % TWO_16 + x / TWO_16;
    k := k + h;
    h := x / TWO_16;
    x := x % TWO_16 + x / TWO_16;
    k := k + h;
    CanonUnique(accumulator, x, k);
    r := 0xFFFF - x;
  }

  method ChecksumOf(target: Endian, data: seq<byte>) returns (r: Option<u16>)
    requires |data| < TWO_64
    ensures r.Some? <==> Unchecked(target, data) < TWO_128
    ensures r.Some? ==> r.value == RfcChecksum(data)
  {
    var partial := PartialResult(target, data);
    if partial.None? {
      return None;
    }
    var v := FinalResult(partial.value);
    PartialIsRfc(target, data);
    r := Some(v);
  }

  /** The fast form refines the plain one: on either target, word sums, the byte swap and the tail
      fold to the complemented end-around-carry sum of the data. */
  lemma PartialIsRfc(target: Endian, data: seq<byte>)
    requires |data| < TWO_64
    ensures 0xFFFF - Canon(Unchecked(target, data)) == RfcChecksum(data)
  {
    var k := PartialCongruent(target, data);
    CanonCongruent(Unchecked(target, data), WordSum(data), k);
    OnesSumIsCanon(data);
  }

  // ----- Exactly when the partial sum stays in range -----

  function Swap64(x: nat): nat {
    FromBE(ToLE(x, 8))
  }

  lemma Swap128ByHalves(x: nat)
    requires x < TWO_128
    ensures Swap128(x) == Swap64(x % TWO_64) * TWO_64 + Swap64(x / TWO_64)
    ensures Swap64(x % TWO_64) < TWO_64 && Swap64(x / TWO_64) < TWO_64
  {
    var b := ToLE(x, 16);
    var low, high := b[..8], b[8..];
    assert b == low + high;
    PowerValues();
    FromToLE(x, 16);
    LEConcat(low, high);
    FromLEBound(low);
    FromLEBound(high);
    assert FromLE(low) == x % TWO_64 && FromLE(high) == x / TWO_64;
    LEUnique(low);
    LEUnique(high);
    BEConcat(low, high);
    ToFromBE(low);
    ToFromBE(high);
  }

  lemma {:induction false} LEUnique(s: seq<byte>)
    ensures ToLE(FromLE(s), |s|) == s
  {
    if s != [] {
      LEUnique(s[1..]);
      assert FromLE(s) % 256 == s[0] && FromLE(s) / 256 == FromLE(s[1..]);
    }
  }

  lemma {:induction false} AllOnes(n: nat, s: seq<byte>)
    requires |s| == n
    ensures FromBE(s) == Pow256(n) - 1 <==> FromLE(s) == Pow256(n) - 1
    ensures FromBE(s) == Pow256(n) - 1 <==> forall i :: 0 <= i < n ==> s[i] == 255
  {
    AllOnesBE(s);
    AllOnesLE(s);
  }

  lemma {:induction false} AllOnesBE(s: seq<byte>)
    ensures FromBE(s) == Pow256(|s|) - 1 <==> forall i :: 0 <= i < |s| ==> s[i] == 255
  {
    if s != [] {
      var t := s[..|s| - 1];
      AllOnesBE(t);
      ToFromBE(t);
      assert s == t + [s[|s| - 1]];
    }
  }

  lemma {:induction false} AllOnesLE(s: seq<byte>)
    ensures FromLE(s) == Pow256(|s|) - 1 <==> forall i :: 0 <= i < |s| ==> s[i] == 255
  {
    if s != [] {
      var t := s[1..];
      AllOnesLE(t);
      FromLEBound(t);
      assert s == [s[0]] + t;
    }
  }

  lemma Swap64AllOnes(x: nat)
    requires x < TWO_64
    ensures Swap64(x) == TWO_64 - 1 <==> x == TWO_64 - 1
  {
    PowerValues();
    FromToLE(x, 8);
    AllOnes(8, ToLE(x, 8));
  }

  /** On a little-endian target the partial sum leaves the 128-bit range exactly when the low half
      of the word sum is all ones and the swapped high half plus the tail carry out of 64 bits. */
  lemma OverflowExactly(data: seq<byte>)
    requires |data| < TWO_64
    ensures var sum := LittleWords(data, |data| / 8);
            Unchecked(Little, data) >= TWO_128 <==>
            sum % TWO_64 == TWO_64 - 1 && Swap64(sum / TWO_64) + TailSum(Tail(data), |data| % 8) >= TWO_64
  {
    var sum := LittleWords(data, |data| / 8);
    LittleWordsFit(data);
    Swap128ByHalves(sum);
    Swap64AllOnes(sum % TWO_64);
    var k := TailSumCongruent(Tail(data));
  }

  lemma BigEndianStaysInRange(data: seq<byte>)
    requires |data| < TWO_64
    ensures Unchecked(Big, data) < TWO_128
  {
    LittleWordsFit(data);
    var k := TailSumCongruent(Tail(data));
  }

  lemma Swap64Zero()
    ensures Swap64(0) == 0
  {
    PowerValues();
    FromToLE(0, 8);
    LEZero(ToLE(0, 8));
    BEZero(ToLE(0, 8));
  }

  /** No data of whole words and none of up to 24 bytes leaves the range, on either target. */
  lemma ShortOrWholeStaysInRange(target: Endian, data: seq<byte>)
    requires |data| < TWO_64
    requires |data| % 8 == 0 || |data| <= 24
    ensures Unchecked(target, data) < TWO_128
  {
    if target.Big? {
      BigEndianStaysInRange(data);
    } else {
      OverflowExactly(data);
      var sum := LittleWords(data, |data| / 8);
      LittleWordsFit(data);
      Swap128ByHalves(sum);
      if |data| % 8 != 0 {
        WordsBounded(data, |data| / 8);
        TwoWordsBounded(|data| / 8);
        var k := TailSumCongruent(Tail(data));
        Swap64Zero();
        assert sum / TWO_64 == 0 || sum % TWO_64 != TWO_64 - 1;
      }
    }
  }

  lemma TwoWordsBounded(n: nat)
    requires n <= 2
    ensures n * (TWO_64 - 1) <= 2 * TWO_64 - 2
  {
  }

  lemma OverflowingWords(data: seq<byte>)
    requires |data| == 25
    requires forall i :: 0 <= i < 16 ==> data[i] == 255
    requires data[16] == 1 && forall i :: 17 <= i < 24 ==> data[i] == 0
    ensures LittleWords(data, 3) == 2 * TWO_64 - 1
  {
    PowerValues();
    AllOnesLE(data[0..8]);
    AllOnesLE(data[8..16]);
    LEZero(data[16..24][1..]);
    assert FromLE(data[16..24]) == 1;
    assert LittleWords(data, 1) == FromLE(data[0..8]);
    assert LittleWords(data, 2) == LittleWords(data, 1) + FromLE(data[8..16]);
  }

  lemma OneThenZeros(one: seq<byte>, zeros: seq<byte>)
    requires one == [1] + zeros && AllZero(zeros)
    ensures FromLE(one) == 1 && FromBE(one) == Pow256(|zeros|)
  {
    LEZero(zeros);
    BEZero(zeros);
    BEConcat([1], zeros);
    assert one[1..] == zeros;
    assert FromBE([1]) == 1;
  }

  lemma Swap64One()
    ensures Swap64(1) == Pow256(7)
  {
    var one := [1] + Zeros(7);
    OneThenZeros(one, Zeros(7));
    LEUnique(one);
  }

  /** Twenty-five bytes are enough to leave it. */
  lemma TwentyFiveBytesCanOverflow()
    ensures exists data: seq<byte> :: |data| == 25 && Unchecked(Little, data) >= TWO_128
  {
    var data: seq<byte> :=
      seq(25, i requires 0 <= i < 25 => if i < 16 || i == 24 then 255 else if i == 16 then 1 else 0);
    OverflowingWords(data);
    Swap64One();
    PowerValues();
    assert Tail(data) == [255];
    assert TailSum([255], 1) == Shifted(255, 7) == 255 * Pow256(7);
    OverflowExactly(data);
    assert Unchecked(Little, data) >= TWO_128;
  }

  // ----- The updatable checksum -----

  datatype Operation = AddData(data: seq<byte>) | SubtractData(data: seq<byte>)

  /** The accumulator after one operation; `None` where the source's arithmetic leaves the range. */
  ghost function Apply(target: Endian, accumulator: u128, op: Operation): Option<u128> {
    var p := Unchecked(target, op.data);
    if p >= TWO_128 then None
    else if op.AddData? then (if accumulator + p < TWO_128 then Some(accumulator + p) else None)
    else (if p <= accumulator then Some(accumulator - p) else None)
  }

  class InternetChecksum {
    const target: Endian
    var accumulator: u128

    constructor (target: Endian)
      ensures this.target == target && accumulator == 0
    {
      this.target := target;
      accumulator := 0;
    }

    method Add(data: seq<byte>) returns (ok: bool)
      requires |data| < TWO_64
      modifies this
      ensures ok <==> Apply(target, old(accumulator), AddData(data)).Some?
      ensures accumulator == if ok then Apply(target, old(accumulator), AddData(data)).value else old(accumulator)
      ensures ok <==> old(accumulator) + Unchecked(target, data) < TWO_128
      ensures ok ==> accumulator == old(accumulator) + Unchecked(target, data)
    {
      var partial := PartialResult(target, data);
      ok := partial.Some? && accumulator + partial.value < TWO_128;
      if ok {
        accumulator := accumulator + partial.value;
      }
    }

    method Subtract(data: seq<byte>) returns (ok: bool)
      requires |data| < TWO_64
      modifies this
      ensures ok <==> Apply(target, old(accumulator), SubtractData(data)).Some?
      ensures accumulator == if ok then Apply(target, old(accumulator), SubtractData(data)).value else old(accumulator)
      ensures ok <==> Unchecked(target, data) <= old(accumulator)
      ensures ok ==> accumulator == old(accumulator) - Unchecked(target, data)
    {
      var partial := PartialResult(target, data);
      ok := partial.Some? && partial.value <= accumulator;
      if ok {
        accumulator := accumulator - partial.value;
      }
    }

    method Calculate() returns (r: u16)
      ensures r == 0xFFFF - Canon(accumulator)
    {
      r := FinalResult(accumulator);
    }
  }

  /** The accumulator after a sequence of operations from zero. */
  ghost function AfterAll(target: Endian, ops: seq<Operation>): Option<u128> {
    if ops == [] then Some(0)
    else
      var before := AfterAll(target, ops[..|ops| - 1]);
      if before.None? then None else Apply(target, before.value, ops[|ops| - 1])
  }

  /** The words added minus the words subtracted. */
  ghost function Balance(ops: seq<Operation>): int {
    if ops == [] then 0
    else
      var op := ops[|ops| - 1];
      Balance(ops[..|ops| - 1]) + (if op.AddData? then 1 else -1) * WordSum(op.data)
  }

  lemma {:induction false} AccumulatorTracksBalance(target: Endian, ops: seq<Operation>) returns (k: int)
    requires forall op :: op in ops ==> |op.data| < TWO_64
    requires AfterAll(target, ops).Some?
    ensures AfterAll(target, ops).value == Balance(ops) + 0xFFFF * k
  {
    if ops == [] {
      k := 0;
    } else {
      var j := AccumulatorTracksBalance(target, ops[..|ops| - 1]);
      var m := PartialCongruent(target, ops[|ops| - 1].data);
      k := if ops[|ops| - 1].AddData? then j + m else j - m;
    }
  }

  /** If what was added and subtracted leaves the words of `rest`, the calculated checksum is that of
      `rest`, except that the two zeros 0x0000 and 0xFFFF are confused exactly when one of the
      accumulator and the remaining word sum is zero and the other is not. */
  lemma IncrementalChecksum(target: Endian, ops: seq<Operation>, rest: seq<byte>, c: int)
    requires forall op :: op in ops ==> |op.data| < TWO_64
    requires AfterAll(target, ops).Some? && Balance(ops) == WordSum(rest) + 0xFFFF * c
    ensures var calculated := 0xFFFF - Canon(AfterAll(target, ops).value);
            && (calculated == RfcChecksum(rest) <==> (AfterAll(target, ops).value == 0 <==> WordSum(rest) == 0))
            && (calculated != RfcChecksum(rest) ==> {calculated, RfcChecksum(rest)} == {0, 0xFFFF})
  {
    var acc := AfterAll(target, ops).value;
    var k := AccumulatorTracksBalance(target, ops);
    OnesSumIsCanon(rest);
    if acc == 0 <==> WordSum(rest) == 0 {
      CanonCongruent(acc, WordSum(rest), k + c);
    } else if acc == 0 {
      CanonUnique(WordSum(rest), 0xFFFF, -(k + c) - 1);
    } else {
      CanonUnique(acc, 0xFFFF, k + c - 1);
    }
  }

  /** Adding a packet and subtracting an even-length prefix leaves the balance of what follows it. */
  lemma PrefixTakenOut(prefix: seq<byte>, rest: seq<byte>)
    requires |prefix| % 2 == 0
    ensures Balance([AddData(prefix + rest), SubtractData(prefix)]) == WordSum(rest)
  {
    var ops := [AddData(prefix + rest), SubtractData(prefix)];
    assert ops[..1] == [AddData(prefix + rest)];
    assert Balance([AddData(prefix + rest)]) == WordSum(prefix + rest);
    ParityConcat(prefix, rest);
    WordSumByParity(prefix + rest);
    WordSumByParity(prefix);
    WordSumByParity(rest);
  }

  lemma OneByteOfTail(target: Endian, data: seq<byte>, n: nat)
    requires n < 7 && |data| == n + 1 && data[n] == 1 && forall i :: 0 <= i < n ==> data[i] == 0
    ensures Unchecked(target, data) == Pow256(7 - n)
  {
    ShortIsTail(target, data);
    TailOfZeros(data, n);
  }

  lemma ShortIsTail(target: Endian, data: seq<byte>)
    requires |data| < 8
    ensures Unchecked(target, data) == TailSum(data, |data|)
  {
    assert Tail(data) == data;
    var k := Swap128Congruent(0);
  }

  lemma {:induction false} TailOfZeros(tail: seq<byte>, n: nat)
    requires n <= |tail| < 8 && forall i :: 0 <= i < n ==> tail[i] == 0
    ensures TailSum(tail, n) == 0
  {
    if n > 0 {
      TailOfZeros(tail, n - 1);
    }
  }

  lemma OneOperation(target: Endian, op: Operation)
    ensures AfterAll(target, [op]) == Apply(target, 0, op)
    ensures Balance([op]) == (if op.AddData? then 1 else -1) * WordSum(op.data)
  {
    assert [op][..0] == [];
  }

  lemma TwoOperations(target: Endian, a: seq<byte>, b: seq<byte>)
    requires Unchecked(target, b) <= Unchecked(target, a) < TWO_128
    ensures var ops := [AddData(a), SubtractData(b)];
            && AfterAll(target, ops) == Some(Unchecked(target, a) - Unchecked(target, b))
            && Balance(ops) == WordSum(a) - WordSum(b)
  {
    var ops := [AddData(a), SubtractData(b)];
    OneOperation(target, AddData(a));
    assert ops[..1] == [AddData(a)];
  }

  lemma ConfusedWords(target: Endian)
    ensures Unchecked(target, [0, 1]) == Pow256(6) && Unchecked(target, [0, 0, 0, 1]) == Pow256(4)
  {
    OneByteOfTail(target, [0, 1], 1);
    OneByteOfTail(target, [0, 0, 0, 1], 3);
  }

  lemma ConfusedAccumulator()
    ensures Pow256(4) < Pow256(6) < TWO_128 && Canon(Pow256(6) - Pow256(4)) == 0xFFFF
  {
    assert Pow256(6) == 0x1_0000_0000_0000 && Pow256(4) == 0x1_0000_0000 by { PowerValues(); }
    CanonUnique(0x1_0000_0000_0000 - 0x1_0000_0000, 0xFFFF, 0x1_0000_0000 - 1);
  }

  lemma ConfusedSums()
    ensures WordSum([0, 1]) == WordSum([0, 0, 0, 1]) == 1
  {
    var added, taken: seq<byte> := [0, 1], [0, 0, 0, 1];
    assert added[2..] == [] && taken[2..] == added;
  }

  /** The two zeros are confused: after adding a word and subtracting the same word from elsewhere
      nothing remains, yet the calculated checksum is not that of no data. */
  lemma ZerosAreConfused(target: Endian)
    ensures var ops := [AddData([0, 1]), SubtractData([0, 0, 0, 1])];
            && AfterAll(target, ops).Some? && Balance(ops) == WordSum([])
            && 0xFFFF - Canon(AfterAll(target, ops).value) == 0 && RfcChecksum([]) == 0xFFFF
  {
    ConfusedWords(target);
    ConfusedAccumulator();
    ConfusedSums();
    TwoOperations(target, [0, 1], [0, 0, 0, 1]);
  }
}
