/** Bytes, and unsigned numbers as byte sequences in the two byte orders. */
module Bytes {
  type byte = b: int | 0 <= b < 256

  type u16 = n: int | 0 <= n < 0x1_0000

  type u32 = n: int | 0 <= n < 0x1_0000_0000

  function FromBE(s: seq<byte>): nat {
    if s == [] then 0 else 256 * FromBE(s[..|s| - 1]) + s[|s| - 1]
  }

  function FromLE(s: seq<byte>): nat {
    if s == [] then 0 else s[0] + 256 * FromLE(s[1..])
  }

  function ToLE(n: nat, width: nat): (s: seq<byte>)
    ensures |s| == width
  {
    if width == 0 then [] else [n % 256] + ToLE(n / 256, width - 1)
  }

  function ToBE(n: nat, width: nat): (s: seq<byte>)
    ensures |s| == width
  {
    if width == 0 then [] else ToBE(n / 256, width - 1) + [n % 256]
  }

  function Pow256(n: nat): nat {
    if n == 0 then 1 else 256 * Pow256(n - 1)
  }

  lemma PowerValues()
    ensures Pow256(1) == 0x100 && Pow256(2) == 0x1_0000 && Pow256(4) == 0x1_0000_0000
    ensures Pow256(7) == 0x100_0000_0000_0000 && Pow256(8) == 0x1_0000_0000_0000_0000
    ensures Pow256(16) == 0x1_0000_0000_0000_0000_0000_0000_0000_0000
  {
    assert Pow256(2) == 256 * Pow256(1) && Pow256(4) == 256 * Pow256(3) && Pow256(6) == 256 * Pow256(5);
    assert Pow256(8) == 256 * Pow256(7) && Pow256(10) == 256 * Pow256(9) && Pow256(12) == 256 * Pow256(11);
    assert Pow256(14) == 256 * Pow256(13) && Pow256(16) == 256 * Pow256(15);
  }

  lemma {:induction false} FromToLE(n: nat, width: nat)
    requires n < Pow256(width)
    ensures FromLE(ToLE(n, width)) == n
  {
    if width > 0 {
      FromToLE(n / 256, width - 1);
      assert ToLE(n, width)[1..] == ToLE(n / 256, width - 1);
    }
  }

  lemma {:induction false} FromToBE(n: nat, width: nat)
    requires n < Pow256(width)
    ensures FromBE(ToBE(n, width)) == n
  {
    if width > 0 {
      FromToBE(n / 256, width - 1);
      assert ToBE(n, width)[..width - 1] == ToBE(n / 256, width - 1);
    }
  }

  lemma {:induction false} ToFromBE(s: seq<byte>)
    ensures FromBE(s) < Pow256(|s|) && ToBE(FromBE(s), |s|) == s
  {
    if s != [] {
      ToFromBE(s[..|s| - 1]);
      assert FromBE(s) / 256 == FromBE(s[..|s| - 1]) && FromBE(s) % 256 == s[|s| - 1];
      assert s == s[..|s| - 1] + [s[|s| - 1]];
    }
  }

  lemma {:induction false} FromLEBound(s: seq<byte>)
    ensures FromLE(s) < Pow256(|s|)
  {
    if s != [] {
      FromLEBound(s[1..]);
    }
  }

  lemma MulSwap(x: int, y: int, z: int)
    ensures x * (y * z) == y * (x * z) == (y * x) * z
  {
  }

  lemma {:induction false} BEConcat(a: seq<byte>, b: seq<byte>)
    ensures FromBE(a + b) == FromBE(a) * Pow256(|b|) + FromBE(b)
  {
    if b == [] {
      assert a + b == a;
    } else {
      var c := b[..|b| - 1];
      BEConcat(a, c);
      assert (a + b)[..|a + b| - 1] == a + c;
      MulSwap(FromBE(a), 256, Pow256(|c|));
      assert FromBE(a + b) == 256 * FromBE(a + c) + b[|b| - 1];
    }
  }

  lemma {:induction false} LEConcat(a: seq<byte>, b: seq<byte>)
    ensures FromLE(a + b) == FromLE(a) + Pow256(|a|) * FromLE(b)
  {
    if a == [] {
      assert a + b == b;
    } else {
      LEConcat(a[1..], b);
      assert (a + b)[1..] == a[1..] + b;
      MulSwap(Pow256(|a| - 1), 256, FromLE(b));
      assert FromLE(a + b) == a[0] + 256 * FromLE(a[1..] + b);
    }
  }

  ghost predicate AllZero(s: seq<byte>) {
    forall i :: 0 <= i < |s| ==> s[i] == 0
  }

  lemma {:induction false} BEZero(s: seq<byte>)
    ensures FromBE(s) == 0 <==> AllZero(s)
  {
    if s != [] {
      var t := s[..|s| - 1];
      BEZero(t);
      assert s == t + [s[|s| - 1]];
    }
  }

  lemma {:induction false} LEZero(s: seq<byte>)
    ensures FromLE(s) == 0 <==> AllZero(s)
  {
    if s != [] {
      var t := s[1..];
      LEZero(t);
      assert s == [s[0]] + t;
    }
  }

  // ----- Fields of two and four bytes -----

  function Read16(data: seq<byte>, at: nat): (r: u16)
    requires at + 2 <= |data|
    ensures r == FromBE(data[at..at + 2])
  {
    ReadBound(data[at..at + 2]);
    FromBE(data[at..at + 2])
  }

  function Read32(data: seq<byte>, at: nat): (r: u32)
    requires at + 4 <= |data|
    ensures r == FromBE(data[at..at + 4])
  {
    ReadBound(data[at..at + 4]);
    FromBE(data[at..at + 4])
  }

  lemma ReadBound(s: seq<byte>)
    ensures |s| == 2 ==> FromBE(s) < 0x1_0000
    ensures |s| == 4 ==> FromBE(s) < 0x1_0000_0000
  {
    ToFromBE(s);
    PowerValues();
  }

  lemma Field16Prints(data: seq<byte>, at: nat)
    requires at + 2 <= |data|
    ensures ToBE(Read16(data, at), 2) == data[at..at + 2]
  {
    ToFromBE(data[at..at + 2]);
  }

  lemma Field32Prints(data: seq<byte>, at: nat)
    requires at + 4 <= |data|
    ensures ToBE(Read32(data, at), 4) == data[at..at + 4]
  {
    ToFromBE(data[at..at + 4]);
  }
}
