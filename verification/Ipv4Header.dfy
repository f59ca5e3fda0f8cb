/** The IPv4 header (section 3.1 of RFC 791): builder, parser and serialiser. */
module Ipv4Headers {
  import opened Wrappers
  import opened Bytes
  import opened Checksum

  datatype Ipv4Error =
    | TooShort(needed: nat, available: nat)
    | InvalidLength(limit: nat, actual: nat)
    | UnsupportedField(field: string, value: nat)

  type nibble = n: int | 0 <= n < 16
  type flagBits = n: int | 0 <= n < 8

  datatype Ipv4Header = Ipv4Header(
    version: nibble, internetHeaderLength: nibble, typeOfService: byte, totalLength: u16, identification: u16,
    flags: flagBits, fragmentOffset: u16, timeToLive: byte, protocol: byte, headerChecksum: u16,
    source: u32, destination: u32)

  // ----- Printing -----

  /** Bitwise or of the low `n` bits. */
  function Or(a: nat, b: nat, n: nat): nat {
    if n == 0 then 0
    else 2 * Or(a / 2, b / 2, n - 1) + if a % 2 == 1 || b % 2 == 1 then 1 else 0
  }

  function Or3(a: flagBits, b: flagBits): flagBits {
    OrBound(a, b);
    Or(a, b, 3)
  }

  lemma OrBound(a: nat, b: nat)
    ensures Or(a, b, 3) < 8
  {
    assert Or(a / 2, b / 2, 2) == 2 * Or(a / 2 / 2, b / 2 / 2, 1) + if a / 2 % 2 == 1 || b / 2 % 2 == 1 then 1 else 0;
  }

  /** It is the bitwise or. */
  lemma Or3Bits(a: flagBits, b: flagBits)
    ensures Or3(a, b) % 2 == 1 <==> a % 2 == 1 || b % 2 == 1
    ensures Or3(a, b) / 2 % 2 == 1 <==> a / 2 % 2 == 1 || b / 2 % 2 == 1
    ensures Or3(a, b) / 4 == 1 <==> a / 4 == 1 || b / 4 == 1
  {
    assert Or(a / 2, b / 2, 2) == 2 * Or(a / 2 / 2, b / 2 / 2, 1) + if a / 2 % 2 == 1 || b / 2 % 2 == 1 then 1 else 0;
    assert Or(a / 2 / 2, b / 2 / 2, 1) == if a / 2 / 2 % 2 == 1 || b / 2 / 2 % 2 == 1 then 1 else 0;
  }

  /** The fragment offset with the flags put, by bitwise or, into the top three bits. */
  function FlagsWithOffset(h: Ipv4Header): u16 {
    h.fragmentOffset % 0x2000 + 0x2000 * Or3(h.fragmentOffset / 0x2000, h.flags)
  }

  /** The twenty bytes of a header, field by field. */
  function Layout(first: byte, typeOfService: byte, totalLength: u16, identification: u16, flagsWithOffset: u16,
                  timeToLive: byte, protocol: byte, checksum: u16, source: u32, destination: u32): (s: seq<byte>)
    ensures |s| == 20
  {
    [first, typeOfService] + ToBE(totalLength, 2) + ToBE(identification, 2) + ToBE(flagsWithOffset, 2)
    + [timeToLive, protocol] + ToBE(checksum, 2) + (ToBE(source, 4) + ToBE(destination, 4))
  }

  /** The header length is always written as five words. */
  function PrintIpv4(h: Ipv4Header): (s: seq<byte>)
    ensures |s| == 20
  {
    Layout(16 * (h.version as int) + 5, h.typeOfService, h.totalLength, h.identification, FlagsWithOffset(h),
           h.timeToLive, h.protocol, h.headerChecksum, h.source, h.destination)
  }

  // ----- Parsing -----

  function Ipv4Of(data: seq<byte>): Result<Ipv4Header, Ipv4Error> {
    if |data| < 20 then Failure(TooShort(20, |data|)) else
    var version := data[0] / 16;
    if version != 4 then Failure(UnsupportedField("Version", version)) else
    var length := data[0] % 16;
    if 4 * length < 20 then Failure(UnsupportedField("Internet Header Length", length)) else
    if 4 * length > |data| then Failure(TooShort(4 * length, |data|)) else
    Success(Ipv4Header(4, length, data[1], Read16(data, 2), Read16(data, 4), data[6] / 32,
                       Read16(data, 6) % 0x2000 * 8, data[8], data[9], Read16(data, 10),
                       Read32(data, 12), Read32(data, 16)))
  }

  // ----- Print, then parse -----

  lemma EightPieces(a: seq<byte>, b: seq<byte>, c: seq<byte>, d: seq<byte>, e: seq<byte>, f: seq<byte>,
                    g: seq<byte>, h: seq<byte>)
    requires |a| == |b| == |c| == |d| == |e| == |f| == 2 && |g| == |h| == 4
    ensures var s := a + b + c + d + e + f + (g + h);
            && s[0] == a[0] && s[1] == a[1] && s[2..4] == b && s[4..6] == c && s[6..8] == d && s[6] == d[0]
            && s[8] == e[0] && s[9] == e[1] && s[10..12] == f && s[12..16] == g && s[16..20] == h
  {
  }

  lemma Reads(n: nat)
    ensures n < 0x1_0000 ==> FromBE(ToBE(n, 2)) == n && ToBE(n, 2)[0] == n / 256
    ensures n < 0x1_0000_0000 ==> FromBE(ToBE(n, 4)) == n
  {
    PowerValues();
    if n < 0x1_0000 {
      FromToBE(n, 2);
      assert ToBE(n, 2) == ToBE(n / 256, 1) + [n % 256];
    }
    if n < 0x1_0000_0000 {
      FromToBE(n, 4);
    }
  }

  lemma LayoutReads(first: byte, tos: byte, total: u16, id: u16, ff: u16, ttl: byte, protocol: byte,
                    checksum: u16, source: u32, destination: u32)
    ensures var s := Layout(first, tos, total, id, ff, ttl, protocol, checksum, source, destination);
            && s[0] == first && s[1] == tos && Read16(s, 2) == total && Read16(s, 4) == id
            && Read16(s, 6) == ff && s[6] == ff / 256 && s[8] == ttl && s[9] == protocol
            && Read16(s, 10) == checksum && Read32(s, 12) == source && Read32(s, 16) == destination
  {
    EightPieces([first, tos], ToBE(total, 2), ToBE(id, 2), ToBE(ff, 2), [ttl, protocol], ToBE(checksum, 2),
                ToBE(source, 4), ToBE(destination, 4));
    Reads(total);
    Reads(id);
    Reads(ff);
    Reads(checksum);
    Reads(source);
    Reads(destination);
  }

  lemma FlagsSplit(top: flagBits, low: nat, ff: nat)
    requires low < 0x2000 && ff == low + 0x2000 * top
    ensures ff / 256 / 32 == top && ff % 0x2000 == low
  {
  }

  /** The header as it comes back from printing and parsing. */
  function Reread(h: Ipv4Header): Ipv4Header {
    h.(internetHeaderLength := 5,
       flags := Or3(h.fragmentOffset / 0x2000, h.flags),
       fragmentOffset := h.fragmentOffset % 0x2000 * 8)
  }

  lemma RereadFixed(h: Ipv4Header)
    ensures Reread(h) == h <==> h.internetHeaderLength == 5 && h.fragmentOffset == 0
  {
    OffsetFixed(h.fragmentOffset);
    OrWithZero(h.flags);
  }

  /** What the parser makes of printed bytes. */
  lemma PrintThenParseGives(h: Ipv4Header)
    ensures Ipv4Of(PrintIpv4(h))
         == if h.version != 4 then Failure(UnsupportedField("Version", h.version))
            else Success(Reread(h))
  {
    LayoutReads(16 * (h.version as int) + 5, h.typeOfService, h.totalLength, h.identification, FlagsWithOffset(h),
                h.timeToLive, h.protocol, h.headerChecksum, h.source, h.destination);
    FlagsSplit(Or3(h.fragmentOffset / 0x2000, h.flags), h.fragmentOffset % 0x2000, FlagsWithOffset(h));
  }

  lemma OffsetFixed(offset: u16)
    ensures offset % 0x2000 * 8 == offset <==> offset == 0
  {
    var low, high := offset % 0x2000, offset / 0x2000;
    if low * 8 == offset {
      assert 7 * low == 0x2000 * high;
      assert high == 0 || high == 1 || high == 2 || high == 3 || high == 4 || high == 5 || high == 6 || high == 7;
    }
  }

  lemma OrWithZero(b: flagBits)
    ensures Or3(0, b) == b
  {
    assert Or(0, b / 2 / 2, 1) == b / 2 / 2 % 2;
    assert Or(0, b / 2, 2) == 2 * Or(0, b / 2 / 2, 1) + b / 2 % 2;
  }

  /** A header survives printing and parsing if and only if it is of version 4, has no options and
      has fragment offset zero: the parser scales the offset by eight, the serialiser does not. */
  lemma PrintThenParse(h: Ipv4Header)
    ensures Ipv4Of(PrintIpv4(h)) == Success(h)
       <==> h.version == 4 && h.internetHeaderLength == 5 && h.fragmentOffset == 0
  {
    PrintThenParseGives(h);
    RereadFixed(h);
  }

  // ----- Parse, then print -----

  lemma HeaderSplits(data: seq<byte>)
    requires |data| >= 20
    ensures data[..20]
         == [data[0], data[1]] + data[2..4] + data[4..6] + data[6..8] + [data[8], data[9]] + data[10..12]
            + (data[12..16] + data[16..20])
  {
    assert data[..4] == [data[0], data[1]] + data[2..4];
    assert data[..6] == data[..4] + data[4..6];
    assert data[..8] == data[..6] + data[6..8];
    assert data[..10] == data[..8] + [data[8], data[9]];
    assert data[..12] == data[..10] + data[10..12];
    assert data[..20] == data[..12] + (data[12..16] + data[16..20]);
  }

  lemma FlagsAreTopBits(data: seq<byte>)
    requires |data| >= 20
    ensures data[6] / 32 == Read16(data, 6) / 0x2000
  {
    var s := data[6..8];
    assert s[..1] == [data[6]] && FromBE([data[6]]) == data[6];
    assert FromBE(s) == 256 * FromBE(s[..1]) + s[1];
  }

  lemma DataIsLayout(data: seq<byte>)
    requires |data| >= 20
    ensures data[..20] == Layout(data[0], data[1], Read16(data, 2), Read16(data, 4), Read16(data, 6), data[8], data[9],
                                 Read16(data, 10), Read32(data, 12), Read32(data, 16))
  {
    HeaderSplits(data);
    Field16Prints(data, 2);
    Field16Prints(data, 4);
    Field16Prints(data, 6);
    Field16Prints(data, 10);
    Field32Prints(data, 12);
    Field32Prints(data, 16);
  }

  lemma ScaledOffset(field: u16, flags: flagBits, scaled: u16)
    requires flags == field / 0x2000 && scaled == field % 0x2000 * 8
    ensures scaled % 0x2000 + 0x2000 * Or3(scaled / 0x2000, flags) == field <==> field % 0x2000 == 0
  {
    OrWithZero(flags);
    var low := field % 0x2000;
    if scaled % 0x2000 == low {
      assert 7 * low == 0x2000 * (scaled / 0x2000);
      OffsetFixed(low);
      assert low == 0 || low * 8 >= 0x2000;
      OffsetFixed(scaled);
    }
  }

  /** An accepted header is printed back byte for byte if and only if it carries no options and its
      fragment offset field is zero. */
  lemma ParseThenPrint(data: seq<byte>)
    requires Ipv4Of(data).Success?
    ensures PrintIpv4(Ipv4Of(data).value) == data[..20]
       <==> data[0] % 16 == 5 && Read16(data, 6) % 0x2000 == 0
  {
    var h := Ipv4Of(data).value;
    var ff := FlagsWithOffset(h);
    DataIsLayout(data);
    FlagsAreTopBits(data);
    ScaledOffset(Read16(data, 6), h.flags, h.fragmentOffset);
    LayoutReads(69, h.typeOfService, h.totalLength, h.identification, ff,
                h.timeToLive, h.protocol, h.headerChecksum, h.source, h.destination);
    LayoutReads(data[0], data[1], Read16(data, 2), Read16(data, 4), Read16(data, 6), data[8], data[9],
                Read16(data, 10), Read32(data, 12), Read32(data, 16));
  }

  // ----- What is accepted, and where every field stands -----

  /** A header is accepted if and only if there are twenty bytes, the version is 4, and the header
      length is five words or more and lies within the data, whatever follows. */
  lemma Ipv4AcceptedIff(data: seq<byte>)
    ensures Ipv4Of(data).Success?
       <==> |data| >= 20 && data[0] / 16 == 4 && data[0] % 16 >= 5 && 4 * (data[0] % 16) as int <= |data|
    ensures |data| < 20 ==> Ipv4Of(data) == Failure(TooShort(20, |data|))
    ensures |data| >= 20 && data[0] / 16 != 4 ==> Ipv4Of(data) == Failure(UnsupportedField("Version", data[0] / 16))
    ensures |data| >= 20 && data[0] / 16 == 4 && data[0] % 16 < 5 ==>
              Ipv4Of(data) == Failure(UnsupportedField("Internet Header Length", data[0] % 16))
    ensures |data| >= 20 && data[0] / 16 == 4 && 5 <= data[0] % 16 && |data| < 4 * (data[0] % 16) as int ==>
              Ipv4Of(data) == Failure(TooShort(4 * (data[0] % 16) as int, |data|))
  {
  }

  /** Each field of an accepted header is read from its place, with options or a payload behind it too. */
  lemma Ipv4FieldsRead(data: seq<byte>)
    requires Ipv4Of(data).Success?
    ensures var h := Ipv4Of(data).value;
            && h.version == 4 && h.internetHeaderLength == data[0] % 16 && h.typeOfService == data[1]
            && h.totalLength == FromBE(data[2..4]) && h.identification == FromBE(data[4..6])
            && h.flags == data[6] / 32 && h.fragmentOffset == 8 * (FromBE(data[6..8]) % 0x2000)
            && h.timeToLive == data[8] && h.protocol == data[9] && h.headerChecksum == FromBE(data[10..12])
            && h.source == FromBE(data[12..16]) && h.destination == FromBE(data[16..20])
  {
  }

  lemma WordSplits(low: nat, top: nat)
    requires low < 0x2000
    ensures (low + 0x2000 * top) % 0x2000 == low && (low + 0x2000 * top) / 0x2000 == top
  {
  }

  lemma FirstByteSplits(version: nibble)
    ensures (16 * (version as int) + 5) / 16 == version && (16 * (version as int) + 5) % 16 == 5
  {
  }

  /** Each field of a header is printed at its place. */
  lemma Ipv4FieldsStand(h: Ipv4Header)
    ensures var s := PrintIpv4(h);
            && |s| == 20 && s[0] / 16 == h.version && s[0] % 16 == 5 && s[1] == h.typeOfService
            && FromBE(s[2..4]) == h.totalLength && FromBE(s[4..6]) == h.identification
            && FromBE(s[6..8]) % 0x2000 == h.fragmentOffset % 0x2000
            && FromBE(s[6..8]) / 0x2000 == Or3(h.fragmentOffset / 0x2000, h.flags)
            && s[8] == h.timeToLive && s[9] == h.protocol && FromBE(s[10..12]) == h.headerChecksum
            && FromBE(s[12..16]) == h.source && FromBE(s[16..20]) == h.destination
  {
    LayoutReads(16 * (h.version as int) + 5, h.typeOfService, h.totalLength, h.identification, FlagsWithOffset(h),
                h.timeToLive, h.protocol, h.headerChecksum, h.source, h.destination);
    WordSplits(h.fragmentOffset % 0x2000, Or3(h.fragmentOffset / 0x2000, h.flags));
    FirstByteSplits(h.version);
  }

  // ----- Building -----

  const MAX_PAYLOAD: nat := 65535 - 20

  class Ipv4HeaderBuilder {
    const source: u32
    const destination: u32
    const protocol: byte
    var identification: Option<u16>
    var headerChecksum: Option<u16>
    var internetHeaderLength: Option<nibble>

    constructor (source: u32, destination: u32, protocol: byte)
      ensures this.source == source && this.destination == destination && this.protocol == protocol
      ensures identification == None && headerChecksum == None && internetHeaderLength == None
    {
      this.source, this.destination, this.protocol := source, destination, protocol;
      identification, headerChecksum, internetHeaderLength := None, None, None;
    }

    method ForceInternetHeaderLength(length: Option<byte>) returns (ok: bool)
      modifies this`internetHeaderLength
      ensures ok <==> length.None? || length.value < 16
      ensures ok && length.None? ==> internetHeaderLength == None
      ensures ok && length.Some? ==> internetHeaderLength == Some(length.value)
      ensures !ok ==> internetHeaderLength == old(internetHeaderLength)
    {
      ok := true;
      if length.None? {
        internetHeaderLength := None;
      } else if length.value > 0x0F {
        ok := false;
      } else {
        internetHeaderLength := Some(length.value);
      }
    }

    method ForceIdentification(identification: Option<u16>)
      modifies this`identification
      ensures this.identification == identification
    {
      this.identification := identification;
    }

    method ForceHeaderChecksum(headerChecksum: Option<u16>)
      modifies this`headerChecksum
      ensures this.headerChecksum == headerChecksum
    {
      this.headerChecksum := headerChecksum;
    }

    /** The header this builder makes; `random` stands for the generated identification. */
    function HeaderFor(payload: nat, random: u16, checksum: u16): Ipv4Header
      requires payload <= MAX_PAYLOAD
      reads this
    {
      Ipv4Header(4, if internetHeaderLength.Some? then internetHeaderLength.value else 5, 0, 20 + payload,
                 if identification.Some? then identification.value else random,
                 0, 0, 128, protocol, checksum, source, destination)
    }

    method Build(target: Endian, payload: nat, random: u16) returns (r: Result<Ipv4Header, Ipv4Error>)
      ensures payload > MAX_PAYLOAD ==> r == Failure(InvalidLength(MAX_PAYLOAD, payload))
      ensures payload <= MAX_PAYLOAD ==>
                r == Success(HeaderFor(payload, random,
                               if headerChecksum.Some? then headerChecksum.value
                               else RfcChecksum(PrintIpv4(HeaderFor(payload, random, 0)))))
      ensures r.Success? <==> payload <= 65515
      ensures r.Success? ==>
                var h := r.value;
                && h.version == 4 && h.typeOfService == 0 && h.totalLength == 20 + payload && h.flags == 0
                && h.fragmentOffset == 0 && h.timeToLive == 128 && h.protocol == protocol
                && h.source == source && h.destination == destination
                && h.internetHeaderLength == (if internetHeaderLength.Some? then internetHeaderLength.value else 5)
                && h.identification == (if identification.Some? then identification.value else random)
                && h.headerChecksum == (if headerChecksum.Some? then headerChecksum.value
                                        else RfcChecksum(PrintIpv4(h.(headerChecksum := 0))))
    {
      if payload > MAX_PAYLOAD {
        return Failure(InvalidLength(MAX_PAYLOAD, payload));
      }
      var header := HeaderFor(payload, random, 0);
      if headerChecksum.Some? {
        return Success(header.(headerChecksum := headerChecksum.value));
      }
      var bytes := PrintIpv4(header);
      var checksum := ChecksumOf(target, bytes);
      ShortOrWholeStaysInRange(target, bytes);
      r := Success(header.(headerChecksum := checksum.value));
    }
  }

  // ----- Built headers verify and round-trip -----

  lemma ChecksumAdds(a: seq<byte>, checksum: u16, b: seq<byte>)
    requires |a| % 2 == 0
    ensures WordSum(a + ToBE(checksum, 2) + b) == WordSum(a + ToBE(0, 2) + b) + checksum
  {
    WordSumConcat(a, ToBE(checksum, 2));
    WordSumConcat(a, ToBE(0, 2));
    WordSumConcat(a + ToBE(checksum, 2), b);
    WordSumConcat(a + ToBE(0, 2), b);
    Sum16(checksum);
    Sum16(0);
  }

  function BeforeChecksum(h: Ipv4Header): (s: seq<byte>)
    ensures |s| == 10
  {
    [16 * (h.version as int) + 5, h.typeOfService] + ToBE(h.totalLength, 2) + ToBE(h.identification, 2)
    + ToBE(FlagsWithOffset(h), 2) + [h.timeToLive, h.protocol]
  }

  lemma PrintedSum(h: Ipv4Header, checksum: u16)
    ensures WordSum(PrintIpv4(h.(headerChecksum := checksum)))
         == WordSum(PrintIpv4(h.(headerChecksum := 0))) + checksum
  {
    var a, b := BeforeChecksum(h), ToBE(h.source, 4) + ToBE(h.destination, 4);
    assert PrintIpv4(h.(headerChecksum := checksum)) == a + ToBE(checksum, 2) + b;
    assert PrintIpv4(h.(headerChecksum := 0)) == a + ToBE(0, 2) + b;
    ChecksumAdds(a, checksum, b);
  }

  lemma PrintedNotZero(h: Ipv4Header)
    ensures WordSum(PrintIpv4(h)) > 0
  {
    var s := PrintIpv4(h);
    assert s[0] >= 5;
  }

  /** A printed header with checksum `c` in it has Internet checksum zero if and only if `c` is the
      checksum of the header with that field zeroed, or the other representation of that zero. */
  lemma VerifiesIff(h: Ipv4Header, c: u16)
    ensures var computed := RfcChecksum(PrintIpv4(h.(headerChecksum := 0)));
            RfcChecksum(PrintIpv4(h.(headerChecksum := c))) == 0
            <==> c == computed || (computed == 0 && c == 0xFFFF)
  {
    var zeroed, printed := PrintIpv4(h.(headerChecksum := 0)), PrintIpv4(h.(headerChecksum := c));
    var w := WordSum(zeroed);
    PrintedSum(h, c);
    PrintedNotZero(h.(headerChecksum := 0));
    OnesSumIsCanon(zeroed);
    OnesSumIsCanon(printed);
    ComplementCancels(w, c);
  }

  lemma ComplementCancels(w: nat, c: u16)
    requires w > 0
    ensures Canon(w + c) == 0xFFFF <==> c == 0xFFFF - Canon(w) || (Canon(w) == 0xFFFF && c == 0xFFFF)
  {
    var k, v := (w - 1) / 0xFFFF, Canon(w);
    assert w == v + 0xFFFF * k;
    if v + c <= 0xFFFF {
      CanonUnique(w + c, v + c, k);
    } else {
      CanonUnique(w + c, v + c - 0xFFFF, k + 1);
    }
  }

  /** A header built without a forced checksum verifies: its bytes have Internet checksum zero. It
      parses back to itself if and only if no other header length than five was forced. */
  lemma BuiltHeader(b: Ipv4HeaderBuilder, payload: nat, random: u16)
    requires payload <= MAX_PAYLOAD
    ensures var h := b.HeaderFor(payload, random, RfcChecksum(PrintIpv4(b.HeaderFor(payload, random, 0))));
            && RfcChecksum(PrintIpv4(h)) == 0
            && (Ipv4Of(PrintIpv4(h)) == Success(h)
                <==> b.internetHeaderLength.None? || b.internetHeaderLength == Some(5))
  {
    var h := b.HeaderFor(payload, random, RfcChecksum(PrintIpv4(b.HeaderFor(payload, random, 0))));
    assert h.(headerChecksum := 0) == b.HeaderFor(payload, random, 0);
    VerifiesIff(h, h.headerChecksum);
    PrintThenParse(h);
  }
}
