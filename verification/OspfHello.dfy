/** The OSPF version 2 Hello packet (section A.3.2 of RFC 2328): builder, parser and serialiser. */
module OspfHello {
  import opened Wrappers
  import opened Bytes
  import opened Checksum
  import opened OspfHeaders

  datatype HelloPacket = HelloPacket(
    header: OspfHeader, networkMask: u32, helloInterval: u16, options: byte, routerPriority: byte,
    routerDeadInterval: u32, designatedRouter: u32, backupDesignatedRouter: u32, neighbors: seq<u32>)

  datatype HelloBuilder = HelloBuilder(
    routerId: u32, areaId: u32, networkMask: u32, helloInterval: u16, options: byte, routerPriority: byte,
    routerDeadInterval: u32, designatedRouter: u32, backupDesignatedRouter: u32, neighbors: seq<u32>)

  const MAX_NEIGHBORS: nat := (65536 - 24 - 20) / 4 - 1

  // ----- Neighbor lists -----

  function NeighborBytes(neighbors: seq<u32>): (s: seq<byte>)
    ensures |s| == 4 * |neighbors|
  {
    if neighbors == [] then []
    else NeighborBytes(neighbors[..|neighbors| - 1]) + ToBE(neighbors[|neighbors| - 1], 4)
  }

  /** The neighbors in bytes of whole words. */
  function NeighborsOf(s: seq<byte>): (r: seq<u32>)
    ensures |r| == |s| / 4
  {
    if |s| < 4 then [] else NeighborsOf(s[..|s| - 4]) + [Read32(s, |s| - 4)]
  }

  lemma Reads32(n: u32)
    ensures FromBE(ToBE(n, 4)) == n
  {
    PowerValues();
    FromToBE(n, 4);
  }

  lemma Reads16(n: u16)
    ensures FromBE(ToBE(n, 2)) == n
  {
    PowerValues();
    FromToBE(n, 2);
  }

  lemma ReadLast(before: seq<byte>, last: seq<byte>)
    requires |last| == 4
    ensures NeighborsOf(before + last) == NeighborsOf(before) + [Read32(last, 0)]
  {
    var s := before + last;
    assert s[..|s| - 4] == before && s[|s| - 4..|s|] == last == last[0..4];
  }

  lemma {:induction false} NeighborsRoundTrip(neighbors: seq<u32>)
    ensures NeighborsOf(NeighborBytes(neighbors)) == neighbors
  {
    if neighbors != [] {
      var n := |neighbors| - 1;
      var last := ToBE(neighbors[n], 4);
      NeighborsRoundTrip(neighbors[..n]);
      ReadLast(NeighborBytes(neighbors[..n]), last);
      Reads32(neighbors[n]);
      assert last[0..4] == last;
      assert neighbors == neighbors[..n] + [neighbors[n]];
    }
  }

  lemma PrintLast(neighbors: seq<u32>, n: u32)
    ensures NeighborBytes(neighbors + [n]) == NeighborBytes(neighbors) + ToBE(n, 4)
  {
    assert (neighbors + [n])[..|neighbors|] == neighbors;
  }

  lemma OneMorePrinted(before: seq<byte>, last: seq<byte>)
    requires |last| == 4
    ensures NeighborBytes(NeighborsOf(before + last)) == NeighborBytes(NeighborsOf(before)) + last
  {
    ReadLast(before, last);
    PrintLast(NeighborsOf(before), Read32(last, 0));
    Field32Prints(last, 0);
    assert last[0..4] == last;
  }

  lemma {:induction false} NeighborBytesRoundTrip(s: seq<byte>)
    requires |s| % 4 == 0
    ensures NeighborBytes(NeighborsOf(s)) == s
  {
    if s != [] {
      var before, last := s[..|s| - 4], s[|s| - 4..];
      assert s == before + last;
      NeighborBytesRoundTrip(before);
      OneMorePrinted(before, last);
    }
  }

  // ----- Printing -----

  function Fields(p: HelloPacket): (s: seq<byte>)
    ensures |s| == 20
  {
    ToBE(p.networkMask, 4) + ToBE(p.helloInterval, 2) + [p.options, p.routerPriority]
    + ToBE(p.routerDeadInterval, 4) + ToBE(p.designatedRouter, 4) + ToBE(p.backupDesignatedRouter, 4)
  }

  function PrintHello(p: HelloPacket): (s: seq<byte>)
    ensures |s| == 44 + 4 * |p.neighbors|
  {
    PrintHeader(p.header) + Fields(p) + NeighborBytes(p.neighbors)
  }

  method SerialiseHello(p: HelloPacket) returns (payload: seq<byte>)
    ensures payload == PrintHello(p)
  {
    payload := PrintHeader(p.header);
    payload := payload + ToBE(p.networkMask, 4) + ToBE(p.helloInterval, 2) + [p.options] + [p.routerPriority];
    payload := payload + ToBE(p.routerDeadInterval, 4) + ToBE(p.designatedRouter, 4)
               + ToBE(p.backupDesignatedRouter, 4);
    assert payload == PrintHeader(p.header) + Fields(p);
    for i := 0 to |p.neighbors|
      invariant payload == PrintHeader(p.header) + Fields(p) + NeighborBytes(p.neighbors[..i])
    {
      assert p.neighbors[..i + 1][..i] == p.neighbors[..i];
      payload := payload + ToBE(p.neighbors[i], 4);
    }
    assert p.neighbors[..|p.neighbors|] == p.neighbors;
  }

  // ----- Parsing -----

  function FieldsOf(h: OspfHeader, data: seq<byte>): HelloPacket
    requires 44 <= h.packetLength <= |data| && h.packetLength % 4 == 0
  {
    HelloPacket(h, Read32(data, 24), Read16(data, 28), data[30], data[31], Read32(data, 32), Read32(data, 36),
                Read32(data, 40), NeighborsOf(data[44..h.packetLength]))
  }

  function HelloOf(data: seq<byte>): Result<HelloPacket, OspfError> {
    var h :- HeaderOf(data);
    if h.packetLength < 44 then Failure(InvalidMinimumLength(44, h.packetLength)) else
    if !h.authType.NullAuth? then Failure(UnsupportedFieldValue("AuthType", AuthTypeNumber(h.authType))) else
    Success(FieldsOf(h, data))
  }

  lemma OneMoreNeighbor(data: seq<byte>, i: nat)
    requires 44 <= i && i + 4 <= |data|
    ensures NeighborsOf(data[44..i + 4]) == NeighborsOf(data[44..i]) + [Read32(data, i)]
  {
    var last := data[i..i + 4];
    assert data[44..i + 4] == data[44..i] + last && last[0..4] == last;
    ReadLast(data[44..i], last);
  }

  lemma NextWord(i: nat, length: nat)
    requires i < length && i % 4 == 0 && length % 4 == 0
    ensures i + 4 <= length && (i + 4) % 4 == 0
  {
  }

  method ParseNeighbors(data: seq<byte>, length: nat) returns (neighbors: seq<u32>)
    requires 44 <= length <= |data| && length % 4 == 0
    ensures neighbors == NeighborsOf(data[44..length])
  {
    neighbors := [];
    var i := 44;
    while i < length
      invariant 44 <= i <= length && i % 4 == 0
      invariant neighbors == NeighborsOf(data[44..i])
    {
      NextWord(i, length);
      OneMoreNeighbor(data, i);
      neighbors := neighbors + [Read32(data, i)];
      i := i + 4;
    }
  }

  method ParseHello(data: seq<byte>) returns (r: Result<HelloPacket, OspfError>)
    ensures r == HelloOf(data)
  {
    var parsed := ParseHeader(data);
    if parsed.Failure? {
      return Failure(parsed.error);
    }
    var h := parsed.value;
    if h.packetLength < 44 {
      return Failure(InvalidMinimumLength(44, h.packetLength));
    }
    // The source tests the word boundary again here; the header parser has already made sure of it.
    if h.authType != NullAuth {
      return Failure(UnsupportedFieldValue("AuthType", AuthTypeNumber(h.authType)));
    }
    var neighbors := ParseNeighbors(data, h.packetLength);
    r := Success(HelloPacket(h, Read32(data, 24), Read16(data, 28), data[30], data[31], Read32(data, 32),
                             Read32(data, 36), Read32(data, 40), neighbors));
  }

  // ----- Parse, then print -----

  /** The data with the authentication field zeroed. */
  function Normal(data: seq<byte>): (s: seq<byte>)
    requires |data| >= 24
    ensures |s| == |data|
  {
    data[..16] + Zeros(8) + data[24..]
  }

  lemma FieldPieces(data: seq<byte>)
    requires |data| >= 44
    ensures data[24..28] + data[28..30] + [data[30], data[31]] + data[32..36] + data[36..40] + data[40..44]
         == data[24..44]
  {
    assert data[24..32] == data[24..28] + data[28..30] + [data[30], data[31]];
    assert data[24..36] == data[24..32] + data[32..36];
    assert data[24..40] == data[24..36] + data[36..40];
    assert data[24..44] == data[24..40] + data[40..44];
  }

  lemma FieldsPrint(h: OspfHeader, data: seq<byte>)
    requires 44 <= h.packetLength <= |data| && h.packetLength % 4 == 0
    ensures Fields(FieldsOf(h, data)) == data[24..44]
  {
    Field32Prints(data, 24);
    Field16Prints(data, 28);
    Field32Prints(data, 32);
    Field32Prints(data, 36);
    Field32Prints(data, 40);
    FieldPieces(data);
  }

  lemma AcceptedLength(data: seq<byte>)
    requires HelloOf(data).Success?
    ensures var n := HelloOf(data).value.header.packetLength; 44 <= n <= |data| && n % 4 == 0
  {
  }

  lemma NeighborsPrint(data: seq<byte>, n: nat)
    requires 44 <= n <= |data| && n % 4 == 0
    ensures NeighborBytes(NeighborsOf(data[44..n])) == data[44..n]
  {
    NeighborBytesRoundTrip(data[44..n]);
  }

  lemma PrintOfParsed(data: seq<byte>)
    requires HelloOf(data).Success?
    ensures var p := HelloOf(data).value;
            PrintHello(p) == Normal(data[..p.header.packetLength])
  {
    var p := HelloOf(data).value;
    var n := p.header.packetLength;
    AcceptedLength(data);
    assert PrintHeader(p.header) == data[..16] + Zeros(8) by { HeaderPrintNormalises(data); }
    assert Fields(p) == data[24..44] by { FieldsPrint(p.header, data); }
    NeighborsPrint(data, n);
    NormalFromPieces(p, data, n);
  }

  lemma NormalFromPieces(p: HelloPacket, data: seq<byte>, n: nat)
    requires 44 <= n <= |data|
    requires PrintHeader(p.header) == data[..16] + Zeros(8)
    requires Fields(p) == data[24..44] && NeighborBytes(p.neighbors) == data[44..n]
    ensures PrintHello(p) == Normal(data[..n])
  {
    NormalPieces(data, n);
  }

  lemma NormalPieces(data: seq<byte>, n: nat)
    requires 44 <= n <= |data|
    ensures data[..16] + Zeros(8) + data[24..44] + data[44..n] == Normal(data[..n])
  {
    assert data[..n][24..] == data[24..44] + data[44..n];
    assert data[..n][..16] == data[..16];
  }

  /** Zeroing the authentication field and dropping what lies beyond the packet length leaves an
      accepted Hello packet accepted, with the same fields. */
  lemma NormalParsesTheSame(data: seq<byte>)
    requires HelloOf(data).Success?
    ensures HelloOf(Normal(data[..HelloOf(data).value.header.packetLength])) == HelloOf(data)
  {
    var p := HelloOf(data).value;
    var n := p.header.packetLength;
    var d := Normal(data[..n]);
    assert forall k :: 0 <= k < n && !(16 <= k < 24) ==> d[k] == data[k];
    NormalHeader(data, d);
    NormalFields(p.header, data, d);
  }

  lemma NormalHeader(data: seq<byte>, d: seq<byte>)
    requires HeaderOf(data).Success? && HeaderOf(data).value.authType.NullAuth?
    requires |d| == HeaderOf(data).value.packetLength
    requires forall k :: 0 <= k < |d| && !(16 <= k < 24) ==> d[k] == data[k]
    ensures HeaderOf(d) == HeaderOf(data)
  {
    var n := |d|;
    assert d[2..4] == data[2..4] && d[4..8] == data[4..8] && d[8..12] == data[8..12];
    assert d[12..14] == data[12..14] && d[14..16] == data[14..16];
    assert Masked(d[..n]) == Masked(data[..n]);
  }

  lemma NormalFields(h: OspfHeader, data: seq<byte>, d: seq<byte>)
    requires 44 <= h.packetLength <= |data| && h.packetLength % 4 == 0 && |d| == h.packetLength
    requires forall k :: 24 <= k < |d| ==> d[k] == data[k]
    ensures FieldsOf(h, d) == FieldsOf(h, data)
  {
    assert d[24..28] == data[24..28] && d[28..30] == data[28..30] && d[32..36] == data[32..36];
    assert d[36..40] == data[36..40] && d[40..44] == data[40..44];
    assert d[44..h.packetLength] == data[44..h.packetLength];
  }

  /** Parsing and then printing normalises: the printed bytes are the packet's own with the
      authentication field zeroed, they are accepted again, and they parse to the same packet. */
  lemma ParseThenPrint(data: seq<byte>)
    requires HelloOf(data).Success?
    ensures var p := HelloOf(data).value;
            && PrintHello(p) == Normal(data[..p.header.packetLength])
            && HelloOf(PrintHello(p)) == Success(p)
  {
    PrintOfParsed(data);
    NormalParsesTheSame(data);
  }

  // ----- Building -----

  function BuilderLength(b: HelloBuilder): nat {
    44 + 4 * |b.neighbors|
  }

  /** The packet a builder stands for, with a given checksum. */
  function PacketOf(b: HelloBuilder, checksum: u16): HelloPacket
    requires |b.neighbors| <= MAX_NEIGHBORS
  {
    HelloPacket(
      OspfHeader(Hello, BuilderLength(b), b.routerId, b.areaId, checksum, NullAuth, NullHeader),
      b.networkMask, b.helloInterval, b.options, b.routerPriority, b.routerDeadInterval,
      b.designatedRouter, b.backupDesignatedRouter, b.neighbors)
  }

  /** The packet has the builder's fields, its own length, and no authentication. */
  ghost predicate Carries(p: HelloPacket, b: HelloBuilder) {
    && p.header.messageType == Hello && p.header.packetLength == 44 + 4 * |b.neighbors|
    && p.header.routerId == b.routerId && p.header.areaId == b.areaId
    && p.header.authType == NullAuth && p.header.authHeader == NullHeader
    && p.networkMask == b.networkMask && p.helloInterval == b.helloInterval
    && p.options == b.options && p.routerPriority == b.routerPriority
    && p.routerDeadInterval == b.routerDeadInterval && p.designatedRouter == b.designatedRouter
    && p.backupDesignatedRouter == b.backupDesignatedRouter && p.neighbors == b.neighbors
  }

  function Unsummed(p: HelloPacket): HelloPacket {
    p.(header := p.header.(checksum := 0))
  }

  /** Builds the packet; `ArithmeticOverflow` stands for the checksum's 128-bit sum leaving its range. */
  method Build(target: Endian, b: HelloBuilder) returns (r: Result<HelloPacket, OspfError>)
    ensures |b.neighbors| > MAX_NEIGHBORS ==>
              r == Failure(UnsupportedFieldValue("Neighbor List Length", |b.neighbors|))
    ensures |b.neighbors| <= MAX_NEIGHBORS ==>
              var unsummed := PrintHello(PacketOf(b, 0));
              r == if Unchecked(target, unsummed) < TWO_128 then Success(PacketOf(b, RfcChecksum(unsummed)))
                   else Failure(ArithmeticOverflow)
    ensures r.Success? ==> |b.neighbors| <= 16372 && Carries(r.value, b)
    ensures r.Success? ==> r.value.header.checksum == RfcChecksum(PrintHello(Unsummed(r.value)))
    ensures |b.neighbors| > 16372 ==> r.Failure? && r.error.UnsupportedFieldValue?
    ensures |b.neighbors| <= 16372 && r.Failure? ==> r.error == ArithmeticOverflow
  {
    if |b.neighbors| > MAX_NEIGHBORS {
      return Failure(UnsupportedFieldValue("Neighbor List Length", |b.neighbors|));
    }
    var packet := PacketOf(b, 0);
    var bytes := SerialiseHello(packet);
    var checksum := ChecksumOf(target, bytes);
    if checksum.None? {
      return Failure(ArithmeticOverflow);
    }
    r := Success(packet.(header := packet.header.(checksum := checksum.value)));
  }

  /** An odd number of neighbors makes a packet of whole words, which never overflows. */
  lemma OddNeighborCountBuilds(target: Endian, b: HelloBuilder)
    requires |b.neighbors| <= MAX_NEIGHBORS && |b.neighbors| % 2 == 1
    ensures Unchecked(target, PrintHello(PacketOf(b, 0))) < TWO_128
  {
    var bytes := PrintHello(PacketOf(b, 0));
    assert |bytes| == 8 * (6 + |b.neighbors| / 2);
    WholeWordsStayInRange(target, bytes, 6 + |b.neighbors| / 2);
  }

  lemma WholeWordsStayInRange(target: Endian, bytes: seq<byte>, words: nat)
    requires |bytes| == 8 * words < TWO_64
    ensures Unchecked(target, bytes) < TWO_128
  {
    ShortOrWholeStaysInRange(target, bytes);
  }

  // ----- Build, print, then parse -----

  function Halves(n: u32): nat {
    n / 0x1_0000 + n % 0x1_0000
  }

  function SumOfHalves(neighbors: seq<u32>): nat {
    if neighbors == [] then 0
    else SumOfHalves(neighbors[..|neighbors| - 1]) + Halves(neighbors[|neighbors| - 1])
  }

  /** The sum of the 16-bit words of the packet a builder makes, from the builder's fields. */
  function FieldSum(b: HelloBuilder): nat {
    0x0201 + BuilderLength(b) + Halves(b.routerId) + Halves(b.areaId)
    + Halves(b.networkMask) + b.helloInterval + 256 * (b.options as int) + b.routerPriority
    + Halves(b.routerDeadInterval) + Halves(b.designatedRouter) + Halves(b.backupDesignatedRouter)
    + SumOfHalves(b.neighbors)
  }

  lemma SplitWord(n: u32)
    ensures ToBE(n, 4) == ToBE(n / 0x1_0000, 2) + ToBE(n % 0x1_0000, 2)
  {
    var low := n % 0x1_0000;
    assert n / 256 / 256 == n / 0x1_0000;
    assert (n / 256) % 256 == low / 256 && n % 256 == low % 256;
    assert ToBE(low, 2) == [low / 256, low % 256];
    assert ToBE(n, 4) == ToBE(n / 256, 3) + [n % 256];
    assert ToBE(n / 256, 3) == ToBE(n / 256 / 256, 2) + [(n / 256) % 256];
  }

  lemma Sum32(n: u32)
    ensures WordSum(ToBE(n, 4)) == Halves(n)
  {
    var high, low := n / 0x1_0000, n % 0x1_0000;
    SplitWord(n);
    Sum16(high);
    Sum16(low);
    WordSumConcat(ToBE(high, 2), ToBE(low, 2));
  }

  lemma SumLast(before: seq<byte>, n: u32)
    requires |before| % 2 == 0
    ensures WordSum(before + ToBE(n, 4)) == WordSum(before) + Halves(n)
  {
    Sum32(n);
    WordSumConcat(before, ToBE(n, 4));
  }

  lemma {:induction false} SumOfNeighbors(neighbors: seq<u32>)
    ensures WordSum(NeighborBytes(neighbors)) == SumOfHalves(neighbors)
  {
    if neighbors != [] {
      var n := |neighbors| - 1;
      SumOfNeighbors(neighbors[..n]);
      SumLast(NeighborBytes(neighbors[..n]), neighbors[n]);
    }
  }

  lemma EvenConcat(a: seq<byte>, b: seq<byte>)
    requires |a| % 2 == |b| % 2 == 0
    ensures |a + b| % 2 == 0 && WordSum(a + b) == WordSum(a) + WordSum(b)
  {
    WordSumConcat(a, b);
  }

  lemma SixSums(a: seq<byte>, b: seq<byte>, c: seq<byte>, d: seq<byte>, e: seq<byte>, f: seq<byte>)
    requires |a| % 2 == |b| % 2 == |c| % 2 == |d| % 2 == |e| % 2 == 0
    ensures WordSum(a + b + c + d + e + f)
         == WordSum(a) + WordSum(b) + WordSum(c) + WordSum(d) + WordSum(e) + WordSum(f)
  {
    EvenConcat(a, b);
    EvenConcat(a + b, c);
    EvenConcat(a + b + c, d);
    EvenConcat(a + b + c + d, e);
    WordSumConcat(a + b + c + d + e, f);
  }

  lemma FieldsSum(p: HelloPacket)
    ensures WordSum(Fields(p))
         == Halves(p.networkMask) + p.helloInterval + 256 * (p.options as int) + p.routerPriority
            + Halves(p.routerDeadInterval) + Halves(p.designatedRouter) + Halves(p.backupDesignatedRouter)
  {
    var c := [p.options, p.routerPriority];
    assert c[2..] == [];
    SixSums(ToBE(p.networkMask, 4), ToBE(p.helloInterval, 2), c,
            ToBE(p.routerDeadInterval, 4), ToBE(p.designatedRouter, 4), ToBE(p.backupDesignatedRouter, 4));
    Sum32(p.networkMask);
    Sum16(p.helloInterval);
    Sum32(p.routerDeadInterval);
    Sum32(p.designatedRouter);
    Sum32(p.backupDesignatedRouter);
  }

  lemma NullAuthBytes()
    ensures ToBE(AuthNumber(NullHeader), 8) == Zeros(8) && WordSum(Zeros(8)) == 0
  {
    ZerosParity(8);
    ToFromBE(Zeros(8));
    WordSumByParity(Zeros(8));
  }

  lemma SevenSums(a: seq<byte>, b: seq<byte>, c: seq<byte>, d: seq<byte>, e: seq<byte>, f: seq<byte>, g: seq<byte>)
    requires |a| == |b| == |e| == |f| == 2 && |c| == |d| == 4
    ensures WordSum(a + b + c + d + e + f + g)
         == WordSum(a) + WordSum(b) + WordSum(c) + WordSum(d) + WordSum(e) + WordSum(f) + WordSum(g)
  {
    SixSums(a, b, c, d, e, f);
    WordSumConcat(a + b + c + d + e + f, g);
  }

  lemma HeaderSum(h: OspfHeader)
    requires h.messageType == Hello && h.checksum == 0 && h.authType == NullAuth && h.authHeader == NullHeader
    ensures WordSum(PrintHeader(h)) == 0x0201 + h.packetLength + Halves(h.routerId) + Halves(h.areaId)
  {
    var a: seq<byte> := [2, 1];
    assert a[2..] == [];
    SevenSums(a, ToBE(h.packetLength, 2), ToBE(h.routerId, 4), ToBE(h.areaId, 4), ToBE(h.checksum, 2),
              ToBE(AuthTypeNumber(h.authType), 2), ToBE(AuthNumber(h.authHeader), 8));
    Sum16(h.packetLength);
    Sum32(h.routerId);
    Sum32(h.areaId);
    Sum16(0);
    NullAuthBytes();
  }

  lemma UnsummedSum(b: HelloBuilder)
    requires |b.neighbors| <= MAX_NEIGHBORS
    ensures WordSum(PrintHello(PacketOf(b, 0))) == FieldSum(b)
  {
    var p := PacketOf(b, 0);
    HeaderSum(p.header);
    FieldsSum(p);
    SumOfNeighbors(b.neighbors);
    WordSumConcat(PrintHeader(p.header), Fields(p));
    WordSumConcat(PrintHeader(p.header) + Fields(p), NeighborBytes(b.neighbors));
  }

  // What the parser reads out of printed bytes.

  lemma HeaderSlices(a: seq<byte>, b: seq<byte>, c: seq<byte>, d: seq<byte>, e: seq<byte>, f: seq<byte>,
                     g: seq<byte>, rest: seq<byte>)
    requires |a| == |b| == |e| == |f| == 2 && |c| == |d| == 4 && |g| == 8
    ensures var s := a + b + c + d + e + f + g + rest;
            && s[0] == a[0] && s[1] == a[1] && s[2..4] == b && s[4..8] == c && s[8..12] == d
            && s[12..14] == e && s[14..16] == f && s[16..24] == g && s[24..] == rest
  {
    var s := a + b + c + d + e + f + g + rest;
    assert s[2..4] == b;
    assert s[4..8] == c;
    assert s[8..12] == d;
    assert s[12..14] == e;
    assert s[14..16] == f;
    assert s[16..24] == g;
  }

  lemma PrintedHeaderReads(h: OspfHeader, rest: seq<byte>)
    requires h.authType == NullAuth && h.authHeader == NullHeader
    ensures var d := PrintHeader(h) + rest;
            && d[0] == 2 && MessageTypeOf(d[1]) == Some(h.messageType)
            && Read16(d, 2) == h.packetLength && Read32(d, 4) == h.routerId && Read32(d, 8) == h.areaId
            && Read16(d, 12) == h.checksum && Read16(d, 14) == 0 && d[16..24] == Zeros(8)
  {
    HeaderSlices([2, MessageTypeByte(h.messageType)], ToBE(h.packetLength, 2), ToBE(h.routerId, 4),
                 ToBE(h.areaId, 4), ToBE(h.checksum, 2), ToBE(0, 2), ToBE(0, 8), rest);
    Reads16(h.packetLength);
    Reads32(h.routerId);
    Reads32(h.areaId);
    Reads16(h.checksum);
    Reads16(0);
    NullAuthBytes();
  }

  lemma FieldSlices(h: seq<byte>, a: seq<byte>, b: seq<byte>, c: seq<byte>, d: seq<byte>, e: seq<byte>, f: seq<byte>,
                    rest: seq<byte>)
    requires |h| == 24 && |a| == |d| == |e| == |f| == 4 && |b| == |c| == 2
    ensures var s := h + (a + b + c + d + e + f) + rest;
            && s[24..28] == a && s[28..30] == b && s[30] == c[0] && s[31] == c[1] && s[32..36] == d
            && s[36..40] == e && s[40..44] == f && s[44..] == rest
  {
    var s := h + (a + b + c + d + e + f) + rest;
    assert s[24..28] == a;
    assert s[28..30] == b;
    assert s[32..36] == d;
    assert s[36..40] == e;
    assert s[40..44] == f;
  }

  lemma PrintedFieldsRead(p: HelloPacket)
    requires p.header.packetLength == 44 + 4 * |p.neighbors|
    ensures FieldsOf(p.header, PrintHello(p)) == p
  {
    FieldSlices(PrintHeader(p.header), ToBE(p.networkMask, 4), ToBE(p.helloInterval, 2), [p.options, p.routerPriority],
                ToBE(p.routerDeadInterval, 4), ToBE(p.designatedRouter, 4), ToBE(p.backupDesignatedRouter, 4),
                NeighborBytes(p.neighbors));
    Reads32(p.networkMask);
    Reads16(p.helloInterval);
    Reads32(p.routerDeadInterval);
    Reads32(p.designatedRouter);
    Reads32(p.backupDesignatedRouter);
    NeighborsRoundTrip(p.neighbors);
    assert PrintHello(p)[44..p.header.packetLength] == NeighborBytes(p.neighbors);
  }

  lemma MaskedHeader(h: OspfHeader, rest: seq<byte>)
    requires h.authType == NullAuth && h.authHeader == NullHeader
    ensures Masked(PrintHeader(h) + rest) == PrintHeader(h.(checksum := 0)) + rest
  {
    var a, b := [2, MessageTypeByte(h.messageType)], ToBE(h.packetLength, 2);
    var c, d := ToBE(h.routerId, 4), ToBE(h.areaId, 4);
    HeaderSlices(a, b, c, d, ToBE(h.checksum, 2), ToBE(0, 2), ToBE(0, 8), rest);
    HeaderSlices(a, b, c, d, ToBE(0, 2), ToBE(0, 2), ToBE(0, 8), rest);
    NullAuthBytes();
    assert ToBE(0, 2) == [0, 0];
    SameWhereUnmasked(PrintHeader(h) + rest, PrintHeader(h.(checksum := 0)) + rest);
  }

  lemma SameWhereUnmasked(d: seq<byte>, d0: seq<byte>)
    requires |d| == |d0| >= 24
    requires d[0] == d0[0] && d[1] == d0[1] && d[2..4] == d0[2..4] && d[4..8] == d0[4..8] && d[8..12] == d0[8..12]
    requires d0[12..14] == [0, 0] && d[14..16] == d0[14..16] && d0[16..24] == Zeros(8) && d[24..] == d0[24..]
    ensures Masked(d) == d0
  {
    forall i | 0 <= i < |d| ensures Masked(d)[i] == d0[i] {
      if i < 2 {
      } else if i < 4 { assert d[i] == d[2..4][i - 2] && d0[i] == d0[2..4][i - 2];
      } else if i < 8 { assert d[i] == d[4..8][i - 4] && d0[i] == d0[4..8][i - 4];
      } else if i < 12 { assert d[i] == d[8..12][i - 8] && d0[i] == d0[8..12][i - 8];
      } else if i < 14 { assert d0[i] == d0[12..14][i - 12];
      } else if i < 16 { assert d[i] == d[14..16][i - 14] && d0[i] == d0[14..16][i - 14];
      } else if i < 24 { assert d0[i] == d0[16..24][i - 16];
      } else { assert d[i] == d[24..][i - 24] && d0[i] == d0[24..][i - 24]; }
    }
  }

  lemma HeaderFromReads(d: seq<byte>, h: OspfHeader)
    requires 24 <= |d| == h.packetLength && h.packetLength % 4 == 0
    requires h.authType == NullAuth && h.authHeader == NullHeader
    requires d[0] == 2 && MessageTypeOf(d[1]) == Some(h.messageType)
    requires Read16(d, 2) == h.packetLength && Read32(d, 4) == h.routerId && Read32(d, 8) == h.areaId
    requires Read16(d, 12) == h.checksum && Read16(d, 14) == 0
    ensures var expected := FoldOnce(WordSum(Masked(d)));
            HeaderOf(d) == if h.checksum == expected then Success(h) else Failure(InvalidChecksum(expected, h.checksum))
  {
    assert d[..h.packetLength] == d;
  }

  lemma Reassociate(a: seq<byte>, b: seq<byte>, c: seq<byte>)
    ensures a + b + c == a + (b + c)
  {
  }

  lemma PrintedHello(p: HelloPacket)
    requires p.header.authType == NullAuth && p.header.authHeader == NullHeader
    ensures var d, h := PrintHello(p), p.header;
            && d[0] == 2 && MessageTypeOf(d[1]) == Some(h.messageType)
            && Read16(d, 2) == h.packetLength && Read32(d, 4) == h.routerId && Read32(d, 8) == h.areaId
            && Read16(d, 12) == h.checksum && Read16(d, 14) == 0
  {
    var rest := Fields(p) + NeighborBytes(p.neighbors);
    PrintedHeaderReads(p.header, rest);
    Reassociate(PrintHeader(p.header), Fields(p), NeighborBytes(p.neighbors));
  }

  /** The length and the authentication that the parser needs to see. */
  predicate Consistent(p: HelloPacket) {
    && p.header.packetLength == 44 + 4 * |p.neighbors|
    && p.header.authType == NullAuth && p.header.authHeader == NullHeader
  }

  lemma MaskedIsUnsummed(p: HelloPacket)
    requires p.header.authType == NullAuth && p.header.authHeader == NullHeader
    ensures Masked(PrintHello(p)) == PrintHello(Unsummed(p))
  {
    var rest := Fields(p) + NeighborBytes(p.neighbors);
    MaskedHeader(p.header, rest);
    Reassociate(PrintHeader(p.header), Fields(p), NeighborBytes(p.neighbors));
    Reassociate(PrintHeader(p.header.(checksum := 0)), Fields(p), NeighborBytes(p.neighbors));
  }

  /** What the parser makes of any consistent packet, whatever checksum is in it. */
  lemma ConsistentPacketParses(p: HelloPacket)
    requires Consistent(p)
    ensures var expected := FoldOnce(WordSum(PrintHello(Unsummed(p))));
            HelloOf(PrintHello(p)) ==
            if p.header.checksum == expected then Success(p)
            else Failure(InvalidChecksum(expected, p.header.checksum))
  {
    PrintedHello(p);
    HeaderFromReads(PrintHello(p), p.header);
    MaskedIsUnsummed(p);
    PrintedFieldsRead(p);
  }

  /** Of all packets exactly these survive printing and parsing: the consistent ones whose checksum
      is the once-folded sum of what is printed. */
  lemma PrintThenParse(p: HelloPacket)
    ensures HelloOf(PrintHello(p)) == Success(p)
       <==> Consistent(p) && p.header.checksum == FoldOnce(WordSum(PrintHello(Unsummed(p))))
  {
    if Consistent(p) {
      ConsistentPacketParses(p);
    }
  }

  // ----- One carry or two -----

  /** A built Hello, printed, parses back to itself if and only if one carry of its word sum is
      enough; otherwise the parser rejects it, expecting a checksum larger by exactly one. */
  lemma BuildThenParse(b: HelloBuilder)
    requires |b.neighbors| <= MAX_NEIGHBORS
    ensures var p := PacketOf(b, RfcChecksum(PrintHello(PacketOf(b, 0))));
            var sum := FieldSum(b);
            && (HelloOf(PrintHello(p)) == Success(p) <==> sum % 0x1_0000 + sum / 0x1_0000 < 0x1_0000)
            && (HelloOf(PrintHello(p)) != Success(p) ==>
                  p.header.checksum < 0xFFFF
                  && HelloOf(PrintHello(p)) == Failure(InvalidChecksum(p.header.checksum + 1, p.header.checksum)))
  {
    var bytes := PrintHello(PacketOf(b, 0));
    UnsummedSum(b);
    WordSumBound(bytes);
    OnesSumIsCanon(bytes);
    OneFoldVersusCanon(FieldSum(b));
    ConsistentPacketParses(PacketOf(b, RfcChecksum(bytes)));
  }

  lemma TwoCarriesRejected(target: Endian, b: HelloBuilder)
    requires |b.neighbors| <= MAX_NEIGHBORS && |b.neighbors| % 2 == 1
    requires FieldSum(b) % 0x1_0000 + FieldSum(b) / 0x1_0000 >= 0x1_0000
    ensures BuiltButRejected(target, b)
  {
    OddNeighborCountBuilds(target, b);
    BuildThenParse(b);
  }

  ghost predicate BuiltButRejected(target: Endian, b: HelloBuilder) {
    && |b.neighbors| <= MAX_NEIGHBORS
    && var bytes := PrintHello(PacketOf(b, 0));
       Unchecked(target, bytes) < TWO_128 && HelloOf(PrintHello(PacketOf(b, RfcChecksum(bytes)))).Failure?
  }

  lemma TwoCarryBuilder() returns (b: HelloBuilder)
    ensures |b.neighbors| == 1 && FieldSum(b) == 0x1_FFFF
  {
    var neighbors: seq<u32> := [0];
    assert SumOfHalves(neighbors) == 0;
    b := HelloBuilder(0xFFFF_FDCF, 0, 0, 0, 0, 0, 0, 0, 0, neighbors);
  }

  /** The second carry does occur: some builder's packet is built and then rejected. */
  lemma SomeBuiltHelloIsRejected(target: Endian)
    ensures exists b :: BuiltButRejected(target, b)
  {
    var b := TwoCarryBuilder();
    TwoCarriesRejected(target, b);
  }

  // ----- Where everything stands in a printed packet -----

  lemma {:induction false} NeighborStandsAt(neighbors: seq<u32>, k: nat)
    requires k < |neighbors|
    ensures NeighborBytes(neighbors)[4 * k..4 * k + 4] == ToBE(neighbors[k], 4)
  {
    var n := |neighbors| - 1;
    var before := NeighborBytes(neighbors[..n]);
    if k < n {
      NeighborStandsAt(neighbors[..n], k);
      SliceOfPrefix(before, ToBE(neighbors[n], 4), 4 * k, 4 * k + 4);
    }
  }

  lemma SliceOfPrefix(a: seq<byte>, b: seq<byte>, i: nat, j: nat)
    requires i <= j <= |a|
    ensures (a + b)[i..j] == a[i..j]
  {
  }

  lemma SliceOfSuffix(a: seq<byte>, b: seq<byte>, i: nat, j: nat)
    requires i <= j <= |b|
    ensures (a + b)[|a| + i..|a| + j] == b[i..j]
  {
  }

  lemma SliceOfSlice(s: seq<byte>, from: nat, to: nat, i: nat, j: nat)
    requires from <= to <= |s| && i <= j <= to - from
    ensures s[from..to][i..j] == s[from + i..from + j]
  {
    assert forall k :: 0 <= k < j - i ==> s[from..to][i..j][k] == s[from + i + k];
  }

  lemma HeaderStands(h: OspfHeader, rest: seq<byte>)
    ensures var d := PrintHeader(h) + rest;
            && d[0] == 2 && TypeInByte(h.messageType, d[1]) && FromBE(d[2..4]) == h.packetLength
            && FromBE(d[4..8]) == h.routerId && FromBE(d[8..12]) == h.areaId && FromBE(d[12..14]) == h.checksum
            && FromBE(d[14..16]) == AuthTypeNumber(h.authType) && d[16..24] == ToBE(AuthNumber(h.authHeader), 8)
  {
    HeaderSlices([2, MessageTypeByte(h.messageType)], ToBE(h.packetLength, 2), ToBE(h.routerId, 4), ToBE(h.areaId, 4),
                 ToBE(h.checksum, 2), ToBE(AuthTypeNumber(h.authType), 2), ToBE(AuthNumber(h.authHeader), 8), rest);
    Reads16(h.packetLength);
    Reads32(h.routerId);
    Reads32(h.areaId);
    Reads16(h.checksum);
    Reads16(AuthTypeNumber(h.authType));
  }

  /** The header of a printed packet without authentication, field by field at its place. */
  lemma PrintedHeaderStands(p: HelloPacket)
    ensures var d, h := PrintHello(p), p.header;
            && d[0] == 2 && TypeInByte(h.messageType, d[1]) && FromBE(d[2..4]) == h.packetLength
            && FromBE(d[4..8]) == h.routerId && FromBE(d[8..12]) == h.areaId && FromBE(d[12..14]) == h.checksum
            && (h.authType == NullAuth ==> FromBE(d[14..16]) == 0)
            && (h.authHeader == NullHeader ==> d[16..24] == [0, 0, 0, 0, 0, 0, 0, 0])
  {
    HeaderStands(p.header, Fields(p) + NeighborBytes(p.neighbors));
    Reassociate(PrintHeader(p.header), Fields(p), NeighborBytes(p.neighbors));
    NullAuthBytes();
  }

  /** And the fields of its body. */
  lemma PrintedBodyStands(p: HelloPacket)
    ensures var d := PrintHello(p);
            && |d| == 44 + 4 * |p.neighbors|
            && FromBE(d[24..28]) == p.networkMask && FromBE(d[28..30]) == p.helloInterval
            && d[30] == p.options && d[31] == p.routerPriority && FromBE(d[32..36]) == p.routerDeadInterval
            && FromBE(d[36..40]) == p.designatedRouter && FromBE(d[40..44]) == p.backupDesignatedRouter
  {
    FieldSlices(PrintHeader(p.header), ToBE(p.networkMask, 4), ToBE(p.helloInterval, 2), [p.options, p.routerPriority],
                ToBE(p.routerDeadInterval, 4), ToBE(p.designatedRouter, 4), ToBE(p.backupDesignatedRouter, 4),
                NeighborBytes(p.neighbors));
    Reads32(p.networkMask);
    Reads16(p.helloInterval);
    Reads32(p.routerDeadInterval);
    Reads32(p.designatedRouter);
    Reads32(p.backupDesignatedRouter);
  }

  lemma PrintedNeighborStands(p: HelloPacket, k: nat)
    requires k < |p.neighbors|
    ensures FromBE(PrintHello(p)[44 + 4 * k..48 + 4 * k]) == p.neighbors[k]
  {
    NeighborStandsAt(p.neighbors, k);
    SliceOfSuffix(PrintHeader(p.header) + Fields(p), NeighborBytes(p.neighbors), 4 * k, 4 * k + 4);
    Reads32(p.neighbors[k]);
  }

  // ----- What the parser accepts and reads -----

  lemma {:induction false} NeighborReadAt(s: seq<byte>, k: nat)
    requires 4 * k + 4 <= |s| && |s| % 4 == 0
    ensures NeighborsOf(s)[k] == FromBE(s[4 * k..4 * k + 4])
  {
    if 4 * k + 4 < |s| {
      NextWord(4 * k + 4, |s|);
      NeighborReadAt(s[..|s| - 4], k);
      SliceOfSlice(s, 0, |s| - 4, 4 * k, 4 * k + 4);
      assert s[0..|s| - 4] == s[..|s| - 4];
    }
  }

  /** A Hello is accepted if and only if its header is, it is long enough and has no authentication. */
  lemma HelloAcceptedIff(data: seq<byte>)
    ensures HelloOf(data).Success?
       <==> HeaderOf(data).Success? && FromBE(data[2..4]) >= 44 && FromBE(data[14..16]) == 0
    ensures HeaderOf(data).Failure? ==> HelloOf(data) == Failure(HeaderOf(data).error)
    ensures HeaderOf(data).Success? && FromBE(data[2..4]) < 44 ==>
              HelloOf(data) == Failure(InvalidMinimumLength(44, FromBE(data[2..4])))
    ensures HeaderOf(data).Success? && FromBE(data[2..4]) >= 44 && FromBE(data[14..16]) != 0 ==>
              HelloOf(data) == Failure(UnsupportedFieldValue("AuthType", FromBE(data[14..16])))
  {
    if HeaderOf(data).Success? {
      HeaderFieldsRead(data);
    }
  }

  /** Each field of an accepted Hello is read from its place. */
  lemma HelloFieldsRead(data: seq<byte>)
    requires HelloOf(data).Success?
    ensures var p := HelloOf(data).value;
            && HeaderOf(data) == Success(p.header)
            && p.networkMask == FromBE(data[24..28]) && p.helloInterval == FromBE(data[28..30])
            && p.options == data[30] && p.routerPriority == data[31] && p.routerDeadInterval == FromBE(data[32..36])
            && p.designatedRouter == FromBE(data[36..40]) && p.backupDesignatedRouter == FromBE(data[40..44])
            && FromBE(data[2..4]) == 44 + 4 * |p.neighbors| <= |data|
  {
    AcceptedLength(data);
    HeaderFieldsRead(data);
    var p := HelloOf(data).value;
    assert |data[44..p.header.packetLength]| == p.header.packetLength - 44;
  }

  lemma NeighborsRead(data: seq<byte>, k: nat)
    requires HelloOf(data).Success? && k < |HelloOf(data).value.neighbors|
    ensures 48 + 4 * k <= |data| && HelloOf(data).value.neighbors[k] == FromBE(data[44 + 4 * k..48 + 4 * k])
  {
    HelloFieldsRead(data);
    AcceptedLength(data);
    var s := data[44..HelloOf(data).value.header.packetLength];
    NeighborReadAt(s, k);
    SliceOfSlice(data, 44, HelloOf(data).value.header.packetLength, 4 * k, 4 * k + 4);
  }

  // ----- A builder that overflows -----

  lemma TwoBytes(a: byte, b: byte, n: nat)
    requires n == 256 * (a as int) + b
    ensures ToBE(n, 2) == [a, b]
  {
    assert ToBE(n, 2) == ToBE(a, 1) + [b];
  }

  lemma FourBytes(a: byte, b: byte, c: byte, d: byte, n: nat)
    requires n == 0x1_0000 * (256 * (a as int) + b) + 256 * (c as int) + d
    ensures ToBE(n, 4) == [a, b, c, d]
  {
    SplitWord(n);
    TwoBytes(a, b, n / 0x1_0000);
    TwoBytes(c, d, n % 0x1_0000);
  }

  function OverflowingBuilder(): HelloBuilder {
    HelloBuilder(0, 0, 0xFEFE_FFD3, 0xFFFF, 0xFF, 0xFF, 0xFFFF_FFFF, 0xFFFF_FFFF, 0xFF00_0000, [])
  }

  const ONES: seq<byte> := [255, 255, 255, 255, 255, 255, 255, 255]

  lemma OverflowingHeader()
    ensures PrintHeader(PacketOf(OverflowingBuilder(), 0).header) == [2, 1, 0, 44, 0, 0, 0, 0] + Zeros(8) + Zeros(8)
  {
    NullAuthBytes();
    TwoBytes(0, 44, 44);
    TwoBytes(0, 0, 0);
    FourBytes(0, 0, 0, 0, 0);
    var first: seq<byte> := [2, 1] + [0, 44] + [0, 0, 0, 0];
    assert first == [2, 1, 0, 44, 0, 0, 0, 0];
    EightZeros();
    assert PrintHeader(PacketOf(OverflowingBuilder(), 0).header)
        == first + [0, 0, 0, 0] + [0, 0] + [0, 0] + Zeros(8);
    assert first + [0, 0, 0, 0] + [0, 0] + [0, 0] == first + Zeros(8);
  }

  lemma EightZeros()
    ensures Zeros(8) == [0, 0, 0, 0] + [0, 0] + [0, 0]
  {
  }

  lemma OverflowingFields()
    ensures Fields(PacketOf(OverflowingBuilder(), 0))
         == [0xFE, 0xFE, 0xFF, 0xD3, 255, 255, 255, 255] + ONES + [255, 0, 0, 0]
  {
    FourBytes(0xFE, 0xFE, 0xFF, 0xD3, 0xFEFE_FFD3);
    TwoBytes(255, 255, 0xFFFF);
    FourBytes(255, 255, 255, 255, 0xFFFF_FFFF);
    FourBytes(255, 0, 0, 0, 0xFF00_0000);
  }

  lemma FirstWord(s: seq<byte>)
    requires s == [2, 1, 0, 44, 0, 0, 0, 0]
    ensures FromLE(s) == 0x2C00_0102
  {
    assert s[4..] == [0, 0, 0, 0];
    LEZero(s[4..]);
    assert FromLE(s[2..]) == 0x2C00 by { assert s[2..][1..] == s[3..] && s[3..][1..] == s[4..]; }
    assert s[1..][1..] == s[2..];
  }

  lemma FourthWord(s: seq<byte>)
    requires s == [0xFE, 0xFE, 0xFF, 0xD3, 255, 255, 255, 255]
    ensures FromLE(s) == 0xFFFF_FFFF_D3FF_FEFE
  {
    PowerValues();
    var ones := s[4..];
    AllOnesLE(ones);
    assert FromLE(ones) == 0xFFFF_FFFF;
    assert FromLE(s[2..]) == 0xFFFF_FFFF_D3FF by { assert s[2..][1..] == s[3..] && s[3..][1..] == ones; }
    assert s[1..][1..] == s[2..];
  }

  lemma OverflowingSum(d: seq<byte>)
    requires |d| == 44
    requires d[0..8] == [2, 1, 0, 44, 0, 0, 0, 0] && d[8..16] == Zeros(8) && d[16..24] == Zeros(8)
    requires d[24..32] == [0xFE, 0xFE, 0xFF, 0xD3, 255, 255, 255, 255] && d[32..40] == ONES
    ensures LittleWords(d, 5) == 2 * TWO_64 - 1
  {
    assert FromLE(d[0..8]) == 0x2C00_0102 by { FirstWord(d[0..8]); }
    assert FromLE(Zeros(8)) == 0 by { ZerosParity(8); LEZero(Zeros(8)); }
    assert FromLE(d[24..32]) == 0xFFFF_FFFF_D3FF_FEFE by { FourthWord(d[24..32]); }
    assert FromLE(d[32..40]) == TWO_64 - 1 by { PowerValues(); AllOnesLE(d[32..40]); }
    FiveWords(d);
  }

  lemma FiveWords(d: seq<byte>)
    requires |d| >= 40
    ensures LittleWords(d, 5)
         == FromLE(d[0..8]) + FromLE(d[8..16]) + FromLE(d[16..24]) + FromLE(d[24..32]) + FromLE(d[32..40])
  {
    assert LittleWords(d, 1) == FromLE(d[0..8]);
    assert LittleWords(d, 2) == LittleWords(d, 1) + FromLE(d[8..16]);
    assert LittleWords(d, 3) == LittleWords(d, 2) + FromLE(d[16..24]);
    assert LittleWords(d, 4) == LittleWords(d, 3) + FromLE(d[24..32]);
  }

  lemma OverflowingTail(tail: seq<byte>)
    requires tail == [255, 0, 0, 0]
    ensures TailSum(tail, 4) == 255 * Pow256(7)
  {
    assert TailSum(tail, 1) == Shifted(255, 7);
    assert TailSum(tail, 2) == TailSum(tail, 1) && TailSum(tail, 3) == TailSum(tail, 2);
  }

  lemma OverflowingSlices(h: seq<byte>, f: seq<byte>, d: seq<byte>)
    requires h == [2, 1, 0, 44, 0, 0, 0, 0] + Zeros(8) + Zeros(8)
    requires f == [0xFE, 0xFE, 0xFF, 0xD3, 255, 255, 255, 255] + ONES + [255, 0, 0, 0]
    requires d == h + f
    ensures |d| == 44 && d[0..8] == [2, 1, 0, 44, 0, 0, 0, 0] && d[8..16] == Zeros(8) && d[16..24] == Zeros(8)
    ensures d[24..32] == [0xFE, 0xFE, 0xFF, 0xD3, 255, 255, 255, 255] && d[32..40] == ONES
    ensures d[40..] == [255, 0, 0, 0]
  {
  }

  lemma OverflowingBytes(d: seq<byte>)
    requires |d| == 44 && LittleWords(d, 5) == 2 * TWO_64 - 1 && d[40..] == [255, 0, 0, 0]
    ensures Unchecked(Little, d) >= TWO_128
  {
    OverflowingTail(d[40..]);
    Swap64One();
    PowerValues();
    OverflowExactly(d);
  }

  /** The overflow does occur: a Hello without neighbors that cannot be built on a little-endian
      target. */
  lemma SomeHelloOverflows()
    ensures exists b: HelloBuilder ::
              |b.neighbors| <= MAX_NEIGHBORS && Unchecked(Little, PrintHello(PacketOf(b, 0))) >= TWO_128
  {
    var b := OverflowingBuilder();
    var p := PacketOf(b, 0);
    var h, f, d := PrintHeader(p.header), Fields(p), PrintHello(p);
    OverflowingHeader();
    OverflowingFields();
    assert d == h + f;
    OverflowingSlices(h, f, d);
    OverflowingSum(d);
    OverflowingBytes(d);
  }
}
