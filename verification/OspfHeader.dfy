/** The OSPF version 2 packet header (section A.3.1 of RFC 2328): its parser, with a checksum loop of
    its own, and its serialiser. */
module OspfHeaders {
  import opened Wrappers
  import opened Bytes
  import opened Checksum

  datatype OspfError =
    | InvalidHeaderLength(needed: nat, available: nat)
    | InvalidMinimumLength(needed: nat, available: nat)
    | InvalidBitBoundary(length: nat)
    | UnsupportedFieldValue(field: string, value: nat)
    | InvalidChecksum(expected: u16, actual: u16)
    | ArithmeticOverflow

  datatype MessageType =
    Hello | DatabaseDescription | LinkStateRequest | LinkStateUpdate | LinkStateAcknowledgement

  datatype AuthType = NullAuth | SimplePassword | Cryptographic

  datatype AuthHeader =
    | NullHeader
    | PasswordHeader(password: seq<byte>)
    | CryptographicHeader(keyId: byte, dataLength: byte, sequence: u32)

  /** The version is not kept: the only one accepted is 2. */
  datatype OspfHeader = OspfHeader(
    messageType: MessageType, packetLength: u16, routerId: u32, areaId: u32, checksum: u16,
    authType: AuthType, authHeader: AuthHeader)

  function MessageTypeOf(b: byte): Option<MessageType> {
    if b == 1 then Some(Hello) else if b == 2 then Some(DatabaseDescription)
    else if b == 3 then Some(LinkStateRequest) else if b == 4 then Some(LinkStateUpdate)
    else if b == 5 then Some(LinkStateAcknowledgement) else None
  }

  function MessageTypeByte(t: MessageType): byte {
    match t
    case Hello => 1
    case DatabaseDescription => 2
    case LinkStateRequest => 3
    case LinkStateUpdate => 4
    case LinkStateAcknowledgement => 5
  }

  function AuthTypeOf(n: u16): Option<AuthType> {
    if n == 0 then Some(NullAuth) else if n == 1 then Some(SimplePassword)
    else if n == 2 then Some(Cryptographic) else None
  }

  function AuthTypeNumber(t: AuthType): u16 {
    match t
    case NullAuth => 0
    case SimplePassword => 1
    case Cryptographic => 2
  }

  // ----- Fields -----

  function AuthHeaderOf(t: AuthType, field: seq<byte>): AuthHeader
    requires |field| == 8
  {
    match t
    case NullAuth => NullHeader
    case SimplePassword => PasswordHeader(field)
    case Cryptographic => CryptographicHeader(field[2], field[3], Read32(field, 4))
  }

  /** The authentication field as the number the serialiser writes. */
  function AuthNumber(h: AuthHeader): nat {
    match h
    case NullHeader => 0
    case PasswordHeader(password) => FromBE(password)
    case CryptographicHeader(keyId, dataLength, sequence) =>
      FromBE([0, 0, keyId, dataLength] + ToBE(sequence, 4))
  }

  // ----- The parser's checksum -----

  predicate Skipped(i: nat) {
    (12 <= i < 14) || (16 <= i < 24)
  }

  /** The data with the checksum and the authentication field zeroed. */
  function Masked(data: seq<byte>): (r: seq<byte>)
    ensures |r| == |data|
  {
    seq(|data|, i requires 0 <= i < |data| => if Skipped(i) then 0 else data[i])
  }

  /** One fold of the carry, then the complement of the low sixteen bits. */
  function FoldOnce(sum: nat): u16 {
    0xFFFF - (sum + sum / 0x1_0000) % 0x1_0000
  }

  function ExpectedChecksum(t: AuthType, data: seq<byte>): u16 {
    if t.Cryptographic? then 0 else FoldOnce(WordSum(Masked(data)))
  }

  method SumUnskipped(data: seq<byte>) returns (sum: nat)
    ensures sum == WordSum(Masked(data))
  {
    sum := 0;
    ghost var m := Masked(data);
    for i := 0 to |data|
      invariant sum == WordSum(m[..i])
    {
      OneMoreByte(m, i);
      if !Skipped(i) {
        sum := sum + Shifted(data[i], 1 - i % 2);
      }
    }
    assert m[..|data|] == m;
  }

  lemma OneMoreByte(s: seq<byte>, i: nat)
    requires i < |s|
    ensures WordSum(s[..i + 1]) == WordSum(s[..i]) + Shifted(s[i], 1 - i % 2)
  {
    assert s[..i + 1] == s[..i] + [s[i]];
    WordSumByParity(s[..i + 1]);
    WordSumByParity(s[..i]);
    ParityAppend(s[..i], s[i]);
    PowerValues();
  }

  lemma {:induction false} ParityAppend(s: seq<byte>, b: byte)
    ensures EvenSum(s + [b]) == EvenSum(s) + (if |s| % 2 == 0 then b else 0)
    ensures OddSum(s + [b]) == OddSum(s) + (if |s| % 2 == 0 then 0 else b)
  {
    if s == [] {
      assert s + [b] == [b];
    } else {
      ParityAppend(s[1..], b);
      assert (s + [b])[1..] == s[1..] + [b];
    }
  }

  // ----- Parsing and printing -----

  function HeaderOf(data: seq<byte>): Result<OspfHeader, OspfError> {
    if |data| < 24 then Failure(InvalidHeaderLength(24, |data|)) else
    var length := Read16(data, 2);
    if length < 24 then Failure(InvalidHeaderLength(24, |data|)) else
    if |data| < length then Failure(InvalidMinimumLength(length, |data|)) else
    if length % 4 != 0 then Failure(InvalidBitBoundary(length)) else
    var authType := AuthTypeOf(Read16(data, 14));
    if authType.None? then Failure(UnsupportedFieldValue("AuthenticationType", Read16(data, 14))) else
    var expected := ExpectedChecksum(authType.value, data[..length]);
    if Read16(data, 12) != expected then Failure(InvalidChecksum(expected, Read16(data, 12))) else
    if data[0] != 2 then Failure(UnsupportedFieldValue("Version", data[0])) else
    var messageType := MessageTypeOf(data[1]);
    if messageType.None? then Failure(UnsupportedFieldValue("Type", data[1])) else
    Success(OspfHeader(messageType.value, length, Read32(data, 4), Read32(data, 8), Read16(data, 12),
                       authType.value, AuthHeaderOf(authType.value, data[16..24])))
  }

  method ParseHeader(data: seq<byte>) returns (r: Result<OspfHeader, OspfError>)
    ensures r == HeaderOf(data)
  {
    if |data| < 24 {
      return Failure(InvalidHeaderLength(24, |data|));
    }
    var length := Read16(data, 2);
    if length < 24 {
      return Failure(InvalidHeaderLength(24, |data|));
    }
    if |data| < length {
      return Failure(InvalidMinimumLength(length, |data|));
    }
    if length % 4 != 0 {
      return Failure(InvalidBitBoundary(length));
    }
    var authType := AuthTypeOf(Read16(data, 14));
    if authType.None? {
      return Failure(UnsupportedFieldValue("AuthenticationType", Read16(data, 14)));
    }
    var expected := 0;
    if !authType.value.Cryptographic? {
      var sum := SumUnskipped(data[..length]);
      expected := FoldOnce(sum);
    }
    var actual := Read16(data, 12);
    if actual != expected {
      return Failure(InvalidChecksum(expected, actual));
    }
    if data[0] != 2 {
      return Failure(UnsupportedFieldValue("Version", data[0]));
    }
    var messageType := MessageTypeOf(data[1]);
    if messageType.None? {
      return Failure(UnsupportedFieldValue("Type", data[1]));
    }
    r := Success(OspfHeader(messageType.value, length, Read32(data, 4), Read32(data, 8), actual,
                            authType.value, AuthHeaderOf(authType.value, data[16..24])));
  }

  function PrintHeader(h: OspfHeader): (r: seq<byte>)
    ensures |r| == 24
  {
    [2, MessageTypeByte(h.messageType)] + ToBE(h.packetLength, 2) + ToBE(h.routerId, 4) + ToBE(h.areaId, 4)
    + ToBE(h.checksum, 2) + ToBE(AuthTypeNumber(h.authType), 2) + ToBE(AuthNumber(h.authHeader), 8)
  }

  // ----- Printing what was parsed -----

  /** The authentication bytes that survive parsing. */
  function KeptAuth(t: AuthType, field: seq<byte>): seq<byte>
    requires |field| == 8
  {
    match t
    case NullAuth => Zeros(8)
    case SimplePassword => field
    case Cryptographic => [0, 0] + field[2..]
  }

  lemma CryptographicPrints(field: seq<byte>)
    requires |field| == 8
    ensures ToBE(AuthNumber(CryptographicHeader(field[2], field[3], Read32(field, 4))), 8) == [0, 0] + field[2..]
  {
    var kept: seq<byte> := [0, 0, field[2], field[3]] + field[4..8];
    Field32Prints(field, 4);
    ToFromBE(kept);
    assert kept == [0, 0] + field[2..];
  }

  lemma AuthPrintsKept(t: AuthType, field: seq<byte>)
    requires |field| == 8
    ensures ToBE(AuthNumber(AuthHeaderOf(t, field)), 8) == KeptAuth(t, field)
  {
    match t
    case NullAuth =>
      ZerosParity(8);
      ToFromBE(Zeros(8));
    case SimplePassword =>
      ToFromBE(field);
    case Cryptographic =>
      CryptographicPrints(field);
  }

  lemma HeaderPieces(data: seq<byte>)
    requires |data| >= 24
    ensures [data[0], data[1]] + data[2..4] + data[4..8] + data[8..12] + data[12..14] + data[14..16] == data[..16]
  {
    assert data[..4] == [data[0], data[1]] + data[2..4];
    assert data[..8] == data[..4] + data[4..8];
    assert data[..12] == data[..8] + data[8..12];
    assert data[..14] == data[..12] + data[12..14];
    assert data[..16] == data[..14] + data[14..16];
  }

  /** For every accepted header, of each authentication type, printing gives the bytes back except
      for the authentication bytes that the type does not use. */
  lemma HeaderPrintNormalises(data: seq<byte>)
    requires HeaderOf(data).Success?
    ensures var h := HeaderOf(data).value;
            PrintHeader(h) == data[..16] + KeptAuth(h.authType, data[16..24])
  {
    var h := HeaderOf(data).value;
    AuthPrintsKept(h.authType, data[16..24]);
    Field16Prints(data, 2);
    Field32Prints(data, 4);
    Field32Prints(data, 8);
    Field16Prints(data, 12);
    Field16Prints(data, 14);
    HeaderPieces(data);
    assert AuthTypeNumber(h.authType) == Read16(data, 14);
    assert MessageTypeByte(h.messageType) == data[1];
  }

  // ----- One carry or two -----

  lemma {:induction false} WordSumBound(s: seq<byte>)
    ensures 2 * WordSum(s) <= 0xFFFF * (|s| + 1)
  {
    if |s| >= 2 {
      WordSumBound(s[2..]);
    }
  }

  lemma OneFoldVersusCanon(sum: nat)
    requires 0 < sum < 0x8000_0000
    ensures var low, high := sum % 0x1_0000, sum / 0x1_0000;
            && (low + high < 0x1_0000 ==> FoldOnce(sum) == 0xFFFF - Canon(sum))
            && (low + high >= 0x1_0000 ==> FoldOnce(sum) == 0xFFFF - Canon(sum) + 1)
  {
    var low, high := sum % 0x1_0000, sum / 0x1_0000;
    assert (sum + high) % 0x1_0000 == (low + high) % 0x1_0000;
    if low + high < 0x1_0000 {
      CanonUnique(sum, low + high, high);
    } else {
      CanonUnique(sum, low + high - 0xFFFF, high + 1);
    }
  }

  /** Everything but the checksum is as the parser wants it. */
  predicate AcceptableButChecksum(data: seq<byte>) {
    && |data| >= 24 && 24 <= Read16(data, 2) <= |data| && Read16(data, 2) % 4 == 0
    && (AuthTypeOf(Read16(data, 14)) == Some(NullAuth) || AuthTypeOf(Read16(data, 14)) == Some(SimplePassword))
    && data[0] == 2 && MessageTypeOf(data[1]).Some?
  }

  /** A packet from any router that carries the checksum of section 1 of RFC 1071 is accepted if and
      only if one carry of its word sum is enough; otherwise the parser expects one more. */
  lemma RightChecksumAcceptedIff(data: seq<byte>)
    requires AcceptableButChecksum(data)
    requires Read16(data, 12) == RfcChecksum(Masked(data[..Read16(data, 2)]))
    ensures var sum, actual := WordSum(Masked(data[..Read16(data, 2)])), Read16(data, 12);
            && (HeaderOf(data).Success? <==> sum % 0x1_0000 + sum / 0x1_0000 < 0x1_0000)
            && (HeaderOf(data).Failure? ==>
                  actual < 0xFFFF && HeaderOf(data) == Failure(InvalidChecksum(actual + 1, actual)))
  {
    var masked := Masked(data[..Read16(data, 2)]);
    WordSumBound(masked);
    OnesSumIsCanon(masked);
    assert masked[0] == 2;
    OneFoldVersusCanon(WordSum(masked));
  }

  // ----- Acceptance and fields, byte by byte -----

  /** The checksum the parser wants in bytes 12 and 13: none for cryptographic authentication, else the
      complement of the word sum of the rest, folded once. */
  ghost predicate ChecksumWanted(data: seq<byte>, n: nat, checksum: nat)
    requires 24 <= n <= |data|
  {
    if FromBE(data[14..16]) == 2 then checksum == 0
    else
      var sum := WordSum(data[..12] + [0, 0] + data[14..16] + [0, 0, 0, 0, 0, 0, 0, 0] + data[24..n]);
      checksum == 0xFFFF - (sum % 0x1_0000 + sum / 0x1_0000) % 0x1_0000
  }

  lemma MaskedBytes(data: seq<byte>, n: nat)
    requires 24 <= n <= |data|
    ensures Masked(data[..n]) == data[..12] + [0, 0] + data[14..16] + [0, 0, 0, 0, 0, 0, 0, 0] + data[24..n]
  {
  }

  lemma OneFold(sum: nat)
    ensures FoldOnce(sum) == 0xFFFF - (sum % 0x1_0000 + sum / 0x1_0000) % 0x1_0000
  {
    var low, high := sum % 0x1_0000, sum / 0x1_0000;
    assert sum + high == low + high + 0x1_0000 * high;
    MultipleDropped(low + high, high);
  }

  lemma MultipleDropped(a: nat, k: nat)
    ensures (a + 0x1_0000 * k) % 0x1_0000 == a % 0x1_0000
  {
  }

  /** A header is accepted if and only if it is long enough, of whole words, of a known authentication
      type, version and message type, and carries the checksum. */
  lemma HeaderAcceptedIff(data: seq<byte>)
    ensures HeaderOf(data).Success?
       <==> |data| >= 24
            && var n := FromBE(data[2..4]);
               && 24 <= n <= |data| && n % 4 == 0 && FromBE(data[14..16]) <= 2
               && ChecksumWanted(data, n, FromBE(data[12..14])) && data[0] == 2 && 1 <= data[1] <= 5
  {
    if |data| >= 24 && 24 <= FromBE(data[2..4]) <= |data| {
      MaskedBytes(data, FromBE(data[2..4]));
      OneFold(WordSum(Masked(data[..FromBE(data[2..4])])));
    }
  }

  ghost predicate TypeInByte(t: MessageType, b: byte) {
    match t
    case Hello => b == 1
    case DatabaseDescription => b == 2
    case LinkStateRequest => b == 3
    case LinkStateUpdate => b == 4
    case LinkStateAcknowledgement => b == 5
  }

  ghost predicate AuthInField(t: AuthType, h: AuthHeader, number: nat, field: seq<byte>)
    requires |field| == 8
  {
    match t
    case NullAuth => number == 0 && h == NullHeader
    case SimplePassword => number == 1 && h == PasswordHeader(field)
    case Cryptographic => number == 2 && h.CryptographicHeader? && h.keyId == field[2] && h.dataLength == field[3]
                          && h.sequence == FromBE(field[4..8])
  }

  /** Each field of an accepted header is read from its place. */
  lemma HeaderFieldsRead(data: seq<byte>)
    requires HeaderOf(data).Success?
    ensures var h := HeaderOf(data).value;
            && TypeInByte(h.messageType, data[1]) && h.packetLength == FromBE(data[2..4])
            && h.routerId == FromBE(data[4..8]) && h.areaId == FromBE(data[8..12])
            && h.checksum == FromBE(data[12..14])
            && AuthInField(h.authType, h.authHeader, FromBE(data[14..16]), data[16..24])
  {
    assert data[16..24][4..8] == data[20..24];
  }

  /** The first test that fails names the error. */
  lemma HeaderErrors(data: seq<byte>)
    ensures |data| < 24 ==> HeaderOf(data) == Failure(InvalidHeaderLength(24, |data|))
    ensures |data| >= 24 ==>
              var n, auth := FromBE(data[2..4]), FromBE(data[14..16]);
              && (n < 24 ==> HeaderOf(data) == Failure(InvalidHeaderLength(24, |data|)))
              && (24 <= n && |data| < n ==> HeaderOf(data) == Failure(InvalidMinimumLength(n, |data|)))
              && (24 <= n <= |data| && n % 4 != 0 ==> HeaderOf(data) == Failure(InvalidBitBoundary(n)))
              && (24 <= n <= |data| && n % 4 == 0 && auth > 2 ==>
                    HeaderOf(data) == Failure(UnsupportedFieldValue("AuthenticationType", auth)))
              && (24 <= n <= |data| && n % 4 == 0 && auth <= 2 && !ChecksumWanted(data, n, FromBE(data[12..14])) ==>
                    HeaderOf(data).Failure? && HeaderOf(data).error.InvalidChecksum?
                    && HeaderOf(data).error.actual == FromBE(data[12..14])
                    && ChecksumWanted(data, n, HeaderOf(data).error.expected))
              && (24 <= n <= |data| && n % 4 == 0 && auth <= 2 && ChecksumWanted(data, n, FromBE(data[12..14])) ==>
                    && (data[0] != 2 ==> HeaderOf(data) == Failure(UnsupportedFieldValue("Version", data[0])))
                    && (data[0] == 2 && !(1 <= data[1] <= 5) ==>
                          HeaderOf(data) == Failure(UnsupportedFieldValue("Type", data[1]))))
  {
    if |data| >= 24 && 24 <= FromBE(data[2..4]) <= |data| {
      MaskedBytes(data, FromBE(data[2..4]));
      OneFold(WordSum(Masked(data[..FromBE(data[2..4])])));
    }
  }
}
