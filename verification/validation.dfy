/** `is_paynym_address`: a short-circuit structural check of a base58check
    address. Base58check decoding and the compressed-public-key parser with
    its network check are library calls; they are parameters here:
      - `checkDecode` returns the payload and version tag, or an error;
      - `pubKeyOk` says whether 33 bytes parse as a main-network public key. */
module Validation {
  import opened Bytes
  import opened PaymentCodes

  /** The address version tag, ASCII 'P'. */
  const PaynymVersionTag: byte := 0x47

  /** The reserved-byte loop visits indices 67 up to, not including, 79. */
  const ReservedCheckStart: nat := 67
  const ReservedCheckEnd: nat := 79

  /** The errors base58check decoding reports. */
  datatype DecodeError = ChecksumError | InvalidFormat

  datatype CheckDecodeResult =
    | CheckDecoded(payload: seq<byte>, version: byte)
    | CheckDecodeFailed(error: DecodeError)

  /** Every check the validator applies to a decoded payload, as one
      conjunction. */
  predicate PayloadChecks(d: seq<byte>, pubKeyOk: seq<byte> -> bool)
  {
    && |d| == PayloadLength
    && d[0] in {1, 2}
    && d[1] == 0
    && d[2] in {2, 3}
    && pubKeyOk(d[2..35])
    && ZeroBetween(d, ReservedCheckStart, ReservedCheckEnd)
  }

  /** The reserved-byte loop from index `b` up to (excluding) `end`,
      returning false at the first non-zero byte. */
  function ReservedBytesZero(d: seq<byte>, b: nat, end: nat): (r: bool)
    requires b <= end <= |d|
    ensures r <==> ZeroBetween(d, b, end)
    decreases end - b
  {
    if b == end then true
    else if d[b] != 0 then false
    else ReservedBytesZero(d, b + 1, end)
  }

  /** The checks on an 80-byte payload, in the order of the source. */
  function ValidatePayload(d: seq<byte>, pubKeyOk: seq<byte> -> bool): (r: bool)
    requires |d| == PayloadLength
    ensures r <==> PayloadChecks(d, pubKeyOk)
  {
    if d[0] < 1 || d[0] > 2 then false
    else if d[1] != 0 then false
    else if d[2] < 2 || d[2] > 3 then false
    else if !pubKeyOk(d[2..35]) then false
    else ReservedBytesZero(d, ReservedCheckStart, ReservedCheckEnd)
  }

  /** `is_paynym_address`. */
  function IsPaynymAddress(address: string, checkDecode: string -> CheckDecodeResult,
                           pubKeyOk: seq<byte> -> bool): (r: bool)
    ensures r <==> && checkDecode(address).CheckDecoded?
                   && checkDecode(address).version == PaynymVersionTag
                   && PayloadChecks(checkDecode(address).payload, pubKeyOk)
  {
    match checkDecode(address)
    case CheckDecodeFailed(_) => false
    case CheckDecoded(decoded, version) =>
      if version != PaynymVersionTag then false
      else if |decoded| != PayloadLength then false
      else ValidatePayload(decoded, pubKeyOk)
  }

  /** The envelope checks: a decode error, a wrong version tag or a payload
      of any length but 80 is rejected whatever the payload holds. */
  lemma RejectsBadEnvelope(address: string, checkDecode: string -> CheckDecodeResult,
                           pubKeyOk: seq<byte> -> bool)
    ensures checkDecode(address).CheckDecodeFailed? ==> !IsPaynymAddress(address, checkDecode, pubKeyOk)
    ensures checkDecode(address).CheckDecoded? && checkDecode(address).version != PaynymVersionTag
            ==> !IsPaynymAddress(address, checkDecode, pubKeyOk)
    ensures checkDecode(address).CheckDecoded? && |checkDecode(address).payload| != PayloadLength
            ==> !IsPaynymAddress(address, checkDecode, pubKeyOk)
  {
  }

  /** The field checks, one by one: each failing check alone rejects. */
  lemma RejectsBadField(d: seq<byte>, pubKeyOk: seq<byte> -> bool)
    requires |d| == PayloadLength
    ensures d[0] != 1 && d[0] != 2 ==> !ValidatePayload(d, pubKeyOk)
    ensures d[1] != 0 ==> !ValidatePayload(d, pubKeyOk)
    ensures d[2] != 2 && d[2] != 3 ==> !ValidatePayload(d, pubKeyOk)
    ensures !pubKeyOk(d[2..35]) ==> !ValidatePayload(d, pubKeyOk)
    ensures (exists b :: 67 <= b < 79 && d[b] != 0) ==> !ValidatePayload(d, pubKeyOk)
  {
  }

  /** Byte 79 is never inspected: overwriting it never changes the verdict. */
  lemma LastReservedByteIgnored(d: seq<byte>, x: byte, pubKeyOk: seq<byte> -> bool)
    requires |d| == PayloadLength
    ensures ValidatePayload(d[79 := x], pubKeyOk) == ValidatePayload(d, pubKeyOk)
  {
  }

  /** A serialized code with a valid version and sign passes every byte
      check, so the validator's verdict on it is exactly the public-key
      oracle's verdict on its sign byte and pubkey. */
  lemma SerializedCodePassesByteChecks(p: PaymentCode, pubKeyOk: seq<byte> -> bool)
    requires p.version in {1, 2} && p.sign in {2, 3}
    ensures ValidatePayload(Serialize(p), pubKeyOk) <==> pubKeyOk([p.sign] + p.pubkey)
  {
    NotifyKeyBytes(p);
  }

  /** A payload the validator accepts need not be the serialization of any
      code: byte 79 may be non-zero. */
  lemma AcceptsNonCanonicalPayload(p: PaymentCode)
    requires p.version in {1, 2} && p.sign in {2, 3}
    ensures var d := Serialize(p)[79 := 1];
            && ValidatePayload(d, _ => true)
            && Parse(d).Some?
            && Serialize(Parse(d).value) != d
  {
    var d := Serialize(p)[79 := 1];
    LastReservedByteIgnored(Serialize(p), 1, _ => true);
    SerializedCodePassesByteChecks(p, _ => true);
    SerializeParse(d);
    assert d[79] == 1;
  }

  /** The evidently intended payload checks: all 13 reserved bytes zero. */
  function ValidatePayloadStrict(d: seq<byte>, pubKeyOk: seq<byte> -> bool): (r: bool)
    requires |d| == PayloadLength
    ensures r <==> PayloadChecks(d, pubKeyOk) && d[79] == 0
  {
    if d[0] < 1 || d[0] > 2 then false
    else if d[1] != 0 then false
    else if d[2] < 2 || d[2] > 3 then false
    else if !pubKeyOk(d[2..35]) then false
    else ReservedBytesZero(d, ReservedCheckStart, PayloadLength)
  }

  /** With all 13 reserved bytes checked, the accepted payloads are exactly
      the serializations of codes with a valid version and sign whose sign
      byte and pubkey the oracle accepts. */
  lemma StrictAcceptsExactlySerializations(d: seq<byte>, pubKeyOk: seq<byte> -> bool)
    requires |d| == PayloadLength
    ensures ValidatePayloadStrict(d, pubKeyOk) <==>
              && Serialize(Parse(d).value) == d
              && Parse(d).value.version in {1, 2}
              && Parse(d).value.sign in {2, 3}
              && pubKeyOk([Parse(d).value.sign] + Parse(d).value.pubkey)
  {
    SerializeParse(d);
    NotifyKeyBytes(Parse(d).value);
    var p := Parse(d).value;
    if Serialize(p) == d && p.version in {1, 2} && p.sign in {2, 3} {
      SerializedCodePassesByteChecks(p, pubKeyOk);
    }
  }

  /** The strict address check: `IsPaynymAddress` with all 13 reserved
      bytes checked. */
  function IsPaynymAddressStrict(address: string, checkDecode: string -> CheckDecodeResult,
                                 pubKeyOk: seq<byte> -> bool): (r: bool)
    ensures r <==> && IsPaynymAddress(address, checkDecode, pubKeyOk)
                   && checkDecode(address).payload[79] == 0
  {
    match checkDecode(address)
    case CheckDecodeFailed(_) => false
    case CheckDecoded(decoded, version) =>
      if version != PaynymVersionTag then false
      else if |decoded| != PayloadLength then false
      else ValidatePayloadStrict(decoded, pubKeyOk)
  }
}
