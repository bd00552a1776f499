/** The assembly part of `create_paynym_address`. The elliptic-curve scalar
    multiplication, HMAC-SHA512 and base58check encoding are library calls:
    the shared point's y-coordinate and the 64-byte MAC are inputs, and the
    encoder is a parameter `checkEncode(payload, versionTag)`. */
module Generation {
  import opened Bytes
  import opened PaymentCodes
  import opened Masking
  import opened Validation

  /** The payload version the generator always writes. */
  const GeneratedVersion: byte := 0x01

  /** The outcome of a Go function that may panic: `chaincode[i]` with
      `i` up to 30 panics when the chaincode is shorter than 31 bytes. */
  datatype Generated<T> = Returned(value: T) | IndexPanic

  /** Sign byte from the y-coordinate's low bit (`secPointY.Bit(0)`). */
  function SignForParity(secPointY: nat): byte
  {
    if secPointY % 2 == 1 then 0x03 else 0x02
  }

  /** The payment code `create_paynym_address` fills in before encoding. */
  function Generate(mac: Mac, secPointY: nat, chaincode: seq<byte>): (r: Generated<PaymentCode>)
    ensures r.Returned? <==> |chaincode| >= MaskedWidth
    ensures r.Returned? ==>
              && r.value.version == 1
              && r.value.sign in {2, 3}
              && (r.value.sign == 3 <==> secPointY % 2 == 1)
    ensures r.Returned? ==>
              && MaskedWith(r.value.pubkey, chaincode, mac, 0)
              && MaskedWith(r.value.chaincode, chaincode, mac, 32)
  {
    if |chaincode| < MaskedWidth then IndexPanic
    else
      MaskFieldMasks(chaincode, mac, 0);
      MaskFieldMasks(chaincode, mac, 32);
      Returned(PaymentCode(GeneratedVersion, SignForParity(secPointY),
                          MaskField(chaincode, mac, 0), MaskField(chaincode, mac, 32)))
  }

  /** The 80 bytes `create_paynym_address` hands to the encoder, described
      byte by byte in terms of its inputs. */
  predicate GeneratedPayload(d: seq<byte>, mac: Mac, secPointY: nat, chaincode: seq<byte>)
  {
    && |d| == PayloadLength
    && |chaincode| >= MaskedWidth
    && d[0] == 1
    && d[1] == 0
    && d[2] in {2, 3}
    && (d[2] == 3 <==> secPointY % 2 == 1)
    && (forall i :: 0 <= i < MaskedWidth ==> d[3 + i] == chaincode[i] ^ mac[i])
    && (forall i :: 0 <= i < MaskedWidth ==> d[35 + i] == chaincode[i] ^ mac[32 + i])
    && d[34] == 0
    && d[66] == 0
    && ZeroBetween(d, 67, 80)
  }

  /** The description leaves no byte open: at most one payload meets it. */
  lemma GeneratedPayloadUnique(d1: seq<byte>, d2: seq<byte>, mac: Mac, secPointY: nat, chaincode: seq<byte>)
    requires GeneratedPayload(d1, mac, secPointY, chaincode)
    requires GeneratedPayload(d2, mac, secPointY, chaincode)
    ensures d1 == d2
  {
    forall k | 0 <= k < PayloadLength
      ensures d1[k] == d2[k]
    {
      if 3 <= k < 34 {
        var i := k - 3;
        assert d1[3 + i] == chaincode[i] ^ mac[i] == d2[3 + i];
      } else if 35 <= k < 66 {
        var i := k - 35;
        assert d1[35 + i] == chaincode[i] ^ mac[32 + i] == d2[35 + i];
      }
    }
  }

  /** The serialization of a generated code is the payload described above. */
  lemma SerializedGeneratedPayload(mac: Mac, secPointY: nat, chaincode: seq<byte>)
    requires |chaincode| >= MaskedWidth
    ensures GeneratedPayload(Serialize(Generate(mac, secPointY, chaincode).value), mac, secPointY, chaincode)
  {
  }

  /** `create_paynym_address`: panics exactly when the chaincode is shorter
      than 31 bytes; otherwise returns the encoding, under tag 0x47, of the
      generated 80-byte payload. */
  function CreatePaynymAddress(mac: Mac, secPointY: nat, chaincode: seq<byte>,
                               checkEncode: (seq<byte>, byte) -> string): (r: Generated<string>)
    ensures r.Returned? <==> |chaincode| >= MaskedWidth
    ensures r.Returned? ==>
              exists d :: GeneratedPayload(d, mac, secPointY, chaincode)
                          && r.value == checkEncode(d, PaynymVersionTag)
  {
    match Generate(mac, secPointY, chaincode)
    case IndexPanic => IndexPanic
    case Returned(code) =>
      SerializedGeneratedPayload(mac, secPointY, chaincode);
      Returned(checkEncode(Serialize(code), PaynymVersionTag))
  }

  /** The base58check law: decoding an encoding gives back the payload and
      the version tag. */
  ghost predicate CodecRoundTrips(checkEncode: (seq<byte>, byte) -> string,
                                  checkDecode: string -> CheckDecodeResult)
  {
    forall payload, version :: checkDecode(checkEncode(payload, version)) == CheckDecoded(payload, version)
  }

  /** Generating then validating: when the codec round-trips, every
      generated address passes every structural check, so it is accepted
      exactly when the public-key oracle accepts its sign byte and masked
      pubkey. The strict validator agrees, since byte 79 is written as 0. */
  lemma GeneratedAddressValidates(mac: Mac, secPointY: nat, chaincode: seq<byte>,
                                  checkEncode: (seq<byte>, byte) -> string,
                                  checkDecode: string -> CheckDecodeResult,
                                  pubKeyOk: seq<byte> -> bool)
    requires |chaincode| >= MaskedWidth
    requires CodecRoundTrips(checkEncode, checkDecode)
    ensures var code := Generate(mac, secPointY, chaincode).value;
            var address := CreatePaynymAddress(mac, secPointY, chaincode, checkEncode).value;
            && (IsPaynymAddress(address, checkDecode, pubKeyOk) <==> pubKeyOk([code.sign] + code.pubkey))
            && (IsPaynymAddressStrict(address, checkDecode, pubKeyOk) <==> pubKeyOk([code.sign] + code.pubkey))
  {
    var code := Generate(mac, secPointY, chaincode).value;
    var address := CreatePaynymAddress(mac, secPointY, chaincode, checkEncode).value;
    assert address == checkEncode(Serialize(code), PaynymVersionTag);
    assert checkDecode(address) == CheckDecoded(Serialize(code), PaynymVersionTag);
    SerializedCodePassesByteChecks(code, pubKeyOk);
  }
}
