# Payment-code ("paynym") payload model

A Dafny model of `paynym.go`, a small Go program for BIP47-style payment
codes. A payment code is an 80-byte record. It is base58check-encoded under
version tag `0x47` (ASCII `P`). The model covers three pieces of byte-level
logic:

- `PaymentCode.Bytes()`, the fixed-offset serializer (`PaymentCodes.Serialize`);
- the assembly and masking step of `create_paynym_address`
  (`Generation.Generate`, `Masking.Obfuscate`, `Generation.CreatePaynymAddress`);
- `is_paynym_address`, the short-circuit structural validator
  (`Validation.IsPaynymAddress`).

Bytes are `bv8`, so `^` is XOR. Go's `[32]byte` is the subset type
`Bytes32`. The 64-byte HMAC-SHA512 output is the subset type `Masking.Mac`.
The library calls become function-valued parameters:

- `checkDecode` stands for base58check decoding;
- `checkEncode` stands for base58check encoding;
- `pubKeyOk` stands for `NewAddressPubKey` followed by `IsForNet` on the main
  network.

A Go panic is the result `IndexPanic` of type `Generated`. It happens when the
chaincode is shorter than 31 bytes, because `chaincode[i]` is indexed up to
30.

The model follows the code as written. Where the code and the format's
description disagree, the code wins:

- the masking loops range over `[0:31]` and `[32:63]`, so byte 31 of both
  masked fields is never written and stays 0;
- the reserved-byte loop checks indices 67..78 only, so byte 79 is never
  inspected.

Corrected variants of both steps sit beside the as-written ones (see
Findings). The rest of the model uses the as-written members.

## Model

| member | source | states |
|---|---|---|
| PaymentCodes.Serialize | paynym.go:27-38 | the record is exactly 80 bytes: [0] version, [1] 0, [2] sign, [3..35) pubkey, [35..67) chaincode, [67..80) zero |
| PaymentCodes.ParseSerialize | paynym.go:27-38 | reading the fields back at their offsets gives the original code, so no field is lost or moved |
| PaymentCodes.SerializeParse | paynym.go:27-38 | an 80-byte payload is the serialization of its own fields if and only if its bitfield and all 13 reserved bytes are zero |
| PaymentCodes.SerializeInjective | paynym.go:27-38 | distinct codes serialize to distinct byte sequences |
| PaymentCodes.NotifyKeyBytes | paynym.go:29-32 | bytes [2..35) of a serialized code are the sign byte followed by the 32-byte pubkey |
| Masking.Obfuscate | paynym.go:62-67 | the range loop writes field[i] = chaincode[i] XOR mac[offset+i] for i < 31 and leaves byte 31 at 0 |
| Masking.UnmaskRecovers | paynym.go:62-67 | XOR-ing each of the 31 masked bytes again with the same MAC byte gives back the chaincode byte |
| Masking.MaskedFieldsCancelChaincode | paynym.go:62-67 | both fields are masked with the same chaincode, so pubkey[i] XOR chaincode[i] equals mac[i] XOR mac[32+i] whatever the chaincode was |
| Masking.LastByteDiscarded | paynym.go:62-67 | chaincodes that agree on their first 31 bytes give the same masked field, whatever byte 31 holds |
| Masking.LastByteDiscardedWitness | paynym.go:62-67 | two concrete chaincodes that differ at byte 31 mask to the same pubkey field and the same chaincode field |
| Masking.ObfuscateFull | paynym.go:62-67 | corrected loop: all 32 bytes are masked |
| Masking.FullMaskRecovers | paynym.go:62-67 | with the corrected loop, unmasking gives back all 32 chaincode bytes |
| Masking.FullMaskInjective | paynym.go:62-67 | with the corrected loop, distinct chaincodes give distinct fields |
| Generation.Generate | paynym.go:54-67 | panics exactly when the chaincode is shorter than 31 bytes; otherwise version is 1, sign is 2 or 3, sign is 3 exactly when y is odd, and both fields are 31-byte masks of the chaincode (pubkey with mac[0..31), chaincode with mac[32..63)) whose byte 31 is 0 |
| Generation.CreatePaynymAddress | paynym.go:42-71 | panics exactly when the chaincode is shorter than 31 bytes; otherwise the address is the encoding under tag 0x47 of an 80-byte payload d with d[0] = 1, d[1] = 0, d[2] = 3 if y is odd and 2 otherwise, d[3+i] = chaincode[i] XOR mac[i] and d[35+i] = chaincode[i] XOR mac[32+i] for i < 31, d[34] = d[66] = 0, and bytes 67..80 zero |
| Generation.GeneratedPayloadUnique | paynym.go:54-70 | that byte-by-byte description of the generated payload fixes every one of its 80 bytes |
| Generation.SerializedGeneratedPayload | paynym.go:54-70 | serializing the generated code gives exactly the payload described above |
| Generation.GeneratedAddressValidates | paynym.go:42-71 | if decoding inverts encoding, a generated address is accepted exactly when the key oracle accepts its sign byte and masked pubkey; this holds for both the as-written and the strict validator |
| Validation.ReservedBytesZero | paynym.go:124-128 | the loop returns true if and only if every byte in [b, end) is zero |
| Validation.ValidatePayload | paynym.go:99-130 | an 80-byte payload is accepted if and only if version is 1 or 2, bitfield is 0, sign is 2 or 3, the oracle accepts bytes [2..35), and bytes 67..78 are zero |
| Validation.IsPaynymAddress | paynym.go:74-131 | accepted if and only if decoding succeeds, the tag is 0x47, the payload is 80 bytes, and every field check holds |
| Validation.RejectsBadEnvelope | paynym.go:80-91 | a decode error, a tag other than 0x47, or a payload length other than 80 each cause rejection |
| Validation.RejectsBadField | paynym.go:99-128 | a bad version, a non-zero bitfield, a bad sign, an oracle rejection, or a non-zero byte among 67..78 each cause rejection |
| Validation.LastReservedByteIgnored | paynym.go:124-128 | overwriting byte 79 never changes the verdict |
| Validation.SerializedCodePassesByteChecks | paynym.go:99-128 | a serialized code with version 1 or 2 and sign 2 or 3 passes every byte check, so the verdict equals the oracle's verdict on [sign] + pubkey |
| Validation.AcceptsNonCanonicalPayload | paynym.go:124-128 | setting byte 79 of a valid serialization to 1 gives a payload that is still accepted but is not the serialization of its own fields |
| Validation.ValidatePayloadStrict | paynym.go:99-130 | corrected check: accepted if and only if the as-written checks hold and byte 79 is also zero |
| Validation.StrictAcceptsExactlySerializations | paynym.go:124-128 | with the corrected check, accepted payloads are exactly the serializations of codes with a valid version and sign whose [sign] + pubkey the oracle accepts |
| Validation.IsPaynymAddressStrict | paynym.go:74-131 | corrected validator: accepts if and only if the as-written validator accepts and byte 79 of the payload is zero |

## Left out

- Base58check encoding and decoding (paynym.go:71, 80) are a library. They are the parameters `checkEncode` and `checkDecode`. Their only assumed property is the round-trip law `Generation.CodecRoundTrips`. The checksum-corruption and concrete-address properties depend on the library, so they are not stated.
- HMAC-SHA512 keyed by the decimal rendering of the shared point's x-coordinate (paynym.go:50-51) is a cryptographic primitive. Its 64-byte output is the input `mac`.
- `Curve.ScalarMult` and the `big.Int` conversions (paynym.go:44-48) are elliptic-curve library code. Only the resulting y-coordinate is an input, and only its low bit is used. Note the call shape in the source: the sender and recipient byte strings are passed as point coordinates, and the scalar is 33 zero bytes. A zero scalar times any point is the identity point, so the shared point, and with it the sign byte and the HMAC key, would be the same for every input, leaving the masks dependent on the outpoint alone. This follows from the curve library's behaviour, which is not part of this model, so it is not proved; leaving `secPointY` and `mac` free covers it, as it covers every other value they could take.
- `btcutil.NewAddressPubKey` and `IsForNet` (paynym.go:115-122) are a library key parser and network check. Together they are the single oracle `pubKeyOk` on the 33 bytes [2..35).
- `main` and printing (paynym.go:133-144) are I/O with a hard-coded demo address.
- Go's determinism of `create_paynym_address` needs no statement: Dafny functions are deterministic by construction.

## Findings

| source | as written | input that shows it | evidently intended | confidence | as-written member | corrected member |
|---|---|---|---|---|---|---|
| paynym.go:124 | the reserved-byte loop stops at `b < 79`, so byte 79 of the 13 reserved bytes is never checked | any valid payload with byte 79 set to 1 is accepted | all 13 reserved bytes must be zero, so accepted payloads are exactly serializations | high; not executed | Validation.AcceptsNonCanonicalPayload | Validation.StrictAcceptsExactlySerializations |
| paynym.go:62, 65 | the masks are slices `[32:63]` and `[0:31]`, 31 bytes each, so byte 31 of both fields is 0 and chaincode byte 31 is dropped | chaincodes of 32 zero bytes and of 31 zero bytes followed by 1 give the same pubkey field and the same chaincode field | 32-byte masks `[32:64]` and `[0:32]`, so the whole chaincode can be recovered | high; not executed | Masking.LastByteDiscardedWitness | Masking.FullMaskInjective |
