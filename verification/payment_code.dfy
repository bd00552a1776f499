/** The 80-byte payment-code payload (`PaymentCode` and its `Bytes()` method
    in paynym.go).

    Layout of the serialized record:
      offset  0       version
      offset  1       bitfield, always written as 0
      offset  2       sign
      offsets 3..35   pubkey (32 bytes)
      offsets 35..67  chaincode (32 bytes)
      offsets 67..80  reserved, 13 bytes written as 0 */
module PaymentCodes {
  import opened Bytes

  const PayloadLength: nat := 80
  const ReservedLength: nat := 13

  datatype Option<T> = None | Some(value: T)

  /** The four fields the Go struct carries; bitfield and reserved bytes
      are not stored, they are always serialized as zero. */
  datatype PaymentCode = PaymentCode(version: byte, sign: byte, pubkey: Bytes32, chaincode: Bytes32)

  /** `PaymentCode.Bytes()`: lays the fields out at fixed offsets. */
  function Serialize(p: PaymentCode): (r: seq<byte>)
    ensures |r| == PayloadLength
    ensures r[0] == p.version && r[1] == 0 && r[2] == p.sign
    ensures r[3..35] == p.pubkey
    ensures r[35..67] == p.chaincode
    ensures ZeroBetween(r, 67, 80)
  {
    [p.version, 0, p.sign] + p.pubkey + p.chaincode + Zeros(ReservedLength)
  }

  /** Reads the fields back out of a payload at the offsets the validator
      indexes; any 80-byte sequence parses, nothing else does. */
  function Parse(b: seq<byte>): Option<PaymentCode>
  {
    if |b| != PayloadLength then None
    else Some(PaymentCode(b[0], b[2], b[3..35], b[35..67]))
  }

  /** Parsing inverts serialization: no field is lost or moved. */
  lemma ParseSerialize(p: PaymentCode)
    ensures Parse(Serialize(p)) == Some(p)
  {
  }

  /** Serialization inverts parsing exactly on the payloads whose bitfield
      and 13 reserved bytes are zero: those are the only bytes `Serialize`
      does not take from a field. */
  lemma SerializeParse(b: seq<byte>)
    requires |b| == PayloadLength
    ensures Serialize(Parse(b).value) == b <==> b[1] == 0 && ZeroBetween(b, 67, 80)
  {
  }

  /** Two codes with the same serialization are the same code. */
  lemma SerializeInjective(p: PaymentCode, q: PaymentCode)
    requires Serialize(p) == Serialize(q)
    ensures p == q
  {
  }

  /** The 33 bytes `[2..35)` the validator hands to the public-key parser are
      the sign byte followed by the whole pubkey field. */
  lemma NotifyKeyBytes(p: PaymentCode)
    ensures Serialize(p)[2..35] == [p.sign] + p.pubkey
  {
  }
}
