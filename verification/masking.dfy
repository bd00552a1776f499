/** The obfuscation loops of `create_paynym_address`: XOR of the caller's
    chaincode with two slices of the 64-byte HMAC-SHA512 output.

    The loops range over `mac[0:31]` and `mac[32:63]`, which are 31 bytes
    each, so only indices 0..30 of a 32-byte field are written and index 31
    keeps Go's zero value. */
module Masking {
  import opened Bytes

  const MacLength: nat := 64

  /** Bytes each of the source's loops writes. */
  const MaskedWidth: nat := 31

  /** The HMAC-SHA512 output: always 64 bytes. */
  type Mac = s: seq<byte> | |s| == MacLength witness Zeros(MacLength)

  /** The field the source's loop leaves behind when it masks `source` with
      `mac[offset:offset+31]`. */
  function MaskField(source: seq<byte>, mac: Mac, offset: nat): Bytes32
    requires |source| >= MaskedWidth && offset + MaskedWidth <= MacLength
  {
    seq(32, i requires 0 <= i < 32 => if i < MaskedWidth then source[i] ^ mac[offset + i] else 0)
  }

  /** `field` is `source` masked with the 31 MAC bytes from `offset` on, and
      its last byte was never written. */
  predicate MaskedWith(field: seq<byte>, source: seq<byte>, mac: Mac, offset: nat)
  {
    && |field| == 32
    && |source| >= MaskedWidth
    && offset + MaskedWidth <= MacLength
    && (forall i :: 0 <= i < MaskedWidth ==> field[i] == source[i] ^ mac[offset + i])
    && field[31] == 0
  }

  /** One of the source's two range loops over a 31-byte slice of the MAC,
      writing into a zero-initialised `[32]byte`. */
  method Obfuscate(source: seq<byte>, mac: Mac, offset: nat) returns (field: Bytes32)
    requires |source| >= MaskedWidth && offset + MaskedWidth <= MacLength
    ensures MaskedWith(field, source, mac, offset)
    ensures field == MaskField(source, mac, offset)
  {
    var out := Zeros(32);
    var i := 0;
    while i < MaskedWidth
      invariant 0 <= i <= MaskedWidth
      invariant |out| == 32
      invariant forall k :: 0 <= k < i ==> out[k] == source[k] ^ mac[offset + k]
      invariant forall k :: i <= k < 32 ==> out[k] == 0
    {
      out := out[i := source[i] ^ mac[offset + i]];
      i := i + 1;
    }
    field := out;
  }

  /** `MaskField` is the field the loop produces. */
  lemma MaskFieldMasks(source: seq<byte>, mac: Mac, offset: nat)
    requires |source| >= MaskedWidth && offset + MaskedWidth <= MacLength
    ensures MaskedWith(MaskField(source, mac, offset), source, mac, offset)
  {
  }

  /** XOR-ing a masked byte again with the same MAC byte gives back the
      chaincode byte, for each of the 31 written positions. */
  lemma UnmaskRecovers(field: seq<byte>, source: seq<byte>, mac: Mac, offset: nat)
    requires MaskedWith(field, source, mac, offset)
    ensures forall i :: 0 <= i < MaskedWidth ==> field[i] ^ mac[offset + i] == source[i]
  {
  }

  /** Both fields are masked with the SAME chaincode, so XOR-ing them
      cancels it: the pair reveals `mac[i] ^ mac[32 + i]` whatever the
      chaincode was. */
  lemma MaskedFieldsCancelChaincode(pubkey: seq<byte>, chaincode: seq<byte>, source: seq<byte>, mac: Mac)
    requires MaskedWith(pubkey, source, mac, 0)
    requires MaskedWith(chaincode, source, mac, 32)
    ensures forall i :: 0 <= i < MaskedWidth ==> pubkey[i] ^ chaincode[i] == mac[i] ^ mac[32 + i]
  {
  }

  /** As written, the mask discards byte 31 of the chaincode: two chaincodes
      that agree on their first 31 bytes give the same field, however their
      byte 31 differs. */
  lemma LastByteDiscarded(f1: seq<byte>, s1: seq<byte>, f2: seq<byte>, s2: seq<byte>, mac: Mac, offset: nat)
    requires MaskedWith(f1, s1, mac, offset) && MaskedWith(f2, s2, mac, offset)
    requires s1[..MaskedWidth] == s2[..MaskedWidth]
    ensures f1 == f2
  {
  }

  /** A concrete pair of chaincodes that differ (at byte 31) yet mask to the
      same pubkey field and the same chaincode field. */
  lemma LastByteDiscardedWitness(mac: Mac)
    ensures var s1, s2 := Zeros(32), Zeros(31) + [1];
            && s1 != s2
            && MaskField(s1, mac, 0) == MaskField(s2, mac, 0)
            && MaskField(s1, mac, 32) == MaskField(s2, mac, 32)
  {
    var s1, s2 := Zeros(32), Zeros(31) + [1];
    assert s1[31] != s2[31];
  }

  /** The evidently intended mask: all 32 bytes, `mac[offset:offset+32]`. */
  predicate FullyMaskedWith(field: seq<byte>, source: seq<byte>, mac: Mac, offset: nat)
  {
    && |field| == 32
    && |source| >= 32
    && offset + 32 <= MacLength
    && forall i :: 0 <= i < 32 ==> field[i] == source[i] ^ mac[offset + i]
  }

  /** The 32-byte loop the source evidently intended. */
  method ObfuscateFull(source: seq<byte>, mac: Mac, offset: nat) returns (field: Bytes32)
    requires |source| >= 32 && offset + 32 <= MacLength
    ensures FullyMaskedWith(field, source, mac, offset)
  {
    var out := Zeros(32);
    var i := 0;
    while i < 32
      invariant 0 <= i <= 32
      invariant |out| == 32
      invariant forall k :: 0 <= k < i ==> out[k] == source[k] ^ mac[offset + k]
    {
      out := out[i := source[i] ^ mac[offset + i]];
      i := i + 1;
    }
    field := out;
  }

  /** With the full mask the whole chaincode comes back out: unmasking the
      field with the same MAC bytes returns every one of its 32 bytes. */
  lemma FullMaskRecovers(field: seq<byte>, source: seq<byte>, mac: Mac, offset: nat)
    requires FullyMaskedWith(field, source, mac, offset)
    ensures forall i :: 0 <= i < 32 ==> field[i] ^ mac[offset + i] == source[i]
  {
  }

  /** Hence with the full mask, distinct chaincodes give distinct fields. */
  lemma FullMaskInjective(f1: seq<byte>, s1: seq<byte>, f2: seq<byte>, s2: seq<byte>, mac: Mac, offset: nat)
    requires FullyMaskedWith(f1, s1, mac, offset) && FullyMaskedWith(f2, s2, mac, offset)
    requires f1 == f2
    ensures s1[..32] == s2[..32]
  {
  }
}
