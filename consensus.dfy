/** The part of Bitcoin's consensus serialization the index depends on: the
    byte layout of a transaction input (whose SHA-256 is the index key) and
    the witness-free transaction layout whose double SHA-256 is the txid.
    Deserialization of whole transactions and blocks belongs to the
    rust-bitcoin library and enters the model as a parameter (see Streams). */
module Consensus {
  import opened Wrappers
  import opened Bytes

  /** A reference to the output being spent. */
  datatype OutPoint = OutPoint(txid: Digest, vout: u32)

  /** A transaction input. The witness is carried but, as in rust-bitcoin,
      is not part of the input's consensus encoding. */
  datatype TxIn = TxIn(previousOutput: OutPoint, scriptSig: seq<byte>, sequence: u32, witnessStack: seq<seq<byte>>)

  datatype TxOut = TxOut(value: u64, scriptPubkey: seq<byte>)

  datatype Transaction = Transaction(version: i32, lockTime: u32, input: seq<TxIn>, output: seq<TxOut>)

  /** A decoded block; the header is kept as raw bytes since nothing here reads it. */
  datatype Block = Block(header: seq<byte>, txdata: seq<Transaction>)

  /** The library's `encode::Error`, kept abstract. */
  datatype DecodeError = DecodeError(reason: string)

  const COMPACT_U16: byte := 0xFD
  const COMPACT_U32: byte := 0xFE
  const COMPACT_U64: byte := 0xFF

  /** Bitcoin's variable-length integer ("CompactSize", rust-bitcoin's
      `VarInt`). Lengths of in-memory vectors always fit in 64 bits; beyond
      that the last branch keeps the low 64 bits. */
  function CompactSize(n: nat): (r: seq<byte>)
    ensures 1 <= |r| <= 9
    ensures |r| == 1 <==> n < 0xFD
    ensures |r| == 3 <==> 0xFD <= n <= 0xFFFF
    ensures |r| == 5 <==> 0x1_0000 <= n <= 0xFFFF_FFFF
    ensures |r| == 9 <==> 0x1_0000_0000 <= n
    ensures n < 0xFD ==> r == [n as byte]
    ensures n >= 0xFD ==> r[0] >= 0xFD
  {
    if n < 0xFD then [n]
    else if n <= 0xFFFF then [COMPACT_U16] + LeBytes(n, 2)
    else if n <= 0xFFFF_FFFF then [COMPACT_U32] + LeBytes(n, 4)
    else [COMPACT_U64] + LeBytes(n, 8)
  }

  /** Reads a CompactSize from the front of `s`; the inverse of CompactSize. */
  function ReadCompactSize(s: seq<byte>): Option<(nat, seq<byte>)>
  {
    if |s| == 0 then None
    else if s[0] < 0xFD then Some((s[0], s[1..]))
    else
      var width := if s[0] == COMPACT_U16 then 2 else if s[0] == COMPACT_U32 then 4 else 8;
      if |s| < 1 + width then None else Some((LeValue(s[1..1 + width]), s[1 + width..]))
  }

  lemma CompactSizeRoundTrip(n: nat, rest: seq<byte>)
    requires n < 0x1_0000_0000_0000_0000
    ensures ReadCompactSize(CompactSize(n) + rest) == Some((n, rest))
  {
    var s := CompactSize(n) + rest;
    if n >= 0xFD {
      var width := if n <= 0xFFFF then 2 else if n <= 0xFFFF_FFFF then 4 else 8;
      assert Pow256(2) == 0x1_0000 && Pow256(4) == 0x1_0000_0000;
      assert Pow256(8) == 0x1_0000_0000_0000_0000;
      LeRoundTrip(n, width);
      assert s[1..1 + width] == LeBytes(n, width);
      assert s[1 + width..] == rest;
    } else {
      assert s[1..] == rest;
    }
  }

  /** The consensus encoding of an input (`TxIn::consensus_encode`):
      previous txid (32 bytes), output index (4 bytes LE), script length as
      a CompactSize, the script, sequence number (4 bytes LE). */
  function EncodeTxIn(input: TxIn): (r: seq<byte>)
    ensures |r| == 40 + |CompactSize(|input.scriptSig|)| + |input.scriptSig|
    ensures r[..DIGEST_LEN] == input.previousOutput.txid
  {
    input.previousOutput.txid
      + LeBytes(input.previousOutput.vout, 4)
      + CompactSize(|input.scriptSig|)
      + input.scriptSig
      + LeBytes(input.sequence, 4)
  }

  /** The fields of an input that its consensus encoding carries. */
  function Canonical(input: TxIn): TxIn
  {
    input.(witnessStack := [])
  }

  /** Reads one input from the front of `s`; the inverse of EncodeTxIn. */
  function ReadTxIn(s: seq<byte>): Option<(TxIn, seq<byte>)>
  {
    if |s| < 36 then None
    else
      var txid: Digest := s[..32];
      var vout := LeValue(s[32..36]);
      assert vout < Pow256(4) == 0x1_0000_0000;
      match ReadCompactSize(s[36..])
      case None => None
      case Some((len, afterLen)) =>
        if |afterLen| < len + 4 then None
        else
          var sequence := LeValue(afterLen[len..len + 4]);
          assert sequence < Pow256(4) == 0x1_0000_0000;
          Some((TxIn(OutPoint(txid, vout), afterLen[..len], sequence, []), afterLen[len + 4..]))
  }

  /** Decoding an encoded input gives back its encoded fields and leaves
      whatever followed it untouched. */
  lemma TxInRoundTrip(input: TxIn, rest: seq<byte>)
    requires |input.scriptSig| < 0x1_0000_0000_0000_0000
    ensures ReadTxIn(EncodeTxIn(input) + rest) == Some((Canonical(input), rest))
  {
    var s := EncodeTxIn(input) + rest;
    var script := input.scriptSig;
    var cs := CompactSize(|script|);
    var tail := script + LeBytes(input.sequence, 4) + rest;
    assert s[..32] == input.previousOutput.txid;
    assert s[32..36] == LeBytes(input.previousOutput.vout, 4);
    assert Pow256(4) == 0x1_0000_0000;
    LeRoundTrip(input.previousOutput.vout, 4);
    assert s[36..] == cs + tail;
    CompactSizeRoundTrip(|script|, tail);
    assert tail[..|script|] == script;
    assert tail[|script|..|script| + 4] == LeBytes(input.sequence, 4);
    LeRoundTrip(input.sequence, 4);
    assert tail[|script| + 4..] == rest;
  }

  /** Two inputs have the same consensus encoding exactly when they agree on
      the previous output, the unlock script and the sequence number; the
      witness and everything about the owning transaction play no part. */
  lemma EncodeTxInInjective(a: TxIn, b: TxIn)
    requires |a.scriptSig| < 0x1_0000_0000_0000_0000 && |b.scriptSig| < 0x1_0000_0000_0000_0000
    ensures EncodeTxIn(a) == EncodeTxIn(b) <==>
              a.previousOutput == b.previousOutput && a.scriptSig == b.scriptSig && a.sequence == b.sequence
  {
    if EncodeTxIn(a) == EncodeTxIn(b) {
      TxInRoundTrip(a, []);
      TxInRoundTrip(b, []);
      assert EncodeTxIn(a) + [] == EncodeTxIn(a);
      assert EncodeTxIn(b) + [] == EncodeTxIn(b);
    }
  }

  function EncodeInputs(inputs: seq<TxIn>): seq<byte>
  {
    if inputs == [] then [] else EncodeTxIn(inputs[0]) + EncodeInputs(inputs[1..])
  }

  function EncodeTxOut(output: TxOut): seq<byte>
  {
    LeBytes(output.value, 8) + CompactSize(|output.scriptPubkey|) + output.scriptPubkey
  }

  function EncodeOutputs(outputs: seq<TxOut>): seq<byte>
  {
    if outputs == [] then [] else EncodeTxOut(outputs[0]) + EncodeOutputs(outputs[1..])
  }

  /** The witness-free serialization of a transaction; the version is an
      `i32` written in two's complement. */
  function SerializeLegacy(tx: Transaction): seq<byte>
  {
    LeBytes(tx.version % U32_MODULUS, 4)
      + CompactSize(|tx.input|) + EncodeInputs(tx.input)
      + CompactSize(|tx.output|) + EncodeOutputs(tx.output)
      + LeBytes(tx.lockTime, 4)
  }

  /** `Transaction::txid`: double SHA-256 of the witness-free serialization,
      in the digest's own (internal) byte order. */
  function Txid(sha256: seq<byte> -> Digest, tx: Transaction): (r: Digest)
    ensures r == sha256(sha256(SerializeLegacy(tx.(input := StripWitnesses(tx.input)))))
  {
    EncodeInputsIgnoresWitness(tx.input);
    sha256(sha256(SerializeLegacy(tx)))
  }

  function StripWitnesses(inputs: seq<TxIn>): (r: seq<TxIn>)
    ensures |r| == |inputs|
    ensures forall i :: 0 <= i < |inputs| ==> r[i] == Canonical(inputs[i])
  {
    if inputs == [] then [] else [Canonical(inputs[0])] + StripWitnesses(inputs[1..])
  }

  lemma {:induction false} EncodeInputsIgnoresWitness(inputs: seq<TxIn>)
    ensures EncodeInputs(StripWitnesses(inputs)) == EncodeInputs(inputs)
  {
    if inputs != [] {
      EncodeInputsIgnoresWitness(inputs[1..]);
      assert StripWitnesses(inputs)[1..] == StripWitnesses(inputs[1..]);
    }
  }

  /** Witness data does not affect the txid. */
  lemma TxidIgnoresWitness(sha256: seq<byte> -> Digest, tx: Transaction)
    ensures Txid(sha256, tx.(input := StripWitnesses(tx.input))) == Txid(sha256, tx)
  {
    EncodeInputsIgnoresWitness(tx.input);
  }
}
