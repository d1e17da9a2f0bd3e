/** The byte encodings that are hashed and signed, and decoders that undo them. */
module Encoding {
  import opened Primitives
  import opened Types

  /** `n` as `width` bytes, least significant first. */
  function LittleEndian(n: nat, width: nat): (b: Bytes)
    ensures |b| == width
  {
    if width == 0 then [] else [n % 256] + LittleEndian(n / 256, width - 1)
  }

  function FromLittleEndian(b: Bytes): nat {
    if b == [] then 0 else b[0] + 256 * FromLittleEndian(b[1..])
  }

  function Pow256(n: nat): nat {
    if n == 0 then 1 else 256 * Pow256(n - 1)
  }

  lemma {:induction false} LittleEndianRoundTrip(n: nat, width: nat)
    requires n < Pow256(width)
    ensures FromLittleEndian(LittleEndian(n, width)) == n
  {
    if width > 0 {
      LittleEndianRoundTrip(n / 256, width - 1);
      assert LittleEndian(n, width)[1..] == LittleEndian(n / 256, width - 1);
    }
  }

  /** A field read as a number; encodings never exceed the u64 range. */
  function ReadU64(b: Bytes): u64 {
    FromLittleEndian(b) % TWO64
  }

  lemma WordRoundTrip(n: u64)
    ensures ReadU64(LittleEndian(n, 8)) == FromLittleEndian(LittleEndian(n, 8)) == n
    ensures n < 0x1_0000_0000 ==> FromLittleEndian(LittleEndian(n, 4)) == n
  {
    assert Pow256(2) == 0x1_0000;
    assert Pow256(4) == 0x1_0000_0000;
    assert Pow256(6) == 0x1_0000_0000_0000;
    assert Pow256(8) == TWO64;
    LittleEndianRoundTrip(n, 8);
    if n < 0x1_0000_0000 { LittleEndianRoundTrip(n, 4); }
  }

  lemma ByteRoundTrip(b: byte)
    ensures ReadU64([b]) == b
  {
    assert [b][1..] == [];
    assert FromLittleEndian([b]) == b + 256 * FromLittleEndian([]);
  }

  // ---- Fields laid end to end ----

  function Flatten(fields: seq<Bytes>): Bytes {
    if fields == [] then [] else fields[0] + Flatten(fields[1..])
  }

  function Total(widths: seq<nat>): nat {
    if widths == [] then 0 else widths[0] + Total(widths[1..])
  }

  function Split(b: Bytes, widths: seq<nat>): (fields: seq<Bytes>)
    requires Total(widths) <= |b|
    ensures |fields| == |widths|
  {
    if widths == [] then [] else [b[..widths[0]]] + Split(b[widths[0]..], widths[1..])
  }

  predicate HasWidths(fields: seq<Bytes>, widths: seq<nat>) {
    |fields| == |widths| && forall i :: 0 <= i < |fields| ==> |fields[i]| == widths[i]
  }

  /** Fixed-width fields can be read back, and what follows them is found after their total width. */
  lemma {:induction false} SplitFlatten(fields: seq<Bytes>, widths: seq<nat>, tail: Bytes)
    requires HasWidths(fields, widths)
    ensures |Flatten(fields)| == Total(widths)
    ensures Split(Flatten(fields) + tail, widths) == fields
    ensures (Flatten(fields) + tail)[Total(widths)..] == tail
  {
    if fields != [] {
      var first, rest := fields[0], Flatten(fields[1..]) + tail;
      SplitFlatten(fields[1..], widths[1..], tail);
      assert Flatten(fields) + tail == first + rest;
      Divide(first, rest, Total(widths[1..]));
    }
  }

  lemma Divide(first: Bytes, rest: Bytes, n: nat)
    requires n <= |rest|
    ensures (first + rest)[..|first|] == first && (first + rest)[|first|..] == rest
    ensures (first + rest)[|first| + n..] == rest[n..]
  {
  }

  lemma {:induction false} FlattenNext(fields: seq<Bytes>, n: nat)
    requires n < |fields|
    ensures Flatten(fields[..n + 1]) == Flatten(fields[..n]) + fields[n]
  {
    if n == 0 {
      assert fields[..1][1..] == [];
    } else {
      FlattenNext(fields[1..], n - 1);
      assert fields[..n + 1][1..] == fields[1..][..n] && fields[..n][1..] == fields[1..][..n - 1];
    }
  }

  /** Appending the fields one by one, as the encoders do. */
  lemma FlattenInOrder(f: seq<Bytes>)
    ensures |f| == 6 ==> Flatten(f) == f[0] + f[1] + f[2] + f[3] + f[4] + f[5]
    ensures |f| == 9 ==> Flatten(f) == f[0] + f[1] + f[2] + f[3] + f[4] + f[5] + f[6] + f[7] + f[8]
  {
    hide Flatten;
    if |f| == 6 || |f| == 9 {
      assert Flatten(f[..1]) == f[0] by { FlattenOne(f[..1]); }
      FlattenNext(f, 1);
      FlattenNext(f, 2);
      FlattenNext(f, 3);
      FlattenNext(f, 4);
      FlattenNext(f, 5);
      assert Flatten(f[..6]) == f[0] + f[1] + f[2] + f[3] + f[4] + f[5];
      if |f| == 9 {
        FlattenNext(f, 6);
        FlattenNext(f, 7);
        FlattenNext(f, 8);
      }
      assert f[..|f|] == f;
    }
  }

  lemma FlattenOne(f: seq<Bytes>)
    requires |f| == 1
    ensures Flatten(f) == f[0]
  {
    assert f[1..] == [];
  }

  // ---- Block headers ----

  const HEADER_WIDTHS: seq<nat> := [8, 32, 8, 32, 8, 8]

  /** Keys and hashes are 32 bytes wide. */
  predicate SizedHeader(h: Header) {
    |h.prevHash| == 32 && |h.miner| == 32
  }

  function HeaderFields(h: Header): seq<Bytes> {
    [LittleEndian(h.index, 8), h.prevHash, LittleEndian(h.timestamp, 8), h.miner,
     LittleEndian(h.nonce, 8), LittleEndian(h.reward, 8)]
  }

  function HeaderBytes(h: Header): Bytes {
    Flatten(HeaderFields(h))
  }

  /** The header whose encoding is `b`. */
  function DecodeHeader(b: Bytes): Option<Header> {
    if |b| != Total(HEADER_WIDTHS) then None
    else
      var f := Split(b, HEADER_WIDTHS);
      Some(Header(ReadU64(f[0]), f[1], ReadU64(f[2]), f[3], ReadU64(f[4]), ReadU64(f[5])))
  }

  method HashInput(h: Header) returns (data: Bytes)
    ensures data == HeaderBytes(h)
  {
    FlattenInOrder(HeaderFields(h));
    data := LittleEndian(h.index, 8);
    data := data + h.prevHash;
    data := data + LittleEndian(h.timestamp, 8);
    data := data + h.miner;
    data := data + LittleEndian(h.nonce, 8);
    data := data + LittleEndian(h.reward, 8);
  }

  lemma HeaderRoundTrip(h: Header)
    requires SizedHeader(h)
    ensures |HeaderBytes(h)| == 96
    ensures DecodeHeader(HeaderBytes(h)) == Some(h)
  {
    hide Flatten, Split, Total, LittleEndian, ReadU64;
    HeaderTotal();
    var f := HeaderFields(h);
    SplitFlatten(f, HEADER_WIDTHS, []);
    assert Flatten(f) + [] == Flatten(f);
    WordRoundTrip(h.index);
    WordRoundTrip(h.timestamp);
    WordRoundTrip(h.nonce);
    WordRoundTrip(h.reward);
  }

  lemma HeaderTotal()
    ensures Total(HEADER_WIDTHS) == 96
  {
    assert HEADER_WIDTHS[1..] == [32, 8, 32, 8, 8];
    assert HEADER_WIDTHS[2..] == [8, 32, 8, 8];
    assert Total([8, 32, 8, 8]) == 56 by {
      assert [8, 32, 8, 8][1..] == [32, 8, 8];
      assert [32, 8, 8][1..] == [8, 8];
      assert [8, 8][1..] == [8];
    }
    assert [32, 8, 32, 8, 8][1..] == [8, 32, 8, 8];
  }

  /** Where each header field lies in the 96 hashed bytes. */
  lemma HeaderLayout(h: Header)
    requires SizedHeader(h)
    ensures var b := HeaderBytes(h);
      && |b| == 96
      && b[..8] == LittleEndian(h.index, 8) && b[8..40] == h.prevHash && b[40..48] == LittleEndian(h.timestamp, 8)
      && b[48..80] == h.miner && b[80..88] == LittleEndian(h.nonce, 8) && b[88..] == LittleEndian(h.reward, 8)
  {
    hide Flatten, LittleEndian;
    FlattenInOrder(HeaderFields(h));
  }

  lemma HeaderBytesInjective(h1: Header, h2: Header)
    requires SizedHeader(h1) && SizedHeader(h2) && HeaderBytes(h1) == HeaderBytes(h2)
    ensures h1 == h2
  {
    HeaderRoundTrip(h1);
    HeaderRoundTrip(h2);
  }

  // ---- Transactions ----

  const TX_WIDTHS: seq<nat> := [1, 32, 32, 8, 8, 8, 8, 32, 1]

  predicate SizedTx(tx: Transaction) {
    |tx.sender| == 32 && |tx.recipient| == 32 && |tx.prevTxHash| == 32 && |tx.poscProof| == 32 && |tx.signature| == 64
  }

  /** The fixed fields; the last one is the memo length cut to eight bits. */
  function TxFields(tx: Transaction): seq<Bytes> {
    [[tx.version], tx.sender, tx.recipient, LittleEndian(tx.amount, 8), LittleEndian(tx.fee, 8),
     LittleEndian(tx.sequence, 8), LittleEndian(tx.timestampMs, 8), tx.prevTxHash, [|tx.data| % 256]]
  }

  function PoscBytes(tx: Transaction): Bytes {
    Flatten(TxFields(tx)) + tx.data
  }

  function SigningBytes(tx: Transaction): Bytes {
    PoscBytes(tx) + tx.poscProof + LittleEndian(tx.poscSteps, 4)
  }

  function HashBytes(tx: Transaction): Bytes {
    SigningBytes(tx) + tx.signature
  }

  /** Everything before the proof. The memo is what is left after the fixed fields, whatever the length byte says. */
  function DecodePosc(b: Bytes): Option<Transaction> {
    if |b| < Total(TX_WIDTHS) then None
    else
      var f := Split(b, TX_WIDTHS);
      Some(Transaction(
        ReadU64(f[0]) % 256, f[1], f[2], ReadU64(f[3]), ReadU64(f[4]), ReadU64(f[5]), ReadU64(f[6]), f[7],
        b[Total(TX_WIDTHS)..], [], 0, []))
  }

  function DecodeSigning(b: Bytes): Option<Transaction> {
    if |b| < 36 then None
    else
      match DecodePosc(b[..|b| - 36])
      case None => None
      case Some(tx) =>
        var proof := b[|b| - 36..];
        Some(tx.(poscProof := proof[..32], poscSteps := FromLittleEndian(proof[32..]) % 0x1_0000_0000))
  }

  function DecodeHash(b: Bytes): Option<Transaction> {
    if |b| < 64 then None
    else
      match DecodeSigning(b[..|b| - 64])
      case None => None
      case Some(tx) => Some(tx.(signature := b[|b| - 64..]))
  }

  method ToBytesForPosc(tx: Transaction) returns (buf: Bytes)
    ensures buf == PoscBytes(tx)
  {
    FlattenInOrder(TxFields(tx));
    buf := [tx.version];
    buf := buf + tx.sender;
    buf := buf + tx.recipient;
    buf := buf + LittleEndian(tx.amount, 8);
    buf := buf + LittleEndian(tx.fee, 8);
    buf := buf + LittleEndian(tx.sequence, 8);
    buf := buf + LittleEndian(tx.timestampMs, 8);
    buf := buf + tx.prevTxHash;
    buf := buf + [|tx.data| % 256];
    buf := buf + tx.data;
  }

  method ToBytesForSigning(tx: Transaction) returns (buf: Bytes)
    ensures buf == SigningBytes(tx)
  {
    buf := ToBytesForPosc(tx);
    buf := buf + tx.poscProof;
    buf := buf + LittleEndian(tx.poscSteps, 4);
  }

  method ToBytesForHash(tx: Transaction) returns (buf: Bytes)
    ensures buf == HashBytes(tx)
  {
    buf := ToBytesForSigning(tx);
    buf := buf + tx.signature;
  }

  lemma TxTotal()
    ensures Total(TX_WIDTHS) == 130
  {
    assert TX_WIDTHS[1..] == [32, 32, 8, 8, 8, 8, 32, 1];
    assert [32, 32, 8, 8, 8, 8, 32, 1][1..] == [32, 8, 8, 8, 8, 32, 1];
    assert [32, 8, 8, 8, 8, 32, 1][1..] == [8, 8, 8, 8, 32, 1];
    assert [8, 8, 8, 8, 32, 1][1..] == [8, 8, 8, 32, 1];
    assert [8, 8, 8, 32, 1][1..] == [8, 8, 32, 1];
    assert [8, 8, 32, 1][1..] == [8, 32, 1];
    assert [8, 32, 1][1..] == [32, 1];
    assert [32, 1][1..] == [1];
    assert Total([32, 1]) == 33;
    assert Total([8, 8, 32, 1]) == 49;
    assert Total([8, 8, 8, 8, 32, 1]) == 65;
    assert Total([32, 32, 8, 8, 8, 8, 32, 1]) == 129;
  }

  /** Reading back the fields before the proof, for a memo of any length. */
  lemma PoscRoundTrip(tx: Transaction)
    requires SizedTx(tx)
    ensures |PoscBytes(tx)| == 130 + |tx.data|
    ensures DecodePosc(PoscBytes(tx)) == Some(tx.(poscProof := [], poscSteps := 0, signature := []))
  {
    hide Flatten, Split, Total, LittleEndian, ReadU64;
    TxTotal();
    var f := TxFields(tx);
    SplitFlatten(f, TX_WIDTHS, tx.data);
    ByteRoundTrip(tx.version);
    WordRoundTrip(tx.amount);
    WordRoundTrip(tx.fee);
    WordRoundTrip(tx.sequence);
    WordRoundTrip(tx.timestampMs);
  }

  lemma SigningRoundTrip(tx: Transaction)
    requires SizedTx(tx)
    ensures |SigningBytes(tx)| == 166 + |tx.data|
    ensures DecodeSigning(SigningBytes(tx)) == Some(tx.(signature := []))
  {
    hide PoscBytes, DecodePosc, FromLittleEndian;
    PoscRoundTrip(tx);
    var posc, proof := PoscBytes(tx), tx.poscProof + LittleEndian(tx.poscSteps, 4);
    assert SigningBytes(tx) == posc + proof;
    assert (posc + proof)[..|posc|] == posc && (posc + proof)[|posc|..] == proof;
    assert proof[..32] == tx.poscProof && proof[32..] == LittleEndian(tx.poscSteps, 4);
    WordRoundTrip(tx.poscSteps);
  }

  /** A whole transaction is recovered from the bytes that are hashed. */
  lemma HashRoundTrip(tx: Transaction)
    requires SizedTx(tx)
    ensures |HashBytes(tx)| == 230 + |tx.data|
    ensures DecodeHash(HashBytes(tx)) == Some(tx)
  {
    hide SigningBytes, DecodeSigning;
    SigningRoundTrip(tx);
    var signed := SigningBytes(tx);
    assert (signed + tx.signature)[..|signed|] == signed && (signed + tx.signature)[|signed|..] == tx.signature;
  }

  /** Where each field of a transaction lies in the hashed bytes; the shorter encodings are prefixes of them. */
  lemma TxLayout(tx: Transaction)
    requires SizedTx(tx)
    ensures var b, n := HashBytes(tx), |tx.data|;
      && |b| == 230 + n && PoscBytes(tx) == b[..130 + n] && SigningBytes(tx) == b[..166 + n]
      && b[0] == tx.version && b[1..33] == tx.sender && b[33..65] == tx.recipient
      && b[65..73] == LittleEndian(tx.amount, 8) && b[73..81] == LittleEndian(tx.fee, 8)
      && b[81..89] == LittleEndian(tx.sequence, 8) && b[89..97] == LittleEndian(tx.timestampMs, 8)
      && b[97..129] == tx.prevTxHash && b[129] == n % 256 && b[130..130 + n] == tx.data
      && b[130 + n..162 + n] == tx.poscProof && b[162 + n..166 + n] == LittleEndian(tx.poscSteps, 4)
      && b[166 + n..] == tx.signature
  {
    hide Flatten, LittleEndian;
    FlattenInOrder(TxFields(tx));
  }

  /** All three encodings are injective on what they cover, although the length byte reads 0 for a 256-byte memo. */
  lemma TxBytesInjective(t1: Transaction, t2: Transaction)
    requires SizedTx(t1) && SizedTx(t2)
    ensures PoscBytes(t1) == PoscBytes(t2) ==>
      t1 == t2.(poscProof := t1.poscProof, poscSteps := t1.poscSteps, signature := t1.signature)
    ensures SigningBytes(t1) == SigningBytes(t2) ==> t1 == t2.(signature := t1.signature)
    ensures HashBytes(t1) == HashBytes(t2) ==> t1 == t2
    ensures |t1.data| == 256 ==> TxFields(t1)[8] == [0]
  {
    hide PoscBytes, SigningBytes, HashBytes, DecodePosc, DecodeSigning, DecodeHash;
    PoscRoundTrip(t1);
    PoscRoundTrip(t2);
    SigningRoundTrip(t1);
    SigningRoundTrip(t2);
    HashRoundTrip(t1);
    HashRoundTrip(t2);
  }
}
