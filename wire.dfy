/** Byte layout of the synchronization protocol records the client sends
    and receives: little-endian 32-bit words, the STAT request header and
    the STAT response record. */
module Wire {

  newtype byte = x: int | 0 <= x < 256

  function Pow256(n: nat): nat
  {
    if n == 0 then 1 else 256 * Pow256(n - 1)
  }

  /** 2^32: every field of a record is below it. */
  const WordLimit: nat := 0x1_0000_0000

  /** The four-character tag "STAT" read as a little-endian word. Its value
      comes from the protocol's own header, which is not part of this
      model; the proofs use only that it fits in 32 bits. */
  const ID_STAT: nat := 0x54415453

  /** The low `n` bytes of `x`, least significant first (`htoll` for n = 4). */
  function EncodeLE(x: nat, n: nat): seq<byte>
    decreases n
  {
    if n == 0 then [] else [(x % 256) as byte] + EncodeLE(x / 256, n - 1)
  }

  /** The number whose little-endian bytes are `b` (`ltohl` for 4 bytes). */
  function DecodeLE(b: seq<byte>): nat
    decreases |b|
  {
    if b == [] then 0 else b[0] as nat + 256 * DecodeLE(b[1..])
  }

  /** Decoding after encoding gives back any number that fits. */
  lemma {:induction false} DecodeEncodeLE(x: nat, n: nat)
    requires x < Pow256(n)
    ensures |EncodeLE(x, n)| == n
    ensures DecodeLE(EncodeLE(x, n)) == x
    decreases n
  {
    if n > 0 {
      var q := x / 256;
      assert x == 256 * q + x % 256;
      assert q < Pow256(n - 1);
      DecodeEncodeLE(q, n - 1);
      assert EncodeLE(x, n)[1..] == EncodeLE(q, n - 1);
    }
  }

  lemma ByteSplit(lo: nat, hi: nat)
    requires lo < 256
    ensures (lo + 256 * hi) % 256 == lo && (lo + 256 * hi) / 256 == hi
  {
  }

  /** Encoding after decoding gives back the bytes. */
  lemma {:induction false} EncodeDecodeLE(b: seq<byte>)
    ensures DecodeLE(b) < Pow256(|b|)
    ensures EncodeLE(DecodeLE(b), |b|) == b
    decreases |b|
  {
    if b != [] {
      EncodeDecodeLE(b[1..]);
      ByteSplit(b[0] as nat, DecodeLE(b[1..]));
      assert b == [b[0]] + b[1..];
    }
  }

  lemma WordLimitIsPow()
    ensures Pow256(4) == WordLimit
  {
  }

  /** The 32-bit word at byte offset `at`. */
  function WordAt(b: seq<byte>, at: nat): nat
    requires at + 4 <= |b|
  {
    DecodeLE(b[at..at + 4])
  }

  /** The request header `{id, namelen}` of a STAT request: eight bytes. */
  function StatRequest(nameLen: nat): seq<byte>
  {
    EncodeLE(ID_STAT, 4) + EncodeLE(nameLen, 4)
  }

  /** The STAT response record `{id, mode, size, time}`, as decoded. */
  datatype StatRecord = StatRecord(id: nat, mode: nat, size: nat, time: nat)

  predicate FitsWords(r: StatRecord)
  {
    r.id < WordLimit && r.mode < WordLimit && r.size < WordLimit && r.time < WordLimit
  }

  /** The sixteen bytes of a STAT response read as four little-endian words. */
  function DecodeStatRecord(b: seq<byte>): StatRecord
    requires |b| == 16
  {
    StatRecord(WordAt(b, 0), WordAt(b, 4), WordAt(b, 8), WordAt(b, 12))
  }

  /** The bytes the device sends for a STAT response. */
  function EncodeStatRecord(r: StatRecord): seq<byte>
  {
    EncodeLE(r.id, 4) + EncodeLE(r.mode, 4) + EncodeLE(r.size, 4) + EncodeLE(r.time, 4)
  }

  /** A request header is eight bytes: the STAT tag, then the name length. */
  lemma StatRequestLayout(nameLen: nat)
    requires nameLen < WordLimit
    ensures |StatRequest(nameLen)| == 8
    ensures WordAt(StatRequest(nameLen), 0) == ID_STAT
    ensures WordAt(StatRequest(nameLen), 4) == nameLen
  {
    WordLimitIsPow();
    DecodeEncodeLE(ID_STAT, 4);
    DecodeEncodeLE(nameLen, 4);
    var b := StatRequest(nameLen);
    assert b[0..4] == EncodeLE(ID_STAT, 4);
    assert b[4..8] == EncodeLE(nameLen, 4);
  }

  /** Decoding a response the device encoded gives back its four fields. */
  lemma StatRecordRoundTrip(r: StatRecord)
    requires FitsWords(r)
    ensures |EncodeStatRecord(r)| == 16
    ensures DecodeStatRecord(EncodeStatRecord(r)) == r
  {
    WordLimitIsPow();
    DecodeEncodeLE(r.id, 4);
    DecodeEncodeLE(r.mode, 4);
    DecodeEncodeLE(r.size, 4);
    DecodeEncodeLE(r.time, 4);
    var b := EncodeStatRecord(r);
    assert b[0..4] == EncodeLE(r.id, 4);
    assert b[4..8] == EncodeLE(r.mode, 4);
    assert b[8..12] == EncodeLE(r.size, 4);
    assert b[12..16] == EncodeLE(r.time, 4);
  }

  /** Every sixteen bytes decode to a record of 32-bit fields that encodes
      back to the same bytes. */
  lemma StatRecordDecodeEncode(b: seq<byte>)
    requires |b| == 16
    ensures FitsWords(DecodeStatRecord(b))
    ensures EncodeStatRecord(DecodeStatRecord(b)) == b
  {
    WordLimitIsPow();
    EncodeDecodeLE(b[0..4]);
    EncodeDecodeLE(b[4..8]);
    EncodeDecodeLE(b[8..12]);
    EncodeDecodeLE(b[12..16]);
    assert b == b[0..4] + b[4..8] + b[8..12] + b[12..16];
  }
}
