/** Checkpoints: the hashed byte stream, its unique decoding, and the chain of hashes. */
module Checkpoint {
  import opened Common
  import opened Arithmetic
  import opened Digits

  datatype F1Metadata = F1Metadata(maxKCore: U64, finalizedCount: U64, finalizedMessages: seq<MessageId>)

  datatype F2Metadata = F2Metadata(stabilizedCount: U64, stabilizedMessages: seq<MessageId>, homologyRank: Option<nat>)

  datatype Checkpoint = Checkpoint(
    height: U64, timestamp: I64, messagesRoot: Bytes32, witnessesRoot: Bytes32,
    f1: F1Metadata, f2: F2Metadata, prevHash: Option<Bytes32>)
  {
    /** What the metadata constructors guarantee: each count is its list's length. */
    predicate CountsMatch() {
      f1.finalizedCount == |f1.finalizedMessages| && f2.stabilizedCount == |f2.stabilizedMessages|
    }

    /** Same height, different roots. */
    predicate DivergesFrom(other: Checkpoint) {
      height == other.height && (messagesRoot != other.messagesRoot || witnessesRoot != other.witnessesRoot)
    }
  }

  function NewF1Metadata(maxKCore: U64, messages: seq<MessageId>): F1Metadata
    requires |messages| < U64_LIMIT
  {
    F1Metadata(maxKCore, |messages|, messages)
  }

  function NewF2Metadata(messages: seq<MessageId>, rank: Option<nat>): F2Metadata
    requires |messages| < U64_LIMIT
  {
    F2Metadata(|messages|, messages, rank)
  }

  // ----- the byte stream

  function U64Bytes(x: U64): (bytes: seq<Byte>)
    ensures |bytes| == 8
  {
    BytesLE(x, 8)
  }

  /** Two's complement. */
  function I64Bytes(x: I64): (bytes: seq<Byte>)
    ensures |bytes| == 8
  {
    BytesLE(if x < 0 then x + U64_LIMIT else x, 8)
  }

  function IdBytes(ids: seq<MessageId>): (bytes: seq<Byte>)
    ensures |bytes| == 32 * |ids|
  {
    if ids == [] then [] else IdBytes(ids[..|ids| - 1]) + ids[|ids| - 1].bytes
  }

  ghost function Header(c: Checkpoint): (bytes: seq<Byte>)
    ensures |bytes| == 96
  {
    U64Bytes(c.height) + I64Bytes(c.timestamp) + c.messagesRoot + c.witnessesRoot
    + U64Bytes(c.f1.maxKCore) + U64Bytes(c.f1.finalizedCount)
  }

  ghost function PrevBytes(prev: Option<Bytes32>): seq<Byte> {
    if prev.Some? then prev.value else []
  }

  /** Everything `compute_hash` feeds to the hasher, in order. */
  ghost function Encode(c: Checkpoint): seq<Byte> {
    Header(c) + IdBytes(c.f1.finalizedMessages) + U64Bytes(c.f2.stabilizedCount)
    + IdBytes(c.f2.stabilizedMessages) + PrevBytes(c.prevHash)
  }

  lemma {:induction false} IdBytesAt(ids: seq<MessageId>, i: nat)
    requires i < |ids|
    ensures IdBytes(ids)[32 * i..32 * i + 32] == ids[i].bytes
  {
    var init := ids[..|ids| - 1];
    if i < |init| {
      IdBytesAt(init, i);
      assert IdBytes(ids)[32 * i..32 * i + 32] == IdBytes(init)[32 * i..32 * i + 32];
    }
  }

  /** The stream field by field: numbers take eight little-endian bytes, a negative time its two's complement. */
  lemma StreamExactly(c: Checkpoint)
    ensures Encode(c)
         == BytesLE(c.height, 8) + BytesLE(if c.timestamp < 0 then c.timestamp + U64_LIMIT else c.timestamp, 8)
            + c.messagesRoot + c.witnessesRoot + BytesLE(c.f1.maxKCore, 8) + BytesLE(c.f1.finalizedCount, 8)
            + IdBytes(c.f1.finalizedMessages) + BytesLE(c.f2.stabilizedCount, 8) + IdBytes(c.f2.stabilizedMessages)
            + if c.prevHash.Some? then c.prevHash.value else []
  {
  }

  method FeedIds(stream: seq<Byte>, ids: seq<MessageId>) returns (stream': seq<Byte>)
    ensures stream' == stream + IdBytes(ids)
  {
    stream' := stream;
    for i := 0 to |ids|
      invariant stream' == stream + IdBytes(ids[..i])
    {
      assert ids[..i + 1][..i] == ids[..i];
      stream' := stream' + ids[i].bytes;
    }
    assert ids[..|ids|] == ids;
  }

  /** `compute_hash`: a hash of the whole stream. */
  method ComputeHash(hash: HashFn, c: Checkpoint) returns (digest: Bytes32)
    ensures digest == hash(Encode(c))
  {
    hide U64Bytes, I64Bytes, IdBytes;
    var stream := U64Bytes(c.height);
    stream := stream + I64Bytes(c.timestamp);
    stream := stream + c.messagesRoot;
    stream := stream + c.witnessesRoot;
    stream := stream + U64Bytes(c.f1.maxKCore);
    stream := stream + U64Bytes(c.f1.finalizedCount);
    stream := FeedIds(stream, c.f1.finalizedMessages);
    stream := stream + U64Bytes(c.f2.stabilizedCount);
    stream := FeedIds(stream, c.f2.stabilizedMessages);
    if c.prevHash.Some? {
      stream := stream + c.prevHash.value;
    } else {
      assert stream + [] == stream;
    }
    digest := hash(stream);
  }

  // ----- decoding it

  /** The fields a checkpoint hash covers; rank, signature and signer are not among them. */
  datatype Hashed = Hashed(
    height: int, timestamp: int, messagesRoot: seq<Byte>, witnessesRoot: seq<Byte>, maxKCore: int,
    finalized: seq<MessageId>, stabilized: seq<MessageId>, prevHash: Option<Bytes32>)

  ghost function HashedFields(c: Checkpoint): Hashed {
    Hashed(c.height, c.timestamp, c.messagesRoot, c.witnessesRoot, c.f1.maxKCore,
           c.f1.finalizedMessages, c.f2.stabilizedMessages, c.prevHash)
  }

  ghost function ReadSigned(bytes: seq<Byte>): int {
    var n := Value(256, bytes);
    if 2 * n >= U64_LIMIT then n - U64_LIMIT else n
  }

  ghost function ReadIds(bytes: seq<Byte>): seq<MessageId>
    requires |bytes| % 32 == 0
  {
    if bytes == [] then []
    else ReadIds(bytes[..|bytes| - 32]) + [MessageId(bytes[|bytes| - 32..])]
  }

  /** What follows the finalised ids: a count, that many ids, and possibly the previous hash. */
  ghost function DecodeTail(rest: seq<Byte>): Option<(seq<MessageId>, Option<Bytes32>)> {
    if |rest| < 8 then None
    else
      var count := Value(256, rest[..8]);
      if count < 0 || |rest| < 8 + 32 * count then None
      else
        var ids, tail := rest[8..8 + 32 * count], rest[8 + 32 * count..];
        if |tail| == 0 then Some((ReadIds(ids), None))
        else if |tail| == 32 then Some((ReadIds(ids), Some(tail)))
        else None
  }

  /** Reads a hashed stream back; `None` when the stream is no encoding. */
  ghost function Decode(bytes: seq<Byte>): Option<Hashed> {
    if |bytes| < 96 then None
    else
      var count := Value(256, bytes[88..96]);
      if count < 0 || |bytes| < 96 + 32 * count then None
      else
        match DecodeTail(bytes[96 + 32 * count..])
        case None => None
        case Some((stabilized, prevHash)) =>
          Some(Hashed(Value(256, bytes[..8]), ReadSigned(bytes[8..16]), bytes[16..48], bytes[48..80],
                      Value(256, bytes[80..88]), ReadIds(bytes[96..96 + 32 * count]), stabilized, prevHash))
  }

  lemma ReadU64(x: U64)
    ensures Value(256, U64Bytes(x)) == x
  {
    EightBytes();
    BytesRoundTrip(x, 8);
  }

  lemma ReadI64(x: I64)
    ensures ReadSigned(I64Bytes(x)) == x
  {
    EightBytes();
    BytesRoundTrip(if x < 0 then x + U64_LIMIT else x, 8);
  }

  lemma {:induction false} ReadIdsBack(ids: seq<MessageId>)
    ensures ReadIds(IdBytes(ids)) == ids
  {
    if ids != [] {
      var init, last := ids[..|ids| - 1], ids[|ids| - 1];
      ReadIdsBack(init);
      assert IdBytes(ids)[..32 * |init|] == IdBytes(init) && IdBytes(ids)[32 * |init|..] == last.bytes;
      assert ids == init + [last];
    }
  }

  lemma HeaderFields(c: Checkpoint, rest: seq<Byte>)
    ensures var bytes := Header(c) + rest;
            && Value(256, bytes[..8]) == c.height && ReadSigned(bytes[8..16]) == c.timestamp
            && bytes[16..48] == c.messagesRoot && bytes[48..80] == c.witnessesRoot
            && Value(256, bytes[80..88]) == c.f1.maxKCore && bytes[88..96] == U64Bytes(c.f1.finalizedCount)
  {
    ReadU64(c.height);
    ReadI64(c.timestamp);
    ReadU64(c.f1.maxKCore);
    hide Value, U64Bytes, I64Bytes, ReadSigned;
    var bytes := Header(c) + rest;
    assert bytes[..8] == U64Bytes(c.height) && bytes[8..16] == I64Bytes(c.timestamp);
    assert bytes[80..88] == U64Bytes(c.f1.maxKCore) && bytes[88..96] == U64Bytes(c.f1.finalizedCount);
  }

  /** The stream decodes to the fields it was made from, when the counts are the lists' lengths. */
  lemma DecodeEncode(c: Checkpoint)
    requires c.CountsMatch()
    ensures Decode(Encode(c)) == Some(HashedFields(c))
  {
    hide Value, U64Bytes, I64Bytes, IdBytes, ReadIds, ReadSigned;
    var ids1, ids2, tail := IdBytes(c.f1.finalizedMessages), IdBytes(c.f2.stabilizedMessages), PrevBytes(c.prevHash);
    var n1, n2 := 32 * |c.f1.finalizedMessages|, 32 * |c.f2.stabilizedMessages|;
    var bytes := Encode(c);
    HeaderFields(c, ids1 + U64Bytes(c.f2.stabilizedCount) + ids2 + tail);
    assert bytes == Header(c) + (ids1 + U64Bytes(c.f2.stabilizedCount) + ids2 + tail);
    var rest := bytes[96 + n1..];
    assert bytes[96..96 + n1] == ids1 && rest == U64Bytes(c.f2.stabilizedCount) + ids2 + tail;
    assert rest[..8] == U64Bytes(c.f2.stabilizedCount) && rest[8..8 + n2] == ids2 && rest[8 + n2..] == tail;
    ReadU64(c.f1.finalizedCount);
    ReadU64(c.f2.stabilizedCount);
    ReadIdsBack(c.f1.finalizedMessages);
    ReadIdsBack(c.f2.stabilizedMessages);
  }

  /** Equal hashes of two checkpoints: every hashed field agrees, unless their two streams collide. */
  lemma HashPinsFields(hash: HashFn, a: Checkpoint, b: Checkpoint)
    requires a.CountsMatch() && b.CountsMatch() && hash(Encode(a)) == hash(Encode(b))
    requires CollisionFree(hash, {Encode(a), Encode(b)})
    ensures HashedFields(a) == HashedFields(b)
  {
    hide Encode, Decode, HashedFields;
    DecodeEncode(a);
    DecodeEncode(b);
  }

  /** Two checkpoints diverge exactly when they are of one height and not of the same two roots; equal hashes rule that
      out. */
  lemma DivergesExactly(hash: HashFn, a: Checkpoint, b: Checkpoint)
    requires a.CountsMatch() && b.CountsMatch() && CollisionFree(hash, {Encode(a), Encode(b)})
    ensures a.DivergesFrom(b) <==>
              a.height == b.height && !(a.messagesRoot == b.messagesRoot && a.witnessesRoot == b.witnessesRoot)
    ensures hash(Encode(a)) == hash(Encode(b)) ==> a.height == b.height && !a.DivergesFrom(b)
  {
    hide Encode;
    if hash(Encode(a)) == hash(Encode(b)) {
      HashPinsFields(hash, a, b);
    }
  }

  // ----- the chain

  ghost predicate Linked(hash: HashFn, cs: seq<Checkpoint>, i: nat)
    requires i < |cs|
  {
    && cs[i].height == i && cs[i].CountsMatch()
    && cs[i].prevHash == if i == 0 then None else Some(hash(Encode(cs[i - 1])))
  }

  /** What the engine maintains: heights count up from zero and each checkpoint names its predecessor's hash. */
  ghost predicate IsChain(hash: HashFn, cs: seq<Checkpoint>) {
    forall i :: 0 <= i < |cs| ==> Linked(hash, cs, i)
  }

  lemma ChainPrefix(hash: HashFn, cs: seq<Checkpoint>, n: nat)
    requires IsChain(hash, cs) && n <= |cs|
    ensures IsChain(hash, cs[..n])
  {
    hide Encode;
    forall i | 0 <= i < n ensures Linked(hash, cs[..n], i) {
      assert Linked(hash, cs, i);
    }
  }

  ghost function ChainInputs(cs: seq<Checkpoint>): set<seq<Byte>> {
    set i | 0 <= i < |cs| :: Encode(cs[i])
  }

  lemma ChainInputsPrefix(cs: seq<Checkpoint>, n: nat)
    requires n <= |cs|
    ensures ChainInputs(cs[..n]) <= ChainInputs(cs)
    ensures n < |cs| ==> Encode(cs[n]) in ChainInputs(cs)
  {
    hide Encode;
    forall x | x in ChainInputs(cs[..n]) ensures x in ChainInputs(cs) {
      var i :| 0 <= i < n && Encode(cs[..n][i]) == x;
      assert Encode(cs[i]) == x;
    }
  }

  lemma LastLink(hash: HashFn, cs: seq<Checkpoint>)
    requires cs != [] && IsChain(hash, cs)
    ensures Linked(hash, cs, |cs| - 1)
  {
  }

  /** Two chains with equal tip hashes agree on every hashed field back to height 0, if no two of their checkpoints'
      streams collide. */
  lemma {:induction false} TipPinsChain(hash: HashFn, xs: seq<Checkpoint>, ys: seq<Checkpoint>)
    requires xs != [] && ys != [] && IsChain(hash, xs) && IsChain(hash, ys)
    requires hash(Encode(xs[|xs| - 1])) == hash(Encode(ys[|ys| - 1]))
    requires CollisionFree(hash, ChainInputs(xs) + ChainInputs(ys))
    ensures |xs| == |ys| && forall i :: 0 <= i < |xs| ==> HashedFields(xs[i]) == HashedFields(ys[i])
    decreases |xs|
  {
    hide Encode, IsChain, ChainInputs;
    var n, m := |xs| - 1, |ys| - 1;
    LastLink(hash, xs);
    LastLink(hash, ys);
    ChainInputsPrefix(xs, n);
    ChainInputsPrefix(ys, m);
    assert CollisionFree(hash, {Encode(xs[n]), Encode(ys[m])});
    HashPinsFields(hash, xs[n], ys[m]);
    assert xs[n].height == ys[m].height && xs[n].prevHash == ys[m].prevHash;
    if n > 0 {
      ChainPrefix(hash, xs, n);
      ChainPrefix(hash, ys, m);
      assert CollisionFree(hash, ChainInputs(xs[..n]) + ChainInputs(ys[..m]));
      TipPinsChain(hash, xs[..n], ys[..m]);
    }
  }
}
