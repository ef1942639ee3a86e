/** SV2 extended channels: the same coinbase from prefix, extranonce and suffix. */
module ExtendedCoinbase {
  import opened ByteStrings
  import opened CoinbaseLayout
  import opened MerkleFold
  import opened MiningJob

  const MAX_ONE_BYTE_VARINT: int := 0xFC

  /** The prefix with the script length changed for this many extranonce bytes, where one byte can say it. */
  function Patched(prefix: Bytes, totalExtranonceSize: int): (r: Bytes)
    ensures |r| == |prefix|
  {
    if totalExtranonceSize == SLOT_BYTES || |prefix| < 42 then prefix
    else
      var newVarint: int := prefix[SCRIPT_LENGTH_OFFSET] + (totalExtranonceSize - SLOT_BYTES);
      if newVarint < 0 || newVarint > MAX_ONE_BYTE_VARINT then prefix
      else prefix[..SCRIPT_LENGTH_OFFSET] + [newVarint] + prefix[SCRIPT_LENGTH_OFFSET + 1..]
  }

  /** The caller's buffer is never written; without a change it is returned itself. */
  method PatchCoinbasePrefixVarint(prefix: array<Byte>, totalExtranonceSize: int) returns (patched: array<Byte>)
    ensures patched[..] == Patched(prefix[..], totalExtranonceSize)
    ensures patched == prefix || fresh(patched)
    ensures patched.Length == prefix.Length && forall k :: 0 <= k < prefix.Length && k != 41 ==> patched[k] == prefix[k]
    ensures prefix.Length > 41 ==>
              var said := prefix[41] + totalExtranonceSize - 12;
              patched[41] == if 0 <= said <= 0xFC then said else prefix[41]
  {
    if totalExtranonceSize == SLOT_BYTES { return prefix; }
    if prefix.Length < 42 { return prefix; }
    patched := new Byte[prefix.Length](k requires 0 <= k < prefix.Length reads prefix => prefix[k]);
    assert patched[..] == prefix[..];
    var newVarint: int := patched[SCRIPT_LENGTH_OFFSET] + (totalExtranonceSize - SLOT_BYTES);
    if newVarint < 0 || newVarint > MAX_ONE_BYTE_VARINT { return prefix; }
    patched[SCRIPT_LENGTH_OFFSET] := newVarint;
    assert patched[..] == Patched(prefix[..], totalExtranonceSize);
  }

  /** What is kept of a job sent to an extended channel. */
  datatype ExtendedJob = ExtendedJob(
    coinbasePrefix: Bytes, coinbaseSuffix: Bytes, merklePath: seq<Digest>,
    prevHash: Digest, nBits: Word, template: Template, job: Job)

  datatype Share = Share(version: bv32, nonce: Word, ntime: Word, extranonce: Bytes)

  /** The bytes hashed for a share. */
  function ShareCoinbase(e: ExtendedJob, extranoncePrefix: Bytes, s: Share): Bytes {
    e.coinbasePrefix + extranoncePrefix + s.extranonce + e.coinbaseSuffix
  }

  /** Sent for this job, on a channel with this many extranonce bytes, whatever its scratch holds since. */
  ghost predicate SentFor(e: ExtendedJob, total: nat) {
    && e.job.Cut()
    && e.coinbasePrefix == Patched(e.job.coinbasePart1, total) && e.coinbaseSuffix == e.job.coinbasePart2
    && e.merklePath == e.template.merkleBranch
  }

  method WalkMerklePath(hash: Hash, coinbaseTxid: Digest, merklePath: seq<Digest>) returns (merkleRoot: Digest)
    ensures merkleRoot == Fold(hash, coinbaseTxid, merklePath)
  {
    merkleRoot := coinbaseTxid;
    var bothHashes := new Byte[64](k => 0);
    var n := 0;
    while n < |merklePath|
      invariant n <= |merklePath|
      invariant Fold(hash, coinbaseTxid, merklePath) == Fold(hash, merkleRoot, merklePath[n..])
    {
      CopyInto(bothHashes, 0, merkleRoot);
      CopyInto(bothHashes, 32, merklePath[n]);
      assert bothHashes[..] == merkleRoot + merklePath[n];
      FoldStep(hash, merkleRoot, merklePath[n..]);
      assert merklePath[n..][1..] == merklePath[n + 1..];
      merkleRoot := hash(bothHashes[..]);
      n := n + 1;
    }
  }

  /** The hashed bytes are the serialization of the script with these extranonces while one byte can say its length. */
  lemma {:induction false} AgreesIff(head: Bytes, tail: Bytes, extranoncePrefix: Bytes, extranonce: Bytes,
                                     hashed: Bytes, script: Bytes)
    requires 4 <= |head| <= MAX_SCRIPT_SIZE - SLOT_BYTES
    requires hashed == Patched(InputHead() + [|head| + SLOT_BYTES] + head, |extranoncePrefix| + |extranonce|)
                       + extranoncePrefix + extranonce + tail
    requires script == head + extranoncePrefix + extranonce
    ensures |hashed| > SCRIPT_LENGTH_OFFSET
    ensures hashed == Serialize(script, tail) <==> |script| <= MAX_ONE_BYTE_VARINT
    ensures hashed[SCRIPT_LENGTH_OFFSET] == |script| <==> |script| <= MAX_ONE_BYTE_VARINT
  {
    var said: Byte := if |script| <= MAX_ONE_BYTE_VARINT then |script| else |head| + SLOT_BYTES;
    HashedShape(head, tail, extranoncePrefix, extranonce, hashed, script, said);
    SameLengthField(InputHead(), said, VarInt(|script|), script, tail);
  }

  /** The hashed bytes are a serialization up to what they say the script's length is. */
  lemma {:induction false} HashedShape(head: Bytes, tail: Bytes, extranoncePrefix: Bytes, extranonce: Bytes,
                                       hashed: Bytes,
                                       script: Bytes, said: Byte)
    requires 4 <= |head| <= MAX_SCRIPT_SIZE - SLOT_BYTES
    requires hashed == Patched(InputHead() + [|head| + SLOT_BYTES] + head, |extranoncePrefix| + |extranonce|)
                       + extranoncePrefix + extranonce + tail
    requires script == head + extranoncePrefix + extranonce
    requires said == if |script| <= MAX_ONE_BYTE_VARINT then |script| else |head| + SLOT_BYTES
    ensures hashed == InputHead() + [said] + script + tail
  {
    PatchedShape(InputHead(), head, |extranoncePrefix| + |extranonce|);
    Rejoin(InputHead(), said, head, extranoncePrefix, extranonce, tail);
  }

  lemma SameLengthField(front: Bytes, said: Byte, length: Bytes, script: Bytes, tail: Bytes)
    requires |length| > 0 && (length == [said] || length[0] != said)
    ensures front + [said] + script + tail == front + (length + script) + tail <==> length == [said]
    ensures (front + [said] + script + tail)[|front|] == said
  {
    assert (front + (length + script) + tail)[|front|] == length[0];
  }

  lemma Rejoin(front: Bytes, b: Byte, head: Bytes, p: Bytes, e: Bytes, tail: Bytes)
    ensures (front + [b] + head) + p + e + tail == front + [b] + (head + p + e) + tail
  {
    assert head + p + e == head + (p + e);
  }

  lemma PatchedShape(front: Bytes, head: Bytes, total: nat)
    requires |front| == SCRIPT_LENGTH_OFFSET && 4 <= |head| <= MAX_SCRIPT_SIZE - SLOT_BYTES
    ensures Patched(front + [|head| + SLOT_BYTES] + head, total) ==
              front + [if |head| + total <= MAX_ONE_BYTE_VARINT then |head| + total else |head| + SLOT_BYTES] + head
  {
    var one := front + [|head| + SLOT_BYTES] + head;
    assert one[..41] == front && one[41] == |head| + SLOT_BYTES && one[42..] == head;
  }

  lemma HeaderParts(v: bv32, p: Digest, root: Digest, ntime: Word, b: Word, nonce: Word, h: Bytes)
    requires h == Header(v, p, root, ntime, b, nonce)
    ensures h[4..36] == p && h[72..76] == WordBytes(b)
  {
  }

  lemma WordBytesInjective(a: Word, b: Word)
    requires WordBytes(a) == WordBytes(b)
    ensures a == b
  {
    assert Power256(4) == 256 * Power256(3) && Power256(3) == 256 * Power256(2) && Power256(2) == 256 * Power256(1);
    LittleEndianRoundTrip(a, 4);
    LittleEndianRoundTrip(b, 4);
  }

  lemma SameHeaderIff(v: bv32, p: Digest, p': Digest, root: Digest, ntime: Word, b: Word, b': Word, nonce: Word)
    ensures Header(v, p, root, ntime, b, nonce) == Header(v, p', root, ntime, b', nonce) <==> p == p' && b == b'
  {
    HeaderParts(v, p, root, ntime, b, nonce, Header(v, p, root, ntime, b, nonce));
    HeaderParts(v, p', root, ntime, b', nonce, Header(v, p', root, ntime, b', nonce));
    if WordBytes(b) == WordBytes(b') {
      WordBytesInjective(b, b');
    }
  }

  /** The share's header. */
  method ShareHeader(e: ExtendedJob, hash: Hash, extranoncePrefix: Bytes, s: Share)
      returns (header: array<Byte>, merkleRoot: Digest)
    ensures merkleRoot == Fold(hash, hash(ShareCoinbase(e, extranoncePrefix, s)), e.merklePath)
    ensures fresh(header) && header[..] == Header(s.version, e.prevHash, merkleRoot, s.ntime, e.nBits, s.nonce)
  {
    var coinbaseTxid := hash(ShareCoinbase(e, extranoncePrefix, s));
    merkleRoot := WalkMerklePath(hash, coinbaseTxid, e.merklePath);
    header := new Byte[80](k => 0);
    WriteHeader(header, s.version, e.prevHash, merkleRoot, s.ntime, e.nBits, s.nonce);
  }

  /** `subarray(0, length - 12)`: a negative end counts from the back. */
  function ClonedFront(script: Bytes): Bytes {
    if |script| >= SLOT_BYTES then script[..|script| - SLOT_BYTES]
    else if 2 * |script| >= SLOT_BYTES then script[..2 * |script| - SLOT_BYTES]
    else []
  }

  /** All but the last 12 bytes; of fewer than 12, twice their number less 12, if that is not negative. */
  lemma ClonedFrontLength(script: Bytes)
    ensures ClonedFront(script) <= script
    ensures var n := |script|;
            |ClonedFront(script)| == if n >= 12 then n - 12 else if n >= 6 then 2 * n - 12 else 0
  {
  }

  /** The block to submit, around a clone of the job's coinbase. */
  method ReconstructExtendedBlock(e: ExtendedJob, s: Share, merkleRoot: Digest, extranoncePrefix: Bytes)
      returns (block: Block)
    ensures fresh(block) && fresh(block.coinbase)
    ensures block.coinbase.tail == e.job.tx.tail
    ensures block.coinbase.script == ClonedFront(e.job.tx.script) + extranoncePrefix + s.extranonce
    ensures block.merkleRoot == merkleRoot
    ensures block.HeaderBytes() == Header(s.version, e.template.prevHash, merkleRoot, s.ntime, e.template.bits, s.nonce)
  {
    var coinbaseTx := new CoinbaseTransaction(e.job.tx.script, e.job.tx.tail);
    var originalScript := coinbaseTx.script;
    coinbaseTx.script := ClonedFront(originalScript) + extranoncePrefix + s.extranonce;
    block := new Block(e.template, coinbaseTx);
    block.version, block.nonce, block.timestamp, block.merkleRoot := s.version, s.nonce, s.ntime, merkleRoot;
  }

  /**
   * The coinbase a rebuilt block serializes is the one the share hashed exactly when the job's scratch
   * still has the head in front of its slot and one byte can say the script's length.
   */
  lemma {:induction false} RebuiltCoinbase(e: ExtendedJob, extranoncePrefix: Bytes, s: Share, script: Bytes)
    requires SentFor(e, |extranoncePrefix| + |s.extranonce|)
    requires script == ClonedFront(e.job.tx.script) + extranoncePrefix + s.extranonce
    ensures ShareCoinbase(e, extranoncePrefix, s) == Serialize(script, e.job.tx.tail) <==>
              ClonedFront(e.job.tx.script) == e.job.scriptHead && |script| <= MAX_ONE_BYTE_VARINT
  {
    RebuiltIff(e.job.scriptHead, ClonedFront(e.job.tx.script), extranoncePrefix, s.extranonce, e.job.tx.tail,
               ShareCoinbase(e, extranoncePrefix, s), script);
  }

  lemma {:induction false} RebuiltIff(head: Bytes, front: Bytes, extranoncePrefix: Bytes, extranonce: Bytes,
                                      tail: Bytes, hashed: Bytes, script: Bytes)
    requires 4 <= |head| <= MAX_SCRIPT_SIZE - SLOT_BYTES
    requires hashed == Patched(InputHead() + [|head| + SLOT_BYTES] + head, |extranoncePrefix| + |extranonce|)
                       + extranoncePrefix + extranonce + tail
    requires script == front + extranoncePrefix + extranonce
    ensures hashed == Serialize(script, tail) <==> front == head && |script| <= MAX_ONE_BYTE_VARINT
  {
    var sent := head + extranoncePrefix + extranonce;
    var said: Byte := if |sent| <= MAX_ONE_BYTE_VARINT then |sent| else |head| + SLOT_BYTES;
    HashedShape(head, tail, extranoncePrefix, extranonce, hashed, sent, said);
    SerializedAs(InputHead(), script, sent, said, tail);
    SameFront(front, head, extranoncePrefix, extranonce);
  }

  lemma SameFront(front: Bytes, head: Bytes, p: Bytes, e: Bytes)
    ensures front + p + e == head + p + e <==> front == head
  {
    assert front + p + e == front + (p + e) && head + p + e == head + (p + e);
    SameHead(front, head, p + e);
  }

  /** Byte 41 of the hashed bytes is the length of the script that was sent, as long as one byte can say it. */
  lemma {:induction false} SentLength(e: ExtendedJob, extranoncePrefix: Bytes, s: Share)
    requires SentFor(e, |extranoncePrefix| + |s.extranonce|)
    ensures var length := |e.job.scriptHead| + |extranoncePrefix| + |s.extranonce|;
            && |ShareCoinbase(e, extranoncePrefix, s)| > SCRIPT_LENGTH_OFFSET
            && (ShareCoinbase(e, extranoncePrefix, s)[SCRIPT_LENGTH_OFFSET] == length <==>
                  length <= MAX_ONE_BYTE_VARINT)
            && (|extranoncePrefix| + |s.extranonce| <= SLOT_BYTES ==> length <= MAX_SCRIPT_SIZE)
  {
    AgreesIff(e.job.scriptHead, e.job.tx.tail, extranoncePrefix, s.extranonce, ShareCoinbase(e, extranoncePrefix, s),
              e.job.scriptHead + extranoncePrefix + s.extranonce);
  }

  /**
   * A share on an extended channel, and the block it becomes: the block's coinbase is the hashed one, so
   * that its merkle root is right, exactly when the job's scratch still has its head and one byte can say
   * the script's length, as it can up to 12 extranonce bytes; the header is the validated one exactly
   * when the job kept the template's previous hash and target.
   */
  method ShareToBlock(e: ExtendedJob, extranoncePrefix: Bytes, s: Share) returns (header: array<Byte>, block: Block)
    requires SentFor(e, |extranoncePrefix| + |s.extranonce|)
    ensures e.job.tx.script == old(e.job.tx.script)
    ensures block.coinbase.Serialized() == ShareCoinbase(e, extranoncePrefix, s) <==>
              ClonedFront(e.job.tx.script) == e.job.scriptHead && |block.coinbase.script| <= MAX_ONE_BYTE_VARINT
    ensures |extranoncePrefix| + |s.extranonce| <= SLOT_BYTES ==>
              (block.coinbase.Serialized() == ShareCoinbase(e, extranoncePrefix, s) <==>
                 ClonedFront(e.job.tx.script) == e.job.scriptHead)
    ensures |extranoncePrefix| + |s.extranonce| <= SLOT_BYTES && ClonedFront(e.job.tx.script) == e.job.scriptHead ==>
              && |ShareCoinbase(e, extranoncePrefix, s)| > SCRIPT_LENGTH_OFFSET
              && ShareCoinbase(e, extranoncePrefix, s)[SCRIPT_LENGTH_OFFSET] == |block.coinbase.script|
    ensures block.merkleRoot ==
              Fold(e.job.hash, e.job.hash(ShareCoinbase(e, extranoncePrefix, s)), e.template.merkleBranch)
    ensures header[..] == block.HeaderBytes() <==> e.prevHash == e.template.prevHash && e.nBits == e.template.bits
  {
    var merkleRoot;
    header, merkleRoot := ShareHeader(e, e.job.hash, extranoncePrefix, s);
    block := ReconstructExtendedBlock(e, s, merkleRoot, extranoncePrefix);
    RebuiltCoinbase(e, extranoncePrefix, s, block.coinbase.script);
    SentLength(e, extranoncePrefix, s);
    SameHeaderIff(s.version, e.prevHash, e.template.prevHash, merkleRoot, s.ntime, e.nBits, e.template.bits, s.nonce);
  }

  // ----- Jobs that other submissions were built on in between -----

  /** A clean script, or one after builds that all filled the slot, still has its head for the clone. */
  lemma {:induction false} FilledKeepsClone(was: Bytes, head: Bytes, subs: seq<Submission>)
    requires |was| == |head| + SLOT_BYTES && was[..|head|] == head && FilledUpTo(subs, |subs|)
    ensures ClonedFront(ScriptAfter(was, subs)) == head
  {
    var n := |subs|;
    assert WithoutSlot(was) == head;
    if n != 0 {
      var last := subs[n - 1];
      HeadStaysIntact(was, head, subs, n - 1);
      assert head + last.extraNonce + last.extraNonce2 == head + (last.extraNonce + last.extraNonce2);
    }
  }

  /** Submission j is the only one of the wrong length. */
  ghost predicate OnlyWrongAt(subs: seq<Submission>, j: nat) {
    j < |subs| && WrongOnceAt(subs, j, |subs| - 1)
  }

  /** One wrong length loses the head, whatever fills the slot later, while the script has 12 bytes. */
  lemma {:induction false} WrongLosesClone(was: Bytes, head: Bytes, subs: seq<Submission>, j: nat)
    requires WithoutSlot(was) == head && |head| >= 4 && OnlyWrongAt(subs, j)
    requires |ScriptAfter(was, subs)| >= SLOT_BYTES
    ensures ClonedFront(ScriptAfter(was, subs)) != head
  {
    LengthStaysWrong(was, head, subs, j, |subs| - 1);
    assert subs[..|subs|] == subs;
  }

  /**
   * An extended share of up to 12 bytes becomes a block on a job that any submissions were built on in
   * between: the block has the hashed coinbase exactly when the clone still finds the head. It does
   * after submissions that all fill the slot; when one of them had the wrong length it does not, unless
   * the script has shrunk below 12 bytes.
   */
  method BuildsThenBlock(e: ExtendedJob, t: Template, subs: seq<Submission>, extranoncePrefix: Bytes, s: Share)
      returns (block: Block)
    requires SentFor(e, |extranoncePrefix| + |s.extranonce|) && |extranoncePrefix| + |s.extranonce| <= SLOT_BYTES
    modifies e.job.tx
    ensures e.job.tx.script == ScriptAfter(old(e.job.tx.script), subs)
    ensures block.coinbase.Serialized() == ShareCoinbase(e, extranoncePrefix, s) <==>
              ClonedFront(e.job.tx.script) == e.job.scriptHead
    ensures old(e.job.Clean()) && FilledUpTo(subs, |subs|) ==>
              block.coinbase.Serialized() == ShareCoinbase(e, extranoncePrefix, s)
    ensures old(e.job.Clean()) && (exists j: nat :: OnlyWrongAt(subs, j)) && |e.job.tx.script| >= SLOT_BYTES ==>
              block.coinbase.Serialized() != ShareCoinbase(e, extranoncePrefix, s)
  {
    ghost var was := e.job.tx.script;
    var log := BuildAll(e.job, t, subs);
    var header;
    header, block := ShareToBlock(e, extranoncePrefix, s);
    if old(e.job.Clean()) {
      assert WithoutSlot(was) == e.job.scriptHead;
      if FilledUpTo(subs, |subs|) {
        FilledKeepsClone(was, e.job.scriptHead, subs);
      } else if |e.job.tx.script| >= SLOT_BYTES {
        if j: nat :| OnlyWrongAt(subs, j) {
          WrongLosesClone(was, e.job.scriptHead, subs, j);
        }
      }
    }
  }
}
