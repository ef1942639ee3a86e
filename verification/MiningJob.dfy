/**
 * One mining job: the coinbase cut into the two halves miners get, and reused as scratch for every
 * share, for the merkle roots of SV2 jobs, and for a found block.
 */
module MiningJob {
  import opened ByteStrings
  import opened CoinbaseSplit
  import opened CoinbaseOutputs
  import opened CoinbaseLayout
  import opened CoinbaseParsing
  import opened MerkleFold
  import opened Options
  import opened Sums

  /** A four-byte header field. */
  type Word = x: int | 0 <= x < 0x1_0000_0000

  datatype Template = Template(version: bv32, prevHash: Digest, bits: Word, merkleBranch: seq<Digest>)

  /** `versionMask !== undefined && versionMask !== 0`; an unset mask is 0. */
  function Rolled(version: bv32, mask: bv32): bv32 {
    if mask != 0 then version ^ mask else version
  }

  function WordBytes(w: Word): (r: Bytes)
    ensures |r| == 4
  {
    LittleEndian(w, 4)
  }

  /** The 80-byte header. */
  function Header(version: bv32, prevHash: Digest, merkleRoot: Digest, timestamp: Word, bits: Word,
                  nonce: Word): (h: Bytes)
    ensures |h| == 80
  {
    var prev: Bytes, root: Bytes := prevHash, merkleRoot;
    WordBytes(version as int) + prev + root + WordBytes(timestamp) + WordBytes(bits) + WordBytes(nonce)
  }

  lemma {:induction false} WordReadsBack(w: Word)
    ensures FromLittleEndian(WordBytes(w)) == w
  {
    Powers();
    LittleEndianRoundTrip(w, 4);
  }

  lemma HeaderCut(v: Bytes, p: Bytes, r: Bytes, t: Bytes, b: Bytes, n: Bytes, h: Bytes)
    requires |v| == |t| == |b| == |n| == 4 && |p| == |r| == 32 && h == v + p + r + t + b + n
    ensures h[..4] == v && h[4..36] == p && h[36..68] == r && h[68..72] == t && h[72..76] == b && h[76..] == n
  {
  }

  /** Every field of a header is read back from its place: version, previous hash, root, time, bits, nonce. */
  lemma {:induction false} HeaderReadsBack(version: bv32, prevHash: Digest, merkleRoot: Digest, timestamp: Word,
                                           bits: Word, nonce: Word)
    ensures var h := Header(version, prevHash, merkleRoot, timestamp, bits, nonce);
            && FromLittleEndian(h[..4]) == version as int && h[4..36] == prevHash && h[36..68] == merkleRoot
            && FromLittleEndian(h[68..72]) == timestamp && FromLittleEndian(h[72..76]) == bits
            && FromLittleEndian(h[76..]) == nonce
  {
    WordReadsBack(version as int);
    WordReadsBack(timestamp);
    WordReadsBack(bits);
    WordReadsBack(nonce);
    HeaderCut(WordBytes(version as int), prevHash, merkleRoot, WordBytes(timestamp), WordBytes(bits), WordBytes(nonce),
              Header(version, prevHash, merkleRoot, timestamp, bits, nonce));
  }

  /** Rolling changes exactly the bits of the mask, and rolling twice changes nothing. */
  lemma RolledBits(version: bv32, mask: bv32)
    ensures Rolled(version, mask) ^ version == mask && Rolled(Rolled(version, mask), mask) == version
  {
  }

  /** The script as `substring(0, length - 24)` of its hex leaves it. */
  function WithoutSlot(script: Bytes): Bytes {
    if |script| < SLOT_BYTES then [] else script[..|script| - SLOT_BYTES]
  }

  /** Do the extranonces fill the slot? */
  predicate Fills(en1: Bytes, en2: Bytes) { |en1| + |en2| == SLOT_BYTES }

  /** The script after a build: the extranonces in place of its last 12 bytes. */
  function Written(script: Bytes, en1: Bytes, en2: Bytes): Bytes { WithoutSlot(script) + en1 + en2 }

  class CoinbaseTransaction {
    var script: Bytes
    const tail: Bytes

    constructor (script: Bytes, tail: Bytes)
      ensures this.script == script && this.tail == tail
    {
      this.script, this.tail := script, tail;
    }

    function Serialized(): Bytes
      reads this
    {
      Serialize(script, tail)
    }
  }

  class Block {
    var version: bv32
    var prevHash: Digest
    var merkleRoot: Digest
    var timestamp: Word
    var bits: Word
    var nonce: Word
    var coinbase: CoinbaseTransaction

    constructor (t: Template, coinbase: CoinbaseTransaction)
      ensures version == t.version && prevHash == t.prevHash && bits == t.bits && this.coinbase == coinbase
    {
      version, prevHash, bits, this.coinbase := t.version, t.prevHash, t.bits, coinbase;
      merkleRoot, timestamp, nonce := Repeat(0, 32), 0, 0;
    }

    /** The fields of a found block that differ from the template's. */
    method Fill(mask: bv32, nonce: Word, merkleRoot: Digest, timestamp: Word)
      modifies this`nonce, this`version, this`merkleRoot, this`timestamp
      ensures this.merkleRoot == merkleRoot
      ensures HeaderBytes() == Header(Rolled(old(version), mask), prevHash, merkleRoot, timestamp, bits, nonce)
    {
      this.nonce := nonce;
      if mask != 0 {
        version := version ^ mask;
      }
      this.merkleRoot := merkleRoot;
      this.timestamp := timestamp;
    }

    /** `toBuffer(true)` */
    function HeaderBytes(): Bytes
      reads this
    {
      Header(version, prevHash, merkleRoot, timestamp, bits, nonce)
    }
  }

  class Job {
    const tx: CoinbaseTransaction
    const hash: Hash
    const coinbasePart1: Bytes
    const coinbasePart2: Bytes
    ghost const scriptHead: Bytes // the script in front of the slot
    ghost const outs: seq<Output>

    /** The halves are the serialized coinbase around a 12-byte slot. */
    ghost predicate Cut() {
      && 4 <= |scriptHead| <= MAX_SCRIPT_SIZE - SLOT_BYTES
      && coinbasePart1 == InputHead() + [|scriptHead| + SLOT_BYTES] + scriptHead
      && coinbasePart2 == tx.tail
    }

    /** What stands behind the script are these outputs. */
    ghost predicate Pays() {
      (forall k :: 0 <= k < |outs| ==> outs[k].value >= 0) && tx.tail == Tail(outs)
    }

    /** The serialized coinbase reads back as the script and the outputs, each with its value, in order. */
    ghost predicate ReadsBack()
      reads tx
    {
      OutputsFit(outs) ==>
        Parse(tx.Serialized()) == Some(Transaction(2, Repeat(0, 32), 0xFFFF_FFFF, tx.script, 0xFFFF_FFFF, outs, 0))
    }

    /** So it does whatever was written over the slot. */
    lemma {:induction false} CoinbaseReadsBack()
      requires Pays() && |tx.script| < LIMIT
      ensures ReadsBack()
    {
      if OutputsFit(outs) {
        SerializedReadsBack(tx.script, outs);
      }
    }

    /** The scratch script still is the head and some slot. */
    ghost predicate Clean()
      reads tx
    {
      Cut() && |tx.script| == |scriptHead| + SLOT_BYTES && tx.script[..|scriptHead|] == scriptHead
    }

    /** The coinbase a miner builds from its extranonces. */
    function MinerCoinbase(en1: Bytes, en2: Bytes): Bytes {
      coinbasePart1 + en1 + en2 + coinbasePart2
    }

    function RootOn(t: Template, coinbase: Bytes): Digest {
      Fold(hash, hash(coinbase), t.merkleBranch)
    }

    function HeaderOn(t: Template, mask: bv32, nonce: Word, coinbase: Bytes, timestamp: Word): Bytes {
      Header(Rolled(t.version, mask), t.prevHash, RootOn(t, coinbase), timestamp, t.bits, nonce)
    }

    /**
     * What writing these extranonces over the slot of `was` did: the bytes are the miner's exactly when
     * the extranonces fill the slot and what stands in front of it is the head the miners were given.
     */
    ghost predicate Wrote(was: Bytes, en1: Bytes, en2: Bytes)
      reads tx
    {
      && tx.script == Written(was, en1, en2)
      && (tx.Serialized() == MinerCoinbase(en1, en2) <==> Fills(en1, en2) && WithoutSlot(was) == scriptHead)
    }

    /** The miner addresses and the witness commitment become outputs; the hex strings are cut at the slot. */
    constructor (recipients: seq<Recipient>, reward: int, payTo: Address -> Bytes, commitment: Bytes,
                 height: nat, identifier: Bytes, blockWeight: nat, hash: Hash)
      requires |recipients| > 0 && forall k :: 0 <= k < |recipients| ==>
                 OutputsFor(recipients, reward, payTo)[k].value >= 0
      requires 0 < height <= 0x7fff_ffff
      ensures Clean() && fresh(tx) && this.hash == hash
      ensures Pays() && outs == OutputsFor(recipients, reward, payTo) + [Output(commitment, 0)]
      ensures Sum(Values(outs)) == reward
      ensures ReadsBack()
      ensures tx.script == JobScript(height, identifier, blockWeight, tx.tail)
      ensures SaysHeight(tx.script, height, identifier, blockWeight, tx.tail)
      ensures tx.Serialized() == coinbasePart1 + tx.script[|scriptHead|..] + coinbasePart2
    {
      var built := BuildOutputs(recipients, reward, payTo, commitment);
      var tail := Tail(built);
      var script := JobScript(height, identifier, blockWeight, tail);
      JobScriptReadable(height, identifier, blockWeight, tail);
      JobScriptReadsAs(height, identifier, blockWeight, tail);
      var part1, part2 := CutAtSlot(script, tail);
      this.hash := hash;
      coinbasePart1, coinbasePart2 := part1, part2;
      tx := new CoinbaseTransaction(script, tail);
      ghost var head := script[..|script| - SLOT_BYTES];
      scriptHead, outs := head, built;
      CutFits(script, tail, head);
      new;
      CoinbaseReadsBack();
    }

    /** Puts the extranonces where the last 12 bytes of the script were. */
    method ApplyExtranonceAndGetCoinbaseHash(extraNonce: Bytes, extraNonce2: Bytes) returns (h: Digest)
      requires Cut()
      modifies tx
      ensures h == hash(tx.Serialized()) && Wrote(old(tx.script), extraNonce, extraNonce2)
      ensures old(Clean()) ==> (Clean() <==> Fills(extraNonce, extraNonce2))
    {
      ghost var was := tx.script;
      tx.script := WithoutSlot(tx.script) + extraNonce + extraNonce2;
      h := hash(tx.Serialized());
      WrittenIsMinersIff(scriptHead, was, extraNonce, extraNonce2, coinbasePart1, coinbasePart2);
      if old(Clean()) {
        HeadIsKept(scriptHead, was, extraNonce, extraNonce2);
      }
    }

    method ComputeShareHeader(t: Template, mask: bv32, nonce: Word, extraNonce: Bytes, extraNonce2: Bytes,
                              timestamp: Word)
        returns (header: array<Byte>)
      requires Cut()
      modifies tx
      ensures fresh(header) && Wrote(old(tx.script), extraNonce, extraNonce2)
      ensures old(Clean()) ==> (Clean() <==> Fills(extraNonce, extraNonce2))
      ensures header[..] == HeaderOn(t, mask, nonce, tx.Serialized(), timestamp)
    {
      var coinbaseHash := ApplyExtranonceAndGetCoinbaseHash(extraNonce, extraNonce2);
      header := HeaderFromHash(t, mask, nonce, coinbaseHash, timestamp);
    }

    method HeaderFromHash(t: Template, mask: bv32, nonce: Word, coinbaseHash: Digest, timestamp: Word)
        returns (header: array<Byte>)
      ensures fresh(header)
      ensures header[..] ==
                Header(Rolled(t.version, mask), t.prevHash, Fold(hash, coinbaseHash, t.merkleBranch), timestamp, t.bits,
                       nonce)
    {
      var merkleRoot := CalculateMerkleRootHash(hash, coinbaseHash, t.merkleBranch);
      var version := t.version;
      if mask != 0 {
        version := version ^ mask;
      }
      header := HeaderBuffer(version, t.prevHash, merkleRoot, timestamp, t.bits, nonce);
    }

    method ComputeShareMerkleRoot(t: Template, extraNonce: Bytes, extraNonce2: Bytes) returns (root: Digest)
      requires Cut()
      modifies tx
      ensures Wrote(old(tx.script), extraNonce, extraNonce2)
      ensures old(Clean()) ==> (Clean() <==> Fills(extraNonce, extraNonce2))
      ensures root == RootOn(t, tx.Serialized())
    {
      var coinbaseHash := ApplyExtranonceAndGetCoinbaseHash(extraNonce, extraNonce2);
      root := CalculateMerkleRootHash(hash, coinbaseHash, t.merkleBranch);
    }

    /** The block shares the job's own coinbase object. */
    method CopyAndUpdateBlock(t: Template, mask: bv32, nonce: Word, extraNonce: Bytes, extraNonce2: Bytes,
                              timestamp: Word)
        returns (block: Block)
      requires Cut()
      modifies tx
      ensures fresh(block) && block.coinbase == tx && Wrote(old(tx.script), extraNonce, extraNonce2)
      ensures old(Clean()) ==> (Clean() <==> Fills(extraNonce, extraNonce2))
      ensures block.merkleRoot == RootOn(t, block.coinbase.Serialized())
      ensures block.HeaderBytes() == HeaderOn(t, mask, nonce, block.coinbase.Serialized(), timestamp)
    {
      block := new Block(t, tx);
      var root := ComputeShareMerkleRoot(t, extraNonce, extraNonce2);
      block.Fill(mask, nonce, root, timestamp);
    }

    /**
     * What the pool checked and what the block says: when the slot is filled the block carries the very
     * coinbase the share was checked on, whatever the scratch held before, and the 80 bytes are the same;
     * when it is not, a clean scratch gives the block another one.
     */
    method ValidateThenBuild(t: Template, mask: bv32, nonce: Word, extraNonce: Bytes, extraNonce2: Bytes,
                             timestamp: Word)
        returns (header: array<Byte>, ghost checked: Bytes, block: Block)
      requires Cut()
      modifies tx
      ensures header[..] == HeaderOn(t, mask, nonce, checked, timestamp)
      ensures block.HeaderBytes() == HeaderOn(t, mask, nonce, block.coinbase.Serialized(), timestamp)
      ensures Fills(extraNonce, extraNonce2) ==>
                block.coinbase.Serialized() == checked && header[..] == block.HeaderBytes()
      ensures old(Clean()) ==> (block.coinbase.Serialized() == checked <==> Fills(extraNonce, extraNonce2))
      ensures old(Clean()) ==> (checked == MinerCoinbase(extraNonce, extraNonce2) <==> Fills(extraNonce, extraNonce2))
    {
      ghost var was := tx.script;
      header := ComputeShareHeader(t, mask, nonce, extraNonce, extraNonce2, timestamp);
      checked := tx.Serialized();
      block := CopyAndUpdateBlock(t, mask, nonce, extraNonce, extraNonce2, timestamp);
      WrittenTwice(was, extraNonce, extraNonce2);
      if old(Clean()) {
        HeadIsKept(scriptHead, was, extraNonce, extraNonce2);
        if !Fills(extraNonce, extraNonce2) {
          WrittenTwiceDiffers(scriptHead, extraNonce, extraNonce2, tx.tail);
        }
      }
    }

    /**
     * A found block keeps its header when the job validates another share, but not its coinbase: that
     * is the job's scratch. It has to be serialized first.
     */
    method ShareAfterBlock(t: Template, block: Block, mask: bv32, nonce: Word, extraNonce: Bytes, extraNonce2: Bytes,
                           timestamp: Word)
        returns (header: array<Byte>)
      requires Cut() && block.coinbase == tx
      modifies tx
      ensures Wrote(old(tx.script), extraNonce, extraNonce2)
      ensures block.HeaderBytes() == old(block.HeaderBytes()) && block.coinbase == tx
      ensures tx.script == old(tx.script) <==> extraNonce + extraNonce2 == SlotOf(old(tx.script))
    {
      ghost var was := tx.script;
      header := ComputeShareHeader(t, mask, nonce, extraNonce, extraNonce2, timestamp);
      SameSlot(was, extraNonce, extraNonce2);
    }
  }

  /** The recipients' outputs, and the witness commitment behind them. */
  method BuildOutputs(recipients: seq<Recipient>, reward: int, payTo: Address -> Bytes, commitment: Bytes)
      returns (outs: seq<Output>)
    requires |recipients| > 0 && forall k :: 0 <= k < |recipients| ==>
               OutputsFor(recipients, reward, payTo)[k].value >= 0
    ensures outs == OutputsFor(recipients, reward, payTo) + [Output(commitment, 0)] && Sum(Values(outs)) == reward
    ensures forall k :: 0 <= k < |outs| ==> outs[k].value >= 0
  {
    var built := CreateOutputs(recipients, reward, payTo);
    OneMoreOutput(recipients, reward, payTo, commitment);
    outs := built.outs + [Output(commitment, 0)];
  }

  // ----- Whole runs on one job -----

  datatype Kind = ShareHeader | MerkleRoot | FoundBlock

  datatype Submission = Submission(kind: Kind, mask: bv32, nonce: Word, extraNonce: Bytes, extraNonce2: Bytes,
                                   timestamp: Word)
  {
    predicate FillsSlot() { Fills(extraNonce, extraNonce2) }
  }

  /** What a submission had the job build, and the coinbase it was built on. */
  datatype Assembled = Assembled(coinbase: Bytes, bytes: Bytes)

  /** The header, or for a merkle-root build the root, that belongs to a coinbase. */
  function BytesOn(job: Job, t: Template, s: Submission, coinbase: Bytes): Bytes {
    var root: Bytes := job.RootOn(t, coinbase);
    if s.kind.MerkleRoot? then root else job.HeaderOn(t, s.mask, s.nonce, coinbase, s.timestamp)
  }

  /** Built on the very bytes the miner hashed. */
  ghost predicate Honest(job: Job, s: Submission, b: Assembled) {
    b.coinbase == job.MinerCoinbase(s.extraNonce, s.extraNonce2)
  }

  method Build(job: Job, t: Template, s: Submission) returns (b: Assembled)
    requires job.Cut()
    modifies job.tx
    ensures job.Wrote(old(job.tx.script), s.extraNonce, s.extraNonce2)
    ensures b == Assembled(job.tx.Serialized(), BytesOn(job, t, s, job.tx.Serialized()))
  {
    var bytes: Bytes;
    match s.kind {
      case ShareHeader =>
        var header := job.ComputeShareHeader(t, s.mask, s.nonce, s.extraNonce, s.extraNonce2, s.timestamp);
        bytes := header[..];
      case MerkleRoot =>
        var root := job.ComputeShareMerkleRoot(t, s.extraNonce, s.extraNonce2);
        bytes := root;
      case FoundBlock =>
        var block := job.CopyAndUpdateBlock(t, s.mask, s.nonce, s.extraNonce, s.extraNonce2, s.timestamp);
        bytes := block.HeaderBytes();
    }
    b := Assembled(job.tx.Serialized(), bytes);
  }

  /** The scratch script after a run of builds. */
  function ScriptAfter(script: Bytes, subs: seq<Submission>): Bytes {
    if |subs| == 0 then script
    else
      var last := subs[|subs| - 1];
      Written(ScriptAfter(script, subs[..|subs| - 1]), last.extraNonce, last.extraNonce2)
  }

  /** Build k is on its miner's coinbase exactly when it fills the slot behind an intact head. */
  ghost predicate BuiltAt(job: Job, t: Template, was: Bytes, subs: seq<Submission>, log: seq<Assembled>, k: nat) {
    k < |log| && k < |subs| ==>
      && log[k].bytes == BytesOn(job, t, subs[k], log[k].coinbase)
      && (Honest(job, subs[k], log[k]) <==>
            subs[k].FillsSlot() && WithoutSlot(ScriptAfter(was, subs[..k])) == job.scriptHead)
  }

  /** The first n submissions all fill the slot. */
  ghost predicate FilledUpTo(subs: seq<Submission>, n: nat) {
    n <= |subs| && forall i :: 0 <= i < n ==> subs[i].FillsSlot()
  }

  /** Submission j is the first of the wrong length, and the next ones up to k all have the right one. */
  ghost predicate WrongOnceAt(subs: seq<Submission>, j: nat, k: nat) {
    && j <= k < |subs| && FilledUpTo(subs, j) && !subs[j].FillsSlot()
    && forall i :: j < i <= k ==> subs[i].FillsSlot()
  }

  /**
   * Any run of header, merkle-root and block builds on one job, with extranonces of any length: what
   * each is built on, exactly.
   */
  method BuildAll(job: Job, t: Template, subs: seq<Submission>) returns (log: seq<Assembled>)
    requires job.Cut()
    modifies job.tx
    ensures |log| == |subs| && job.tx.script == ScriptAfter(old(job.tx.script), subs)
    ensures forall k: nat :: BuiltAt(job, t, old(job.tx.script), subs, log, k)
  {
    log := [];
    ghost var was := job.tx.script;
    var n := 0;
    while n < |subs|
      invariant n <= |subs| && |log| == n && job.tx.script == ScriptAfter(was, subs[..n])
      invariant forall k: nat :: BuiltAt(job, t, was, subs, log, k)
    {
      var b := Build(job, t, subs[n]);
      ScriptNext(was, subs, n);
      LogGrows(job, t, was, subs, log, b);
      log := log + [b];
      n := n + 1;
    }
    assert subs[..n] == subs;
  }

  lemma {:induction false} ScriptNext(was: Bytes, subs: seq<Submission>, n: nat)
    requires n < |subs|
    ensures ScriptAfter(was, subs[..n + 1]) ==
              Written(ScriptAfter(was, subs[..n]), subs[n].extraNonce, subs[n].extraNonce2)
  {
    assert subs[..n + 1][..n] == subs[..n];
  }

  lemma {:induction false} LogGrows(job: Job, t: Template, was: Bytes, subs: seq<Submission>, log: seq<Assembled>,
                                    b: Assembled)
    requires |log| < |subs| && b.bytes == BytesOn(job, t, subs[|log|], b.coinbase)
    requires Honest(job, subs[|log|], b) <==>
               subs[|log|].FillsSlot() && WithoutSlot(ScriptAfter(was, subs[..|log|])) == job.scriptHead
    requires forall k: nat :: BuiltAt(job, t, was, subs, log, k)
    ensures forall k: nat :: BuiltAt(job, t, was, subs, log + [b], k)
  {
    forall k: nat ensures BuiltAt(job, t, was, subs, log + [b], k) { OneMoreBuilt(job, t, was, subs, log, b, k); }
  }

  lemma {:induction false} OneMoreBuilt(job: Job, t: Template, was: Bytes, subs: seq<Submission>, log: seq<Assembled>,
                                        b: Assembled, k: nat)
    requires |log| < |subs| && BuiltAt(job, t, was, subs, log, k) && b.bytes == BytesOn(job, t, subs[|log|], b.coinbase)
    requires Honest(job, subs[|log|], b) <==>
               subs[|log|].FillsSlot() && WithoutSlot(ScriptAfter(was, subs[..|log|])) == job.scriptHead
    ensures BuiltAt(job, t, was, subs, log + [b], k)
  {
    assert k < |log| ==> (log + [b])[k] == log[k];
  }

  lemma {:induction false} HeadStaysIntact(was: Bytes, head: Bytes, subs: seq<Submission>, n: nat)
    requires WithoutSlot(was) == head && FilledUpTo(subs, n)
    ensures WithoutSlot(ScriptAfter(was, subs[..n])) == head
  {
    if n != 0 {
      HeadStaysIntact(was, head, subs, n - 1);
      assert subs[..n][..n - 1] == subs[..n - 1];
      var last := subs[n - 1];
      assert head + last.extraNonce + last.extraNonce2 == head + (last.extraNonce + last.extraNonce2);
    }
  }

  lemma {:induction false} LengthStaysWrong(was: Bytes, head: Bytes, subs: seq<Submission>, j: nat, k: nat)
    requires WithoutSlot(was) == head && |head| >= 4 && WrongOnceAt(subs, j, k)
    ensures |ScriptAfter(was, subs[..k + 1])| != |head| + SLOT_BYTES
  {
    assert subs[..k + 1][..k] == subs[..k];
    if k == j {
      HeadStaysIntact(was, head, subs, j);
    } else {
      LengthStaysWrong(was, head, subs, j, k - 1);
    }
  }

  /**
   * From a clean start, every build is on its miner's bytes exactly when every submission fills the
   * slot: none is disturbed before the first that does not.
   */
  lemma {:induction false} AllHonestIffAllFill(job: Job, t: Template, was: Bytes, subs: seq<Submission>,
                                               log: seq<Assembled>)
    requires WithoutSlot(was) == job.scriptHead && |log| == |subs|
    requires forall k: nat :: BuiltAt(job, t, was, subs, log, k)
    ensures forall k: nat :: k < |subs| && FilledUpTo(subs, k) ==>
              (Honest(job, subs[k], log[k]) <==> subs[k].FillsSlot())
    ensures (forall k :: 0 <= k < |subs| ==> Honest(job, subs[k], log[k])) <==> FilledUpTo(subs, |subs|)
  {
    forall k: nat | k < |subs| && FilledUpTo(subs, k)
      ensures Honest(job, subs[k], log[k]) <==> subs[k].FillsSlot()
    {
      assert BuiltAt(job, t, was, subs, log, k);
      HeadStaysIntact(was, job.scriptHead, subs, k);
    }
    if !FilledUpTo(subs, |subs|) {
      var j := FirstWrong(subs, |subs|);
      assert !Honest(job, subs[j], log[j]);
    } else {
      forall k | 0 <= k < |subs| ensures Honest(job, subs[k], log[k]) { assert FilledUpTo(subs, k); }
    }
  }

  /** After one wrong length no build is on its miner's bytes, however many of the right length follow. */
  lemma {:induction false} DisturbedAfterWrong(job: Job, t: Template, was: Bytes, subs: seq<Submission>,
                                               log: seq<Assembled>, j: nat, k: nat)
    requires WithoutSlot(was) == job.scriptHead && |job.scriptHead| >= 4 && |log| == |subs|
    requires BuiltAt(job, t, was, subs, log, k) && WrongOnceAt(subs, j, k)
    ensures !Honest(job, subs[k], log[k])
  {
    if k > j {
      LengthStaysWrong(was, job.scriptHead, subs, j, k - 1);
    }
  }

  lemma {:induction false} FirstWrong(subs: seq<Submission>, n: nat) returns (j: nat)
    requires n <= |subs| && !FilledUpTo(subs, n)
    ensures WrongOnceAt(subs, j, j)
  {
    if FilledUpTo(subs, n - 1) {
      j := n - 1;
    } else {
      j := FirstWrong(subs, n - 1);
    }
  }

  /** Finds the script in the serialized coinbase's hex string and cuts out its last 24 digits. */
  method CutAtSlot(script: Bytes, tail: Bytes) returns (part1: Bytes, part2: Bytes)
    requires StartsWithHeight(script)
    ensures part1 == PartOne(script, tail) && part2 == tail
  {
    var serializedCoinbaseTx, inputScript := ToHex(Serialize(script, tail)), ToHex(script);
    ScriptIsFoundWhereItIs(script, tail);
    var partOneIndex := IndexOf(serializedCoinbaseTx, inputScript, 0) + |inputScript|;
    HalvesAt(script, tail, serializedCoinbaseTx, partOneIndex);
    part1 := FromHex(serializedCoinbaseTx[..partOneIndex - 24]);
    part2 := FromHex(serializedCoinbaseTx[partOneIndex..]);
  }

  method HeaderBuffer(version: bv32, prevHash: Digest, merkleRoot: Digest, timestamp: Word, bits: Word, nonce: Word)
      returns (header: array<Byte>)
    ensures fresh(header) && header[..] == Header(version, prevHash, merkleRoot, timestamp, bits, nonce)
  {
    header := new Byte[80](k => 0);
    WriteHeader(header, version, prevHash, merkleRoot, timestamp, bits, nonce);
  }

  /** The six writes into a zeroed 80-byte buffer. */
  method WriteHeader(header: array<Byte>, version: bv32, prevHash: Digest, merkleRoot: Digest, timestamp: Word,
                     bits: Word, nonce: Word)
    requires header.Length == 80
    modifies header
    ensures header[..] == Header(version, prevHash, merkleRoot, timestamp, bits, nonce)
  {
    WriteFront(header, WordBytes(version as int), prevHash, merkleRoot);
    WriteBack(header, WordBytes(timestamp), WordBytes(bits), WordBytes(nonce));
    assert header[..] == header[..80];
  }

  method WriteFront(header: array<Byte>, version: Bytes, prevHash: Bytes, merkleRoot: Bytes)
    requires header.Length == 80 && |version| == 4 && |prevHash| == 32 && |merkleRoot| == 32
    modifies header
    ensures header[..68] == version + prevHash + merkleRoot
  {
    CopyInto(header, 0, version);
    assert header[..4] == version;
    CopyInto(header, 4, prevHash);
    CopyInto(header, 36, merkleRoot);
  }

  method WriteBack(header: array<Byte>, timestamp: Bytes, bits: Bytes, nonce: Bytes)
    requires header.Length == 80 && |timestamp| == 4 && |bits| == 4 && |nonce| == 4
    modifies header
    ensures header[..80] == old(header[..68]) + timestamp + bits + nonce
  {
    CopyInto(header, 68, timestamp);
    CopyInto(header, 72, bits);
    CopyInto(header, 76, nonce);
  }

  lemma JobScriptReadable(height: nat, identifier: Bytes, blockWeight: nat, tail: Bytes)
    requires 0 < height <= 0x7fff_ffff
    ensures StartsWithHeight(JobScript(height, identifier, blockWeight, tail))
  {
    JobScriptShape(height, identifier, blockWeight, tail);
    ScriptLength(height, identifier);
    JobScriptStartsWithHeight(height, []);
    if 16 + |identifier| <= MAX_SCRIPT_SIZE {
      JobScriptStartsWithHeight(height, identifier);
    }
  }

  lemma SlotRejoins(script: Bytes, tail: Bytes)
    requires SLOT_BYTES <= |script| < 0xFD
    ensures Serialize(script, tail) == PartOne(script, tail) + script[|script| - SLOT_BYTES..] + tail
    ensures PartOne(script, tail) == InputHead() + [|script|] + script[..|script| - SLOT_BYTES]
  {
    var head, slot := script[..|script| - SLOT_BYTES], script[|script| - SLOT_BYTES..];
    assert script == head + slot;
    var front := InputHead() + VarInt(|script|);
    assert front + (head + slot) == front + head + slot;
  }

  lemma CutFits(script: Bytes, tail: Bytes, head: Bytes)
    requires StartsWithHeight(script) && head == script[..|script| - SLOT_BYTES]
    ensures 4 <= |head| <= MAX_SCRIPT_SIZE - SLOT_BYTES && |script| == |head| + SLOT_BYTES && script[..|head|] == head
    ensures PartOne(script, tail) == InputHead() + [|head| + SLOT_BYTES] + head
    ensures Serialize(script, tail) == PartOne(script, tail) + script[|head|..] + tail
  {
    SlotRejoins(script, tail);
  }

  lemma HeadIsKept(head: Bytes, before: Bytes, en1: Bytes, en2: Bytes)
    requires |before| == |head| + SLOT_BYTES && before[..|head|] == head
    ensures WithoutSlot(before) == head
    ensures (head + en1 + en2)[..|head|] == head
  {
    assert head + en1 + en2 == head + (en1 + en2);
  }

  /** Bytes written over any scratch are the miner's exactly when they fill the slot behind the miners' head. */
  lemma {:induction false} WrittenIsMinersIff(head: Bytes, was: Bytes, en1: Bytes, en2: Bytes, part1: Bytes,
                                              tail: Bytes)
    requires 4 <= |head| <= MAX_SCRIPT_SIZE - SLOT_BYTES && part1 == InputHead() + [|head| + SLOT_BYTES] + head
    ensures Serialize(Written(was, en1, en2), tail) == part1 + en1 + en2 + tail
            <==> Fills(en1, en2) && WithoutSlot(was) == head
  {
    var front, extra := WithoutSlot(was), en1 + en2;
    assert Written(was, en1, en2) == front + extra;
    assert part1 + en1 + en2 + tail == InputHead() + [|head| + SLOT_BYTES] + (head + extra) + tail;
    SerializedAs(InputHead(), front + extra, head + extra, |head| + SLOT_BYTES, tail);
    SameHead(front, head, extra);
  }

  lemma SameHead(front: Bytes, head: Bytes, extra: Bytes)
    ensures front + extra == head + extra <==> front == head
  {
    if front + extra == head + extra {
      assert (front + extra)[..|front|] == front && (head + extra)[..|head|] == head;
    }
  }

  /** A serialized script can be read off: it is `said` bytes long and equal to the other. */
  lemma {:induction false} SerializedAs(front: Bytes, script: Bytes, other: Bytes, said: Byte, tail: Bytes)
    requires said < 0xFD
    ensures front + VarSlice(script) + tail == front + [said] + other + tail <==> script == other && |script| == said
  {
    var a, b := front + VarSlice(script) + tail, front + [said] + other + tail;
    assert a[|front|] == VarInt(|script|)[0] && b[|front|] == said;
    if a == b {
      assert |script| == said;
      assert a == front + [said] + script + tail;
      assert a[|front| + 1..|front| + 1 + |script|] == script && b[|front| + 1..|front| + 1 + |other|] == other;
    }
  }

  /** The bytes a build replaces. */
  function SlotOf(script: Bytes): Bytes { script[|WithoutSlot(script)|..] }

  lemma WrittenTwice(before: Bytes, en1: Bytes, en2: Bytes)
    ensures var once := WithoutSlot(before) + en1 + en2;
            Fills(en1, en2) ==> WithoutSlot(once) + en1 + en2 == once
  {
    var once := WithoutSlot(before) + en1 + en2;
    if Fills(en1, en2) {
      assert once == WithoutSlot(before) + (en1 + en2);
      assert WithoutSlot(once) == WithoutSlot(before);
    }
  }

  lemma WrittenTwiceDiffers(head: Bytes, en1: Bytes, en2: Bytes, tail: Bytes)
    requires 4 <= |head| && !Fills(en1, en2)
    ensures var once := head + en1 + en2;
            Serialize(WithoutSlot(once) + en1 + en2, tail) != Serialize(once, tail)
  {
    var once := head + en1 + en2;
    LongerSerializesLonger(once, WithoutSlot(once) + en1 + en2, tail);
    LongerSerializesLonger(WithoutSlot(once) + en1 + en2, once, tail);
  }

  lemma LongerSerializesLonger(a: Bytes, b: Bytes, tail: Bytes)
    ensures |a| < |b| ==> |Serialize(a, tail)| < |Serialize(b, tail)|
  {
  }

  lemma SameSlot(before: Bytes, en1: Bytes, en2: Bytes)
    ensures WithoutSlot(before) + en1 + en2 == before <==> en1 + en2 == SlotOf(before)
  {
    var head := WithoutSlot(before);
    assert before == head + SlotOf(before);
    assert head + en1 + en2 == head + (en1 + en2);
    assert (head + (en1 + en2))[|head|..] == en1 + en2;
  }
}
