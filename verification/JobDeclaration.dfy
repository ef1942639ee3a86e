/**
 * A Job Declaration connection: tokens, the one pending declaration, the declared jobs kept for
 * found blocks, and which of them a solution is matched with.
 */
module JobDeclaration {
  import opened Options
  import opened ByteStrings

  const TOKEN_LIFETIME_MS: int := 3600000
  const MAX_DECLARED_JOBS: int := 3

  /** A 16-byte token: a running number and random bytes. */
  datatype Token = Token(number: nat, random: Bytes)

  datatype TokenEntry = TokenEntry(expiresAt: int, coinbaseOutputs: Bytes)

  type Txid = Bytes

  datatype Job = Job(requestId: int, token: Token, wtxids: seq<Txid>, coinbasePrefix: Bytes, coinbaseSuffix: Bytes)

  /** Raw transactions by position; None is the key `undefined`. */
  type RawTxs = map<Option<nat>, Bytes>

  datatype PendingDeclaration = PendingDeclaration(job: Job, unknownPositions: seq<nat>, knownRawTxs: RawTxs)

  datatype Declared = Declared(token: Token, job: Job, rawTransactions: RawTxs, prevHash: Option<Bytes>,
                               declaredAt: int)

  datatype Reply = Ignored | Rejected(code: string) | Requested(positions: seq<nat>) | Accepted(token: Token)

  // ----- The pool's payout script -----

  function At(b: Bytes, k: int): Option<int>
    requires k >= 0
  {
    if k < |b| then Some(b[k]) else None
  }

  /** `subarray`, which clamps to the buffer. */
  function Clamped(b: Bytes, from: nat, n: nat): Bytes {
    var lo := if from < |b| then from else |b|;
    var hi := if from + n < |b| then from + n else |b|;
    b[lo..hi]
  }

  /** The script of the first output, or None where the check is skipped. */
  function PoolScript(outputs: Bytes): Option<Bytes> {
    if |outputs| == 0 || outputs[0] == 0 then None
    else
      var afterCount :=
        if outputs[0] < 0xFD then 1 else if outputs[0] == 0xFD then 3 else if outputs[0] == 0xFE then 5 else 9;
      var offset := afterCount + 8;
      match At(outputs, offset)
      case None => None
      case Some(n) =>
        if n < 0xFD then Some(Clamped(outputs, offset + 1, n))
        else if n == 0xFD && offset + 2 < |outputs| then
          var (low: int, high: int) := (outputs[offset + 1], outputs[offset + 2]);
          Some(Clamped(outputs, offset + 3, low + 256 * high))
        else None
  }

  predicate FoundAt(text: Bytes, part: Bytes, i: nat) {
    i + |part| <= |text| && text[i..i + |part|] == part
  }

  predicate Contains(text: Bytes, part: Bytes) {
    exists i: nat :: i <= |text| && FoundAt(text, part, i)
  }

  function CoinbaseRefused(job: Job, outputs: Bytes): bool {
    (|job.coinbasePrefix| == 0 && |job.coinbaseSuffix| == 0)
    || (PoolScript(outputs).Some? && !Contains(job.coinbaseSuffix, PoolScript(outputs).value))
  }

  /** Serialized outputs: their count, and the first one's value and script. */
  function OutputsBytes(count: nat, value: nat, script: Bytes, rest: Bytes): Bytes {
    VarInt(count) + LittleEndian(value, 8) + VarSlice(script) + rest
  }

  lemma {:induction false} ScriptAfterPrefix(head: Bytes, script: Bytes, rest: Bytes)
    ensures Clamped(head + script + rest, |head|, |script|) == script
    ensures forall k :: 0 <= k < |head| ==> (head + script + rest)[k] == head[k]
  {
    assert head + script + rest == head + (script + rest);
  }

  lemma TwoByteLength(n: nat)
    requires 0xFD <= n <= 0xFFFF
    ensures VarInt(n) == [0xFD, n % 256, n / 256]
  {
    assert LittleEndian(n, 2) == [n % 256] + LittleEndian(n / 256, 1);
    assert LittleEndian(n / 256, 1) == [n / 256 % 256] + LittleEndian(n / 256 / 256, 0);
  }

  lemma HeadBytes(front: Bytes, length: Bytes)
    requires |front| > 0
    ensures forall k :: 0 <= k < |length| ==> (front + length)[|front| + k] == length[k]
    ensures (front + length)[0] == front[0]
  {
  }

  /** The check reads the first output's script back, whatever the number of outputs. */
  lemma {:induction false} PoolScriptIsFirst(count: nat, value: nat, script: Bytes, rest: Bytes)
    requires 0 < count && |script| <= 0xFFFF
    ensures PoolScript(OutputsBytes(count, value, script, rest)) == Some(script)
  {
    var front, length := VarInt(count) + LittleEndian(value, 8), VarInt(|script|);
    CountLength(count);
    OutputsGrouped(count, value, script, rest);
    ReadsBack(front, length, script, rest);
  }

  /**
   * A declared coinbase is accepted exactly if it is not empty and, where the token's outputs were given,
   * the first output's script stands in what follows the extranonce.
   */
  lemma {:induction false} AcceptedPaysPool(job: Job, count: nat, value: nat, script: Bytes, rest: Bytes)
    requires 0 < count && |script| <= 0xFFFF
    ensures !CoinbaseRefused(job, OutputsBytes(count, value, script, rest)) <==>
              && (job.coinbasePrefix != [] || job.coinbaseSuffix != [])
              && exists before: Bytes, after: Bytes :: job.coinbaseSuffix == before + script + after
    ensures !CoinbaseRefused(job, []) <==> job.coinbasePrefix != [] || job.coinbaseSuffix != []
  {
    PoolScriptIsFirst(count, value, script, rest);
    ContainsIff(job.coinbaseSuffix, script);
    RefusedIff(job, OutputsBytes(count, value, script, rest), script);
  }

  lemma RefusedIff(job: Job, outputs: Bytes, script: Bytes)
    requires PoolScript(outputs) == Some(script)
    ensures !CoinbaseRefused(job, outputs) <==>
              (job.coinbasePrefix != [] || job.coinbaseSuffix != []) && Contains(job.coinbaseSuffix, script)
    ensures !CoinbaseRefused(job, []) <==> job.coinbasePrefix != [] || job.coinbaseSuffix != []
  {
  }

  lemma {:induction false} ContainsIff(text: Bytes, part: Bytes)
    ensures Contains(text, part) <==> exists before: Bytes, after: Bytes :: text == before + part + after
  {
    if Contains(text, part) {
      var i: nat :| i <= |text| && FoundAt(text, part, i);
      assert text == text[..i] + part + text[i + |part|..];
    }
    if before: Bytes, after: Bytes :| text == before + part + after {
      assert (before + part + after)[|before|..|before| + |part|] == part;
      assert FoundAt(text, part, |before|);
    }
  }

  lemma OutputsGrouped(count: nat, value: nat, script: Bytes, rest: Bytes)
    ensures OutputsBytes(count, value, script, rest) ==
              ((VarInt(count) + LittleEndian(value, 8)) + VarInt(|script|)) + script + rest
  {
    var front := VarInt(count) + LittleEndian(value, 8);
    assert front + (VarInt(|script|) + script) == front + VarInt(|script|) + script;
  }

  lemma {:induction false} ReadsBack(front: Bytes, length: Bytes, script: Bytes, rest: Bytes)
    requires |script| <= 0xFFFF && length == VarInt(|script|) && |front| > 8 && front[0] != 0
    requires |front| - 8 ==
               if front[0] < 0xFD then 1 else if front[0] == 0xFD then 3 else if front[0] == 0xFE then 5 else 9
    ensures PoolScript((front + length) + script + rest) == Some(script)
  {
    var head := front + length;
    var outputs := head + script + rest;
    ScriptAfterPrefix(head, script, rest);
    HeadBytes(front, length);
    assert outputs[0] == front[0] && outputs[|front|] == length[0];
    if |script| >= 0xFD {
      TwoByteLength(|script|);
      assert outputs[|front| + 1] == length[1] && outputs[|front| + 2] == length[2];
    }
  }

  lemma CountLength(count: nat)
    requires count > 0
    ensures var v := VarInt(count);
            v[0] != 0 && |v| == if v[0] < 0xFD then 1 else if v[0] == 0xFD then 3 else if v[0] == 0xFE then 5 else 9
  {
  }

  // ----- Splitting and merging positions -----

  /** Raw transactions the pool's own template has, among the first n. */
  function KnownUpTo(wtxids: seq<Txid>, template: map<Txid, Bytes>, n: nat): RawTxs
    requires n <= |wtxids|
  {
    if n == 0 then map[]
    else
      var before := KnownUpTo(wtxids, template, n - 1);
      if wtxids[n - 1] in template then before[Some(n - 1) := template[wtxids[n - 1]]] else before
  }

  function MissingUpTo(wtxids: seq<Txid>, template: map<Txid, Bytes>, n: nat): seq<nat>
    requires n <= |wtxids|
  {
    if n == 0 then []
    else
      var before := MissingUpTo(wtxids, template, n - 1);
      if wtxids[n - 1] in template then before else before + [n - 1]
  }

  /** The first n replies under the positions asked for; further ones under `undefined`. */
  function MergedUpTo(known: RawTxs, positions: seq<nat>, txs: seq<Bytes>, n: nat): RawTxs
    requires n <= |txs|
  {
    if n == 0 then known
    else
      var key := if n - 1 < |positions| then Some(positions[n - 1]) else None;
      MergedUpTo(known, positions, txs, n - 1)[key := txs[n - 1]]
  }

  /** What is known and what was asked for are complementary. */
  ghost predicate Complementary(known: RawTxs, positions: seq<nat>, n: nat) {
    && (forall i, j :: 0 <= i < j < |positions| ==> positions[i] < positions[j])
    && (forall k :: 0 <= k < |positions| ==> positions[k] < n && Some(positions[k]) !in known)
    && (forall i: nat :: i < n ==> Some(i) in known || i in positions)
    && (forall key :: key in known ==> key.Some? && key.value < n)
  }

  /** A position is known exactly if the template has its transaction, and then as that. */
  ghost predicate KnownAt(wtxids: seq<Txid>, template: map<Txid, Bytes>, n: nat, known: RawTxs, i: nat)
    requires n <= |wtxids|
  {
    && (Some(i) in known <==> i < n && wtxids[i] in template)
    && (Some(i) in known && i < n && wtxids[i] in template ==> known[Some(i)] == template[wtxids[i]])
  }

  lemma {:induction false} SplitIsComplementary(wtxids: seq<Txid>, template: map<Txid, Bytes>, n: nat)
    requires n <= |wtxids|
    ensures Complementary(KnownUpTo(wtxids, template, n), MissingUpTo(wtxids, template, n), n)
    ensures forall i: nat :: KnownAt(wtxids, template, n, KnownUpTo(wtxids, template, n), i)
  {
    KnownFromTemplate(wtxids, template, n);
    ComplementaryUpTo(wtxids, template, n);
  }

  lemma {:induction false} KnownFromTemplate(wtxids: seq<Txid>, template: map<Txid, Bytes>, n: nat)
    requires n <= |wtxids|
    ensures forall i: nat :: KnownAt(wtxids, template, n, KnownUpTo(wtxids, template, n), i)
  {
    var known := KnownUpTo(wtxids, template, n);
    if n != 0 {
      KnownFromTemplate(wtxids, template, n - 1);
      var before := KnownUpTo(wtxids, template, n - 1);
      forall i: nat ensures KnownAt(wtxids, template, n, known, i) {
        assert KnownAt(wtxids, template, n - 1, before, i);
      }
    } else {
      forall i: nat ensures KnownAt(wtxids, template, 0, known, i) {}
    }
  }

  lemma {:induction false} ComplementaryUpTo(wtxids: seq<Txid>, template: map<Txid, Bytes>, n: nat)
    requires n <= |wtxids|
    ensures Complementary(KnownUpTo(wtxids, template, n), MissingUpTo(wtxids, template, n), n)
  {
    if n != 0 {
      ComplementaryUpTo(wtxids, template, n - 1);
      OneMorePosition(wtxids, template, n - 1,
                      KnownUpTo(wtxids, template, n - 1), MissingUpTo(wtxids, template, n - 1));
    }
  }

  lemma OneMorePosition(wtxids: seq<Txid>, template: map<Txid, Bytes>, n: nat, known: RawTxs, positions: seq<nat>)
    requires n < |wtxids| && Complementary(known, positions, n)
    requires known == KnownUpTo(wtxids, template, n) && positions == MissingUpTo(wtxids, template, n)
    ensures Complementary(KnownUpTo(wtxids, template, n + 1), MissingUpTo(wtxids, template, n + 1), n + 1)
  {
    if wtxids[n] in template {
      OneMoreKnown(known, positions, n, template[wtxids[n]]);
    } else {
      OneMoreMissing(known, positions, n);
    }
  }

  lemma OneMoreKnown(known: RawTxs, positions: seq<nat>, n: nat, raw: Bytes)
    requires Complementary(known, positions, n)
    ensures Complementary(known[Some(n) := raw], positions, n + 1)
  {
  }

  lemma OneMoreMissing(known: RawTxs, positions: seq<nat>, n: nat)
    requires Complementary(known, positions, n)
    ensures Complementary(known, positions + [n], n + 1)
  {
    forall i: nat | i < n + 1 ensures Some(i) in known || i in positions + [n] {
      assert (positions + [n])[|positions|] == n;
    }
  }

  ghost predicate Covers(raw: RawTxs, n: nat) {
    forall i: nat :: i < n ==> Some(i) in raw
  }

  ghost predicate CoversExactly(raw: RawTxs, n: nat) {
    Covers(raw, n) && forall key :: key in raw ==> key.Some? && key.value < n
  }

  /** Is this key filled by the first n replies? */
  ghost predicate Filled(positions: seq<nat>, n: nat, key: Option<nat>) {
    if key.Some? then key.value in positions[..if n < |positions| then n else |positions|] else n > |positions|
  }

  ghost predicate MergedAt(known: RawTxs, positions: seq<nat>, m: RawTxs, n: nat, key: Option<nat>) {
    key in m <==> key in known || Filled(positions, n, key)
  }

  lemma {:induction false} MergedHas(known: RawTxs, positions: seq<nat>, txs: seq<Bytes>, n: nat)
    requires n <= |txs|
    ensures forall key :: MergedAt(known, positions, MergedUpTo(known, positions, txs, n), n, key)
  {
    var m := MergedUpTo(known, positions, txs, n);
    if n != 0 {
      MergedHas(known, positions, txs, n - 1);
      var before := MergedUpTo(known, positions, txs, n - 1);
      forall key ensures MergedAt(known, positions, m, n, key) {
        assert MergedAt(known, positions, before, n - 1, key);
        if n <= |positions| {
          assert positions[..n] == positions[..n - 1] + [positions[n - 1]];
        }
      }
    } else {
      forall key ensures MergedAt(known, positions, m, 0, key) {}
    }
  }

  /** The k-th reply is stored under the k-th requested position, over nothing the template supplied. */
  lemma {:induction false} MergedValues(known: RawTxs, positions: seq<nat>, txs: seq<Bytes>, total: nat, n: nat, k: nat)
    requires Complementary(known, positions, total) && n <= |txs| && k < |positions|
    ensures k < n ==>
              && Some(positions[k]) in MergedUpTo(known, positions, txs, n)
              && MergedUpTo(known, positions, txs, n)[Some(positions[k])] == txs[k]
  {
    if n != 0 {
      MergedValues(known, positions, txs, total, n - 1, k);
    }
  }

  lemma {:induction false} KnownStay(known: RawTxs, positions: seq<nat>, txs: seq<Bytes>, total: nat, n: nat,
                                     key: Option<nat>)
    requires Complementary(known, positions, total) && n <= |txs| && key in known
    ensures key in MergedUpTo(known, positions, txs, n) && MergedUpTo(known, positions, txs, n)[key] == known[key]
  {
    if n != 0 {
      KnownStay(known, positions, txs, total, n - 1, key);
    }
  }

  /** The merged transactions cover exactly the job's positions when every requested one came and no more. */
  lemma {:induction false} MergeCoversIff(known: RawTxs, positions: seq<nat>, txs: seq<Bytes>, total: nat)
    requires Complementary(known, positions, total)
    ensures var m := MergedUpTo(known, positions, txs, |txs|);
            && (CoversExactly(m, total) <==> |txs| == |positions|)
            && (Covers(m, total) <==> |txs| >= |positions|)
  {
    var m, n := MergedUpTo(known, positions, txs, |txs|), |txs|;
    MergedHas(known, positions, txs, n);
    if n < |positions| {
      assert MergedAt(known, positions, m, n, Some(positions[n]));
    } else {
      assert positions[..|positions|] == positions;
      forall i: nat | i < total ensures Some(i) in m { assert MergedAt(known, positions, m, n, Some(i)); }
      forall key | key in m && key.Some? ensures key.value < total { assert MergedAt(known, positions, m, n, key); }
      assert MergedAt(known, positions, m, n, None);
    }
  }

  // ----- Whose transactions they are -----

  /** The pool's template lists transactions under their own ids. */
  ghost predicate Genuine(template: map<Txid, Bytes>, idOf: Bytes -> Txid) {
    forall id :: id in template ==> idOf(template[id]) == id
  }

  ghost predicate DeclaredAt(raw: RawTxs, wtxids: seq<Txid>, idOf: Bytes -> Txid, i: nat) {
    i < |wtxids| && Some(i) in raw ==> idOf(raw[Some(i)]) == wtxids[i]
  }

  /** Every transaction stored at a position of the job is the one declared there. */
  ghost predicate AsDeclared(raw: RawTxs, wtxids: seq<Txid>, idOf: Bytes -> Txid) {
    forall i: nat :: DeclaredAt(raw, wtxids, idOf, i)
  }

  ghost predicate Answers(positions: seq<nat>, txs: seq<Bytes>, wtxids: seq<Txid>, idOf: Bytes -> Txid, k: nat) {
    k < |positions| && k < |txs| ==> positions[k] < |wtxids| && idOf(txs[k]) == wtxids[positions[k]]
  }

  lemma {:induction false} MergedAsDeclaredIff(known: RawTxs, positions: seq<nat>, txs: seq<Bytes>, wtxids: seq<Txid>,
                                               idOf: Bytes -> Txid)
    requires Complementary(known, positions, |wtxids|) && AsDeclared(known, wtxids, idOf)
    ensures AsDeclared(MergedUpTo(known, positions, txs, |txs|), wtxids, idOf) <==>
              forall k: nat :: Answers(positions, txs, wtxids, idOf, k)
  {
    var m, n := MergedUpTo(known, positions, txs, |txs|), |txs|;
    if AsDeclared(m, wtxids, idOf) {
      forall k: nat ensures Answers(positions, txs, wtxids, idOf, k) {
        if k < |positions| && k < n {
          MergedValues(known, positions, txs, |wtxids|, n, k);
          assert DeclaredAt(m, wtxids, idOf, positions[k]);
        }
      }
    }
    if forall k: nat :: Answers(positions, txs, wtxids, idOf, k) {
      MergedHas(known, positions, txs, n);
      forall i: nat ensures DeclaredAt(m, wtxids, idOf, i) {
        assert MergedAt(known, positions, m, n, Some(i));
        if Some(i) in known {
          KnownStay(known, positions, txs, |wtxids|, n, Some(i));
          assert DeclaredAt(known, wtxids, idOf, i);
        } else if Some(i) in m {
          var k: nat :| k < |positions| && k < n && positions[k] == i;
          MergedValues(known, positions, txs, |wtxids|, n, k);
          assert Answers(positions, txs, wtxids, idOf, k);
        }
      }
    }
  }

  /**
   * A completed declaration holds the declared transactions exactly when each transaction of the reply
   * is the one declared at its position, which nothing checks: a reply carries no request, and
   * `MergeCoversIff` counts only.
   */
  lemma {:induction false} CompletedAsDeclaredIff(wtxids: seq<Txid>, template: map<Txid, Bytes>, txs: seq<Bytes>,
                                                  idOf: Bytes -> Txid)
    requires Genuine(template, idOf)
    ensures var known, missing := KnownUpTo(wtxids, template, |wtxids|), MissingUpTo(wtxids, template, |wtxids|);
            AsDeclared(MergedUpTo(known, missing, txs, |txs|), wtxids, idOf) <==>
              forall k: nat :: Answers(missing, txs, wtxids, idOf, k)
  {
    var known, missing := KnownUpTo(wtxids, template, |wtxids|), MissingUpTo(wtxids, template, |wtxids|);
    SplitIsComplementary(wtxids, template, |wtxids|);
    forall i: nat ensures DeclaredAt(known, wtxids, idOf, i) {
      assert KnownAt(wtxids, template, |wtxids|, known, i);
    }
    MergedAsDeclaredIff(known, missing, txs, wtxids, idOf);
  }

  // ----- Kept jobs -----

  /** The newest three. */
  function Newest(all: seq<Declared>): seq<Declared> {
    if |all| <= MAX_DECLARED_JOBS then all else all[|all| - MAX_DECLARED_JOBS..]
  }

  /** Entry j is not later than entry k; of equal times the one further back in the map counts as later. */
  ghost predicate NotAfter(jobs: seq<Declared>, j: nat, k: nat) {
    j < |jobs| && k < |jobs| &&
    (jobs[j].declaredAt < jobs[k].declaredAt || (jobs[j].declaredAt == jobs[k].declaredAt && j <= k))
  }

  /** `hash` None admits every job. */
  ghost predicate Admits(d: Declared, hash: Option<Bytes>) {
    hash.Some? ==> d.prevHash == hash
  }

  /** k is the latest of the first n jobs that are admitted. */
  ghost predicate IsLatest(jobs: seq<Declared>, n: nat, hash: Option<Bytes>, k: nat) {
    && n <= |jobs| && k < n && Admits(jobs[k], hash)
    && forall j: nat :: j < n && Admits(jobs[j], hash) ==> NotAfter(jobs, j, k)
  }

  ghost predicate NoneAdmitted(jobs: seq<Declared>, n: nat, hash: Option<Bytes>) {
    n <= |jobs| && forall j: nat :: j < n ==> !Admits(jobs[j], hash)
  }

  /** The latest job declared on the solution's block, or else the latest of all. */
  ghost predicate Matches(jobs: seq<Declared>, prevHash: Bytes, k: nat) {
    IsLatest(jobs, |jobs|, if NoneAdmitted(jobs, |jobs|, Some(prevHash)) then None else Some(prevHash), k)
  }

  method MatchSolution(jobs: seq<Declared>, prevHash: Bytes) returns (r: Option<nat>)
    requires forall j :: 0 <= j < |jobs| ==> jobs[j].declaredAt >= 0 // a clock
    ensures r.None? <==> |jobs| == 0
    ensures r.Some? ==> Matches(jobs, prevHash, r.value)
  {
    var matchedJob: Option<nat>, prevHashMatchedJob: Option<nat> := None, None;
    var prevHashMatchedAt, bestDeclaredAt := 0, 0;
    var n: nat := 0;
    while n < |jobs|
      invariant n <= |jobs|
      invariant if prevHashMatchedJob.None? then prevHashMatchedAt == 0 && NoneAdmitted(jobs, n, Some(prevHash))
                else
                  && IsLatest(jobs, n, Some(prevHash), prevHashMatchedJob.value)
                  && prevHashMatchedAt == jobs[prevHashMatchedJob.value].declaredAt
      invariant if matchedJob.None? then bestDeclaredAt == 0 && n == 0
                else IsLatest(jobs, n, None, matchedJob.value) && bestDeclaredAt == jobs[matchedJob.value].declaredAt
    {
      var entry := jobs[n];
      if entry.prevHash == Some(prevHash) && entry.declaredAt >= prevHashMatchedAt {
        prevHashMatchedAt, prevHashMatchedJob := entry.declaredAt, Some(n);
      }
      if entry.declaredAt >= bestDeclaredAt {
        bestDeclaredAt, matchedJob := entry.declaredAt, Some(n);
      }
      n := n + 1;
    }
    r := if prevHashMatchedJob != None then prevHashMatchedJob else matchedJob;
  }

  /** Tokens carry their running number, so no two jobs share one. */
  ghost predicate TokensUnique(all: seq<Declared>, counter: nat) {
    && (forall k :: 0 <= k < |all| ==> all[k].token.number <= counter)
    && (forall i, j :: 0 <= i < j < |all| ==> all[i].token != all[j].token)
  }

  lemma NewTokenIsUnique(all: seq<Declared>, counter: nat, d: Declared)
    requires TokensUnique(all, counter) && d.token.number == counter + 1
    ensures TokensUnique(all + [d], counter + 1)
  {
  }

  lemma NewestAreLast(all: seq<Declared>)
    ensures var n := |all|;
            Newest(all) == if n < 3 then all else [all[n - 3], all[n - 2], all[n - 1]]
  {
  }

  lemma NewestSnoc(all: seq<Declared>, d: Declared)
    ensures Newest(Newest(all) + [d]) == Newest(all + [d])
  {
  }

  /** The raw transactions of a job in order. */
  ghost predicate IsBody(d: Declared, txs: seq<Bytes>) {
    |txs| == |d.job.wtxids| &&
    forall i: nat :: i < |txs| ==> Some(i) in d.rawTransactions && txs[i] == d.rawTransactions[Some(i)]
  }

  class Client {
    var fullTemplateMode: bool
    var tokenCounter: nat
    var allocatedTokens: map<Token, TokenEntry>
    var pendingDeclaration: Option<PendingDeclaration>
    var declaredJobs: seq<Declared>
    ghost var accepted: seq<Declared> // every job ever accepted

    ghost predicate Valid()
      reads this
    {
      && declaredJobs == Newest(accepted)
      && TokensUnique(accepted, tokenCounter)
      && (pendingDeclaration.Some? ==>
            var p := pendingDeclaration.value;
            Complementary(p.knownRawTxs, p.unknownPositions, |p.job.wtxids|) && |p.unknownPositions| > 0)
    }

    constructor (fullTemplateMode: bool)
      ensures Valid() && this.fullTemplateMode == fullTemplateMode && accepted == [] && allocatedTokens == map[]
      ensures tokenCounter == 0 && pendingDeclaration == None
    {
      this.fullTemplateMode := fullTemplateMode;
      tokenCounter, allocatedTokens, pendingDeclaration, declaredJobs, accepted := 0, map[], None, [], [];
    }

    method GenerateToken(random: Bytes) returns (token: Token)
      modifies this`tokenCounter
      ensures tokenCounter == old(tokenCounter) + 1 && token == Token(tokenCounter, random)
    {
      tokenCounter := tokenCounter + 1;
      token := Token(tokenCounter, random);
    }

    method AllocateToken(coinbaseOutputs: Bytes, random: Bytes, now: int) returns (token: Token)
      requires Valid()
      modifies this
      ensures Valid() && accepted == old(accepted) && declaredJobs == old(declaredJobs)
      ensures pendingDeclaration == old(pendingDeclaration) && fullTemplateMode == old(fullTemplateMode)
      ensures allocatedTokens == old(allocatedTokens)[token := TokenEntry(now + TOKEN_LIFETIME_MS, coinbaseOutputs)]
    {
      token := GenerateToken(random);
      allocatedTokens := allocatedTokens[token := TokenEntry(now + TOKEN_LIFETIME_MS, coinbaseOutputs)];
    }

    function OutputsFor(token: Token): Bytes
      reads this
    {
      if token in allocatedTokens then allocatedTokens[token].coinbaseOutputs else []
    }

    /** Stores an accepted job under a new token, and drops all but the newest three. */
    method AcceptDeclaration(job: Job, raw: RawTxs, random: Bytes, prevHash: Option<Bytes>, now: int) returns (r: Reply)
      requires Valid()
      modifies this`tokenCounter, this`declaredJobs, this`accepted
      ensures Valid()
      ensures CoinbaseRefused(job, OutputsFor(job.token)) ==>
                r == Rejected("invalid-job-param-value-coinbase_tx_outputs")
                && declaredJobs == old(declaredJobs) && accepted == old(accepted)
      ensures !CoinbaseRefused(job, OutputsFor(job.token)) ==>
                && r == Accepted(Token(old(tokenCounter) + 1, random))
                && accepted == old(accepted) + [Declared(r.token, job, raw, prevHash, now)]
                && declaredJobs == Newest(accepted)
    {
      if CoinbaseRefused(job, OutputsFor(job.token)) { return Rejected("invalid-job-param-value-coinbase_tx_outputs"); }
      var newToken := GenerateToken(random);
      var entry := Declared(newToken, job, raw, prevHash, now);
      NewestSnoc(accepted, entry);
      NewTokenIsUnique(accepted, old(tokenCounter), entry);
      Remember(entry);
      accepted := accepted + [entry];
      r := Accepted(newToken);
    }

    /** Adds a job at the end of the map, and deletes from the front until three are left. */
    method Remember(entry: Declared)
      modifies this`declaredJobs
      ensures declaredJobs == Newest(old(declaredJobs) + [entry])
    {
      declaredJobs := declaredJobs + [entry];
      ghost var all := declaredJobs;
      var toDelete := |declaredJobs| - MAX_DECLARED_JOBS;
      while toDelete > 0
        invariant |declaredJobs| <= |all| && declaredJobs == all[|all| - |declaredJobs|..]
        invariant toDelete == |declaredJobs| - MAX_DECLARED_JOBS && (toDelete < 0 ==> declaredJobs == all)
      {
        declaredJobs := declaredJobs[1..];
        toDelete := toDelete - 1;
      }
    }

    /** Why a declaration is refused before its transactions are looked at. */
    function DeclareRefusal(job: Job, now: int): Option<string>
      reads this
    {
      if !fullTemplateMode then Some("unsupported-feature-flags")
      else if job.token !in allocatedTokens || now > allocatedTokens[job.token].expiresAt
      then Some("invalid-mining-job-token")
      else None
    }

    /** Only full-template clients may declare, with a token they were given no more than an hour ago. */
    lemma DeclareRefusedWhen(job: Job, now: int)
      ensures DeclareRefusal(job, now) == Some("unsupported-feature-flags") <==> !fullTemplateMode
      ensures DeclareRefusal(job, now) == Some("invalid-mining-job-token") <==>
                && fullTemplateMode
                && (job.token in allocatedTokens ==> allocatedTokens[job.token].expiresAt < now)
      ensures DeclareRefusal(job, now) == None <==>
                fullTemplateMode && job.token in allocatedTokens && now <= allocatedTokens[job.token].expiresAt
    {
      assert "unsupported-feature-flags"[0] == 'u' && "invalid-mining-job-token"[0] == 'i';
    }

    /** A job is accepted exactly if it pays the first of the outputs its token was given with. */
    lemma {:induction false} AcceptedPaysToken(job: Job, count: nat, value: nat, script: Bytes, rest: Bytes)
      requires job.token in allocatedTokens && 0 < count && |script| <= 0xFFFF
      requires allocatedTokens[job.token].coinbaseOutputs == OutputsBytes(count, value, script, rest)
      ensures !CoinbaseRefused(job, OutputsFor(job.token)) <==>
                && (job.coinbasePrefix != [] || job.coinbaseSuffix != [])
                && exists before: Bytes, after: Bytes :: job.coinbaseSuffix == before + script + after
    {
      AcceptedPaysPool(job, count, value, script, rest);
    }

    method HandleDeclareMiningJob(job: Job, template: map<Txid, Bytes>, random: Bytes, prevHash: Option<Bytes>,
                                  now: int)
        returns (r: Reply)
      requires Valid()
      modifies this
      ensures Valid() && fullTemplateMode == old(fullTemplateMode)
      ensures old(DeclareRefusal(job, now)).Some? ==>
                r == Rejected(old(DeclareRefusal(job, now)).value) && accepted == old(accepted)
                && declaredJobs == old(declaredJobs) && pendingDeclaration == old(pendingDeclaration)
                // an expired token is deleted
                && allocatedTokens == if fullTemplateMode then old(allocatedTokens) - {job.token}
                  else old(allocatedTokens)
      ensures old(DeclareRefusal(job, now)).None? ==>
                var missing := MissingUpTo(job.wtxids, template, |job.wtxids|);
                var known := KnownUpTo(job.wtxids, template, |job.wtxids|);
                && allocatedTokens == old(allocatedTokens)
                && (|missing| > 0 ==>
                      r == Requested(missing) && pendingDeclaration == Some(PendingDeclaration(job, missing, known))
                      && accepted == old(accepted))
                && (|missing| == 0 ==>
                      CoversExactly(known, |job.wtxids|) && pendingDeclaration == old(pendingDeclaration)
                      && (r.Accepted? <==> !CoinbaseRefused(job, old(OutputsFor(job.token))))
                      && (!r.Accepted? ==> r.Rejected? && accepted == old(accepted))
                      && (r.Accepted? ==> accepted == old(accepted) + [Declared(r.token, job, known, prevHash, now)]))
    {
      if !fullTemplateMode { return Rejected("unsupported-feature-flags"); }
      if job.token !in allocatedTokens {
        assert allocatedTokens - {job.token} == allocatedTokens;
        return Rejected("invalid-mining-job-token");
      }
      if now > allocatedTokens[job.token].expiresAt {
        allocatedTokens := allocatedTokens - {job.token};
        return Rejected("invalid-mining-job-token");
      }
      var known, missing := SplitByTemplate(job, template);
      if |missing| > 0 {
        pendingDeclaration := Some(PendingDeclaration(job, missing, known));
        return Requested(missing);
      }
      r := AcceptDeclaration(job, known, random, prevHash, now);
    }

    /** Which transactions the pool's own template supplies. */
    method SplitByTemplate(job: Job, template: map<Txid, Bytes>) returns (known: RawTxs, missing: seq<nat>)
      ensures known == KnownUpTo(job.wtxids, template, |job.wtxids|)
                && missing == MissingUpTo(job.wtxids, template, |job.wtxids|)
      ensures Complementary(known, missing, |job.wtxids|)
    {
      known, missing := map[], [];
      var i := 0;
      while i < |job.wtxids|
        invariant i <= |job.wtxids|
        invariant known == KnownUpTo(job.wtxids, template, i) && missing == MissingUpTo(job.wtxids, template, i)
      {
        if job.wtxids[i] in template {
          known := known[Some(i) := template[job.wtxids[i]]];
        } else {
          missing := missing + [i];
        }
        i := i + 1;
      }
      SplitIsComplementary(job.wtxids, template, |job.wtxids|);
    }

    /**
     * A reply completes whatever declaration is pending, however late it comes: its transactions go to the
     * positions requested last, in order.
     */
    method HandleProvideMissingTransactionsSuccess(txs: seq<Bytes>, random: Bytes, prevHash: Option<Bytes>, now: int)
        returns (r: Reply)
      requires Valid()
      modifies this
      ensures Valid() && fullTemplateMode == old(fullTemplateMode) && allocatedTokens == old(allocatedTokens)
      ensures pendingDeclaration == None
      ensures old(pendingDeclaration).None? ==> r == Ignored && accepted == old(accepted)
      ensures old(pendingDeclaration).Some? ==>
                var job := old(pendingDeclaration).value.job;
                && (r.Accepted? <==> !CoinbaseRefused(job, OutputsFor(job.token)))
                && (!r.Accepted? ==> r.Rejected? && accepted == old(accepted))
      ensures old(pendingDeclaration).Some? && r.Accepted? ==>
                var p := old(pendingDeclaration).value;
                var raw := MergedUpTo(p.knownRawTxs, p.unknownPositions, txs, |txs|);
                && accepted == old(accepted) + [Declared(r.token, p.job, raw, prevHash, now)]
                && (CoversExactly(raw, |p.job.wtxids|) <==> |txs| == |p.unknownPositions|)
                && (Covers(raw, |p.job.wtxids|) <==> |txs| >= |p.unknownPositions|)
    {
      if pendingDeclaration == None { return Ignored; }
      var p := pendingDeclaration.value;
      var mergedRawTxs := p.knownRawTxs;
      var i := 0;
      while i < |txs|
        invariant i <= |txs| && mergedRawTxs == MergedUpTo(p.knownRawTxs, p.unknownPositions, txs, i)
      {
        var position := if i < |p.unknownPositions| then Some(p.unknownPositions[i]) else None;
        mergedRawTxs := mergedRawTxs[position := txs[i]];
        i := i + 1;
      }
      MergeCoversIff(p.knownRawTxs, p.unknownPositions, txs, |p.job.wtxids|);
      pendingDeclaration := None;
      r := AcceptDeclaration(p.job, mergedRawTxs, random, prevHash, now);
    }

    /** The transactions of the block for a solution; None when there is no job or one is missing. */
    method HandlePushSolution(prevHash: Bytes) returns (txs: Option<seq<Bytes>>, matched: Option<nat>)
      requires Valid() && forall j :: 0 <= j < |declaredJobs| ==> declaredJobs[j].declaredAt >= 0
      ensures !fullTemplateMode ==> matched == None && txs == None
      ensures fullTemplateMode ==> (matched.None? <==> |declaredJobs| == 0)
      ensures matched.Some? ==>
                && Matches(declaredJobs, prevHash, matched.value)
                && (txs.Some? <==> Covers(declaredJobs[matched.value].rawTransactions,
                                          |declaredJobs[matched.value].job.wtxids|))
                && (txs.Some? ==> IsBody(declaredJobs[matched.value], txs.value))
    {
      txs, matched := None, None;
      if !fullTemplateMode { return; }
      matched := MatchSolution(declaredJobs, prevHash);
      if matched == None { return; }
      var d := declaredJobs[matched.value];
      var list: seq<Bytes> := [];
      var i: nat := 0;
      while i < |d.job.wtxids|
        invariant i <= |d.job.wtxids| && |list| == i
        invariant forall k: nat :: k < i ==> Some(k) in d.rawTransactions && list[k] == d.rawTransactions[Some(k)]
      {
        if Some(i) !in d.rawTransactions { return; }
        list := list + [d.rawTransactions[Some(i)]];
        i := i + 1;
      }
      txs := Some(list);
    }
  }

  lemma {:induction false} OneMissing(id: Txid, txs: seq<Bytes>)
    requires |txs| == 1
    ensures MissingUpTo([id], map[], 1) == [0] && KnownUpTo([id], map[], 1) == map[]
    ensures MergedUpTo(map[], [0], txs, 1) == map[Some(0) := txs[0]]
  {
    assert MissingUpTo([id], map[], 0) == [] && KnownUpTo([id], map[], 0) == map[];
    assert MergedUpTo(map[], [0], txs, 0) == map[];
  }

  /** A job is declared and replaced by another before the reply comes. */
  method DeclareTwice(first: Txid, second: Txid, now: nat) returns (c: Client)
    ensures fresh(c) && c.Valid() && c.fullTemplateMode && c.accepted == [] && c.pendingDeclaration.Some?
    ensures var p := c.pendingDeclaration.value;
            && p.job.requestId == 2 && p.job.wtxids == [second] && p.unknownPositions == [0] && p.knownRawTxs == map[]
            && !CoinbaseRefused(p.job, c.OutputsFor(p.job.token))
  {
    c := new Client(true);
    var token := c.AllocateToken([], [], now);
    OneMissing(first, [[]]);
    OneMissing(second, [[]]);
    var r := c.HandleDeclareMiningJob(Job(1, token, [first], [1], [1]), map[], [], None, now);
    r := c.HandleDeclareMiningJob(Job(2, token, [second], [1], [1]), map[], [], None, now);
  }

  method CompleteLate(first: Txid, second: Txid, tx: Bytes, now: nat) returns (c: Client)
    ensures c.Valid() && c.fullTemplateMode && |c.accepted| == 1
    ensures var d := c.accepted[0];
            d.job.requestId == 2 && d.job.wtxids == [second] && d.rawTransactions == map[Some(0) := tx]
            && d.declaredAt == now
  {
    c := DeclareTwice(first, second, now);
    OneMissing(second, [tx]);
    var r := c.HandleProvideMissingTransactionsSuccess([tx], [], None, now);
  }

  /** The late reply completes the second job: its solution's block has the first job's transaction. */
  method LateReply(first: Txid, second: Txid, tx: Bytes, now: nat) returns (c: Client, body: seq<Bytes>)
    ensures c.Valid() && |c.accepted| == 1 && c.accepted[0].job.requestId == 2 && c.accepted[0].job.wtxids == [second]
    ensures IsBody(c.accepted[0], body) && body == [tx]
  {
    c := CompleteLate(first, second, tx, now);
    var txs, matched := c.HandlePushSolution([]);
    body := txs.value;
  }
}
