/**
 * The bytes of a job's coinbase: the script that ends in a 12-byte extranonce slot, the serialization
 * around it, and why searching its hex string finds the script where it is.
 */
module CoinbaseLayout {
  import opened ByteStrings
  import opened CoinbaseOutputs

  const MAX_BLOCK_WEIGHT: int := 4000000
  const MAX_SCRIPT_SIZE: int := 100
  const SLOT_BYTES: int := 12
  const SCRIPT_LENGTH_OFFSET: int := 41

  // ----- The script: height, pool identifier, slot -----

  function ScriptNumberDigits(v: nat): (r: Bytes)
    ensures |r| >= 1
  {
    if v < 0x80 then [v] else [v % 256] + ScriptNumberDigits(v / 256)
  }

  /** Minimal little-endian script number; a clear top bit marks it positive. */
  function ScriptNumber(v: nat): Bytes {
    if v == 0 then [] else ScriptNumberDigits(v)
  }

  /** The encoding loses nothing, so it is all zeros for no height but 0. */
  lemma {:induction false} ScriptNumberRoundTrip(v: nat)
    ensures FromLittleEndian(ScriptNumberDigits(v)) == v
  {
    if v >= 0x80 {
      ScriptNumberRoundTrip(v / 256);
      assert ScriptNumberDigits(v)[1..] == ScriptNumberDigits(v / 256);
    }
  }

  /** Up to 0x7fffff the height takes at most three bytes, up to 0x7fffffff four. */
  lemma ScriptNumberLength(v: nat)
    requires 0 < v <= 0x7fff_ffff
    ensures |ScriptNumber(v)| ==
              if v > 0x7f_ffff then 4 else if v > 0x7fff then 3 else if v > 0x7f then 2 else 1
  {
    var a, b, c := v / 256, v / 256 / 256, v / 256 / 256 / 256;
    assert v >= 0x80 ==> ScriptNumberDigits(v) == [v % 256] + ScriptNumberDigits(a);
    assert a >= 0x80 ==> ScriptNumberDigits(a) == [a % 256] + ScriptNumberDigits(b);
    assert b >= 0x80 ==> ScriptNumberDigits(b) == [b % 256] + ScriptNumberDigits(c);
  }

  /** `Buffer.alloc(12 + (3 - encoded.length), 0)`: 15 bytes less the height's. */
  function Script(height: nat, identifier: Bytes): Bytes
    requires 0 < height <= 0x7fff_ffff
  {
    var h := ScriptNumber(height);
    ScriptNumberLength(height);
    [|h|] + h + identifier + Repeat(0, SLOT_BYTES + 3 - |h|)
  }

  /** Its length depends on the identifier alone. */
  lemma ScriptLength(height: nat, identifier: Bytes)
    requires 0 < height <= 0x7fff_ffff
    ensures |Script(height, identifier)| == 16 + |identifier|
  {
    ScriptNumberLength(height);
  }

  // ----- Serialization without witness -----

  function InputHead(): (r: Bytes)
    ensures |r| == SCRIPT_LENGTH_OFFSET
  {
    LittleEndian(2, 4) + [1] + Repeat(0, 32) + Repeat(0xFF, 4)
  }

  function OutputBytes(outs: seq<Output>): Bytes
    requires forall k :: 0 <= k < |outs| ==> outs[k].value >= 0
  {
    if |outs| == 0 then []
    else
      var n := |outs| - 1;
      OutputBytes(outs[..n]) + LittleEndian(outs[n].value, 8) + VarSlice(outs[n].script)
  }

  /** Sequence number, outputs and lock time. */
  function Tail(outs: seq<Output>): Bytes
    requires forall k :: 0 <= k < |outs| ==> outs[k].value >= 0
  {
    Repeat(0xFF, 4) + VarInt(|outs|) + OutputBytes(outs) + Repeat(0, 4)
  }

  /** `__toBuffer()` */
  function Serialize(script: Bytes, tail: Bytes): Bytes {
    InputHead() + VarSlice(script) + tail
  }

  /** base * 3 + total, where total adds marker, flag and the 34-byte witness. */
  function Weight(script: Bytes, tail: Bytes): nat {
    4 * |Serialize(script, tail)| + 36
  }

  /** The identifier is dropped when the script or the block would become too big. */
  function JobScript(height: nat, identifier: Bytes, blockWeight: nat, tail: Bytes): Bytes
    requires 0 < height <= 0x7fff_ffff
  {
    var full := if |Script(height, identifier)| > MAX_SCRIPT_SIZE then Script(height, [])
      else Script(height, identifier);
    if Weight(full, tail) + blockWeight > MAX_BLOCK_WEIGHT then Script(height, []) else full
  }

  lemma {:induction false} JobScriptShape(height: nat, identifier: Bytes, blockWeight: nat, tail: Bytes)
    requires 0 < height <= 0x7fff_ffff
    ensures var s := JobScript(height, identifier, blockWeight, tail);
            && 16 <= |s| <= MAX_SCRIPT_SIZE
            && (s == Script(height, identifier) || s == Script(height, []))
  {
    ScriptLength(height, identifier);
    ScriptLength(height, []);
  }

  /** The top bit is clear, and no shorter encoding would do. */
  lemma {:induction false} ScriptNumberMinimal(v: nat)
    ensures var d := ScriptNumberDigits(v);
            d[|d| - 1] < 0x80 && (|d| == 1 || d[|d| - 1] != 0 || d[|d| - 2] >= 0x80)
  {
    if v >= 0x80 {
      ScriptNumberMinimal(v / 256);
      var d := ScriptNumberDigits(v);
      assert d[1..] == ScriptNumberDigits(v / 256);
      assert d[|d| - 1] == d[1..][|d| - 2] && (|d| > 2 ==> d[|d| - 2] == d[1..][|d| - 3]);
    }
  }

  /** A script whose bytes are the height as one minimal positive number, `extra`, and zeros up to 15 more. */
  ghost predicate ReadsAs(s: Bytes, height: nat, extra: Bytes) {
    |s| == 16 + |extra| && var n := s[0];
    && 1 <= n <= 4 && FromLittleEndian(s[1..n + 1]) == height
    && s[n] < 0x80 && (n == 1 || s[n] != 0 || s[n - 1] >= 0x80)
    && s[n + 1..n + 1 + |extra|] == extra
    && forall k :: n + 1 + |extra| <= k < |s| ==> s[k] == 0
  }

  lemma {:induction false} ScriptReadsAs(height: nat, extra: Bytes)
    requires 0 < height <= 0x7fff_ffff
    ensures ReadsAs(Script(height, extra), height, extra)
  {
    var s, h := Script(height, extra), ScriptNumber(height);
    ScriptNumberLength(height);
    ScriptNumberRoundTrip(height);
    ScriptNumberMinimal(height);
    assert s == [|h|] + (h + (extra + Repeat(0, SLOT_BYTES + 3 - |h|)));
    assert s[1..|h| + 1] == h;
  }

  /**
   * The script says the height, then the pool identifier as long as the script keeps to 100 bytes and
   * the block to its weight, and the rest is zeros.
   */
  ghost predicate SaysHeight(s: Bytes, height: nat, identifier: Bytes, blockWeight: nat, tail: Bytes) {
    var kept := 16 + |identifier| <= 100 && 4 * (58 + |identifier| + |tail|) + 36 + blockWeight <= 4_000_000;
    ReadsAs(s, height, if kept then identifier else [])
  }

  /** So does every job's script. */
  lemma {:induction false} JobScriptReadsAs(height: nat, identifier: Bytes, blockWeight: nat, tail: Bytes)
    requires 0 < height <= 0x7fff_ffff
    ensures SaysHeight(JobScript(height, identifier, blockWeight, tail), height, identifier, blockWeight, tail)
  {
    ScriptReadsAs(height, identifier);
    ScriptReadsAs(height, []);
  }

  // ----- The hex strings of the constructor -----

  type Nibble = x: int | 0 <= x < 16

  type Hex = seq<Nibble>

  /** The k-th hex digit of a buffer. */
  function Digit(b: Bytes, k: nat): Nibble
    requires k < 2 * |b|
  {
    var x: int := b[k / 2];
    if k % 2 == 0 then x / 16 else x % 16
  }

  function ToHex(b: Bytes): (r: Hex)
    ensures |r| == 2 * |b|
    ensures forall k :: 0 <= k < |r| ==> r[k] == Digit(b, k)
  {
    seq(2 * |b|, k requires 0 <= k < 2 * |b| => Digit(b, k))
  }

  function FromHex(h: Hex): (r: Bytes)
    ensures |r| == |h| / 2
  {
    seq(|h| / 2, k requires 0 <= k < |h| / 2 => ByteOf(h[2 * k], h[2 * k + 1]))
  }

  function ByteOf(high: int, low: int): Byte
    requires 0 <= high < 16 && 0 <= low < 16
  {
    16 * high + low
  }

  lemma DigitsOfByte(b: Bytes, k: nat)
    requires k < |b|
    ensures ByteOf(Digit(b, 2 * k), Digit(b, 2 * k + 1)) == b[k]
  {
  }

  /** Cutting the hex string between bytes cuts the buffer. */
  lemma {:induction false} HexSlice(b: Bytes, i: nat, j: nat)
    requires i <= j <= |b|
    ensures FromHex(ToHex(b)[2 * i..2 * j]) == b[i..j]
  {
    var r, s := FromHex(ToHex(b)[2 * i..2 * j]), b[i..j];
    forall k: nat | k < j - i
      ensures r[k] == s[k]
    {
      ByteOfSlice(b, i, j, k);
    }
  }

  lemma {:induction false} ByteOfSlice(b: Bytes, i: nat, j: nat, k: nat)
    requires i <= j <= |b| && k < j - i
    ensures FromHex(ToHex(b)[2 * i..2 * j])[k] == b[i + k]
  {
    var all, m := ToHex(b), i + k;
    var h := all[2 * i..2 * j];
    var high, low: nat := 2 * m, 2 * m + 1;
    assert h[2 * k] == all[high] == Digit(b, high);
    assert h[2 * k + 1] == all[low] == Digit(b, low);
    DigitsOfByte(b, m);
  }

  ghost predicate MatchesAt(text: Hex, pattern: Hex, at: nat) {
    at + |pattern| <= |text| && text[at..at + |pattern|] == pattern
  }

  /** `String.indexOf`: the first match at or after `from`. */
  function IndexOf(text: Hex, pattern: Hex, from: nat): int
    decreases |text| - from
  {
    if from + |pattern| > |text| then -1
    else if text[from..from + |pattern|] == pattern then from
    else IndexOf(text, pattern, from + 1)
  }

  lemma {:induction false} IndexOfFirst(text: Hex, pattern: Hex, from: nat, at: nat)
    requires from <= at && MatchesAt(text, pattern, at)
    requires forall k :: from <= k < at ==> !MatchesAt(text, pattern, k)
    ensures IndexOf(text, pattern, from) == at
    decreases at - from
  {
    if from < at {
      assert !MatchesAt(text, pattern, from);
      IndexOfFirst(text, pattern, from + 1, at);
    }
  }

  /** The start of a script, up to where the height ends. */
  ghost predicate StartsWithHeight(script: Bytes) {
    && 16 <= |script| <= MAX_SCRIPT_SIZE && 1 <= script[0] <= 4
    && (script[0] == 1 ==> script[1] != 0)
    && (script[0] == 2 ==> script[1] != 0 || script[2] != 0)
  }

  lemma JobScriptStartsWithHeight(height: nat, identifier: Bytes)
    requires 0 < height <= 0x7fff_ffff && 16 + |identifier| <= MAX_SCRIPT_SIZE
    ensures StartsWithHeight(Script(height, identifier))
  {
    var h := ScriptNumber(height);
    ScriptNumberLength(height);
    ScriptLength(height, identifier);
    ScriptNumberRoundTrip(height);
    if |h| == 1 {
      assert FromLittleEndian(h[1..]) == 0;
    }
    if |h| == 2 {
      assert FromLittleEndian(h[1..]) == h[1] + 256 * FromLittleEndian(h[1..][1..]);
      assert h[1..][1..] == [];
    }
  }

  lemma SerializedAt(script: Bytes, tail: Bytes)
    requires |script| < 0xFD
    ensures var s := Serialize(script, tail);
            && |s| == 42 + |script| + |tail|
            && s[..4] == [2, 0, 0, 0] && s[4] == 1
            && (forall k :: 5 <= k < 37 ==> s[k] == 0)
            && (forall k :: 37 <= k < 41 ==> s[k] == 0xFF)
            && s[41] == |script|
            && s[42..42 + |script|] == script && s[42 + |script|..] == tail
  {
    assert LittleEndian(2, 4) == [2, 0, 0, 0] by {
      assert LittleEndian(0, 2) == [0] + LittleEndian(0, 1) && LittleEndian(0, 1) == [0] + LittleEndian(0, 0);
      assert LittleEndian(0, 3) == [0] + LittleEndian(0, 2);
    }
  }

  /** The hex digits in front of the script, and its first two. */
  ghost predicate HeadDigits(text: Hex, length: nat, heightBytes: Byte) {
    && |text| >= 86 && 1 <= heightBytes <= 4
    && text[0] == 0 && text[1] == 2 && (forall k :: 2 <= k < 9 ==> text[k] == 0)
    && text[9] == 1 && (forall k :: 10 <= k < 74 ==> text[k] == 0)
    && (forall k :: 74 <= k < 82 ==> text[k] == 15)
    && text[82] == length / 16 && text[84] == 0
  }

  lemma SerializedDigits(script: Bytes, tail: Bytes)
    requires StartsWithHeight(script)
    ensures HeadDigits(ToHex(Serialize(script, tail)), |script|, script[0])
  {
    var s := Serialize(script, tail);
    SerializedAt(script, tail);
    var text := ToHex(s);
    HeadBytesDigits(s);
    assert s[42] == s[42..42 + |script|][0];
    assert text[82] == Digit(s, 82) && text[84] == Digit(s, 84);
  }

  lemma HeadBytesDigits(s: Bytes)
    requires |s| >= 43 && s[..4] == [2, 0, 0, 0] && s[4] == 1
    requires forall k :: 5 <= k < 37 ==> s[k] == 0
    requires forall k :: 37 <= k < 41 ==> s[k] == 0xFF
    ensures var text := ToHex(s);
            && text[0] == 0 && text[1] == 2 && (forall k :: 2 <= k < 9 ==> text[k] == 0)
            && text[9] == 1 && (forall k :: 10 <= k < 74 ==> text[k] == 0)
            && (forall k :: 74 <= k < 82 ==> text[k] == 15)
  {
    assert forall k :: 0 <= k < 4 ==> s[k] == s[..4][k];
    var text := ToHex(s);
    assert text[0] == Digit(s, 0) && text[1] == Digit(s, 1) && text[9] == Digit(s, 9);
    forall k | 2 <= k < 9 ensures text[k] == 0 {
      assert text[k] == Digit(s, k);
    }
  }

  /** Where a script's first two digits could be read in front of it. */
  lemma OnlyTwoCandidates(text: Hex, length: nat, heightBytes: Byte, at: nat)
    requires HeadDigits(text, length, heightBytes) && length >= 16 && at < 84
    requires text[at] == 0 && text[at + 1] == heightBytes
    ensures (at == 0 && heightBytes == 2) || (at == 8 && heightBytes == 1)
  {
  }

  lemma MatchDigit(text: Hex, pattern: Hex, at: nat, k: nat)
    requires MatchesAt(text, pattern, at) && k < |pattern|
    ensures text[at + k] == pattern[k]
  {
    assert text[at..at + |pattern|][k] == text[at + k];
  }

  /** Nothing before byte 42 reads like the script, at any hex digit. */
  lemma NoEarlierMatch(script: Bytes, tail: Bytes, at: nat)
    requires StartsWithHeight(script) && at < 84
    ensures !MatchesAt(ToHex(Serialize(script, tail)), ToHex(script), at)
  {
    var text, pattern := ToHex(Serialize(script, tail)), ToHex(script);
    if MatchesAt(text, pattern, at) {
      SerializedDigits(script, tail);
      MatchDigit(text, pattern, at, 0);
      MatchDigit(text, pattern, at, 1);
      MatchDigit(text, pattern, at, 2);
      MatchDigit(text, pattern, at, 3);
      MatchDigit(text, pattern, at, 4);
      MatchDigit(text, pattern, at, 5);
      FirstDigits(script, pattern);
      OnlyTwoCandidates(text, |script|, script[0], at);
      assert false;
    }
  }

  lemma FirstDigits(script: Bytes, pattern: Hex)
    requires StartsWithHeight(script) && pattern == ToHex(script)
    ensures pattern[0] == 0 && pattern[1] == script[0]
    ensures pattern[2] == 0 && pattern[3] == 0 ==> script[1] == 0
    ensures pattern[4] == 0 && pattern[5] == 0 ==> script[2] == 0
  {
    assert pattern[0] == Digit(script, 0) && pattern[1] == Digit(script, 1);
    assert pattern[2] == Digit(script, 2) && pattern[3] == Digit(script, 3);
    assert pattern[4] == Digit(script, 4) && pattern[5] == Digit(script, 5);
  }

  lemma SerializedScript(script: Bytes, tail: Bytes)
    requires |script| < 0xFD
    ensures MatchesAt(ToHex(Serialize(script, tail)), ToHex(script), 84)
  {
    var s := Serialize(script, tail);
    SerializedAt(script, tail);
    var text, pattern := ToHex(s), ToHex(script);
    forall k | 0 <= k < |pattern|
      ensures text[84 + k] == pattern[k]
    {
      assert s[42 + k / 2] == s[42..42 + |script|][k / 2];
      assert text[84 + k] == Digit(s, 84 + k) && pattern[k] == Digit(script, k);
    }
  }

  /** `indexOf` on the hex strings finds the real script, so the halves are cut around its last 12 bytes. */
  lemma {:induction false} ScriptIsFoundWhereItIs(script: Bytes, tail: Bytes)
    requires StartsWithHeight(script)
    ensures IndexOf(ToHex(Serialize(script, tail)), ToHex(script), 0) == 84
  {
    var text, pattern := ToHex(Serialize(script, tail)), ToHex(script);
    SerializedScript(script, tail);
    forall k: nat | 0 <= k < 84
      ensures !MatchesAt(text, pattern, k)
    {
      NoEarlierMatch(script, tail, k);
    }
    IndexOfFirst(text, pattern, 0, 84);
  }

  /** The two halves around the last 12 bytes of the script. */
  function PartOne(script: Bytes, tail: Bytes): Bytes
    requires |script| >= SLOT_BYTES
  {
    InputHead() + VarInt(|script|) + script[..|script| - SLOT_BYTES]
  }

  lemma {:induction false} BytesAroundSlot(script: Bytes, tail: Bytes)
    requires SLOT_BYTES <= |script| < 0xFD
    ensures var s := Serialize(script, tail);
            && |s| == 42 + |script| + |tail|
            && s[0..42 + |script| - SLOT_BYTES] == PartOne(script, tail)
            && s[42 + |script|..|s|] == tail
  {
    var s, slot := Serialize(script, tail), script[|script| - SLOT_BYTES..];
    assert script == script[..|script| - SLOT_BYTES] + slot;
    assert s == PartOne(script, tail) + slot + tail;
  }

  lemma {:induction false} HexHalves(s: Bytes, cut: nat, end: nat, hex: Hex, one: Bytes, two: Bytes)
    requires cut <= end <= |s| && hex == ToHex(s) && s[0..cut] == one && s[end..|s|] == two
    ensures FromHex(hex[..2 * cut]) == one && FromHex(hex[2 * end..]) == two
  {
    HexSlice(s, 0, cut);
    HexSlice(s, end, |s|);
    assert hex[2 * 0..2 * cut] == hex[..2 * cut] && hex[2 * end..2 * |s|] == hex[2 * end..];
  }

  /** What the hex string holds around the last 24 digits of the script. */
  lemma {:induction false} HalvesAt(script: Bytes, tail: Bytes, hex: Hex, at: int)
    requires SLOT_BYTES <= |script| < 0xFD && hex == ToHex(Serialize(script, tail)) && at == 84 + 2 * |script|
    ensures 24 <= at <= |hex| && FromHex(hex[..at - 24]) == PartOne(script, tail) && FromHex(hex[at..]) == tail
  {
    var cut, end := 42 + |script| - SLOT_BYTES, 42 + |script|;
    BytesAroundSlot(script, tail);
    HexHalves(Serialize(script, tail), cut, end, hex, PartOne(script, tail), tail);
    assert 2 * cut == at - 24 && 2 * end == at;
  }

  /** The whole slot is padding unless a four-byte height leaves room for only 11 bytes of it. */
  lemma SlotIsPaddingIff(height: nat, identifier: Bytes)
    requires 0 < height <= 0x7fff_ffff
    ensures var s := Script(height, identifier);
            var before := [|ScriptNumber(height)|] + ScriptNumber(height) + identifier;
            && |s| >= SLOT_BYTES
            && (s[|s| - SLOT_BYTES..] == Repeat(0, SLOT_BYTES)
                <==> height <= 0x7f_ffff || before[|before| - 1] == 0)
  {
    ScriptNumberLength(height);
    var h := ScriptNumber(height);
    var before := [|h|] + h + identifier;
    var s := Script(height, identifier);
    var pad := Repeat(0, SLOT_BYTES + 3 - |h|);
    assert s == before + pad;
    if |h| == 4 {
      assert s[|s| - SLOT_BYTES..][0] == before[|before| - 1];
      assert s[|s| - SLOT_BYTES..] == [before[|before| - 1]] + pad;
    } else {
      assert s[|s| - SLOT_BYTES..] == pad[|pad| - SLOT_BYTES..];
    }
  }
}
