/** Reading a serialized transaction back: its input, every output's value and script, and nothing left over. */
module CoinbaseParsing {
  import opened Options
  import opened ByteStrings
  import opened CoinbaseOutputs
  import opened CoinbaseLayout

  /** What was read, and the bytes behind it. */
  datatype Read<T> = Failed | Read(value: T, rest: Bytes)

  function ReadBytes(b: Bytes, n: nat): Read<Bytes> {
    if |b| < n then Failed else Read(b[..n], b[n..])
  }

  function ReadInt(b: Bytes, n: nat): Read<nat> {
    if |b| < n then Failed else Read(FromLittleEndian(b[..n]), b[n..])
  }

  function ReadVarInt(b: Bytes): Read<nat> {
    if |b| == 0 then Failed
    else if b[0] < 0xFD then Read(b[0], b[1..])
    else ReadInt(b[1..], if b[0] == 0xFD then 2 else if b[0] == 0xFE then 4 else 8)
  }

  function ReadSlice(b: Bytes): Read<Bytes> {
    match ReadVarInt(b)
    case Failed => Failed
    case Read(n, rest) => ReadBytes(rest, n)
  }

  function ReadOutput(b: Bytes): Read<Output> {
    match ReadInt(b, 8)
    case Failed => Failed
    case Read(value, rest) =>
      match ReadSlice(rest)
      case Failed => Failed
      case Read(script, rest) => Read(Output(script, value), rest)
  }

  function ReadOutputs(b: Bytes, n: nat): Read<seq<Output>> {
    if n == 0 then Read([], b)
    else
      match ReadOutputs(b, n - 1)
      case Failed => Failed
      case Read(outs, rest) =>
        match ReadOutput(rest)
        case Failed => Failed
        case Read(o, rest) => Read(outs + [o], rest)
  }

  /** A transaction with one input. */
  datatype Transaction = Transaction(version: nat, prevHash: Bytes, prevIndex: nat, script: Bytes, sequence: nat,
                                     outs: seq<Output>, lockTime: nat)

  /** What stands behind the input's script. */
  datatype Ending = Ending(sequence: nat, outs: seq<Output>, lockTime: nat)

  function ReadEnding(b: Bytes): Read<Ending> {
    match ReadInt(b, 4)
    case Failed => Failed
    case Read(sequence, rest) =>
      match ReadVarInt(rest)
      case Failed => Failed
      case Read(count, rest) =>
        match ReadOutputs(rest, count)
        case Failed => Failed
        case Read(outs, rest) =>
          match ReadInt(rest, 4)
          case Failed => Failed
          case Read(lockTime, rest) => Read(Ending(sequence, outs, lockTime), rest)
  }

  /** Version, the count of one input, the output it spends. */
  datatype Opening = Opening(version: nat, prevHash: Bytes, prevIndex: nat)

  function ReadOpening(b: Bytes): Read<Opening> {
    match ReadInt(b, 4)
    case Failed => Failed
    case Read(version, rest) =>
      match ReadVarInt(rest)
      case Failed => Failed
      case Read(count, rest) =>
        match ReadBytes(rest, 32)
        case Failed => Failed
        case Read(prevHash, rest) =>
          match ReadInt(rest, 4)
          case Failed => Failed
          case Read(prevIndex, rest) =>
            if count == 1 then Read(Opening(version, prevHash, prevIndex), rest) else Failed
  }

  function Parse(b: Bytes): Option<Transaction> {
    match ReadOpening(b)
    case Failed => None
    case Read(o, rest) =>
      match ReadSlice(rest)
      case Failed => None
      case Read(script, rest) =>
        match ReadEnding(rest)
        case Failed => None
        case Read(e, rest) =>
          if |rest| != 0 then None
          else Some(Transaction(o.version, o.prevHash, o.prevIndex, script, e.sequence, e.outs, e.lockTime))
  }

  // ----- Each part is read back -----

  lemma Powers()
    ensures Power256(2) == 0x1_0000 && Power256(4) == 0x1_0000_0000 && Power256(8) == 0x1_0000_0000_0000_0000
  {
    assert Power256(1) == 256 && Power256(2) == 256 * Power256(1) && Power256(3) == 256 * Power256(2);
    assert Power256(4) == 256 * Power256(3) && Power256(5) == 256 * Power256(4) && Power256(6) == 256 * Power256(5);
    assert Power256(7) == 256 * Power256(6);
  }

  lemma {:induction false} IntReadsBack(v: nat, n: nat, rest: Bytes)
    requires v < Power256(n)
    ensures ReadInt(LittleEndian(v, n) + rest, n) == Read(v, rest)
  {
    LittleEndianRoundTrip(v, n);
    assert (LittleEndian(v, n) + rest)[..n] == LittleEndian(v, n) && (LittleEndian(v, n) + rest)[n..] == rest;
  }

  lemma BytesReadBack(b: Bytes, rest: Bytes)
    ensures ReadBytes(b + rest, |b|) == Read(b, rest)
  {
    assert (b + rest)[..|b|] == b && (b + rest)[|b|..] == rest;
  }

  const LIMIT: int := 0x1_0000_0000_0000_0000

  lemma {:induction false} LongIntReadsBack(tag: Byte, n: nat, size: nat, rest: Bytes)
    requires tag >= 0xFD && size == (if tag == 0xFD then 2 else if tag == 0xFE then 4 else 8) && n < Power256(size)
    ensures ReadVarInt([tag] + LittleEndian(n, size) + rest) == Read(n, rest)
  {
    var b := [tag] + LittleEndian(n, size) + rest;
    assert b[1..] == LittleEndian(n, size) + rest;
    IntReadsBack(n, size, rest);
  }

  lemma {:induction false} VarIntReadsBack(n: nat, rest: Bytes)
    requires n < LIMIT
    ensures ReadVarInt(VarInt(n) + rest) == Read(n, rest)
  {
    Powers();
    if n < 0xFD {
      assert (VarInt(n) + rest)[1..] == rest;
    } else if n <= 0xFFFF {
      LongIntReadsBack(0xFD, n, 2, rest);
    } else if n <= 0xFFFF_FFFF {
      LongIntReadsBack(0xFE, n, 4, rest);
    } else {
      LongIntReadsBack(0xFF, n, 8, rest);
    }
  }

  lemma {:induction false} SliceReadsBack(b: Bytes, rest: Bytes)
    requires |b| < LIMIT
    ensures ReadSlice(VarSlice(b) + rest) == Read(b, rest)
  {
    assert VarSlice(b) + rest == VarInt(|b|) + (b + rest);
    VarIntReadsBack(|b|, b + rest);
    BytesReadBack(b, rest);
  }

  ghost predicate OutputFits(o: Output) {
    0 <= o.value < LIMIT && |o.script| < LIMIT
  }

  ghost predicate OutputsFit(outs: seq<Output>) {
    |outs| < LIMIT && forall k :: 0 <= k < |outs| ==> OutputFits(outs[k])
  }

  function OneOutput(o: Output): Bytes
    requires o.value >= 0
  {
    LittleEndian(o.value, 8) + VarSlice(o.script)
  }

  lemma {:induction false} OutputReadsBack(o: Output, rest: Bytes)
    requires OutputFits(o)
    ensures ReadOutput(OneOutput(o) + rest) == Read(o, rest)
  {
    Powers();
    var behind := VarSlice(o.script) + rest;
    assert OneOutput(o) + rest == LittleEndian(o.value, 8) + behind;
    IntReadsBack(o.value, 8, behind);
    SliceReadsBack(o.script, rest);
  }

  lemma OutputsGrouped(outs: seq<Output>, rest: Bytes)
    requires |outs| > 0 && forall k :: 0 <= k < |outs| ==> outs[k].value >= 0
    ensures var n := |outs| - 1;
            OutputBytes(outs) + rest == OutputBytes(outs[..n]) + (OneOutput(outs[n]) + rest)
  {
    var n := |outs| - 1;
    Regrouped(OutputBytes(outs[..n]), LittleEndian(outs[n].value, 8), VarSlice(outs[n].script), rest);
  }

  lemma Regrouped(a: Bytes, b: Bytes, c: Bytes, d: Bytes)
    ensures a + b + c + d == a + (b + c + d)
  {
  }

  lemma {:induction false} OneMoreRead(b: Bytes, init: seq<Output>, last: Output, behind: Bytes, rest: Bytes)
    requires ReadOutputs(b, |init|) == Read(init, behind) && ReadOutput(behind) == Read(last, rest)
    ensures ReadOutputs(b, |init| + 1) == Read(init + [last], rest)
  {
  }

  lemma {:induction false} OutputsReadBack(outs: seq<Output>, rest: Bytes)
    requires OutputsFit(outs)
    ensures ReadOutputs(OutputBytes(outs) + rest, |outs|) == Read(outs, rest)
  {
    if |outs| == 0 {
      assert [] + rest == rest;
    } else {
      var n := |outs| - 1;
      var init, last := outs[..n], outs[n];
      assert OutputFits(last) && init + [last] == outs;
      var behind := OneOutput(last) + rest;
      OutputsGrouped(outs, rest);
      OutputsReadBack(init, behind);
      OutputReadsBack(last, rest);
      OneMoreRead(OutputBytes(init) + behind, init, last, behind, rest);
    }
  }

  lemma AllOnes()
    ensures FromLittleEndian(Repeat(0, 4)) == 0
    ensures FromLittleEndian(Repeat(0xFF, 4)) == 0xFFFF_FFFF
  {
    var z, f := Repeat(0, 4), Repeat(0xFF, 4);
    assert z[1..] == Repeat(0, 3) && Repeat(0, 3)[1..] == Repeat(0, 2) && Repeat(0, 2)[1..] == Repeat(0, 1);
    assert f[1..] == Repeat(0xFF, 3) && Repeat(0xFF, 3)[1..] == Repeat(0xFF, 2);
    assert Repeat(0xFF, 2)[1..] == Repeat(0xFF, 1);
    assert FromLittleEndian(Repeat(0, 1)) == 0 && FromLittleEndian(Repeat(0xFF, 1)) == 0xFF;
    assert FromLittleEndian(Repeat(0, 2)) == 0 && FromLittleEndian(Repeat(0xFF, 2)) == 0xFFFF;
    assert FromLittleEndian(Repeat(0, 3)) == 0 && FromLittleEndian(Repeat(0xFF, 3)) == 0xFF_FFFF;
  }

  lemma FixedIntReadsBack(b: Bytes, v: nat, rest: Bytes)
    requires |b| == 4 && FromLittleEndian(b) == v
    ensures ReadInt(b + rest, 4) == Read(v, rest)
  {
    assert (b + rest)[..4] == b && (b + rest)[4..] == rest;
  }

  lemma {:induction false} EndingReadsBack(outs: seq<Output>)
    requires OutputsFit(outs)
    ensures ReadEnding(Tail(outs)) == Read(Ending(0xFFFF_FFFF, outs, 0), [])
  {
    AllOnes();
    var last := Repeat(0, 4);
    var behind := OutputBytes(outs) + last;
    assert Tail(outs) == Repeat(0xFF, 4) + (VarInt(|outs|) + behind);
    FixedIntReadsBack(Repeat(0xFF, 4), 0xFFFF_FFFF, VarInt(|outs|) + behind);
    VarIntReadsBack(|outs|, behind);
    OutputsReadBack(outs, last);
    assert last + [] == last;
    FixedIntReadsBack(last, 0, []);
  }

  lemma HeadGrouped(spent: Bytes, rest: Bytes)
    requires spent == Repeat(0, 32) + (Repeat(0xFF, 4) + rest)
    ensures InputHead() + rest == LittleEndian(2, 4) + (VarInt(1) + spent)
  {
  }

  lemma {:induction false} OpeningReadsBack(rest: Bytes)
    ensures ReadOpening(InputHead() + rest) == Read(Opening(2, Repeat(0, 32), 0xFFFF_FFFF), rest)
  {
    Powers();
    AllOnes();
    var index := Repeat(0xFF, 4) + rest;
    var spent := Repeat(0, 32) + index;
    HeadGrouped(spent, rest);
    IntReadsBack(2, 4, VarInt(1) + spent);
    VarIntReadsBack(1, spent);
    BytesReadBack(Repeat(0, 32), index);
    FixedIntReadsBack(Repeat(0xFF, 4), 0xFFFF_FFFF, rest);
  }

  lemma SerializedGrouped(script: Bytes, tail: Bytes)
    ensures Serialize(script, tail) == InputHead() + (VarSlice(script) + tail)
  {
  }

  lemma ParsedOf(b: Bytes, o: Opening, behind: Bytes, script: Bytes, tail: Bytes, e: Ending)
    requires ReadOpening(b) == Read(o, behind) && ReadSlice(behind) == Read(script, tail)
    requires ReadEnding(tail) == Read(e, [])
    ensures Parse(b) ==
              Some(Transaction(o.version, o.prevHash, o.prevIndex, script, e.sequence, e.outs, e.lockTime))
  {
  }

  /** A serialized coinbase reads back as its script and its outputs, each with its value, in order. */
  lemma {:induction false} SerializedReadsBack(script: Bytes, outs: seq<Output>)
    requires OutputsFit(outs) && |script| < LIMIT
    ensures Parse(Serialize(script, Tail(outs))) ==
              Some(Transaction(2, Repeat(0, 32), 0xFFFF_FFFF, script, 0xFFFF_FFFF, outs, 0))
  {
    var tail := Tail(outs);
    var behind := VarSlice(script) + tail;
    OpeningReadsBack(behind);
    SliceReadsBack(script, tail);
    EndingReadsBack(outs);
    SerializedGrouped(script, tail);
    ParsedOf(Serialize(script, tail), Opening(2, Repeat(0, 32), 0xFFFF_FFFF), behind, script, tail,
             Ending(0xFFFF_FFFF, outs, 0));
  }
}
