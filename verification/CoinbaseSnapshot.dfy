/** The coinbase snapshot kept in Redis between template and block, and what comes back of it. */
module CoinbaseSnapshot {
  import opened Options
  import opened Decimals

  datatype StoredPayout = StoredPayout(address: string, percent: real, sats: int)

  datatype Snapshot = Snapshot(
    distribution: seq<StoredPayout>,
    blockRewardSats: int,
    consideredAddresses: seq<string>,
    balanceAfter: seq<(string, int)>)

  /** What a reader gets; None stands for `undefined` or NaN in a slot the hash does not have. */
  datatype ReadPayout = ReadPayout(address: Option<string>, percent: Option<real>, sats: Option<int>)

  datatype Parsed = Parsed(
    distribution: seq<ReadPayout>,
    blockRewardSats: Option<int>,
    consideredAddresses: set<string>,
    balanceAfter: map<Option<string>, Option<int>>)

  type Hash = map<string, string>

  // ----- Field names -----

  datatype Kind = DistAddr | DistPct | DistSats | BalAddr | BalSats

  datatype Field = BlockReward | Considered | DistCount | BalCount | Slot(kind: Kind, i: nat)

  function Suffix(k: Kind): (s: string)
    ensures |s| == (if k.DistPct? then 4 else 5) && s[0] == '_'
  {
    match k
    case DistAddr => "_addr"
    case DistPct => "_pct"
    case DistSats => "_sats"
    case BalAddr => "_addr"
    case BalSats => "_sats"
  }

  function Prefix(k: Kind): char {
    if k.BalAddr? || k.BalSats? then 'b' else 'd'
  }

  function Name(f: Field): string {
    match f
    case BlockReward => "blockRewardSats"
    case Considered => "consideredAddresses"
    case DistCount => "distribution_count"
    case BalCount => "balanceAfter_count"
    case Slot(k, i) => [Prefix(k)] + ShowNat(i) + Suffix(k)
  }

  /** The names the store knows: d0_addr, d0_pct and d0_sats for the first payout, b0_addr and b0_sats for a balance. */
  lemma StoredNames(i: nat)
    ensures Name(Slot(DistAddr, i)) == "d" + ShowNat(i) + "_addr" && Name(Slot(DistPct, i)) == "d" + ShowNat(i) + "_pct"
    ensures Name(Slot(DistSats, i)) == "d" + ShowNat(i) + "_sats"
    ensures Name(Slot(BalAddr, i)) == "b" + ShowNat(i) + "_addr" && Name(Slot(BalSats, i)) == "b" + ShowNat(i) + "_sats"
  {
  }

  lemma LongerDigits(a: string, b: string, y: string)
    requires forall k :: 0 <= k < |b| ==> IsDigit(b[k])
    ensures |a| < |b| ==> IsDigit((b + y)[|a|])
  {
  }

  lemma {:induction false} DigitsThenRest(a: string, b: string, x: string, y: string)
    requires forall k :: 0 <= k < |a| ==> IsDigit(a[k])
    requires forall k :: 0 <= k < |b| ==> IsDigit(b[k])
    requires |x| > 0 && |y| > 0 && !IsDigit(x[0]) && !IsDigit(y[0]) && a + x == b + y
    ensures a == b && x == y
  {
    assert (a + x)[|a|] == x[0] && (b + y)[|b|] == y[0];
    LongerDigits(a, b, y);
    LongerDigits(b, a, x);
    assert (a + x)[..|a|] == a && (b + y)[..|b|] == b;
    assert (a + x)[|a|..] == x && (b + y)[|b|..] == y;
  }

  lemma SlotName(f: Field)
    requires f.Slot?
    ensures |Name(f)| > 0 && Name(f)[0] == Prefix(f.kind) && Name(f)[1..] == ShowNat(f.i) + Suffix(f.kind)
  {
  }

  lemma KindOfName(k: Kind, m: Kind)
    requires Prefix(k) == Prefix(m) && Suffix(k) == Suffix(m)
    ensures k == m
  {
    assert "_addr"[1] == 'a' && "_pct"[1] == 'p' && "_sats"[1] == 's';
  }

  lemma {:induction false} SlotNamesInjective(f: Field, g: Field)
    requires f.Slot? && g.Slot? && Name(f) == Name(g)
    ensures f == g
  {
    SlotName(f);
    SlotName(g);
    DigitsThenRest(ShowNat(f.i), ShowNat(g.i), Suffix(f.kind), Suffix(g.kind));
    ShowNatInjective(f.i, g.i);
    KindOfName(f.kind, g.kind);
  }

  lemma SlotIsNotScalar(f: Field, g: Field)
    requires f.Slot? && !g.Slot?
    ensures Name(f) != Name(g)
  {
    assert IsDigit(Name(f)[1]);
    assert !IsDigit(Name(g)[1]);
  }

  /** No two fields share a name. */
  lemma {:induction false} NamesInjective(f: Field, g: Field)
    requires Name(f) == Name(g)
    ensures f == g
  {
    if f.Slot? && g.Slot? {
      SlotNamesInjective(f, g);
    } else if f.Slot? {
      SlotIsNotScalar(f, g);
    } else if g.Slot? {
      SlotIsNotScalar(g, f);
    } else {
      assert "blockRewardSats"[1] == 'l' && "consideredAddresses"[1] == 'o' && "distribution_count"[1] == 'i'
        && "balanceAfter_count"[1] == 'a';
    }
  }

  // ----- Lists of addresses -----

  /** `list.join('|')` */
  function Join(list: seq<string>): string {
    if |list| == 0 then "" else if |list| == 1 then list[0] else list[0] + "|" + Join(list[1..])
  }

  /** `text.split('|')` */
  function Split(text: string): (r: seq<string>)
    ensures |r| > 0
  {
    if |text| == 0 then [""]
    else
      var rest := Split(text[1..]);
      if text[0] == '|' then [""] + rest else [[text[0]] + rest[0]] + rest[1..]
  }

  predicate Plain(s: string) { s != "" && forall k :: 0 <= k < |s| ==> s[k] != '|' }

  function NonEmpty(list: seq<string>): set<string> {
    set s | s in list && s != ""
  }

  /** The considered addresses as read. */
  function ReadAddresses(text: string): set<string> {
    if text == "" then {} else NonEmpty(Split(text))
  }

  lemma {:induction false} PiecesHaveNoBar(text: string)
    ensures forall p :: p in Split(text) ==> forall k :: 0 <= k < |p| ==> p[k] != '|'
  {
    if |text| > 0 {
      PiecesHaveNoBar(text[1..]);
      assert Split(text[1..])[0] in Split(text[1..]);
    }
  }

  lemma {:induction false} SplitAtBar(a: string, b: string)
    requires forall k :: 0 <= k < |a| ==> a[k] != '|'
    ensures Split(a + "|" + b) == [a] + Split(b)
  {
    var text := a + "|" + b;
    if |a| == 0 {
      assert text[1..] == b;
    } else {
      SplitAtBar(a[1..], b);
      assert text[1..] == a[1..] + "|" + b;
      assert [text[0]] + a[1..] == a;
    }
  }

  lemma {:induction false} SplitPlain(a: string)
    requires forall k :: 0 <= k < |a| ==> a[k] != '|'
    ensures Split(a) == [a]
  {
    if |a| > 0 {
      SplitPlain(a[1..]);
      assert [a[0]] + a[1..] == a;
    }
  }

  lemma {:induction false} SplitJoined(list: seq<string>)
    requires |list| > 0 && forall k :: 0 <= k < |list| ==> Plain(list[k])
    ensures Split(Join(list)) == list && Join(list) != ""
  {
    if |list| == 1 {
      SplitPlain(list[0]);
    } else {
      SplitJoined(list[1..]);
      SplitAtBar(list[0], Join(list[1..]));
    }
  }

  function SetOf(list: seq<string>): set<string> {
    set s | s in list
  }

  /** The set of considered addresses survives exactly when none is empty or contains the separator. */
  lemma {:induction false} AddressesRoundTripIff(list: seq<string>)
    ensures ReadAddresses(Join(list)) == SetOf(list) <==> forall k :: 0 <= k < |list| ==> Plain(list[k])
  {
    if (forall k :: 0 <= k < |list| ==> Plain(list[k])) && |list| > 0 {
      SplitJoined(list);
      assert forall s :: s in list ==> s != "" by {
        forall s | s in list ensures s != "" {
          var k :| 0 <= k < |list| && list[k] == s;
          assert Plain(list[k]);
        }
      }
    }
    if ReadAddresses(Join(list)) == SetOf(list) {
      PiecesHaveNoBar(Join(list));
      forall k | 0 <= k < |list|
        ensures Plain(list[k])
      {
        assert list[k] in SetOf(list);
        assert list[k] in ReadAddresses(Join(list));
        assert list[k] in Split(Join(list));
      }
    }
  }

  // ----- Writing -----

  function Scalars(s: Snapshot): Hash {
    map[Name(BlockReward) := Show(s.blockRewardSats), Name(Considered) := Join(s.consideredAddresses),
        Name(DistCount) := Show(|s.distribution|), Name(BalCount) := Show(|s.balanceAfter|)]
  }

  function Get(h: Hash, f: Field): Option<string> {
    if Name(f) in h then Some(h[Name(f)]) else None
  }

  /** What a field of a snapshot holds. */
  function Value(s: Snapshot, showPercent: real -> string, f: Field): Option<string> {
    match f
    case BlockReward => Some(Show(s.blockRewardSats))
    case Considered => Some(Join(s.consideredAddresses))
    case DistCount => Some(Show(|s.distribution|))
    case BalCount => Some(Show(|s.balanceAfter|))
    case Slot(k, i) =>
      if k.BalAddr? || k.BalSats? then
        if i >= |s.balanceAfter| then None
        else Some(if k.BalAddr? then s.balanceAfter[i].0 else Show(s.balanceAfter[i].1))
      else if i >= |s.distribution| then None
      else
        var d := s.distribution[i];
        Some(if k.DistAddr? then d.address else if k.DistPct? then showPercent(d.percent) else Show(d.sats))
  }

  /** Is field f written once the first n payouts and m balances are? */
  predicate WrittenBy(s: Snapshot, f: Field, n: nat, m: nat) {
    if !f.Slot? then true else if f.kind.BalAddr? || f.kind.BalSats? then f.i < m else f.i < n
  }

  ghost predicate HoldsField(h: Hash, s: Snapshot, showPercent: real -> string, n: nat, m: nat, f: Field) {
    Get(h, f) == if WrittenBy(s, f, n, m) then Value(s, showPercent, f) else None
  }

  /** The hash has the fields of the snapshot written so far, under their names, and no others of these names. */
  ghost predicate Holds(h: Hash, s: Snapshot, showPercent: real -> string, n: nat, m: nat) {
    forall f :: HoldsField(h, s, showPercent, n, m, f)
  }

  lemma {:induction false} ScalarsHold(s: Snapshot, showPercent: real -> string)
    ensures Holds(Scalars(s), s, showPercent, 0, 0)
  {
    forall f ensures HoldsField(Scalars(s), s, showPercent, 0, 0, f) {
      forall g: Field ensures Name(f) == Name(g) ==> f == g {
        if Name(f) == Name(g) { NamesInjective(f, g); }
      }
      assert Name(f) == Name(BlockReward) ==> f == BlockReward;
      assert Name(f) == Name(Considered) ==> f == Considered;
      assert Name(f) == Name(DistCount) ==> f == DistCount;
      assert Name(f) == Name(BalCount) ==> f == BalCount;
    }
  }

  /** Setting one field leaves the others alone. */
  lemma {:induction false} FieldSet(h: Hash, f0: Field, v: string, f: Field)
    ensures Get(h[Name(f0) := v], f) == if f == f0 then Some(v) else Get(h, f)
  {
    if Name(f) == Name(f0) {
      NamesInjective(f, f0);
    }
  }

  lemma {:induction false} PayoutWritten(h: Hash, s: Snapshot, showPercent: real -> string, n: nat, h1: Hash, h2: Hash,
                                         h3: Hash)
    requires Holds(h, s, showPercent, n, 0) && n < |s.distribution|
    requires h1 == h[Name(Slot(DistAddr, n)) := s.distribution[n].address]
    requires h2 == h1[Name(Slot(DistPct, n)) := showPercent(s.distribution[n].percent)]
    requires h3 == h2[Name(Slot(DistSats, n)) := Show(s.distribution[n].sats)]
    ensures Holds(h3, s, showPercent, n + 1, 0)
  {
    var next := n + 1;
    forall f ensures HoldsField(h3, s, showPercent, next, 0, f) {
      assert HoldsField(h, s, showPercent, n, 0, f);
      FieldSet(h, Slot(DistAddr, n), s.distribution[n].address, f);
      FieldSet(h1, Slot(DistPct, n), showPercent(s.distribution[n].percent), f);
      FieldSet(h2, Slot(DistSats, n), Show(s.distribution[n].sats), f);
    }
  }

  lemma {:induction false} BalanceWritten(h: Hash, s: Snapshot, showPercent: real -> string, m: nat, h1: Hash, h2: Hash)
    requires Holds(h, s, showPercent, |s.distribution|, m) && m < |s.balanceAfter|
    requires h1 == h[Name(Slot(BalAddr, m)) := s.balanceAfter[m].0]
    requires h2 == h1[Name(Slot(BalSats, m)) := Show(s.balanceAfter[m].1)]
    ensures Holds(h2, s, showPercent, |s.distribution|, m + 1)
  {
    var next := m + 1;
    forall f ensures HoldsField(h2, s, showPercent, |s.distribution|, next, f) {
      assert HoldsField(h, s, showPercent, |s.distribution|, m, f);
      FieldSet(h, Slot(BalAddr, m), s.balanceAfter[m].0, f);
      FieldSet(h1, Slot(BalSats, m), Show(s.balanceAfter[m].1), f);
    }
  }

  method SnapshotFields(s: Snapshot, showPercent: real -> string) returns (fields: Hash)
    ensures Holds(fields, s, showPercent, |s.distribution|, |s.balanceAfter|)
  {
    fields := Scalars(s);
    ScalarsHold(s, showPercent);
    var i := 0;
    while i < |s.distribution|
      invariant i <= |s.distribution| && Holds(fields, s, showPercent, i, 0)
    {
      ghost var before := fields;
      var d := s.distribution[i];
      fields := fields[Name(Slot(DistAddr, i)) := d.address];
      ghost var first := fields;
      fields := fields[Name(Slot(DistPct, i)) := showPercent(d.percent)];
      ghost var second := fields;
      fields := fields[Name(Slot(DistSats, i)) := Show(d.sats)];
      PayoutWritten(before, s, showPercent, i, first, second, fields);
      i := i + 1;
    }
    var j := 0;
    while j < |s.balanceAfter|
      invariant j <= |s.balanceAfter| && Holds(fields, s, showPercent, |s.distribution|, j)
    {
      ghost var before := fields;
      fields := fields[Name(Slot(BalAddr, j)) := s.balanceAfter[j].0];
      ghost var first := fields;
      fields := fields[Name(Slot(BalSats, j)) := Show(s.balanceAfter[j].1)];
      BalanceWritten(before, s, showPercent, j, first, fields);
      j := j + 1;
    }
  }

  // ----- Reading -----

  function GetInt(h: Hash, f: Field): Option<int> {
    match Get(h, f) case None => None case Some(s) => ParseInt(s)
  }

  function GetPayout(h: Hash, readPercent: string -> Option<real>, i: nat): ReadPayout {
    ReadPayout(Get(h, Slot(DistAddr, i)),
               match Get(h, Slot(DistPct, i)) case None => None case Some(s) => readPercent(s),
               GetInt(h, Slot(DistSats, i)))
  }

  function ReadBalances(h: Hash, n: nat): map<Option<string>, Option<int>> {
    if n == 0 then map[]
    else ReadBalances(h, n - 1)[Get(h, Slot(BalAddr, n - 1)) := GetInt(h, Slot(BalSats, n - 1))]
  }

  /** `parseHashSnapshot`; None when the count makes `new Array` throw. */
  function ParseHash(h: Hash, readPercent: string -> Option<real>): Option<Parsed> {
    var distCount, balCount := GetInt(h, DistCount), GetInt(h, BalCount);
    if distCount.None? || distCount.value < 0 then None
    else
      Some(Parsed(
        seq(distCount.value, i requires 0 <= i < distCount.value => GetPayout(h, readPercent, i)),
        GetInt(h, BlockReward),
        match Get(h, Considered) case None => {} case Some(text) => ReadAddresses(text),
        if balCount.None? || balCount.value < 0 then map[] else ReadBalances(h, balCount.value)))
  }

  /** Nothing is read exactly when the number of payouts is missing, not a number, or negative. */
  lemma ParsedWhen(h: Hash, readPercent: string -> Option<real>)
    ensures ParseHash(h, readPercent).Some? <==>
              && "distribution_count" in h
              && ParseInt(h["distribution_count"]).Some? && ParseInt(h["distribution_count"]).value >= 0
  {
  }

  method ParseHashSnapshot(h: Hash, readPercent: string -> Option<real>) returns (r: Option<Parsed>)
    ensures r == ParseHash(h, readPercent)
  {
    var blockRewardSats, distCount, balCount := GetInt(h, BlockReward), GetInt(h, DistCount), GetInt(h, BalCount);
    if distCount == None || distCount.value < 0 { return None; }
    var distribution: seq<ReadPayout> := [];
    var i := 0;
    while i < distCount.value
      invariant i <= distCount.value && |distribution| == i
      invariant forall k :: 0 <= k < i ==> distribution[k] == GetPayout(h, readPercent, k)
    {
      distribution := distribution + [GetPayout(h, readPercent, i)];
      i := i + 1;
    }
    var balanceAfter: map<Option<string>, Option<int>> := map[];
    if balCount != None {
      var j := 0;
      while j < balCount.value
        invariant 0 <= j && (j <= balCount.value || j == 0) && balanceAfter == ReadBalances(h, j)
      {
        balanceAfter := balanceAfter[Get(h, Slot(BalAddr, j)) := GetInt(h, Slot(BalSats, j))];
        j := j + 1;
      }
    }
    var considered := match Get(h, Considered) case None => {} case Some(text) => ReadAddresses(text);
    r := Some(Parsed(distribution, blockRewardSats, considered, balanceAfter));
    assert distribution == seq(distCount.value, k requires 0 <= k < distCount.value => GetPayout(h, readPercent, k));
  }

  // ----- The round trip -----

  /** `parseFloat(String(p))` gives back each percentage of this snapshot. */
  ghost predicate PercentsSurvive(d: seq<StoredPayout>, showPercent: real -> string,
                                  readPercent: string -> Option<real>)
  {
    forall k :: 0 <= k < |d| ==> readPercent(showPercent(d[k].percent)) == Some(d[k].percent)
  }

  function AsRead(d: StoredPayout): ReadPayout {
    ReadPayout(Some(d.address), Some(d.percent), Some(d.sats))
  }

  /** The payout as it was, with whatever its percentage reads back as. */
  function Reread(d: StoredPayout, showPercent: real -> string, readPercent: string -> Option<real>): ReadPayout {
    AsRead(d).(percent := readPercent(showPercent(d.percent)))
  }

  /** `new Map(entries)` */
  function MapOf(entries: seq<(string, int)>): map<Option<string>, Option<int>> {
    if |entries| == 0 then map[]
    else
      var last := entries[|entries| - 1];
      MapOf(entries[..|entries| - 1])[Some(last.0) := Some(last.1)]
  }

  /** An address has its last balance of the list, and none if it is not listed. */
  lemma {:induction false} MapOfLast(entries: seq<(string, int)>, k: nat)
    ensures MapOf(entries).Keys == set e | e in entries :: Some(e.0)
    ensures k < |entries| && (forall j :: k < j < |entries| ==> entries[j].0 != entries[k].0) ==>
              Some(entries[k].0) in MapOf(entries) && MapOf(entries)[Some(entries[k].0)] == Some(entries[k].1)
  {
    if |entries| != 0 {
      var n := |entries| - 1;
      MapOfLast(entries[..n], k);
      assert entries == entries[..n] + [entries[n]];
    }
  }

  lemma FieldRead(h: Hash, s: Snapshot, showPercent: real -> string, f: Field)
    requires Holds(h, s, showPercent, |s.distribution|, |s.balanceAfter|)
    ensures Get(h, f) == Value(s, showPercent, f)
  {
    assert HoldsField(h, s, showPercent, |s.distribution|, |s.balanceAfter|, f);
  }

  lemma {:induction false} BalancesRead(h: Hash, s: Snapshot, showPercent: real -> string, n: nat)
    requires Holds(h, s, showPercent, |s.distribution|, |s.balanceAfter|) && n <= |s.balanceAfter|
    ensures ReadBalances(h, n) == MapOf(s.balanceAfter[..n])
  {
    if n != 0 {
      BalancesRead(h, s, showPercent, n - 1);
      BalanceRead(h, s, showPercent, n - 1);
      assert s.balanceAfter[..n][..n - 1] == s.balanceAfter[..n - 1];
    }
  }

  lemma {:induction false} BalanceRead(h: Hash, s: Snapshot, showPercent: real -> string, i: nat)
    requires Holds(h, s, showPercent, |s.distribution|, |s.balanceAfter|) && i < |s.balanceAfter|
    ensures Get(h, Slot(BalAddr, i)) == Some(s.balanceAfter[i].0)
              && GetInt(h, Slot(BalSats, i)) == Some(s.balanceAfter[i].1)
  {
    FieldRead(h, s, showPercent, Slot(BalAddr, i));
    FieldRead(h, s, showPercent, Slot(BalSats, i));
    ParseShown(s.balanceAfter[i].1);
  }

  ghost predicate SamePayouts(read: seq<ReadPayout>, d: seq<StoredPayout>) {
    |read| == |d| && forall i :: 0 <= i < |d| ==> read[i] == AsRead(d[i])
  }

  lemma SurvivingPercents(read: seq<ReadPayout>, d: seq<StoredPayout>, showPercent: real -> string,
                          readPercent: string -> Option<real>)
    requires |read| == |d| && forall i :: 0 <= i < |d| ==> read[i] == Reread(d[i], showPercent, readPercent)
    ensures SamePayouts(read, d) <==> PercentsSurvive(d, showPercent, readPercent)
  {
    forall i | 0 <= i < |d|
      ensures read[i] == AsRead(d[i]) <==> readPercent(showPercent(d[i].percent)) == Some(d[i].percent)
    {
      assert read[i] == Reread(d[i], showPercent, readPercent);
    }
    if SamePayouts(read, d) {
      forall i | 0 <= i < |d| ensures readPercent(showPercent(d[i].percent)) == Some(d[i].percent) {
        assert read[i] == AsRead(d[i]);
      }
    }
  }

  lemma {:induction false} PayoutRead(h: Hash, s: Snapshot, showPercent: real -> string,
                                      readPercent: string -> Option<real>, i: nat)
    requires Holds(h, s, showPercent, |s.distribution|, |s.balanceAfter|) && i < |s.distribution|
    ensures GetPayout(h, readPercent, i) == Reread(s.distribution[i], showPercent, readPercent)
  {
    FieldRead(h, s, showPercent, Slot(DistAddr, i));
    FieldRead(h, s, showPercent, Slot(DistPct, i));
    FieldRead(h, s, showPercent, Slot(DistSats, i));
    ParseShown(s.distribution[i].sats);
  }

  /**
   * A written snapshot is read back whole: every payout in order, the reward, the last balance of
   * every address; the percentages exactly when their texts read back as them, the considered
   * addresses exactly when none is empty or has the separator in it.
   */
  lemma {:induction false} SnapshotRoundTrip(h: Hash, s: Snapshot, showPercent: real -> string,
                                             readPercent: string -> Option<real>)
    requires Holds(h, s, showPercent, |s.distribution|, |s.balanceAfter|)
    ensures var r := ParseHash(h, readPercent);
            && r.Some? && |r.value.distribution| == |s.distribution|
            && (forall i :: 0 <= i < |s.distribution| ==>
                  r.value.distribution[i] == Reread(s.distribution[i], showPercent, readPercent))
            && (SamePayouts(r.value.distribution, s.distribution) <==>
                PercentsSurvive(s.distribution, showPercent, readPercent))
            && r.value.blockRewardSats == Some(s.blockRewardSats)
            && r.value.balanceAfter == MapOf(s.balanceAfter)
            && (r.value.consideredAddresses == SetOf(s.consideredAddresses)
                <==> forall k :: 0 <= k < |s.consideredAddresses| ==> Plain(s.consideredAddresses[k]))
  {
    FieldRead(h, s, showPercent, BlockReward);
    FieldRead(h, s, showPercent, Considered);
    FieldRead(h, s, showPercent, DistCount);
    FieldRead(h, s, showPercent, BalCount);
    ParseShown(s.blockRewardSats);
    ParseShown(|s.distribution|);
    ParseShown(|s.balanceAfter|);
    forall i: nat | i < |s.distribution|
      ensures GetPayout(h, readPercent, i) == Reread(s.distribution[i], showPercent, readPercent)
    {
      PayoutRead(h, s, showPercent, readPercent, i);
    }
    SurvivingPercents(ParseHash(h, readPercent).value.distribution, s.distribution, showPercent, readPercent);
    BalancesRead(h, s, showPercent, |s.balanceAfter|);
    assert s.balanceAfter[..|s.balanceAfter|] == s.balanceAfter;
    AddressesRoundTripIff(s.consideredAddresses);
  }

  // ----- The store -----

  /** A key holds a hash, or the JSON text an older release wrote. */
  datatype Stored = Text(json: string) | Fields(hash: Hash)

  class Redis {
    var data: map<string, Stored>

    constructor (data: map<string, Stored>)
      ensures this.data == data
    {
      this.data := data;
    }

    method Del(key: string)
      modifies this
      ensures data == old(data) - {key}
    {
      data := data - {key};
    }

    /** Adds fields to a hash; refused on a key that holds text. */
    method HSet(key: string, fields: Hash) returns (ok: bool)
      modifies this
      ensures ok == !(key in old(data) && old(data)[key].Text?)
      ensures data == if !ok then old(data)
                      else old(data)[key := Fields((if key in old(data) then old(data)[key].hash else map[]) + fields)]
    {
      if key in data && data[key].Text? { return false; }
      data := data[key := Fields((if key in data then data[key].hash else map[]) + fields)];
      ok := true;
    }
  }

  /** Whatever the key held before, it now holds this snapshot alone. */
  method WriteStoredSnapshot(redis: Redis, key: string, s: Snapshot, showPercent: real -> string)
    modifies redis
    ensures key in redis.data && redis.data[key].Fields?
    ensures Holds(redis.data[key].hash, s, showPercent, |s.distribution|, |s.balanceAfter|)
    ensures redis.data - {key} == old(redis.data) - {key}
  {
    var fields := SnapshotFields(s, showPercent);
    redis.Del(key);
    var ok := redis.HSet(key, fields);
    assert map[] + fields == fields;
  }

  /** Write, then read: the stored snapshot is the one the coinbase was built from. */
  method WriteThenRead(redis: Redis, key: string, s: Snapshot, showPercent: real -> string,
                       readPercent: string -> Option<real>)
      returns (r: Option<Parsed>)
    modifies redis
    ensures r.Some? && |r.value.distribution| == |s.distribution|
    ensures forall i :: 0 <= i < |s.distribution| ==>
              r.value.distribution[i] == Reread(s.distribution[i], showPercent, readPercent)
    ensures SamePayouts(r.value.distribution, s.distribution) <==>
              PercentsSurvive(s.distribution, showPercent, readPercent)
    ensures r.value.blockRewardSats == Some(s.blockRewardSats) && r.value.balanceAfter == MapOf(s.balanceAfter)
    ensures r.value.consideredAddresses == SetOf(s.consideredAddresses) <==>
              forall k :: 0 <= k < |s.consideredAddresses| ==> Plain(s.consideredAddresses[k])
  {
    WriteStoredSnapshot(redis, key, s, showPercent);
    SnapshotRoundTrip(redis.data[key].hash, s, showPercent, readPercent);
    r := ParseHashSnapshot(redis.data[key].hash, readPercent);
  }
}
