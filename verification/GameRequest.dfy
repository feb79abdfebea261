/** The stored game request: merging updates into it, its capacity and its started flag. */
module GameRequest {
  import opened Wrappers
  import opened Text
  import opened Decimal

  const KEYS: seq<string> := [
    "NAME", "PARAMS", "USERPARAMS", "MINSIZE", "MAXSIZE", "CUSTFLAGS", "SYSFLAGS", "PRIV", "SEED", "USERFLAGS"]

  // ----- merging -----

  /** What a merge stores for a key: the update's value when the update names it. */
  function MergedValue(base: string, update: string, key: string): string
  {
    match FieldValue(update, key) case Some(value) => value case None => Field(base, key)
  }

  function MergedEntries(base: string, update: string): (r: seq<Entry>)
    ensures |r| == |KEYS|
  {
    seq(|KEYS|, i requires 0 <= i < |KEYS| => (KEYS[i], MergedValue(base, update, KEYS[i])))
  }

  function Merge(base: string, update: string): string { Payload(MergedEntries(base, update)) }

  method MergeLocalGameRequest(base: string, update: string) returns (merged: string)
    ensures merged == Merge(base, update)
  {
    merged := "";
    ghost var entries := MergedEntries(base, update);
    for i := 0 to |KEYS|
      invariant merged == Lines(entries[..i])
    {
      var value, found := GetPayloadFieldValue(update, KEYS[i]);
      if !found {
        value, found := GetPayloadFieldValue(base, KEYS[i]);
      }
      assert entries[..i + 1] == entries[..i] + [(KEYS[i], value)];
      LinesAppend(entries[..i], [(KEYS[i], value)]);
      assert Lines([(KEYS[i], value)]) == KEYS[i] + "=" + value + "\n";
      merged := merged + (KEYS[i] + "=" + value + "\n");
    }
    assert entries[..|KEYS|] == entries;
    merged := merged + [0 as char];
  }

  lemma KeysPlain()
    ensures forall i :: 0 <= i < |KEYS| ==> PlainKey(KEYS[i])
  {
  }

  lemma KeysDistinct()
    ensures forall i, j :: 0 <= i < j < |KEYS| ==> KEYS[i] != KEYS[j]
  {
  }

  lemma MergedPrints(base: string, update: string)
    ensures Printed(MergedEntries(base, update)) && DistinctKeys(MergedEntries(base, update))
  {
    KeysPlain();
    KeysDistinct();
    forall i | 0 <= i < |KEYS|
      ensures Unseparated(MergedValue(base, update, KEYS[i]))
    {
      FieldUnseparated(base, KEYS[i]);
      FieldUnseparated(update, KEYS[i]);
    }
  }

  /** The stored request is the ten keys, once each and in order. */
  lemma MergeParts(base: string, update: string)
    ensures PayloadParts(Merge(base, update)) == seq(|KEYS|, n requires 0 <= n < |KEYS| => KEYS[n] + "=" + MergedValue(base, update, KEYS[n]))
    ensures forall i, j :: 0 <= i < j < |KEYS| ==> KEYS[i] != KEYS[j]
  {
    var es := MergedEntries(base, update);
    MergedPrints(base, update);
    KeysPlain();
    KeysDistinct();
    forall n | 0 <= n < |KEYS|
      ensures GoodKey(KEYS[n])
    {
      PlainKeyGood(KEYS[n]);
    }
    PayloadPartsOf(es);
    assert seq(|es|, n requires 0 <= n < |es| => Line(es[n]))
           == seq(|KEYS|, n requires 0 <= n < |KEYS| => KEYS[n] + "=" + MergedValue(base, update, KEYS[n]));
  }

  /** Each key reads as one more reading of the update's value, or of the old one. */
  lemma MergeReads(base: string, update: string, i: nat)
    requires i < |KEYS|
    ensures FieldValue(Merge(base, update), KEYS[i]) == Some(Reading(MergedValue(base, update, KEYS[i])))
  {
    MergedPrints(base, update);
    PrintedReads(MergedEntries(base, update), i);
  }

  /** The keys by name: these ten read as the update's value or the base's, and no other key is there. */
  lemma MergedKey(base: string, update: string, key: string)
    requires PlainKey(key)
    ensures FieldValue(Merge(base, update), key)
            == if key in {"NAME", "PARAMS", "USERPARAMS", "MINSIZE", "MAXSIZE", "CUSTFLAGS", "SYSFLAGS", "PRIV", "SEED", "USERFLAGS"} then
                 Some(Reading(match FieldValue(update, key) case Some(value) => value case None => Field(base, key)))
               else None
  {
    var i := KeyIndex(key);
    hide Merge; hide FieldValue; hide Reading;
    if i < |KEYS| {
      MergeReads(base, update, i);
    } else {
      MergedAbsent(base, update, key);
    }
  }

  lemma KeyIndex(key: string) returns (i: nat)
    ensures key in {"NAME", "PARAMS", "USERPARAMS", "MINSIZE", "MAXSIZE", "CUSTFLAGS", "SYSFLAGS", "PRIV", "SEED", "USERFLAGS"} <==> i < |KEYS|
    ensures if i < |KEYS| then KEYS[i] == key else forall j :: 0 <= j < |KEYS| ==> KEYS[j] != key
  {
    i := if key == "NAME" then 0 else if key == "PARAMS" then 1 else if key == "USERPARAMS" then 2 else if key == "MINSIZE" then 3
         else if key == "MAXSIZE" then 4 else if key == "CUSTFLAGS" then 5 else if key == "SYSFLAGS" then 6 else if key == "PRIV" then 7
         else if key == "SEED" then 8 else if key == "USERFLAGS" then 9 else 10;
  }

  lemma MergedAbsent(base: string, update: string, key: string)
    requires PlainKey(key) && forall j :: 0 <= j < |KEYS| ==> KEYS[j] != key
    ensures FieldValue(Merge(base, update), key) == None
  {
    hide FieldValue; hide Payload;
    MergedPrints(base, update);
    PrintedAbsent(MergedEntries(base, update), key);
  }

  function MergeAll(base: string, updates: seq<string>): string
  {
    if updates == [] then base else Merge(MergeAll(base, updates[..|updates| - 1]), updates[|updates| - 1])
  }

  /** A key no update names reads as the creation request's value, read once more per merge. */
  lemma {:induction false} MergeAllUntouched(base: string, updates: seq<string>, i: nat)
    requires i < |KEYS|
    requires forall j :: 0 <= j < |updates| ==> FieldValue(updates[j], KEYS[i]).None?
    ensures Field(MergeAll(base, updates), KEYS[i]) == Readings(Field(base, KEYS[i]), |updates|)
    decreases |updates|
  {
    hide Merge; hide FieldValue; hide Reading;
    if updates != [] {
      var init := updates[..|updates| - 1];
      MergeAllUntouched(base, init, i);
      MergeReads(MergeAll(base, init), updates[|updates| - 1], i);
    }
  }

  /** Last writer wins: the latest update naming a key decides, read once more per merge since. */
  lemma {:induction false} MergeAllLastWriter(base: string, updates: seq<string>, i: nat, j: nat)
    requires i < |KEYS| && j < |updates| && FieldValue(updates[j], KEYS[i]).Some?
    requires forall k :: j < k < |updates| ==> FieldValue(updates[k], KEYS[i]).None?
    ensures Field(MergeAll(base, updates), KEYS[i]) == Readings(FieldValue(updates[j], KEYS[i]).value, |updates| - j)
    decreases |updates|
  {
    hide Merge; hide FieldValue; hide Reading;
    var init, last := updates[..|updates| - 1], updates[|updates| - 1];
    MergeReads(MergeAll(base, init), last, i);
    if j == |updates| - 1 {
      assert Readings(FieldValue(last, KEYS[i]).value, 0) == FieldValue(last, KEYS[i]).value;
    } else {
      assert FieldValue(updates[|updates| - 1], KEYS[i]).None?;
      MergeAllLastWriter(base, init, i, j);
    }
  }

  /** The latest update's value is kept verbatim exactly when reading leaves it alone. */
  lemma MergeAllStable(base: string, updates: seq<string>, i: nat, j: nat)
    requires i < |KEYS| && j < |updates| && FieldValue(updates[j], KEYS[i]).Some?
    requires forall k :: j < k < |updates| ==> FieldValue(updates[k], KEYS[i]).None?
    ensures Field(MergeAll(base, updates), KEYS[i]) == FieldValue(updates[j], KEYS[i]).value
            <==> Stable(FieldValue(updates[j], KEYS[i]).value)
  {
    hide Merge; hide MergeAll; hide FieldValue; hide Reading; hide Stable;
    MergeAllLastWriter(base, updates, i, j);
    StableReadings(FieldValue(updates[j], KEYS[i]).value, |updates| - j);
  }

  /** An update that loses it: a quoted NAME with a space inside the quotes keeps the space when it is
      parsed, and loses it in the merge. */
  lemma QuotedSpaceLost(base: string) returns (update: string)
    ensures update == "NAME=\" a\"\n" + [0 as char]
    ensures FieldValue(update, "NAME") == Some(" a") && Field(Merge(base, update), "NAME") == "a"
  {
    hide FieldValue; hide Merge;
    update := Payload([("NAME", "\" a\"")]);
    assert Lines([("NAME", "\" a\"")]) == "NAME=\" a\"\n" + Lines([]);
    assert KEYS[0] == "NAME";
    KeysPlain();
    OneLineReads(("NAME", "\" a\""), "NAME");
    QuotedSpace();
    MergeReads(base, update, 0);
  }

  lemma QuotedSpace()
    ensures Reading("\" a\"") == " a" && Reading(" a") == "a"
  {
    TrimUnique("\" a\"", "", "\" a\"", "", IsSpace);
    TrimUnique("\" a\"", "\"", " a", "\"", IsQuote);
    TrimUnique(" a", " ", "a", "", IsSpace);
    TrimUnique("a", "", "a", "", IsQuote);
  }

  // ----- capacity -----

  /** The roster limit in force; 9 when the field is no number or below one. */
  function EffectiveMax(request: string): (r: int)
    ensures r >= 1
  {
    match ParseInt(Field(request, "MAXSIZE"), LIMIT64)
    case Some(n) => if n < 1 then 9 else n
    case None => 9
  }

  /** MAXSIZE is the limit if it is a positive 64-bit number; otherwise nine. */
  lemma LimitExactly(request: string)
    ensures var n := Parse(Field(request, "MAXSIZE"));
            EffectiveMax(request) == if n.Some? && 1 <= n.value <= 9223372036854775807 then n.value else 9
  {
    SignsAndWidths(0, Field(request, "MAXSIZE"));
  }

  // ----- the started flag -----

  const STARTED: nat := 0x80000

  function SysFlags(request: string): int
  {
    match ParseInt(DecimalField(Field(request, "SYSFLAGS"), "0"), LIMIT32)
    case Some(n) => n
    case None => 0
  }

  /** Bit 19 in two's complement. */
  predicate IsStarted(flags: int) { flags / STARTED % 2 == 1 }

  function SetStarted(flags: int): int { if IsStarted(flags) then flags else flags + STARTED }

  function ClearStarted(flags: int): int { if IsStarted(flags) then flags - STARTED else flags }

  function FlagsUpdate(flags: int): string { Payload([("SYSFLAGS", Print(flags))]) }

  function StartRequest(request: string): string { Merge(request, FlagsUpdate(SetStarted(SysFlags(request)))) }

  function FinishRequest(request: string): string { Merge(request, FlagsUpdate(ClearStarted(SysFlags(request)))) }

  predicate Is32(n: int) { -LIMIT32 <= n < LIMIT32 }

  /** The flag is the bit of value 0x80000; the bits above and below it stay, in the 32-bit range. */
  lemma FlagBits(flags: int)
    requires Is32(flags)
    ensures IsStarted(flags) <==> flags / 0x8_0000 % 2 == 1
    ensures IsStarted(SetStarted(flags)) && !IsStarted(ClearStarted(flags))
    ensures forall f :: f in [SetStarted(flags), ClearStarted(flags)] ==>
              Is32(f) && f % 0x8_0000 == flags % 0x8_0000 && f / 0x10_0000 == flags / 0x10_0000
    ensures ClearStarted(SetStarted(flags)) == ClearStarted(flags) && SetStarted(SetStarted(flags)) == SetStarted(flags)
  {
    var q, b, r := flags / (2 * STARTED), flags / STARTED % 2, flags % STARTED;
    assert flags == q * (2 * STARTED) + b * STARTED + r;
    FlagParts(q, 0, r);
    FlagParts(q, 1, r);
  }

  lemma FlagParts(q: int, b: int, r: int)
    requires 0 <= b < 2 && 0 <= r < STARTED
    ensures var f := q * (2 * STARTED) + b * STARTED + r;
            f / STARTED == 2 * q + b && f / STARTED % 2 == b && f % STARTED == r && f / (2 * STARTED) == q
  {
  }

  lemma SysFlagsRange(request: string)
    ensures Is32(SysFlags(request))
  {
  }

  /** SYSFLAGS as a 32-bit number, zero when it is none. */
  lemma FlagsExactly(request: string)
    ensures var n := Parse(Field(request, "SYSFLAGS"));
            SysFlags(request) == if n.Some? && -2147483648 <= n.value <= 2147483647 then n.value else 0
  {
    SignsAndWidths(0, Field(request, "SYSFLAGS"));
    assert Print(0) == "0";
    ParsePrint(0);
  }

  /** A payload of one line names that key only. */
  lemma OneLineReads(e: Entry, key: string)
    requires PlainKey(e.0) && Unseparated(e.1) && PlainKey(key)
    ensures FieldValue(Payload([e]), key) == if e.0 == key then Some(Reading(e.1)) else None
  {
    PlainKeyGood(e.0);
    PayloadPartsOf([e]);
    assert PayloadParts(Payload([e])) == [Line(e)];
    PartValueOf(e, key);
    PlainKeysFold(e.0, key);
    assert Lookup([], key) == None;
    assert [Line(e)][1..] == [];
  }

  lemma PrintStable(n: int)
    ensures Unseparated(Print(n)) && Reading(Print(n)) == Print(n)
  {
    ParsePrint(n);
    ParsedChars(Print(n));
    NumeralStable(Print(n));
    StableReads(Print(n));
  }

  /** The printed update names SYSFLAGS and nothing else of the ten. */
  lemma FlagsUpdateReads(flags: int, i: nat)
    requires i < |KEYS|
    ensures FieldValue(FlagsUpdate(flags), KEYS[i]) == if i == 6 then Some(Print(flags)) else None
  {
    hide FieldValue; hide Payload; hide Print; hide Reading;
    KeysPlain();
    KeysDistinct();
    assert KEYS[6] == "SYSFLAGS";
    PrintStable(flags);
    OneLineReads((KEYS[6], Print(flags)), KEYS[i]);
  }

  /** Through print, merge and parse the flags arrive as they were computed; every other key is only
      read once more. */
  lemma FlagsArrive(request: string, flags: int, i: nat)
    requires Is32(flags) && i < |KEYS|
    ensures SysFlags(Merge(request, FlagsUpdate(flags))) == flags
    ensures i != 6 ==> Field(Merge(request, FlagsUpdate(flags)), KEYS[i]) == Reading(Field(request, KEYS[i]))
  {
    FlagsUpdateReads(flags, 6);
    FlagsUpdateReads(flags, i);
    MergeReads(request, FlagsUpdate(flags), 6);
    MergeReads(request, FlagsUpdate(flags), i);
    ParsePrint(flags);
    PrintStable(flags);
    assert KEYS[6] == "SYSFLAGS" && Print(flags) != "";
  }

  /** Start sets the flag and keeps every other bit, for any request; it is idempotent, and finishing
      after it gives the original flags with only that bit cleared. */
  lemma StartedRoundTrip(request: string)
    ensures var flags := SysFlags(request);
            SysFlags(StartRequest(request)) == SetStarted(flags) && IsStarted(SetStarted(flags))
            && SysFlags(StartRequest(StartRequest(request))) == SetStarted(flags)
            && SysFlags(FinishRequest(StartRequest(request))) == ClearStarted(flags) && !IsStarted(ClearStarted(flags))
            && SetStarted(flags) % 0x8_0000 == ClearStarted(flags) % 0x8_0000 == flags % 0x8_0000
            && SetStarted(flags) / 0x10_0000 == ClearStarted(flags) / 0x10_0000 == flags / 0x10_0000
  {
    var flags := SysFlags(request);
    SysFlagsRange(request);
    FlagBits(flags);
    assert SetStarted(flags) in [SetStarted(flags), ClearStarted(flags)] && ClearStarted(flags) in [SetStarted(flags), ClearStarted(flags)];
    FlagsArrive(request, SetStarted(flags), 6);
    FlagsArrive(StartRequest(request), SetStarted(SetStarted(flags)), 6);
    FlagsArrive(StartRequest(request), ClearStarted(SetStarted(flags)), 6);
  }
}
