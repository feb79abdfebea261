/** The printed game record: cleaned fields, one block per player, and what parsing it gives back. */
module GameRecord {
  import opened Wrappers
  import opened Text
  import opened Decimal
  import opened GameRequest

  const FIRST_INSTANCE_GAME_PORT: int := 3659
  const LAST_INSTANCE_GAME_PORT: int := 4095

  // ----- cleaning -----

  /** Control characters that vanish; any other character outside printable ASCII becomes '?'. */
  predicate IsDropped(c: char) { c as int == 0 || c == '\r' || c == '\n' || c == '\t' }

  predicate IsTame(c: char) { 0x20 <= c as int <= 0x7e }

  predicate AllTame(s: string) { forall c <- s :: IsTame(c) }

  function CleanText(value: string): (r: string)
    ensures AllTame(r)
  {
    if value == "" then ""
    else if IsDropped(value[0]) then CleanText(value[1..])
    else [if IsTame(value[0]) then value[0] else '?'] + CleanText(value[1..])
  }

  lemma {:induction false} CleanTextKeeps(value: string)
    requires AllTame(value)
    ensures CleanText(value) == value
  {
    if value != "" {
      assert value[0] in value;
      CleanTextKeeps(value[1..]);
      assert value == [value[0]] + value[1..];
    }
  }

  /** Cleaning is done character by character: NUL, carriage return, newline and tab vanish, printable ASCII
      stays and everything else becomes a question mark. */
  lemma {:induction false} CleanTextMeaning(a: string, b: string, c: char)
    ensures CleanText(a + b) == CleanText(a) + CleanText(b)
    ensures CleanText([c]) == if c as int in [0, 9, 10, 13] then "" else if ' ' <= c <= '~' then [c] else "?"
  {
    assert [c][1..] == "" && CleanText("") == "";
    if a == "" {
      assert a + b == b;
    } else {
      CleanTextMeaning(a[1..], b, c);
      assert (a + b)[1..] == a[1..] + b;
    }
  }

  function CleanField(value: string, max: nat, fallback: string): string
  {
    var cleaned := CleanText(value);
    var chosen := if cleaned == "" then fallback else cleaned;
    if |chosen| > max then chosen[..max] else chosen
  }

  /** With a clean fallback the result is printable ASCII within the limit, and cleaning it again
      changes nothing unless it is empty. */
  lemma CleanFieldProper(value: string, max: nat, fallback: string)
    requires AllTame(fallback)
    ensures var r := CleanField(value, max, fallback);
            AllTame(r) && |r| <= max && Unseparated(r)
            && (fallback != "" && max > 0 ==> r != "")
            && (r != "" ==> forall other :: CleanField(r, max, other) == r)
  {
    var r := CleanField(value, max, fallback);
    forall c | c in r
      ensures IsTame(c)
    {
      assert c in CleanText(value) || c in fallback;
    }
    CleanTextKeeps(r);
  }

  /** Cleaned, replaced if nothing is left, and cut at the end if it is too long. */
  lemma CleanFieldMeaning(value: string, max: nat, fallback: string)
    ensures var whole, r := if CleanText(value) == "" then fallback else CleanText(value), CleanField(value, max, fallback);
            r <= whole && (r == whole || |r| == max < |whole|)
  {
  }

  // ----- player and account data -----

  datatype Profile = Profile(personaID: int, name: string, address: string, gamePort: int, userParams: string, userFlags: string)

  predicate AddressChar(c: char) { IsDigit(c) || 'a' <= c <= 'f' || 'A' <= c <= 'F' || c == '.' || c == ':' }

  lemma AddressCharMeaning(c: char)
    ensures AddressChar(c) <==> 48 <= c as int <= 57 || 97 <= c as int <= 102 || 65 <= c as int <= 70 || c as int == 46 || c as int == 58
  {
  }

  /** What the address parser accepts: some strings of hexadecimal digits, dots and colons. */
  type AddressRule = string -> bool

  predicate IsAddress(rule: AddressRule, s: string) { rule(s) && forall c <- s :: AddressChar(c) }

  function ValidPlayerAddress(rule: AddressRule, address: string, fallback: string): string
  {
    if IsAddress(rule, address) then address
    else if IsAddress(rule, fallback) then fallback
    else "127.0.0.1"
  }

  lemma AddressPrints(rule: AddressRule, address: string, fallback: string)
    ensures var a := ValidPlayerAddress(rule, address, fallback); Unseparated(a) && Reading(a) == a
  {
    var a := ValidPlayerAddress(rule, address, fallback);
    assert forall c <- a :: AddressChar(c);
    if a != "" {
      assert a[0] in a && a[|a| - 1] in a;
    }
    StableReads(a);
  }

  /** The characters an account name keeps. */
  predicate NameChar(c: char)
  {
    'a' <= c <= 'z' || 'A' <= c <= 'Z' || IsDigit(c) || c == '_' || c == '-' || c == '.'
  }

  predicate IsAccountName(s: string) { 1 <= |s| <= 19 && forall c <- s :: NameChar(c) }

  /** The kept characters of `value`, in order. */
  function NameChars(value: string): string
  {
    if value == "" then ""
    else NameChars(value[..|value| - 1]) + (if NameChar(value[|value| - 1]) then [value[|value| - 1]] else "")
  }

  /** At most nineteen of them; the standard name when there are none. */
  function AccountName(value: string): string
  {
    var kept := NameChars(value);
    if kept == "" then "LocalPlayer" else if |kept| > 19 then kept[..19] else kept
  }

  lemma {:induction false} NameCharsGrow(value: string, i: nat)
    requires i <= |value|
    ensures NameChars(value[..i]) <= NameChars(value)
    decreases |value| - i
  {
    if i == |value| {
      assert value[..i] == value;
    } else {
      NameCharsGrow(value, i + 1);
      assert value[..i + 1][..i] == value[..i];
    }
  }

  lemma NameCharsStep(value: string, i: nat)
    requires i < |value|
    ensures NameChars(value[..i + 1]) == NameChars(value[..i]) + (if NameChar(value[i]) then [value[i]] else "")
  {
    assert value[..i + 1][..i] == value[..i];
  }

  method GetLocalAccountName(value: string) returns (name: string)
    ensures name == AccountName(value)
  {
    name := "";
    var i := 0;
    assert value[..0] == "";
    while i < |value| && |name| < 19
      invariant i <= |value| && name == NameChars(value[..i]) && |name| <= 19
    {
      NameCharsStep(value, i);
      hide NameChars; hide NameChar;
      if NameChar(value[i]) {
        name := name + [value[i]];
      }
      i := i + 1;
    }
    NameTaken(value, i, name);
    if |name| == 0 {
      name := "LocalPlayer";
    }
  }

  lemma NameTaken(value: string, i: nat, name: string)
    requires i <= |value| && name == NameChars(value[..i]) && |name| <= 19 && (i == |value| || |name| == 19)
    ensures AccountName(value) == if name == "" then "LocalPlayer" else name
  {
    NameCharsGrow(value, i);
    assert value[..|value|] == value;
  }

  /** ASCII letters and digits, underscore, hyphen and dot. */
  lemma NameCharMeaning(c: char)
    ensures NameChar(c) <==> 65 <= c as int <= 90 || 97 <= c as int <= 122 || 48 <= c as int <= 57 || c in "_-."
  {
    assert c in "_-." <==> c == "_-."[0] || c == "_-."[1] || c == "_-."[2];
  }

  lemma {:induction false} NameCharsAppend(a: string, b: string)
    ensures NameChars(a + b) == NameChars(a) + NameChars(b)
  {
    hide NameChar;
    if b == "" {
      assert a + b == a;
    } else {
      NameCharsAppend(a, b[..|b| - 1]);
      assert (a + b)[..|a + b| - 1] == a + b[..|b| - 1];
    }
  }

  lemma {:induction false} NameCharsKept(a: string)
    ensures (forall c <- a :: NameChar(c)) ==> NameChars(a) == a
    ensures (forall c <- a :: !NameChar(c)) ==> NameChars(a) == ""
  {
    hide NameChar;
    if a != "" {
      NameCharsKept(a[..|a| - 1]);
      assert a[..|a| - 1] + [a[|a| - 1]] == a && a[|a| - 1] in a;
    }
  }

  /** Characters that are not permitted leave no trace; of permitted ones the first nineteen stay. */
  lemma AccountNameExactly(a: string, junk: string, b: string)
    requires (forall c <- a :: NameChar(c)) && (forall c <- b :: NameChar(c)) && (forall c <- junk :: !NameChar(c))
    ensures var kept := a + b;
            AccountName(a + junk + b) == if kept == "" then "LocalPlayer" else if |kept| > 19 then kept[..19] else kept
  {
    hide NameChar; hide NameChars;
    NameCharsAppend(a + junk, b);
    NameCharsAppend(a, junk);
    NameCharsKept(a);
    NameCharsKept(junk);
    NameCharsKept(b);
    assert a + "" + b == a + b;
  }

  lemma NameSurvives(s: string)
    requires IsAccountName(s)
    ensures CleanField(s, 19, "LocalPlayer") == s && Reading(s) == s
  {
    assert AllTame(s);
    CleanTextKeeps(s);
    hide CleanText; hide Reading;
    assert s[0] in s && s[|s| - 1] in s;
    StableReads(s);
  }

  /** Account names pass unchanged through cleaning, printing and parsing. */
  lemma AccountNameSurvives(value: string)
    ensures IsAccountName(AccountName(value))
    ensures forall s :: IsAccountName(s) ==> CleanField(s, 19, "LocalPlayer") == s && Reading(s) == s
  {
    NameCharsOnly(value);
    assert forall c <- "LocalPlayer" :: NameChar(c);
    assert IsAccountName(AccountName(value));
    hide CleanField; hide Reading; hide IsAccountName;
    forall s | IsAccountName(s)
      ensures CleanField(s, 19, "LocalPlayer") == s && Reading(s) == s
    {
      NameSurvives(s);
    }
  }

  lemma {:induction false} NameCharsOnly(value: string)
    ensures forall c <- NameChars(value) :: NameChar(c)
  {
    if value != "" {
      NameCharsOnly(value[..|value| - 1]);
    }
  }

  // ----- the record -----

  const HEADER_KEYS: seq<string> := [
    "IDENT", "NAME", "HOST", "GPSHOST", "PARAMS", "PLATPARAMS", "ROOM", "CUSTFLAGS", "SYSFLAGS", "COUNT",
    "PRIV", "MINSIZE", "MAXSIZE", "NUMPART", "SEED", "GAMEPORT", "VOIPPORT", "GAMEMODE", "AUTH", "SESS"]

  const PLAYER_KEYS: seq<string> := [
    "OPID", "OPPO", "ADDR", "LADDR", "MADDR", "OPPART", "OPPARAM", "OPFLAG", "PRES", "OPGUEST"]

  const TRAILER_KEYS: seq<string> := ["PARTSIZE", "PARTPARAMS"]

  function Persona(p: Profile): string { CleanField(p.name, 19, "LocalPlayer") }

  function RecordName(request: string, host: Profile): string { CleanField(Field(request, "NAME"), 35, Persona(host)) }

  function RecordParams(request: string): string { CleanField(Field(request, "PARAMS"), 259, "") }

  function Number(request: string, key: string, fallback: string): string { DecimalField(Field(request, key), fallback) }

  function HeaderValues(request: string, host: Profile, count: nat): (r: seq<string>)
    ensures |r| == |HEADER_KEYS|
  {
    ["1", RecordName(request, host), Persona(host), Persona(host), RecordParams(request), "", "0",
     Number(request, "CUSTFLAGS", "0"), Number(request, "SYSFLAGS", "0"), Print(count),
     Number(request, "PRIV", "0"), Number(request, "MINSIZE", "2"), Number(request, "MAXSIZE", "9"), "1",
     Number(request, "SEED", "0"), "1024", "0", "0", "", "local-bp-game-1"]
  }

  function MachineAddress(p: Profile): string
  {
    if FIRST_INSTANCE_GAME_PORT <= p.gamePort <= LAST_INSTANCE_GAME_PORT then "BPPORT:" + Print(p.gamePort) else ""
  }

  function PlayerValues(rule: AddressRule, advertise: string, p: Profile): (r: seq<string>)
    ensures |r| == |PLAYER_KEYS|
  {
    var address := ValidPlayerAddress(rule, p.address, advertise);
    [Print(p.personaID), Persona(p), address, address, MachineAddress(p), "0",
     CleanField(p.userParams, 59, ""), DecimalField(p.userFlags, "0"), "0", ""]
  }

  /** A key is a stem without digits and an index. */
  function HeaderEntries(request: string, host: Profile, count: nat): (r: seq<Entry>)
    ensures |r| == |HEADER_KEYS|
  {
    seq(|HEADER_KEYS|, k requires 0 <= k < |HEADER_KEYS| => (HEADER_KEYS[k], HeaderValues(request, host, count)[k]))
  }

  function PlayerEntries(rule: AddressRule, advertise: string, i: nat, p: Profile): (r: seq<Entry>)
    ensures |r| == |PLAYER_KEYS|
  {
    seq(|PLAYER_KEYS|, k requires 0 <= k < |PLAYER_KEYS| => (PLAYER_KEYS[k] + Print(i), PlayerValues(rule, advertise, p)[k]))
  }

  function AllPlayerEntries(rule: AddressRule, advertise: string, ps: seq<Profile>): (r: seq<Entry>)
    ensures |r| == 10 * |ps|
  {
    if ps == [] then []
    else AllPlayerEntries(rule, advertise, ps[..|ps| - 1]) + PlayerEntries(rule, advertise, |ps| - 1, ps[|ps| - 1])
  }

  function TrailerEntries(count: nat): seq<Entry> { [("PARTSIZE" + "0", Print(count)), ("PARTPARAMS" + "0", "")] }

  function RecordEntries(rule: AddressRule, advertise: string, request: string, host: Profile, ps: seq<Profile>): seq<Entry>
  {
    HeaderEntries(request, host, |ps|) + AllPlayerEntries(rule, advertise, ps) + TrailerEntries(|ps|)
  }

  /** An empty roster is printed as the host alone. */
  function Roster(host: Profile, ps: seq<Profile>): seq<Profile> { if ps == [] then [host] else ps }

  function Record(rule: AddressRule, advertise: string, request: string, host: Profile, ps: seq<Profile>): string
  {
    Payload(RecordEntries(rule, advertise, request, host, Roster(host, ps)))
  }

  /** An empty roster is printed as the host alone would be. */
  lemma HostAlone(rule: AddressRule, advertise: string, request: string, host: Profile)
    ensures Record(rule, advertise, request, host, []) == Record(rule, advertise, request, host, [host])
    ensures Roster(host, [host]) == [host]
  {
    hide RecordEntries;
  }

  lemma PlayerLinesStep(rule: AddressRule, advertise: string, ps: seq<Profile>, i: nat)
    requires i < |ps|
    ensures Lines(AllPlayerEntries(rule, advertise, ps[..i + 1]))
            == Lines(AllPlayerEntries(rule, advertise, ps[..i])) + Lines(PlayerEntries(rule, advertise, i, ps[i]))
  {
    hide PlayerEntries;
    assert ps[..i + 1][..i] == ps[..i] && ps[..i + 1][i] == ps[i];
    LinesAppend(AllPlayerEntries(rule, advertise, ps[..i]), PlayerEntries(rule, advertise, i, ps[i]));
  }

  lemma RecordLines(rule: AddressRule, advertise: string, request: string, host: Profile, ps: seq<Profile>)
    ensures Lines(RecordEntries(rule, advertise, request, host, ps))
            == Lines(HeaderEntries(request, host, |ps|)) + Lines(AllPlayerEntries(rule, advertise, ps)) + Lines(TrailerEntries(|ps|))
  {
    hide HeaderEntries; hide AllPlayerEntries; hide TrailerEntries; hide Lines;
    LinesAppend(HeaderEntries(request, host, |ps|), AllPlayerEntries(rule, advertise, ps));
    LinesAppend(HeaderEntries(request, host, |ps|) + AllPlayerEntries(rule, advertise, ps), TrailerEntries(|ps|));
  }

  method PrintPlayers(rule: AddressRule, advertise: string, ps: seq<Profile>) returns (record: string)
    ensures record == Lines(AllPlayerEntries(rule, advertise, ps))
  {
    record := "";
    assert Lines(AllPlayerEntries(rule, advertise, ps[..0])) == "";
    hide PlayerEntries; hide Lines; hide AllPlayerEntries;
    for i := 0 to |ps|
      invariant record == Lines(AllPlayerEntries(rule, advertise, ps[..i]))
    {
      PlayerLinesStep(rule, advertise, ps, i);
      record := record + Lines(PlayerEntries(rule, advertise, i, ps[i]));
    }
    assert ps[..|ps|] == ps;
  }

  method GetLocalMultiplayerGameRecord(rule: AddressRule, advertise: string, request: string, host: Profile, players: seq<Profile>)
    returns (r: string)
    ensures r == Record(rule, advertise, request, host, players)
  {
    hide HeaderEntries; hide TrailerEntries; hide Lines; hide AllPlayerEntries; hide RecordEntries;
    var ps := players;
    if |ps| == 0 {
      ps := [host];
    }
    var blocks := PrintPlayers(rule, advertise, ps);
    RecordLines(rule, advertise, request, host, ps);
    r := Lines(HeaderEntries(request, host, |ps|)) + blocks + Lines(TrailerEntries(|ps|)) + [0 as char];
  }

  // ----- keys -----

  predicate NoDigits(s: string) { forall c <- s :: !IsDigit(c) }

  /** A stem and an index can be told apart. */
  lemma StemUnique(a: string, x: string, b: string, y: string)
    requires NoDigits(a) && NoDigits(b) && AllDigits(x) && AllDigits(y) && a + x == b + y
    ensures a == b && x == y
  {
    var s := a + x;
    assert forall k :: 0 <= k < |a| ==> s[k] == a[k] && a[k] in a;
    assert forall k :: 0 <= k < |b| ==> s[k] == b[k] && b[k] in b;
    assert |a| < |s| ==> s[|a|] == x[0] && x[0] in x;
    assert |b| < |s| ==> s[|b|] == y[0] && y[0] in y;
    assert |a| == |b|;
    assert a == (a + x)[..|a|] == (b + y)[..|b|] == b;
    assert x == (a + x)[|a|..] == (b + y)[|b|..] == y;
  }

  predicate IsStem(stem: string) { stem != "" && forall c <- stem :: 'A' <= c <= 'Z' }

  lemma HeaderStems()
    ensures forall i :: 0 <= i < |HEADER_KEYS| ==> IsStem(HEADER_KEYS[i])
  {
  }

  lemma PlayerStems()
    ensures forall i :: 0 <= i < |PLAYER_KEYS| ==> IsStem(PLAYER_KEYS[i])
    ensures forall i :: 0 <= i < |TRAILER_KEYS| ==> IsStem(TRAILER_KEYS[i])
  {
  }

  lemma StemsPlain()
    ensures forall i :: 0 <= i < |HEADER_KEYS| ==> IsStem(HEADER_KEYS[i])
    ensures forall i :: 0 <= i < |PLAYER_KEYS| ==> IsStem(PLAYER_KEYS[i])
    ensures forall i :: 0 <= i < |TRAILER_KEYS| ==> IsStem(TRAILER_KEYS[i])
  {
    hide IsStem;
    HeaderStems();
    PlayerStems();
  }

  lemma HeaderKeysDistinct()
    ensures forall i, j :: 0 <= i < j < |HEADER_KEYS| ==> HEADER_KEYS[i] != HEADER_KEYS[j]
  {
  }

  lemma OtherKeysDistinct()
    ensures forall i, j :: 0 <= i < j < |PLAYER_KEYS| ==> PLAYER_KEYS[i] != PLAYER_KEYS[j]
    ensures forall i, j :: 0 <= i < |PLAYER_KEYS| && 0 <= j < |TRAILER_KEYS| ==> PLAYER_KEYS[i] != TRAILER_KEYS[j]
    ensures TRAILER_KEYS[0] != TRAILER_KEYS[1]
  {
  }

  /** The key at position `n` of a record of `count` players, as a stem and an index. */
  function Stem(n: nat, count: nat): string
    requires n < 22 + 10 * count
  {
    if n < 20 then HEADER_KEYS[n] else if n < 20 + 10 * count then PLAYER_KEYS[(n - 20) % 10] else TRAILER_KEYS[n - 20 - 10 * count]
  }

  function Index(n: nat, count: nat): string
    requires n < 22 + 10 * count
  {
    if n < 20 then "" else if n < 20 + 10 * count then Print((n - 20) / 10) else "0"
  }

  lemma IndexDigits(n: nat, count: nat)
    requires n < 22 + 10 * count
    ensures AllDigits(Index(n, count))
    ensures Index(n, count) == "" <==> n < 20
  {
  }

  lemma KeyAllDistinct(i: nat, j: nat, count: nat)
    requires i < j < 22 + 10 * count
    ensures Stem(i, count) + Index(i, count) != Stem(j, count) + Index(j, count)
  {
    StemsPlain();
    HeaderKeysDistinct();
    OtherKeysDistinct();
    IndexDigits(i, count);
    IndexDigits(j, count);
    if Stem(i, count) + Index(i, count) == Stem(j, count) + Index(j, count) {
      StemUnique(Stem(i, count), Index(i, count), Stem(j, count), Index(j, count));
      if 20 <= i && j < 20 + 10 * count {
        PrintInjective((i - 20) / 10, (j - 20) / 10);
      }
    }
  }

  lemma {:induction false} AllPlayerEntriesAt(rule: AddressRule, advertise: string, ps: seq<Profile>, i: nat, k: nat)
    requires i < |ps| && k < 10
    ensures AllPlayerEntries(rule, advertise, ps)[10 * i + k] == (PLAYER_KEYS[k] + Print(i), PlayerValues(rule, advertise, ps[i])[k])
    decreases |ps|
  {
    hide PlayerValues; hide Print;
    if i < |ps| - 1 {
      AllPlayerEntriesAt(rule, advertise, ps[..|ps| - 1], i, k);
    }
  }

  // ----- values -----

  lemma ZeroParses()
    ensures ParseInt("0", LIMIT32).Some? && ParseInt("2", LIMIT32).Some? && ParseInt("9", LIMIT32).Some?
  {
    assert Print(0) == "0" && Print(2) == "2" && Print(9) == "9";
    ParsePrint(0);
    ParsePrint(2);
    ParsePrint(9);
  }

  lemma PersonaProper(p: Profile)
    ensures var n := Persona(p); AllTame(n) && 1 <= |n| <= 19 && Unseparated(n)
  {
    CleanFieldProper(p.name, 19, "LocalPlayer");
  }

  lemma NumberProper(request: string, key: string, fallback: string)
    requires fallback in ["0", "2", "9"]
    ensures var d := Number(request, key, fallback);
            Unseparated(d) && Reading(d) == d && DecimalField(d, fallback) == d
  {
    ZeroParses();
    DecimalFieldProper(Field(request, key), fallback);
  }

  lemma ConstantsPrint()
    ensures Unseparated("") && Unseparated("0") && Unseparated("1") && Unseparated("1024") && Unseparated("local-bp-game-1")
  {
  }

  lemma HeaderValuesPrint(request: string, host: Profile, count: nat)
    ensures forall k :: 0 <= k < 20 ==> Unseparated(HeaderValues(request, host, count)[k])
  {
    hide CleanField; hide DecimalField; hide Number; hide Persona; hide RecordName; hide RecordParams; hide Print;
    hide Unseparated; hide Reading; hide AllTame; hide Field;
    ConstantsPrint();
    PersonaProper(host);
    RecordNameProper(request, host);
    RecordParamsProper(request);
    NumberProper(request, "CUSTFLAGS", "0");
    NumberProper(request, "SYSFLAGS", "0");
    NumberProper(request, "PRIV", "0");
    NumberProper(request, "MINSIZE", "2");
    NumberProper(request, "MAXSIZE", "9");
    NumberProper(request, "SEED", "0");
    PrintStable(count);
  }

  lemma RecordNameProper(request: string, host: Profile)
    ensures var n := RecordName(request, host); AllTame(n) && 1 <= |n| <= 35 && Unseparated(n)
  {
    PersonaProper(host);
    CleanFieldProper(Field(request, "NAME"), 35, Persona(host));
  }

  lemma RecordParamsProper(request: string)
    ensures var n := RecordParams(request); AllTame(n) && |n| <= 259 && Unseparated(n)
  {
    CleanFieldProper(Field(request, "PARAMS"), 259, "");
  }

  lemma PlayerValuesPrint(rule: AddressRule, advertise: string, p: Profile)
    ensures forall k :: 0 <= k < 10 ==> Unseparated(PlayerValues(rule, advertise, p)[k])
  {
    hide CleanField; hide DecimalField; hide Persona; hide Print; hide ValidPlayerAddress; hide Reading; hide Parse;
    PrintStable(p.personaID);
    PrintStable(p.gamePort);
    PersonaProper(p);
    AddressPrints(rule, p.address, advertise);
    CleanFieldProper(p.userParams, 59, "");
    ZeroParses();
    DecimalFieldProper(p.userFlags, "0");
  }

  // ----- the whole record -----

  lemma EntryAt(rule: AddressRule, advertise: string, request: string, host: Profile, ps: seq<Profile>, n: nat)
    requires n < 22 + 10 * |ps|
    ensures var es := RecordEntries(rule, advertise, request, host, ps);
            |es| == 22 + 10 * |ps| && es[n].0 == Stem(n, |ps|) + Index(n, |ps|) && PlainKey(es[n].0) && Unseparated(es[n].1)
  {
    hide HeaderValues; hide PlayerValues; hide Print;
    StemsPlain();
    IndexDigits(n, |ps|);
    if n < 20 {
      HeaderValuesPrint(request, host, |ps|);
      assert HEADER_KEYS[n] + "" == HEADER_KEYS[n];
    } else if n < 20 + 10 * |ps| {
      var i, k := (n - 20) / 10, (n - 20) % 10;
      AllPlayerEntriesAt(rule, advertise, ps, i, k);
      PlayerValuesPrint(rule, advertise, ps[i]);
    } else {
      PrintStable(|ps|);
    }
  }

  lemma RecordPrints(rule: AddressRule, advertise: string, request: string, host: Profile, ps: seq<Profile>)
    ensures var es := RecordEntries(rule, advertise, request, host, ps); Printed(es) && DistinctKeys(es)
  {
    hide RecordEntries;
    var es := RecordEntries(rule, advertise, request, host, ps);
    EntryAt(rule, advertise, request, host, ps, 0);
    forall n | 0 <= n < |es|
      ensures PlainKey(es[n].0) && Unseparated(es[n].1)
    {
      EntryAt(rule, advertise, request, host, ps, n);
    }
    forall i, j | 0 <= i < j < |es|
      ensures es[i].0 != es[j].0
    {
      EntryAt(rule, advertise, request, host, ps, i);
      EntryAt(rule, advertise, request, host, ps, j);
      KeyAllDistinct(i, j, |ps|);
    }
  }

  /** Well-formedness for any text in the fields and any number of players: the record is its printed
      lines in order, under pairwise distinct keys, and every key reads back as its printed value. */
  lemma RecordParses(rule: AddressRule, advertise: string, request: string, host: Profile, players: seq<Profile>, n: nat)
    requires n < 22 + 10 * |Roster(host, players)|
    ensures var ps := Roster(host, players);
            var es := RecordEntries(rule, advertise, request, host, ps);
            var record := Record(rule, advertise, request, host, players);
            PayloadParts(record) == seq(|es|, i requires 0 <= i < |es| => Line(es[i]))
            && DistinctKeys(es) && n < |es| && FieldValue(record, es[n].0) == Some(Reading(es[n].1))
  {
    hide RecordEntries; hide FieldValue;
    var ps := Roster(host, players);
    var es := RecordEntries(rule, advertise, request, host, ps);
    EntryAt(rule, advertise, request, host, ps, n);
    RecordPrints(rule, advertise, request, host, ps);
    forall i | 0 <= i < |es|
      ensures GoodKey(es[i].0)
    {
      PlainKeyGood(es[i].0);
    }
    PayloadPartsOf(es);
    PrintedReads(es, n);
  }

  /** A header field of the printed record. */
  lemma HeaderReads(rule: AddressRule, advertise: string, request: string, host: Profile, players: seq<Profile>, k: nat)
    requires k < 20
    ensures FieldValue(Record(rule, advertise, request, host, players), HEADER_KEYS[k])
            == Some(Reading(HeaderValues(request, host, |Roster(host, players)|)[k]))
  {
    hide HeaderValues; hide FieldValue; hide Record;
    RecordParses(rule, advertise, request, host, players, k);
  }

  /** A field of the block of player `i`. */
  lemma PlayerReads(rule: AddressRule, advertise: string, request: string, host: Profile, players: seq<Profile>, i: nat, k: nat)
    requires i < |Roster(host, players)| && k < 10
    ensures FieldValue(Record(rule, advertise, request, host, players), PLAYER_KEYS[k] + Print(i))
            == Some(Reading(PlayerValues(rule, advertise, Roster(host, players)[i])[k]))
  {
    hide HeaderValues; hide PlayerValues; hide FieldValue; hide Record; hide Print; hide HeaderEntries;
    hide TrailerEntries;
    var ps := Roster(host, players);
    RecordParses(rule, advertise, request, host, players, 20 + 10 * i + k);
    AllPlayerEntriesAt(rule, advertise, ps, i, k);
  }

  lemma TrailerReads(rule: AddressRule, advertise: string, request: string, host: Profile, players: seq<Profile>)
    ensures FieldValue(Record(rule, advertise, request, host, players), "PARTSIZE" + "0") == Some(Print(|Roster(host, players)|))
  {
    hide FieldValue; hide Record; hide Print; hide PlayerValues; hide HeaderValues; hide HeaderEntries;
    hide AllPlayerEntries; hide Reading;
    var ps := Roster(host, players);
    RecordParses(rule, advertise, request, host, players, 20 + 10 * |ps|);
    assert RecordEntries(rule, advertise, request, host, ps)[20 + 10 * |ps|] == ("PARTSIZE" + "0", Print(|ps|));
    PrintStable(|ps|);
  }

  lemma CountReads(rule: AddressRule, advertise: string, request: string, host: Profile, players: seq<Profile>)
    ensures FieldValue(Record(rule, advertise, request, host, players), "COUNT") == Some(Print(|Roster(host, players)|))
  {
    hide FieldValue; hide Record; hide Print; hide Reading;
    assert HEADER_KEYS[9] == "COUNT";
    HeaderReads(rule, advertise, request, host, players, 9);
    PrintStable(|Roster(host, players)|);
  }

  lemma ConstantsRead()
    ensures Reading("") == "" && Reading("0") == "0" && Reading("1") == "1" && Reading("1024") == "1024"
    ensures Reading("local-bp-game-1") == "local-bp-game-1"
  {
    StableReads("");
    StableReads("0");
    StableReads("1");
    StableReads("1024");
    StableReads("local-bp-game-1");
  }

  lemma HeaderNames()
    ensures HEADER_KEYS[1] == "NAME" && HEADER_KEYS[2] == "HOST" && HEADER_KEYS[3] == "GPSHOST" && HEADER_KEYS[4] == "PARAMS"
    ensures HEADER_KEYS[9] == "COUNT" && HEADER_KEYS[7] == "CUSTFLAGS" && HEADER_KEYS[8] == "SYSFLAGS"
    ensures HEADER_KEYS[10] == "PRIV" && HEADER_KEYS[11] == "MINSIZE" && HEADER_KEYS[12] == "MAXSIZE" && HEADER_KEYS[14] == "SEED"
  {
  }

  lemma HeaderValueNames(request: string, host: Profile, count: nat)
    ensures HeaderValues(request, host, count)[1] == RecordName(request, host)
    ensures HeaderValues(request, host, count)[2] == HeaderValues(request, host, count)[3] == Persona(host)
    ensures HeaderValues(request, host, count)[4] == RecordParams(request)
  {
    hide RecordName; hide RecordParams; hide Number; hide Persona; hide Print;
  }

  lemma NumberValues(request: string, host: Profile, count: nat)
    ensures var v := HeaderValues(request, host, count);
            v[7] == Number(request, "CUSTFLAGS", "0") && v[8] == Number(request, "SYSFLAGS", "0") && v[10] == Number(request, "PRIV", "0")
            && v[11] == Number(request, "MINSIZE", "2") && v[12] == Number(request, "MAXSIZE", "9") && v[14] == Number(request, "SEED", "0")
  {
    hide Number; hide RecordName; hide RecordParams; hide Persona; hide Print;
  }

  /** What a record says of its game, field by field. */
  ghost predicate Announces(record: string, request: string, host: Profile, count: nat)
  {
    AnnouncesNames(record, request, host) && AnnouncesNumbers(record, request) && FieldValue(record, "COUNT") == Some(Print(count))
  }

  ghost predicate AnnouncesNames(record: string, request: string, host: Profile)
  {
    var name := CleanField(host.name, 19, "LocalPlayer");
    && FieldValue(record, "NAME") == Some(Reading(CleanField(Field(request, "NAME"), 35, name)))
    && FieldValue(record, "HOST") == FieldValue(record, "GPSHOST") == Some(Reading(name))
    && FieldValue(record, "PARAMS") == Some(Reading(CleanField(Field(request, "PARAMS"), 259, "")))
  }

  ghost predicate AnnouncesNumbers(record: string, request: string)
  {
    && FieldValue(record, "CUSTFLAGS") == Some(DecimalField(Field(request, "CUSTFLAGS"), "0"))
    && FieldValue(record, "SYSFLAGS") == Some(DecimalField(Field(request, "SYSFLAGS"), "0"))
    && FieldValue(record, "PRIV") == Some(DecimalField(Field(request, "PRIV"), "0"))
    && FieldValue(record, "MINSIZE") == Some(DecimalField(Field(request, "MINSIZE"), "2"))
    && FieldValue(record, "MAXSIZE") == Some(DecimalField(Field(request, "MAXSIZE"), "9"))
    && FieldValue(record, "SEED") == Some(DecimalField(Field(request, "SEED"), "0"))
  }

  /** The fields that are the same in every record. */
  ghost predicate HasConstants(record: string)
  {
    && FieldValue(record, "IDENT") == FieldValue(record, "NUMPART") == Some("1")
    && FieldValue(record, "ROOM") == FieldValue(record, "VOIPPORT") == FieldValue(record, "GAMEMODE") == Some("0")
    && FieldValue(record, "GAMEPORT") == Some("1024") && FieldValue(record, "SESS") == Some("local-bp-game-1")
    && FieldValue(record, "PLATPARAMS") == FieldValue(record, "AUTH") == Some("")
  }

  function ShownAddress(rule: AddressRule, advertise: string, p: Profile): string
  {
    if IsAddress(rule, p.address) then p.address else if IsAddress(rule, advertise) then advertise else "127.0.0.1"
  }

  /** What a record says of the player at index `i`, field by field: who it is and how it is reached. */
  ghost predicate Lists(rule: AddressRule, advertise: string, record: string, i: nat, p: Profile)
  {
    && FieldValue(record, "OPID" + Print(i)) == Some(Print(p.personaID))
    && FieldValue(record, "OPPO" + Print(i)) == Some(Reading(CleanField(p.name, 19, "LocalPlayer")))
    && FieldValue(record, "ADDR" + Print(i)) == FieldValue(record, "LADDR" + Print(i)) == Some(ShownAddress(rule, advertise, p))
    && FieldValue(record, "MADDR" + Print(i)) == Some(if 3659 <= p.gamePort <= 4095 then "BPPORT:" + Print(p.gamePort) else "")
    && ListsState(record, i, p)
  }

  /** And what state it is in. */
  ghost predicate ListsState(record: string, i: nat, p: Profile)
  {
    && FieldValue(record, "OPPARAM" + Print(i)) == Some(Reading(CleanField(p.userParams, 59, "")))
    && FieldValue(record, "OPFLAG" + Print(i)) == Some(DecimalField(p.userFlags, "0"))
    && FieldValue(record, "OPPART" + Print(i)) == FieldValue(record, "PRES" + Print(i)) == Some("0")
    && FieldValue(record, "OPGUEST" + Print(i)) == Some("")
  }

  lemma NumberAnnounced(rule: AddressRule, advertise: string, request: string, host: Profile, ps: seq<Profile>, k: nat, fallback: string)
    requires k < 20 && fallback in ["0", "2", "9"]
    requires HeaderValues(request, host, |Roster(host, ps)|)[k] == Number(request, HEADER_KEYS[k], fallback)
    ensures FieldValue(Record(rule, advertise, request, host, ps), HEADER_KEYS[k]) == Some(DecimalField(Field(request, HEADER_KEYS[k]), fallback))
  {
    hide Record; hide HeaderValues; hide Reading; hide FieldValue;
    HeaderReads(rule, advertise, request, host, ps, k);
    NumberProper(request, HEADER_KEYS[k], fallback);
  }

  lemma RecordNumbers(rule: AddressRule, advertise: string, request: string, host: Profile, ps: seq<Profile>)
    ensures AnnouncesNumbers(Record(rule, advertise, request, host, ps), request)
  {
    NumberValues(request, host, |Roster(host, ps)|);
    hide Record; hide Number; hide HeaderValues; hide FieldValue; hide DecimalField;
    HeaderNames();
    NumberAnnounced(rule, advertise, request, host, ps, 7, "0");
    NumberAnnounced(rule, advertise, request, host, ps, 8, "0");
    NumberAnnounced(rule, advertise, request, host, ps, 10, "0");
    NumberAnnounced(rule, advertise, request, host, ps, 11, "2");
    NumberAnnounced(rule, advertise, request, host, ps, 12, "9");
    NumberAnnounced(rule, advertise, request, host, ps, 14, "0");
  }

  lemma RecordNames(rule: AddressRule, advertise: string, request: string, host: Profile, ps: seq<Profile>)
    ensures AnnouncesNames(Record(rule, advertise, request, host, ps), request, host)
  {
    HeaderValueNames(request, host, |Roster(host, ps)|);
    HeaderNames();
    hide Record; hide HeaderValues; hide FieldValue; hide Reading; hide CleanField;
    HeaderReads(rule, advertise, request, host, ps, 1);
    HeaderReads(rule, advertise, request, host, ps, 2);
    HeaderReads(rule, advertise, request, host, ps, 3);
    HeaderReads(rule, advertise, request, host, ps, 4);
  }

  lemma RecordAnnounces(rule: AddressRule, advertise: string, request: string, host: Profile, ps: seq<Profile>)
    ensures Announces(Record(rule, advertise, request, host, ps), request, host, |Roster(host, ps)|)
  {
    hide Record; hide FieldValue; hide AnnouncesNames; hide AnnouncesNumbers; hide Print;
    RecordNames(rule, advertise, request, host, ps);
    RecordNumbers(rule, advertise, request, host, ps);
    CountReads(rule, advertise, request, host, ps);
  }

  lemma ConstantNames()
    ensures HEADER_KEYS[0] == "IDENT" && HEADER_KEYS[5] == "PLATPARAMS" && HEADER_KEYS[6] == "ROOM" && HEADER_KEYS[13] == "NUMPART"
    ensures HEADER_KEYS[15] == "GAMEPORT" && HEADER_KEYS[16] == "VOIPPORT" && HEADER_KEYS[17] == "GAMEMODE" && HEADER_KEYS[18] == "AUTH"
    ensures HEADER_KEYS[19] == "SESS"
  {
  }

  lemma ConstantValues(request: string, host: Profile, count: nat)
    ensures var v := HeaderValues(request, host, count);
            v[0] == v[13] == "1" && v[6] == v[16] == v[17] == "0" && v[15] == "1024" && v[19] == "local-bp-game-1" && v[5] == v[18] == ""
  {
    hide Number; hide RecordName; hide RecordParams; hide Persona; hide Print;
  }

  lemma RecordHasConstants(rule: AddressRule, advertise: string, request: string, host: Profile, ps: seq<Profile>)
    ensures HasConstants(Record(rule, advertise, request, host, ps))
  {
    ConstantValues(request, host, |Roster(host, ps)|);
    ConstantNames();
    ConstantsRead();
    hide Record; hide FieldValue; hide Reading; hide HeaderValues;
    HeaderReads(rule, advertise, request, host, ps, 0);
    HeaderReads(rule, advertise, request, host, ps, 5);
    HeaderReads(rule, advertise, request, host, ps, 6);
    HeaderReads(rule, advertise, request, host, ps, 13);
    HeaderReads(rule, advertise, request, host, ps, 15);
    HeaderReads(rule, advertise, request, host, ps, 16);
    HeaderReads(rule, advertise, request, host, ps, 17);
    HeaderReads(rule, advertise, request, host, ps, 18);
    HeaderReads(rule, advertise, request, host, ps, 19);
  }

  lemma RecordLists(rule: AddressRule, advertise: string, request: string, host: Profile, ps: seq<Profile>, i: nat)
    requires i < |Roster(host, ps)|
    ensures Lists(rule, advertise, Record(rule, advertise, request, host, ps), i, Roster(host, ps)[i])
  {
    var p := Roster(host, ps)[i];
    PlayerNames();
    PlaceValues(rule, advertise, p);
    hide Record; hide FieldValue; hide CleanField; hide Reading; hide PlayerValues; hide Print; hide ShownAddress; hide ListsState;
    RecordListsState(rule, advertise, request, host, ps, i);
    PlayerReads(rule, advertise, request, host, ps, i, 0);
    PlayerReads(rule, advertise, request, host, ps, i, 1);
    PlayerReads(rule, advertise, request, host, ps, i, 2);
    PlayerReads(rule, advertise, request, host, ps, i, 3);
    PlayerReads(rule, advertise, request, host, ps, i, 4);
  }

  lemma RecordListsState(rule: AddressRule, advertise: string, request: string, host: Profile, ps: seq<Profile>, i: nat)
    requires i < |Roster(host, ps)|
    ensures ListsState(Record(rule, advertise, request, host, ps), i, Roster(host, ps)[i])
  {
    StateNames();
    StateValues(rule, advertise, Roster(host, ps)[i]);
    hide Record; hide FieldValue; hide CleanField; hide Reading; hide PlayerValues; hide Print; hide DecimalField;
    PlayerReads(rule, advertise, request, host, ps, i, 5);
    PlayerReads(rule, advertise, request, host, ps, i, 6);
    PlayerReads(rule, advertise, request, host, ps, i, 7);
    PlayerReads(rule, advertise, request, host, ps, i, 8);
    PlayerReads(rule, advertise, request, host, ps, i, 9);
  }

  lemma PlayerNames()
    ensures PLAYER_KEYS[0] == "OPID" && PLAYER_KEYS[1] == "OPPO" && PLAYER_KEYS[2] == "ADDR" && PLAYER_KEYS[3] == "LADDR" && PLAYER_KEYS[4] == "MADDR"
  {
  }

  lemma StateNames()
    ensures PLAYER_KEYS[5] == "OPPART" && PLAYER_KEYS[6] == "OPPARAM" && PLAYER_KEYS[7] == "OPFLAG"
    ensures PLAYER_KEYS[8] == "PRES" && PLAYER_KEYS[9] == "OPGUEST"
  {
  }

  lemma PlaceValues(rule: AddressRule, advertise: string, p: Profile)
    ensures var v := PlayerValues(rule, advertise, p);
            v[0] == Print(p.personaID) && v[1] == CleanField(p.name, 19, "LocalPlayer") && v[2] == v[3] == ShownAddress(rule, advertise, p)
            && v[4] == (if 3659 <= p.gamePort <= 4095 then "BPPORT:" + Print(p.gamePort) else "")
    ensures forall k :: 0 <= k < 5 && k != 1 ==> Reading(PlayerValues(rule, advertise, p)[k]) == PlayerValues(rule, advertise, p)[k]
  {
    PrintStable(p.personaID);
    AddressPrints(rule, p.address, advertise);
    PortReads(p.gamePort);
    ConstantsRead();
    hide CleanField; hide Reading; hide DecimalField; hide Print; hide IsAddress;
  }

  lemma StateValues(rule: AddressRule, advertise: string, p: Profile)
    ensures var v := PlayerValues(rule, advertise, p);
            v[5] == v[8] == "0" && v[9] == "" && v[6] == CleanField(p.userParams, 59, "") && v[7] == DecimalField(p.userFlags, "0")
    ensures Reading("0") == "0" && Reading("") == "" && Reading(DecimalField(p.userFlags, "0")) == DecimalField(p.userFlags, "0")
  {
    ZeroParses();
    DecimalFieldProper(p.userFlags, "0");
    ConstantsRead();
    hide CleanField; hide Reading; hide DecimalField; hide Print; hide ValidPlayerAddress; hide MachineAddress; hide Persona;
  }

  lemma PortReads(port: int)
    ensures Reading("BPPORT:" + Print(port)) == "BPPORT:" + Print(port)
  {
    hide Print; hide Parse; hide Reading;
    var s := "BPPORT:" + Print(port);
    ParsePrint(port);
    ParsedChars(Print(port));
    assert s[0] == 'B' && s[|s| - 1] == Print(port)[|Print(port)| - 1] && s[|s| - 1] in Print(port);
    StableReads(s);
  }

  /** COUNT, PARTSIZE0 and the number of player blocks agree. */
  lemma RecordCounts(rule: AddressRule, advertise: string, request: string, host: Profile, players: seq<Profile>, i: nat)
    ensures var record, count := Record(rule, advertise, request, host, players), |Roster(host, players)|;
            FieldValue(record, "COUNT") == FieldValue(record, "PARTSIZE" + "0") == Some(Print(count))
            && (FieldValue(record, "OPPO" + Print(i)).Some? <==> i < count)
  {
    hide FieldValue; hide Record; hide Print; hide PlayerValues; hide Reading;
    CountReads(rule, advertise, request, host, players);
    TrailerReads(rule, advertise, request, host, players);
    assert PLAYER_KEYS[1] == "OPPO";
    if i < |Roster(host, players)| {
      PlayerReads(rule, advertise, request, host, players, i, 1);
    } else {
      NoBlock(rule, advertise, request, host, players, i, 1);
    }
  }

  lemma NoBlock(rule: AddressRule, advertise: string, request: string, host: Profile, players: seq<Profile>, i: nat, j: nat)
    requires i >= |Roster(host, players)| && j < 10
    ensures FieldValue(Record(rule, advertise, request, host, players), PLAYER_KEYS[j] + Print(i)) == None
  {
    hide FieldValue; hide RecordEntries;
    var ps := Roster(host, players);
    var es := RecordEntries(rule, advertise, request, host, ps);
    RecordPrints(rule, advertise, request, host, ps);
    StemsPlain();
    OtherKeysDistinct();
    var key := PLAYER_KEYS[j] + Print(i);
    IndexDigits(20 + 10 * i + j, i + 1);
    EntryAt(rule, advertise, request, host, ps, 0);
    forall n | 0 <= n < |es|
      ensures es[n].0 != key
    {
      EntryAt(rule, advertise, request, host, ps, n);
      if es[n].0 == key {
        IndexDigits(n, |ps|);
        StemUnique(Stem(n, |ps|), Index(n, |ps|), PLAYER_KEYS[j], Print(i));
        if 20 <= n < 20 + 10 * |ps| {
          PrintInjective((n - 20) / 10, i);
        }
      }
    }
    PrintedAbsent(es, key);
  }
}
