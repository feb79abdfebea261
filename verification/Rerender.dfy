/** The server prints a game record and later prints it again from that record: when nothing changes. */
module Rerender {
  import opened Wrappers
  import opened Text
  import opened Decimal
  import opened GameRequest
  import opened GameRecord

  /** Reading a clean text and cleaning it again changes nothing exactly when it is stable, or when it
      reads as nothing and is the fallback itself. */
  lemma CleanedAgain(text: string, max: nat, fallback: string)
    requires AllTame(text) && |text| <= max && AllTame(fallback) && |fallback| <= max
    requires text == "" ==> fallback == ""
    ensures CleanField(Reading(text), max, fallback) == text <==> Stable(text) || (Reading(text) == "" && text == fallback)
  {
    var again := Reading(text);
    StableReads(text);
    ReadingTame(text);
    CleanTextKeeps(again);
  }

  lemma ReadingTame(text: string)
    requires AllTame(text)
    ensures AllTame(Reading(text))
  {
    TrimSome(text, IsSpace);
    TrimSome(Trim(text, IsSpace), IsQuote);
  }

  /** The record printed for `request` is a fixed point of printing. */
  predicate Settled(request: string, host: Profile)
  {
    var name := RecordName(request, host);
    (Stable(name) || (Reading(name) == "" && name == Persona(host))) && Stable(RecordParams(request))
  }

  lemma ReprintedName(rule: AddressRule, advertise: string, request: string, host: Profile, ps: seq<Profile>)
    ensures var record, name := Record(rule, advertise, request, host, ps), RecordName(request, host);
            RecordName(record, host) == name <==> Stable(name) || (Reading(name) == "" && name == Persona(host))
  {
    hide Record; hide Reading; hide Stable; hide CleanField; hide HeaderValues; hide Persona;
    var name := RecordName(request, host);
    RecordNameProper(request, host);
    PersonaProper(host);
    HeaderNames();
    HeaderReads(rule, advertise, request, host, ps, 1);
    HeaderValueNames(request, host, |Roster(host, ps)|);
    CleanedAgain(name, 35, Persona(host));
  }

  lemma ReprintedParams(rule: AddressRule, advertise: string, request: string, host: Profile, ps: seq<Profile>)
    ensures var record, params := Record(rule, advertise, request, host, ps), RecordParams(request);
            RecordParams(record) == params <==> Stable(params)
  {
    hide Record; hide Reading; hide Stable; hide CleanField; hide HeaderValues; hide Persona;
    var params := RecordParams(request);
    RecordParamsProper(request);
    HeaderNames();
    HeaderReads(rule, advertise, request, host, ps, 4);
    HeaderValueNames(request, host, |Roster(host, ps)|);
    CleanedAgain(params, 259, "");
    EmptyReads();
  }

  lemma EmptyReads()
    ensures Reading("") == "" && Stable("")
  {
  }

  /** A numeric field survives reprinting. */
  lemma ReprintedNumber(rule: AddressRule, advertise: string, request: string, host: Profile, ps: seq<Profile>, k: nat, fallback: string)
    requires k < 20 && fallback in ["0", "2", "9"]
    requires HeaderValues(request, host, |Roster(host, ps)|)[k] == Number(request, HEADER_KEYS[k], fallback)
    ensures Number(Record(rule, advertise, request, host, ps), HEADER_KEYS[k], fallback) == Number(request, HEADER_KEYS[k], fallback)
  {
    hide Record; hide HeaderValues; hide Reading;
    HeaderReads(rule, advertise, request, host, ps, k);
    NumberProper(request, HEADER_KEYS[k], fallback);
  }

  lemma ReprintedNumbers(rule: AddressRule, advertise: string, request: string, host: Profile, ps: seq<Profile>)
    ensures var record := Record(rule, advertise, request, host, ps);
            Number(record, "CUSTFLAGS", "0") == Number(request, "CUSTFLAGS", "0")
            && Number(record, "SYSFLAGS", "0") == Number(request, "SYSFLAGS", "0")
            && Number(record, "PRIV", "0") == Number(request, "PRIV", "0")
            && Number(record, "MINSIZE", "2") == Number(request, "MINSIZE", "2")
            && Number(record, "MAXSIZE", "9") == Number(request, "MAXSIZE", "9")
            && Number(record, "SEED", "0") == Number(request, "SEED", "0")
  {
    NumberValues(request, host, |Roster(host, ps)|);
    hide Record; hide Number; hide HeaderValues;
    HeaderNames();
    ReprintedNumber(rule, advertise, request, host, ps, 7, "0");
    ReprintedNumber(rule, advertise, request, host, ps, 8, "0");
    ReprintedNumber(rule, advertise, request, host, ps, 10, "0");
    ReprintedNumber(rule, advertise, request, host, ps, 11, "2");
    ReprintedNumber(rule, advertise, request, host, ps, 12, "9");
    ReprintedNumber(rule, advertise, request, host, ps, 14, "0");
  }

  /** Two records of one roster are equal exactly when they print the same name and parameters, as long
      as their numbers agree. */
  lemma SameRecord(rule: AddressRule, advertise: string, a: string, b: string, host: Profile, qs: seq<Profile>)
    requires HeaderValues(a, host, |Roster(host, qs)|)[1 := ""][4 := ""] == HeaderValues(b, host, |Roster(host, qs)|)[1 := ""][4 := ""]
    ensures Record(rule, advertise, a, host, qs) == Record(rule, advertise, b, host, qs)
            <==> RecordName(a, host) == RecordName(b, host) && RecordParams(a) == RecordParams(b)
  {
    hide RecordName; hide RecordParams; hide Number; hide Persona; hide Print; hide Payload;
    var ps := Roster(host, qs);
    var va, vb := HeaderValues(a, host, |ps|), HeaderValues(b, host, |ps|);
    if RecordName(a, host) == RecordName(b, host) && RecordParams(a) == RecordParams(b) {
      assert va == va[1 := ""][4 := ""][1 := va[1]][4 := va[4]];
      assert vb == vb[1 := ""][4 := ""][1 := vb[1]][4 := vb[4]];
      assert HeaderEntries(a, host, |ps|) == HeaderEntries(b, host, |ps|);
    }
    if Record(rule, advertise, a, host, qs) == Record(rule, advertise, b, host, qs) {
      SameLine(rule, advertise, a, b, host, qs, 1);
      SameLine(rule, advertise, a, b, host, qs, 4);
    }
  }

  lemma SameLine(rule: AddressRule, advertise: string, a: string, b: string, host: Profile, qs: seq<Profile>, k: nat)
    requires k < 20 && Record(rule, advertise, a, host, qs) == Record(rule, advertise, b, host, qs)
    ensures HeaderValues(a, host, |Roster(host, qs)|)[k] == HeaderValues(b, host, |Roster(host, qs)|)[k]
  {
    hide Record; hide HeaderValues; hide FieldValue; hide AllPlayerEntries; hide TrailerEntries;
    var ps := Roster(host, qs);
    RecordParses(rule, advertise, a, host, qs, k);
    RecordParses(rule, advertise, b, host, qs, k);
    var ea, eb := RecordEntries(rule, advertise, a, host, ps), RecordEntries(rule, advertise, b, host, ps);
    assert Line(ea[k]) == Line(eb[k]) by {
      assert seq(|ea|, i requires 0 <= i < |ea| => Line(ea[i])) == seq(|eb|, i requires 0 <= i < |eb| => Line(eb[i]));
      assert seq(|ea|, i requires 0 <= i < |ea| => Line(ea[i]))[k] == Line(ea[k]);
      assert seq(|eb|, i requires 0 <= i < |eb| => Line(eb[i]))[k] == Line(eb[k]);
    }
    assert ea[k].0 == eb[k].0 == HEADER_KEYS[k];
    var head := HEADER_KEYS[k] + "=";
    assert ea[k].1 == Line(ea[k])[|head|..] && eb[k].1 == Line(eb[k])[|head|..];
  }

  /** Printing again from a printed record, for any other roster, is printing from the request exactly
      when the cleaned NAME and PARAMS have no white space or quotes at their ends (or a NAME that reads
      as nothing is the host's own persona). */
  lemma RerenderExactly(rule: AddressRule, advertise: string, request: string, host: Profile, ps: seq<Profile>, qs: seq<Profile>)
    ensures Record(rule, advertise, Record(rule, advertise, request, host, ps), host, qs) == Record(rule, advertise, request, host, qs)
            <==> Settled(request, host)
  {
    hide Record; hide Stable; hide Reading; hide Number; hide RecordName; hide RecordParams; hide Persona; hide Print;
    var record := Record(rule, advertise, request, host, ps);
    ReprintedName(rule, advertise, request, host, ps);
    ReprintedParams(rule, advertise, request, host, ps);
    ReprintedNumbers(rule, advertise, request, host, ps);
    SameRecord(rule, advertise, record, request, host, qs);
  }

  /** Truncation alone can unsettle a record: a NAME that is stable as sent, cut after its 35th
      character, which is a space. */
  lemma TruncationUnsettles(host: Profile) returns (request: string)
    ensures Stable(Field(request, "NAME")) && !Settled(request, host)
  {
    hide FieldValue; hide Payload; hide Reading; hide CleanText; hide Persona; hide RecordParams;
    var name := seq(34, _ => 'a') + " b";
    request := Payload([("NAME", name)]);
    OneLineReads(("NAME", name), "NAME");
    StableReads(name);
    CleanTextKeeps(name);
    var cut := RecordName(request, host);
    assert cut == name[..35] && cut[0] == 'a' && cut[34] == ' ';
    PersonaProper(host);
  }
}
