/** Payload text: trimming, splitting, case folding and the lookup of a field. A character stands for
    one code point, or for one byte that is no valid UTF-8. */
module Text {
  import opened Wrappers

  // ----- characters -----

  predicate IsSeparator(c: char) { c == '\n' || c == '\t' }

  /** Unicode white space. */
  predicate IsSpace(c: char)
  {
    var n := c as int;
    9 <= n <= 13 || n == 0x20 || n == 0x85 || n == 0xA0 || n == 0x1680 || 0x2000 <= n <= 0x200A
    || n == 0x2028 || n == 0x2029 || n == 0x202F || n == 0x205F || n == 0x3000
  }

  predicate IsQuote(c: char) { c == '"' }

  predicate IsNul(c: char) { c as int == 0 }

  /** Simple case folding towards capital ASCII letters; the Kelvin sign and the long s fold there too. */
  function Fold(c: char): char
  {
    var n := c as int;
    if 'a' <= c <= 'z' then (n - 32) as char
    else if n == 0x212A then 'K'
    else if n == 0x17F then 'S'
    else c
  }

  predicate EqualFold(a: string, b: string)
  {
    |a| == |b| && forall i :: 0 <= i < |a| ==> Fold(a[i]) == Fold(b[i])
  }

  const WHITE_SPACE: seq<int> := [
    0x9, 0xA, 0xB, 0xC, 0xD, 0x20, 0x85, 0xA0, 0x1680, 0x2000, 0x2001, 0x2002, 0x2003, 0x2004, 0x2005, 0x2006,
    0x2007, 0x2008, 0x2009, 0x200A, 0x2028, 0x2029, 0x202F, 0x205F, 0x3000]

  /** The white space is the 25 characters of that property. */
  lemma SpaceListed(c: char)
    ensures IsSpace(c) <==> c as int in WHITE_SPACE
  {
  }

  /** Against a character of ASCII the comparison ignores case and nothing else, except that k and s also
      equal the Kelvin sign and the long s. */
  lemma FoldsAscii(c: char, d: char)
    requires c as int < 128
    ensures EqualFold([c], [d])
            <==> c == d || ('A' <= c <= 'Z' && d as int == c as int + 32) || ('a' <= c <= 'z' && c as int == d as int + 32)
                 || ((c == 'K' || c == 'k') && d as int == 0x212A) || ((c == 'S' || c == 's') && d as int == 0x17F)
  {
    assert EqualFold([c], [d]) <==> Fold([c][0]) == Fold([d][0]);
  }

  // ----- trimming -----

  function TrimLeft(s: string, drop: char -> bool): string
  {
    if s != "" && drop(s[0]) then TrimLeft(s[1..], drop) else s
  }

  function TrimRight(s: string, drop: char -> bool): string
  {
    if s != "" && drop(s[|s| - 1]) then TrimRight(s[..|s| - 1], drop) else s
  }

  function Trim(s: string, drop: char -> bool): string { TrimRight(TrimLeft(s, drop), drop) }

  /** Nothing to trim at either end. */
  predicate Bare(s: string, drop: char -> bool) { s == "" || (!drop(s[0]) && !drop(s[|s| - 1])) }

  /** `s` is `core` between characters that are dropped. */
  ghost predicate Wraps(s: string, left: string, core: string, right: string, drop: char -> bool)
  {
    s == left + core + right && (forall c <- left :: drop(c)) && (forall c <- right :: drop(c))
  }

  lemma {:induction false} TrimLeftWraps(s: string, drop: char -> bool) returns (left: string)
    ensures s == left + TrimLeft(s, drop) && forall c <- left :: drop(c)
    ensures TrimLeft(s, drop) == "" || !drop(TrimLeft(s, drop)[0])
  {
    if s != "" && drop(s[0]) {
      var rest := TrimLeftWraps(s[1..], drop);
      left := [s[0]] + rest;
      assert s == [s[0]] + (rest + TrimLeft(s, drop));
      forall c | c in left
        ensures drop(c)
      {
        assert c == s[0] || c in rest;
      }
    } else {
      left := "";
    }
  }

  lemma {:induction false} TrimRightWraps(s: string, drop: char -> bool) returns (right: string)
    ensures s == TrimRight(s, drop) + right && forall c <- right :: drop(c)
    ensures TrimRight(s, drop) == "" || !drop(TrimRight(s, drop)[|TrimRight(s, drop)| - 1])
    ensures TrimRight(s, drop) != "" ==> TrimRight(s, drop)[0] == s[0]
  {
    if s != "" && drop(s[|s| - 1]) {
      var rest := TrimRightWraps(s[..|s| - 1], drop);
      right := rest + [s[|s| - 1]];
      assert s == s[..|s| - 1] + [s[|s| - 1]];
      forall c | c in right
        ensures drop(c)
      {
        assert c == s[|s| - 1] || c in rest;
      }
    } else {
      right := "";
    }
  }

  /** Trim takes off exactly the droppable ends. */
  lemma TrimWraps(s: string, drop: char -> bool) returns (left: string, right: string)
    ensures Wraps(s, left, Trim(s, drop), right, drop) && Bare(Trim(s, drop), drop)
  {
    left := TrimLeftWraps(s, drop);
    right := TrimRightWraps(TrimLeft(s, drop), drop);
  }

  lemma {:induction false} TrimLeftPast(left: string, s: string, drop: char -> bool)
    requires forall c <- left :: drop(c)
    ensures TrimLeft(left + s, drop) == TrimLeft(s, drop)
  {
    if left == "" {
      assert left + s == s;
    } else {
      assert (left + s)[1..] == left[1..] + s;
      TrimLeftPast(left[1..], s, drop);
    }
  }

  lemma {:induction false} TrimRightPast(s: string, right: string, drop: char -> bool)
    requires forall c <- right :: drop(c)
    ensures TrimRight(s + right, drop) == TrimRight(s, drop)
    decreases |right|
  {
    if right == "" {
      assert s + right == s;
    } else {
      var init := right[..|right| - 1];
      assert (s + right)[..|s + right| - 1] == s + init;
      TrimRightPast(s, init, drop);
    }
  }

  lemma TrimLeftAll(s: string, drop: char -> bool)
    requires forall c <- s :: drop(c)
    ensures TrimLeft(s, drop) == ""
  {
    assert s + "" == s;
    TrimLeftPast(s, "", drop);
  }

  /** The core of any such decomposition with bare ends is what Trim returns. */
  lemma TrimUnique(s: string, left: string, core: string, right: string, drop: char -> bool)
    requires Wraps(s, left, core, right, drop) && Bare(core, drop)
    ensures Trim(s, drop) == core
  {
    assert left + core + right == left + (core + right);
    TrimLeftPast(left, core + right, drop);
    if core == "" {
      assert core + right == right;
      TrimLeftAll(right, drop);
    } else {
      assert TrimLeft(core + right, drop) == core + right;
      TrimRightPast(core, right, drop);
    }
  }

  lemma TrimBare(s: string, drop: char -> bool)
    ensures Bare(s, drop) <==> Trim(s, drop) == s
  {
    var left, right := TrimWraps(s, drop);
    if Bare(s, drop) {
      assert "" + s + "" == s;
      TrimUnique(s, "", s, "", drop);
    }
  }

  lemma TrimSome(s: string, drop: char -> bool)
    ensures |Trim(s, drop)| <= |s| && (Trim(s, drop) == s || |Trim(s, drop)| < |s|)
    ensures forall c <- Trim(s, drop) :: c in s
  {
    var left, right := TrimWraps(s, drop);
    forall c | c in Trim(s, drop)
      ensures c in s
    {
    }
    if |Trim(s, drop)| == |s| {
      assert left == "" && right == "";
      assert "" + Trim(s, drop) + "" == Trim(s, drop);
    }
  }

  /** What a field value goes through on every reading: white space first, then quotes. */
  function Reading(value: string): string { Trim(Trim(value, IsSpace), IsQuote) }

  function Readings(value: string, times: nat): string
  {
    if times == 0 then value else Reading(Readings(value, times - 1))
  }

  predicate Stable(value: string) { Bare(value, IsSpace) && Bare(value, IsQuote) }

  /** Reading leaves exactly the values alone that have neither white space nor quotes at an end. */
  lemma StableReads(value: string)
    ensures Stable(value) <==> Reading(value) == value
    ensures |Reading(value)| <= |value| && (Reading(value) == value || |Reading(value)| < |value|)
  {
    TrimBare(value, IsSpace);
    TrimBare(Trim(value, IsSpace), IsQuote);
    TrimSome(value, IsSpace);
    TrimSome(Trim(value, IsSpace), IsQuote);
  }

  /** When reading twice is more than reading once: the quotes hid white space. */
  lemma ReadingTwice(value: string)
    ensures Reading(Reading(value)) == Reading(value) <==> Bare(Reading(value), IsSpace)
  {
    var inner := Trim(value, IsSpace);
    var left, right := TrimWraps(inner, IsQuote);
    StableReads(Reading(value));
  }

  /** Reading any number of times, but at least once, changes nothing exactly for the stable values. */
  lemma {:induction false} StableReadings(value: string, times: nat)
    ensures |Readings(value, times)| <= |value|
    ensures times > 0 ==> (Readings(value, times) == value <==> Stable(value))
  {
    if times > 0 {
      StableReadings(value, times - 1);
      StableReads(value);
      StableReads(Readings(value, times - 1));
    }
  }

  // ----- parts of a payload -----

  predicate Unseparated(s: string) { forall c <- s :: !IsSeparator(c) }

  function FirstLine(text: string): (line: string)
    ensures line <= text && Unseparated(line)
  {
    if text == "" || IsSeparator(text[0]) then "" else [text[0]] + FirstLine(text[1..])
  }

  /** The non-empty runs between separators, in order. */
  function Parts(text: string): seq<string>
    decreases |text|
  {
    if text == "" then []
    else
      var line := FirstLine(text);
      if line == "" then Parts(text[1..]) else [line] + Parts(text[|line|..])
  }

  /** Newline and tab separate, and nothing else does: a text is cut at its first separator, and empty runs
      vanish. */
  lemma PartsSplit(line: string, c: char, rest: string)
    requires '\n' !in line && '\t' !in line && c in "\n\t"
    ensures Parts(line + [c] + rest) == (if line == "" then [] else [line]) + Parts(rest)
    ensures Parts(line) == if line == "" then [] else [line]
  {
    var s := line + [c] + rest;
    FirstLineCut(line, c, rest);
    FirstLineWhole(line);
    assert s[|line|..] == [c] + rest && s[|line|..][1..] == rest;
    assert FirstLine([c] + rest) == "";
    assert line[|line|..] == "";
  }

  lemma {:induction false} FirstLineCut(line: string, c: char, rest: string)
    requires '\n' !in line && '\t' !in line && c in "\n\t"
    ensures FirstLine(line + [c] + rest) == line
  {
    var s := line + [c] + rest;
    if line == "" {
      assert s[0] == c;
    } else {
      assert s[1..] == line[1..] + [c] + rest;
      FirstLineCut(line[1..], c, rest);
      assert [line[0]] + line[1..] == line;
    }
  }

  lemma {:induction false} FirstLineWhole(line: string)
    requires '\n' !in line && '\t' !in line
    ensures FirstLine(line) == line
  {
    if line != "" {
      FirstLineWhole(line[1..]);
      assert [line[0]] + line[1..] == line;
    }
  }

  /** Key and value around the first '='. */
  function Cut(s: string): (r: Option<(string, string)>)
    ensures r.Some? ==> s == r.value.0 + "=" + r.value.1 && '=' !in r.value.0
    ensures r.None? <==> '=' !in s
  {
    if s == "" then None
    else if s[0] == '=' then Some(("", s[1..]))
    else
      match Cut(s[1..])
      case None => None
      case Some((key, value)) =>
        assert s == [s[0]] + s[1..];
        Some(([s[0]] + key, value))
  }

  lemma {:induction false} CutAt(key: string, value: string)
    requires '=' !in key
    ensures Cut(key + "=" + value) == Some((key, value))
  {
    var s := key + "=" + value;
    if key == "" {
      assert s == "=" + value && s[1..] == value;
    } else {
      assert s[1..] == key[1..] + "=" + value;
      CutAt(key[1..], value);
      assert [key[0]] + key[1..] == key;
    }
  }

  function PayloadParts(payload: string): seq<string> { Parts(TrimRight(payload, IsNul)) }

  /** The value when this part is the wanted field. */
  function PartValue(part: string, wanted: string): Option<string>
  {
    match Cut(Trim(part, IsSpace))
    case Some((key, value)) => if EqualFold(key, wanted) then Some(Reading(value)) else None
    case None => None
  }

  /** The first part that is the wanted field decides. */
  function Lookup(parts: seq<string>, wanted: string): Option<string>
  {
    if parts == [] then None
    else if PartValue(parts[0], wanted).Some? then PartValue(parts[0], wanted)
    else Lookup(parts[1..], wanted)
  }

  /** Some part is the wanted field exactly if the lookup finds one, and it finds the first. */
  lemma {:induction false} LookupFirst(parts: seq<string>, wanted: string, i: nat)
    requires i <= |parts| && forall j :: 0 <= j < i ==> PartValue(parts[j], wanted).None?
    ensures i < |parts| && PartValue(parts[i], wanted).Some? ==> Lookup(parts, wanted) == PartValue(parts[i], wanted)
    ensures i == |parts| ==> Lookup(parts, wanted) == None
  {
    hide PartValue;
    if i > 0 {
      LookupFirst(parts[1..], wanted, i - 1);
    }
  }

  function FieldValue(payload: string, wanted: string): Option<string> { Lookup(PayloadParts(payload), wanted) }

  function Field(payload: string, wanted: string): string
  {
    match FieldValue(payload, wanted) case Some(value) => value case None => ""
  }

  method GetPayloadFieldValue(payload: string, wanted: string) returns (value: string, found: bool)
    ensures FieldValue(payload, wanted) == if found then Some(value) else None
    ensures !found ==> value == ""
  {
    var parts := Parts(TrimRight(payload, IsNul));
    for i := 0 to |parts|
      invariant Lookup(parts, wanted) == Lookup(parts[i..], wanted)
    {
      var cut := Cut(Trim(parts[i], IsSpace));
      assert parts[i..][0] == parts[i] && parts[i..][1..] == parts[i + 1..];
      if cut.Some? && EqualFold(cut.value.0, wanted) {
        return Trim(Trim(cut.value.1, IsSpace), IsQuote), true;
      }
    }
    return "", false;
  }

  // ----- rendering -----

  type Entry = (string, string)

  function Line(e: Entry): string { e.0 + "=" + e.1 }

  function Lines(es: seq<Entry>): string
  {
    if es == [] then "" else Line(es[0]) + "\n" + Lines(es[1..])
  }

  function Payload(es: seq<Entry>): string { Lines(es) + [0 as char] }

  lemma {:induction false} LinesAppend(xs: seq<Entry>, ys: seq<Entry>)
    ensures Lines(xs + ys) == Lines(xs) + Lines(ys)
  {
    if xs == [] {
      assert xs + ys == ys;
    } else {
      assert (xs + ys)[1..] == xs[1..] + ys;
      LinesAppend(xs[1..], ys);
      assert Line(xs[0]) + "\n" + (Lines(xs[1..]) + Lines(ys)) == Line(xs[0]) + "\n" + Lines(xs[1..]) + Lines(ys);
    }
  }

  /** A key that survives parsing whatever follows it. */
  predicate GoodKey(key: string) { key != "" && !IsSpace(key[0]) && '=' !in key && Unseparated(key) }

  ghost predicate Printable(es: seq<Entry>)
  {
    forall i :: 0 <= i < |es| ==> GoodKey(es[i].0) && Unseparated(es[i].1)
  }

  lemma {:induction false} FirstLineOf(line: string, rest: string)
    requires Unseparated(line)
    ensures FirstLine(line + "\n" + rest) == line
  {
    var s := line + "\n" + rest;
    if line == "" {
      assert s[0] == '\n';
    } else {
      assert s[1..] == line[1..] + "\n" + rest;
      FirstLineOf(line[1..], rest);
      assert [line[0]] + line[1..] == line;
    }
  }

  lemma PartsOfLine(line: string, rest: string)
    requires line != "" && Unseparated(line)
    ensures Parts(line + "\n" + rest) == [line] + Parts(rest)
  {
    var s := line + "\n" + rest;
    FirstLineOf(line, rest);
    assert s[|line|..] == "\n" + rest;
    assert FirstLine("\n" + rest) == "" && ("\n" + rest)[1..] == rest;
  }

  /** The parts of the lines are the lines. */
  lemma {:induction false} PartsOfLines(es: seq<Entry>)
    requires Printable(es)
    ensures Parts(Lines(es)) == seq(|es|, i requires 0 <= i < |es| => Line(es[i]))
  {
    var lines := seq(|es|, i requires 0 <= i < |es| => Line(es[i]));
    if es != [] {
      PartsOfLines(es[1..]);
      PartsOfLine(Line(es[0]), Lines(es[1..]));
      assert lines == [Line(es[0])] + lines[1..];
      assert lines[1..] == seq(|es[1..]|, i requires 0 <= i < |es[1..]| => Line(es[1..][i]));
    }
  }

  lemma PayloadPartsOf(es: seq<Entry>)
    requires Printable(es)
    ensures PayloadParts(Payload(es)) == seq(|es|, i requires 0 <= i < |es| => Line(es[i]))
  {
    var text := Lines(es);
    assert Payload(es)[..|text|] == text;
    LinesEnd(es);
    assert TrimRight(Payload(es), IsNul) == text;
    PartsOfLines(es);
  }

  lemma {:induction false} LinesEnd(es: seq<Entry>)
    ensures es != [] ==> Lines(es) != "" && Lines(es)[|Lines(es)| - 1] == '\n'
  {
    if es != [] {
      LinesEnd(es[1..]);
    }
  }

  /** A printed line reads back as its key and one reading of its value. */
  lemma PartValueOf(e: Entry, wanted: string)
    requires GoodKey(e.0)
    ensures PartValue(Line(e), wanted) == if EqualFold(e.0, wanted) then Some(Reading(e.1)) else None
  {
    var head := e.0 + "=";
    var right := TrimRightWraps(e.1, IsSpace);
    var kept := TrimRight(e.1, IsSpace);
    var core := head + kept;
    assert Line(e) == "" + core + right;
    assert Wraps(Line(e), "", core, right, IsSpace) && Bare(core, IsSpace);
    TrimUnique(Line(e), "", core, right, IsSpace);
    CutAt(e.0, kept);
    TrimKept(e.1);
  }

  lemma TrimKept(value: string)
    ensures Trim(TrimRight(value, IsSpace), IsSpace) == Trim(value, IsSpace)
  {
    var kept := TrimRight(value, IsSpace);
    var right := TrimRightWraps(value, IsSpace);
    var l, r := TrimWraps(kept, IsSpace);
    var core := Trim(kept, IsSpace);
    assert value == l + core + (r + right);
    TrimUnique(value, l, core, r + right, IsSpace);
  }

  // ----- keys -----

  /** Capital letters and digits: what every printed key is made of. */
  predicate PlainKey(key: string) { key != "" && forall c <- key :: 'A' <= c <= 'Z' || '0' <= c <= '9' }

  lemma PlainKeyGood(key: string)
    requires PlainKey(key)
    ensures GoodKey(key)
  {
    assert key[0] in key;
  }

  /** On plain keys the case-insensitive comparison is equality. */
  lemma PlainKeysFold(a: string, b: string)
    requires PlainKey(a) && PlainKey(b)
    ensures EqualFold(a, b) <==> a == b
  {
    if EqualFold(a, b) {
      forall i | 0 <= i < |a|
        ensures a[i] == b[i]
      {
        assert a[i] in a && b[i] in b;
      }
    }
  }

  ghost predicate DistinctKeys(es: seq<Entry>)
  {
    forall i, j :: 0 <= i < j < |es| ==> es[i].0 != es[j].0
  }

  ghost predicate Printed(es: seq<Entry>)
  {
    forall i :: 0 <= i < |es| ==> PlainKey(es[i].0) && Unseparated(es[i].1)
  }

  lemma {:induction false} LookupLines(es: seq<Entry>, k: nat)
    requires Printed(es) && DistinctKeys(es) && k < |es|
    ensures Lookup(seq(|es|, i requires 0 <= i < |es| => Line(es[i])), es[k].0) == Some(Reading(es[k].1))
  {
    var lines := seq(|es|, i requires 0 <= i < |es| => Line(es[i]));
    PlainKeyGood(es[0].0);
    PlainKeysFold(es[0].0, es[k].0);
    PartValueOf(es[0], es[k].0);
    if k > 0 {
      var rest := es[1..];
      assert lines[1..] == seq(|rest|, i requires 0 <= i < |rest| => Line(rest[i]));
      assert rest[k - 1] == es[k];
      LookupLines(rest, k - 1);
    }
  }

  /** The round trip of a printed payload: every key reads back as one reading of its value. */
  lemma PrintedReads(es: seq<Entry>, k: nat)
    requires Printed(es) && DistinctKeys(es) && k < |es|
    ensures FieldValue(Payload(es), es[k].0) == Some(Reading(es[k].1))
  {
    forall i | 0 <= i < |es|
      ensures GoodKey(es[i].0)
    {
      PlainKeyGood(es[i].0);
    }
    PayloadPartsOf(es);
    LookupLines(es, k);
  }

  lemma {:induction false} LookupAbsent(es: seq<Entry>, key: string)
    requires Printed(es) && PlainKey(key) && forall i :: 0 <= i < |es| ==> es[i].0 != key
    ensures Lookup(seq(|es|, i requires 0 <= i < |es| => Line(es[i])), key) == None
  {
    var lines := seq(|es|, i requires 0 <= i < |es| => Line(es[i]));
    if es != [] {
      PlainKeyGood(es[0].0);
      PlainKeysFold(es[0].0, key);
      PartValueOf(es[0], key);
      var rest := es[1..];
      assert lines[1..] == seq(|rest|, i requires 0 <= i < |rest| => Line(rest[i]));
      LookupAbsent(rest, key);
    }
  }

  /** A printed payload answers no key it does not print. */
  lemma PrintedAbsent(es: seq<Entry>, key: string)
    requires Printed(es) && PlainKey(key) && forall i :: 0 <= i < |es| ==> es[i].0 != key
    ensures FieldValue(Payload(es), key) == None
  {
    forall i | 0 <= i < |es|
      ensures GoodKey(es[i].0)
    {
      PlainKeyGood(es[i].0);
    }
    PayloadPartsOf(es);
    LookupAbsent(es, key);
  }

  /** Values the parser returns never contain a separator. */
  lemma {:induction false} LookupUnseparated(parts: seq<string>, wanted: string)
    requires forall i :: 0 <= i < |parts| ==> Unseparated(parts[i])
    ensures Lookup(parts, wanted).Some? ==> Unseparated(Lookup(parts, wanted).value)
  {
    if parts != [] {
      var part := parts[0];
      if PartValue(part, wanted).Some? {
        var inner := Trim(part, IsSpace);
        var value := Cut(inner).value.1;
        TrimSome(part, IsSpace);
        assert forall c <- value :: c in inner;
        TrimSome(value, IsSpace);
        TrimSome(Trim(value, IsSpace), IsQuote);
      } else {
        LookupUnseparated(parts[1..], wanted);
      }
    }
  }

  lemma {:induction false} PartsUnseparated(text: string)
    ensures forall i :: 0 <= i < |Parts(text)| ==> Unseparated(Parts(text)[i])
    decreases |text|
  {
    if text != "" {
      var line := FirstLine(text);
      if line == "" {
        PartsUnseparated(text[1..]);
      } else {
        PartsUnseparated(text[|line|..]);
      }
    }
  }

  lemma FieldUnseparated(payload: string, wanted: string)
    ensures Unseparated(Field(payload, wanted))
  {
    PartsUnseparated(TrimRight(payload, IsNul));
    LookupUnseparated(PayloadParts(payload), wanted);
  }
}
