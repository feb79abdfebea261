/** Handshake messages: framing and splitting, the ClientHello, the server's flight and the
    ClientKeyExchange payload. */
module HandshakeMessages {
  import opened Bytes
  import opened KeyDerivation
  import opened Wrappers

  const CLIENT_HELLO: byte := 1
  const SERVER_HELLO: byte := 2
  const CERTIFICATE: byte := 11
  const SERVER_HELLO_DONE: byte := 14
  const CLIENT_KEY_EXCHANGE: byte := 16
  const FINISHED: byte := 20

  const RC4_MD5: nat := 0x0004
  const RC4_SHA: nat := 0x0005

  // ----- framing -----

  function Message(typ: byte, body: Bytes): Bytes { [typ] + U24(|body|) + body }

  /** A byte string that announces its own length. */
  predicate IsMessage(m: Bytes) { 4 <= |m| && ReadU24(m, 1) == |m| - 4 }

  ghost predicate AllMessages(ms: seq<Bytes>) { forall i :: 0 <= i < |ms| ==> IsMessage(ms[i]) }

  lemma MessageIsMessage(typ: byte, body: Bytes)
    requires |body| < 0x100_0000
    ensures IsMessage(Message(typ, body)) && Message(typ, body)[4..] == body
  {
    var m := Message(typ, body);
    U24Reads(|body|);
    assert m[1] == U24(|body|)[0] && m[2] == U24(|body|)[1] && m[3] == U24(|body|)[2];
  }

  function Split(b: Bytes): (r: Option<seq<Bytes>>)
    ensures r.Some? ==> AllMessages(r.value) && Flatten(r.value) == b
  {
    if b == [] then Some([])
    else if |b| < 4 then None
    else
      var n := ReadU24(b, 1);
      if n + 4 > |b| then None
      else
        match Split(b[n + 4..])
        case None => None
        case Some(rest) =>
          SplitStep(b, n, rest);
          Some([b[..n + 4]] + rest)
  }

  lemma SplitStep(b: Bytes, n: nat, rest: seq<Bytes>)
    requires 4 <= |b| && n == ReadU24(b, 1) && n + 4 <= |b|
    requires AllMessages(rest) && Flatten(rest) == b[n + 4..]
    ensures AllMessages([b[..n + 4]] + rest) && Flatten([b[..n + 4]] + rest) == b
  {
    var m := b[..n + 4];
    assert ReadU24(m, 1) == n;
    assert ([m] + rest)[1..] == rest;
    assert m + b[n + 4..] == b;
  }

  lemma {:induction false} SplitOfMessages(ms: seq<Bytes>)
    requires AllMessages(ms)
    ensures Split(Flatten(ms)) == Some(ms)
  {
    if ms != [] {
      SplitOfMessages(ms[1..]);
      var b, m := Flatten(ms), ms[0];
      assert b == m + Flatten(ms[1..]);
      assert b[..|m|] == m && b[|m|..] == Flatten(ms[1..]);
      assert ReadU24(b, 1) == ReadU24(m, 1);
      assert [m] + ms[1..] == ms;
    }
  }

  /** Splitting fails exactly when the bytes are no concatenation of messages, and otherwise the
      decomposition is the only one. */
  lemma SplitIsTwoSided(b: Bytes)
    ensures Split(b).None? <==> forall ms :: AllMessages(ms) ==> Flatten(ms) != b
    ensures forall ms :: AllMessages(ms) && Flatten(ms) == b ==> Split(b) == Some(ms)
  {
    forall ms | AllMessages(ms) && Flatten(ms) == b
      ensures Split(b) == Some(ms)
    {
      SplitOfMessages(ms);
    }
  }

  function Encode(parts: seq<(byte, Bytes)>): seq<Bytes>
  {
    seq(|parts|, i requires 0 <= i < |parts| => Message(parts[i].0, parts[i].1))
  }

  /** Round trip through the writer: bodies below 2^24 come back as they were framed. */
  lemma SplitInvertsMessages(parts: seq<(byte, Bytes)>)
    requires forall i :: 0 <= i < |parts| ==> |parts[i].1| < 0x100_0000
    ensures Split(Flatten(Encode(parts))) == Some(Encode(parts))
  {
    forall i | 0 <= i < |parts|
      ensures IsMessage(Encode(parts)[i])
    {
      MessageIsMessage(parts[i].0, parts[i].1);
    }
    SplitOfMessages(Encode(parts));
  }

  /** The one message of a payload, when it has the wanted type and stands alone. */
  function OneMessage(payload: Bytes, typ: byte): (r: Option<Bytes>)
    ensures r.Some? ==> r.value == payload && IsMessage(payload) && payload[0] == typ
  {
    match Split(payload)
    case None => None
    case Some(ms) =>
      if |ms| != 1 || ms[0][0] != typ then None
      else
        assert ms == [ms[0]];
        FlattenOne(ms[0]);
        Some(ms[0])
  }

  lemma OneMessageOf(typ: byte, body: Bytes)
    requires |body| < 0x100_0000
    ensures OneMessage(Message(typ, body), typ) == Some(Message(typ, body)) && Message(typ, body)[4..] == body
  {
    var m := Message(typ, body);
    MessageIsMessage(typ, body);
    SplitOfMessages([m]);
    FlattenOne(m);
  }

  method SplitLoop(input: Bytes) returns (r: Option<seq<Bytes>>)
    ensures r == Split(input)
  {
    var b, out: seq<Bytes> := input, [];
    assert Split(input).Some? ==> [] + Split(input).value == Split(input).value;
    while |b| > 0
      invariant Split(input) == match Split(b) { case None => None case Some(rest) => Some(out + rest) }
    {
      if |b| < 4 {
        return None;
      }
      var n := ReadU24(b, 1);
      if n + 4 > |b| {
        return None;
      }
      ghost var tail := Split(b[n + 4..]);
      assert tail.Some? ==> out + ([b[..n + 4]] + tail.value) == (out + [b[..n + 4]]) + tail.value;
      out := out + [b[..n + 4]];
      b := b[n + 4..];
    }
    assert out + [] == out;
    return Some(out);
  }

  // ----- buffers filled in place -----

  method HandshakeMessage(typ: byte, body: Bytes) returns (b: array<byte>)
    ensures fresh(b) && b[..] == Message(typ, body)
  {
    b := new byte[4 + |body|];
    b[0] := typ;
    assert b[..1] == [typ];
    CopyInto(b, 1, U24(|body|));
    assert b[..4] == [typ] + U24(|body|);
    CopyInto(b, 4, body);
  }

  // ----- ClientHello -----

  /** What a ClientHello body carries; `tail` is the compression list and anything after it. */
  datatype Hello = Hello(version: nat, random: Bytes, session: Bytes, suites: Bytes, tail: Bytes)
  {
    function Body(): Bytes
      requires |session| < 256
    {
      U16(version) + random + [|session|] + session + U16(|suites|) + suites + tail
    }

    predicate WellFormed()
    {
      && (version == SSL30 || version == TLS10)
      && |random| == 32 && |session| < 256
      && |suites| < 0x1_0000 && |suites| % 2 == 0
      && |tail| >= 1
    }
  }

  /** The list offers a suite when it stands at an even offset. */
  predicate Offers(suites: Bytes, suite: nat)
  {
    exists i :: 0 <= i < |suites| / 2 && ReadU16(suites, 2 * i) == suite
  }

  /** RC4-SHA whenever it is offered, whatever the order; RC4-MD5 otherwise; 0 when neither is. */
  function Choice(suites: Bytes): nat
  {
    if Offers(suites, RC4_SHA) then RC4_SHA else if Offers(suites, RC4_MD5) then RC4_MD5 else 0
  }

  /** The pair of bytes stands at an even offset. */
  predicate Lists(suites: Bytes, high: byte, low: byte)
  {
    exists i :: 0 <= i < |suites| && i % 2 == 0 && i + 1 < |suites| && suites[i] == high && suites[i + 1] == low
  }

  /** The choice, in bytes: suite 0,5 if it is listed, else 0,4 if that is, else none. */
  lemma ChoiceExactly(suites: Bytes)
    ensures Choice(suites) == if Lists(suites, 0, 5) then 5 else if Lists(suites, 0, 4) then 4 else 0
  {
    ListsOffers(suites, 5);
    ListsOffers(suites, 4);
  }

  lemma ListsOffers(suites: Bytes, low: byte)
    ensures Offers(suites, low) <==> Lists(suites, 0, low)
  {
    if Offers(suites, low) {
      var i :| 0 <= i < |suites| / 2 && ReadU16(suites, 2 * i) == low;
      var hi: nat, lo: nat := suites[2 * i], suites[2 * i + 1];
      assert 256 * hi + lo == low;
      assert suites[2 * i] == 0 && suites[2 * i + 1] == low && 2 * i % 2 == 0;
    }
    if Lists(suites, 0, low) {
      var i :| 0 <= i < |suites| && i % 2 == 0 && i + 1 < |suites| && suites[i] == 0 && suites[i + 1] == low;
      assert i == 2 * (i / 2) && i / 2 < |suites| / 2;
      assert ReadU16(suites, 2 * (i / 2)) == low;
    }
  }

  method ChooseSuite(body: Bytes, off: nat, csLen: nat) returns (suite: nat)
    requires csLen % 2 == 0 && off + csLen <= |body|
    ensures suite == Choice(body[off..off + csLen])
  {
    ghost var list, here := body[off..off + csLen], 0;
    suite := 0;
    var i := off;
    while i < off + csLen
      invariant i == off + 2 * here && here <= csLen / 2
      invariant forall k :: 0 <= k < here ==> ReadU16(list, 2 * k) != RC4_SHA
      invariant suite == if exists k :: 0 <= k < here && ReadU16(list, 2 * k) == RC4_MD5 then RC4_MD5 else 0
    {
      var s := ReadU16(body, i);
      assert list[2 * here] == body[i] && list[2 * here + 1] == body[i + 1];
      assert s == ReadU16(list, 2 * here);
      if s == RC4_SHA {
        return s;
      }
      if s == RC4_MD5 {
        suite := s;
      }
      i := i + 2;
      here := here + 1;
    }
    assert here == |list| / 2;
  }

  datatype HelloError = MalformedHello | ShortHello | UnsupportedVersion | MalformedSession | MalformedSuites | NoCommonSuite

  datatype Parsed<+T> = Accept(value: T) | Reject(why: HelloError)

  /** The ClientHello of a record payload, which must carry nothing else. */
  function HelloMessage(payload: Bytes): (r: Parsed<Bytes>)
    ensures r.Accept? ==> |r.value| >= 39 && IsMessage(r.value) && r.value[0] == CLIENT_HELLO && r.value == payload
  {
    match OneMessage(payload, CLIENT_HELLO)
    case None => Reject(MalformedHello)
    case Some(ch) => if |ch| < 39 then Reject(ShortHello) else Accept(ch)
  }

  method ParseHelloMessage(payload: Bytes) returns (r: Parsed<Bytes>)
    ensures r == HelloMessage(payload)
  {
    var msgs := SplitLoop(payload);
    if msgs.None? || |msgs.value| != 1 || msgs.value[0][0] != CLIENT_HELLO {
      return Reject(MalformedHello);
    }
    var ch := msgs.value[0];
    if |ch| < 4 + 2 + 32 + 1 {
      return Reject(ShortHello);
    }
    r := Accept(ch);
  }

  function HelloVersion(body: Bytes): Parsed<nat>
    requires |body| >= 35
  {
    var version := ReadU16(body, 0);
    if version == SSL30 || version == TLS10 then Accept(version) else Reject(UnsupportedVersion)
  }

  /** The suite list of a body whose version was accepted. */
  function HelloSuites(body: Bytes): (r: Parsed<Bytes>)
    requires |body| >= 35
    ensures r.Accept? ==> |r.value| % 2 == 0
  {
    var sidLen: nat := body[34];
    if 35 + sidLen + 2 > |body| then Reject(MalformedSession)
    else
      var csLen := ReadU16(body, 35 + sidLen);
      var off := 37 + sidLen;
      if csLen % 2 != 0 || off + csLen + 1 > |body| then Reject(MalformedSuites)
      else Accept(body[off..off + csLen])
  }

  function HelloChoice(body: Bytes): Parsed<nat>
    requires |body| >= 35
  {
    match HelloSuites(body)
    case Reject(why) => Reject(why)
    case Accept(suites) => if Choice(suites) == 0 then Reject(NoCommonSuite) else Accept(Choice(suites))
  }

  /** The session id is skipped, then the suite list is scanned; every index is checked first. */
  method ParseHelloChoice(body: Bytes) returns (r: Parsed<nat>)
    requires |body| >= 35
    ensures r == HelloChoice(body)
  {
    var off := 34;
    var sidLen: nat := body[off];
    off := off + 1;
    if off + sidLen + 2 > |body| {
      return Reject(MalformedSession);
    }
    off := off + sidLen;
    var csLen := ReadU16(body, off);
    off := off + 2;
    if csLen % 2 != 0 || off + csLen + 1 > |body| {
      return Reject(MalformedSuites);
    }
    var suite := ChooseSuite(body, off, csLen);
    if suite == 0 {
      return Reject(NoCommonSuite);
    }
    r := Accept(suite);
  }

  /** Why a ClientHello is refused, each reason exactly: the payload is no such message, or too short; the
      session id does not leave room for a list length; the list is odd, or leaves no room for compression;
      none of its suites is served. */
  lemma HelloRefusals(payload: Bytes)
    ensures HelloMessage(payload) == Reject(MalformedHello) <==> !IsMessage(payload) || payload[0] != 1
    ensures HelloMessage(payload) == Reject(ShortHello) <==> IsMessage(payload) && payload[0] == 1 && |payload| < 39
    ensures IsMessage(payload) && |payload| >= 39 ==>
              var body := payload[4..];
              var session: nat := body[34];
              var off := 37 + session;
              var list: nat := if off <= |body| then ReadU16(body, off - 2) else 0;
              (HelloVersion(body).Accept? <==> body[0] == 3 && body[1] <= 1)
              && (HelloChoice(body) == Reject(MalformedSession) <==> off > |body|)
              && (HelloChoice(body) == Reject(MalformedSuites) <==> off <= |body| && (list % 2 == 1 || off + list >= |body|))
              && (HelloChoice(body) == Reject(NoCommonSuite)
                  <==> off <= |body| && list % 2 == 0 && off + list < |body| && Choice(body[off..off + list]) == 0)
  {
    if IsMessage(payload) {
      SplitOfMessages([payload]);
      FlattenOne(payload);
    }
    hide Choice;
  }

  /** Everything the parser decides about a record payload. */
  predicate AcceptsHello(payload: Bytes, version: nat, random: Bytes, suite: nat)
  {
    HelloMessage(payload).Accept?
    && var body := payload[4..];
       HelloVersion(body) == Accept(version) && random == body[2..34] && HelloChoice(body) == Accept(suite)
  }

  /** Where the fields of a body stand. */
  lemma BodySlices(h: Hello)
    requires h.WellFormed()
    ensures var body, off := h.Body(), 35 + |h.session|;
            |body| == off + 2 + |h.suites| + |h.tail|
            && body[..2] == U16(h.version) && body[2..34] == h.random && body[34] == |h.session|
            && body[off..off + 2] == U16(|h.suites|) && body[off + 2..off + 2 + |h.suites|] == h.suites
  {
    hide U16;
    var front, back := U16(h.version) + h.random + [|h.session|] + h.session, U16(|h.suites|) + h.suites + h.tail;
    FrontSlices(h);
    BackSlices(h);
    var body, off := h.Body(), 35 + |h.session|;
    assert body == front + back;
    assert body[..off] == front && body[off..] == back;
    assert body[..2] == front[..2] && body[2..34] == front[2..34] && body[34] == front[34];
    assert body[off..off + 2] == back[..2] && body[off + 2..off + 2 + |h.suites|] == back[2..2 + |h.suites|];
  }

  lemma FrontSlices(h: Hello)
    requires h.WellFormed()
    ensures var front := U16(h.version) + h.random + [|h.session|] + h.session;
            |front| == 35 + |h.session| && front[..2] == U16(h.version) && front[2..34] == h.random && front[34] == |h.session|
  {
  }

  lemma BackSlices(h: Hello)
    requires h.WellFormed()
    ensures var back := U16(|h.suites|) + h.suites + h.tail;
            |back| == 2 + |h.suites| + |h.tail| && back[..2] == U16(|h.suites|) && back[2..2 + |h.suites|] == h.suites
  {
  }

  lemma HelloFields(h: Hello)
    requires h.WellFormed()
    ensures var body := h.Body();
            |body| >= 38 + |h.session| + |h.suites| && HelloVersion(body) == Accept(h.version)
            && body[2..34] == h.random && HelloSuites(body) == Accept(h.suites)
  {
    var body, off := h.Body(), 35 + |h.session|;
    U16Reads(h.version);
    U16Reads(|h.suites|);
    BodySlices(h);
    assert ReadU16(body, 0) == ReadU16(body[..2], 0) && ReadU16(body, off) == ReadU16(body[off..off + 2], 0);
  }

  /** Completeness: every well-formed ClientHello offering a common suite is accepted with its own
      version and random, and RC4-SHA is preferred. */
  lemma HelloAccepted(h: Hello)
    requires h.WellFormed() && |h.Body()| < 0x100_0000 && Choice(h.suites) != 0
    ensures AcceptsHello(Message(CLIENT_HELLO, h.Body()), h.version, h.random, Choice(h.suites))
  {
    OneMessageOf(CLIENT_HELLO, h.Body());
    HelloFields(h);
  }

  /** The ClientHello a body with consistent lengths carries. */
  function HelloOf(body: Bytes, sidLen: nat, csLen: nat): Hello
    requires 37 + sidLen + csLen <= |body|
  {
    var off := 37 + sidLen;
    Hello(ReadU16(body, 0), body[2..34], body[35..35 + sidLen], body[off..off + csLen], body[off + csLen..])
  }

  lemma BodyOfHello(body: Bytes, sidLen: nat, csLen: nat)
    requires 37 + sidLen + csLen <= |body| && body[34] == sidLen && ReadU16(body, 35 + sidLen) == csLen
    ensures HelloOf(body, sidLen, csLen).Body() == body
  {
    var off := 37 + sidLen;
    U16Writes(body[..2]);
    U16Writes(body[35 + sidLen..off]);
    assert ReadU16(body[..2], 0) == ReadU16(body, 0) && ReadU16(body[35 + sidLen..off], 0) == csLen;
    hide ReadU16; hide U16;
    SplitFields(body, sidLen, csLen);
  }

  /** Soundness: an accepted payload is one well-formed ClientHello with these values. */
  lemma HelloOnlyWellFormed(payload: Bytes, version: nat, random: Bytes, suite: nat) returns (h: Hello)
    requires AcceptsHello(payload, version, random, suite)
    ensures h.WellFormed() && payload == Message(CLIENT_HELLO, h.Body())
    ensures h.version == version && h.random == random && suite == Choice(h.suites) != 0
  {
    var body := payload[4..];
    var sidLen: nat := body[34];
    var csLen := ReadU16(body, 35 + sidLen);
    h := HelloOf(body, sidLen, csLen);
    BodyOfHello(body, sidLen, csLen);
    U24OfMessage(payload);
  }

  lemma SplitFields(body: Bytes, sidLen: nat, csLen: nat)
    requires 37 + sidLen + csLen <= |body|
    ensures body == body[..2] + body[2..34] + [body[34]] + body[35..35 + sidLen] + body[35 + sidLen..37 + sidLen]
                    + body[37 + sidLen..37 + sidLen + csLen] + body[37 + sidLen + csLen..]
  {
  }

  lemma U24OfMessage(m: Bytes)
    requires IsMessage(m)
    ensures m == Message(m[0], m[4..])
  {
    U24Writes(m[1..4]);
    assert ReadU24(m[1..4], 0) == ReadU24(m, 1) == |m| - 4;
    hide ReadU24; hide U24;
    assert m == [m[0]] + m[1..4] + m[4..];
  }

  // ----- the server's flight -----

  function ServerHello(version: nat, serverRandom: Bytes, suite: nat): Bytes
  {
    Message(SERVER_HELLO, U16(version) + serverRandom + [0] + U16(suite) + [0])
  }

  function CertificateList(certs: seq<Bytes>): Bytes
  {
    if certs == [] then [] else CertificateList(certs[..|certs| - 1]) + U24(|certs[|certs| - 1]|) + certs[|certs| - 1]
  }

  function CertificateBody(certs: seq<Bytes>): Bytes { U24(|CertificateList(certs)|) + CertificateList(certs) }

  function Flight(version: nat, serverRandom: Bytes, suite: nat, certs: seq<Bytes>): Bytes
  {
    ServerHello(version, serverRandom, suite) + Message(CERTIFICATE, CertificateBody(certs)) + Message(SERVER_HELLO_DONE, [])
  }

  /** The list length is computed first, then the list is written behind it. */
  method FillCertificateBody(certs: seq<Bytes>) returns (b: array<byte>)
    ensures fresh(b) && b[..] == CertificateBody(certs)
  {
    var certLen := 0;
    for i := 0 to |certs|
      invariant certLen == |CertificateList(certs[..i])|
    {
      CertificateListStep(certs, i);
      certLen := certLen + 3 + |certs[i]|;
    }
    assert certs[..|certs|] == certs;
    b := new byte[3 + certLen];
    CopyInto(b, 0, U24(certLen));
    assert b[..3] == U24(certLen);
    FillCertificateList(b, certs);
  }

  method FillCertificateList(b: array<byte>, certs: seq<Bytes>)
    requires b.Length == 3 + |CertificateList(certs)|
    modifies b
    ensures b[..] == old(b[..3]) + CertificateList(certs)
  {
    ghost var head := b[..3];
    var pos := 3;
    assert certs[..0] == [];
    for i := 0 to |certs|
      invariant pos == 3 + |CertificateList(certs[..i])| <= b.Length
      invariant b[..pos] == head + CertificateList(certs[..i])
    {
      FillStep(head, certs, i);
      AppendTwice(b, pos, U24(|certs[i]|), certs[i]);
      pos := pos + 3 + |certs[i]|;
    }
    assert certs[..|certs|] == certs;
    assert b[..pos] == b[..];
  }

  /** Two consecutive copies behind the part already written. */
  method AppendTwice(b: array<byte>, pos: nat, first: Bytes, second: Bytes)
    requires pos + |first| + |second| <= b.Length
    modifies b
    ensures b[..pos + |first| + |second|] == old(b[..pos]) + first + second
  {
    CopyInto(b, pos, first);
    assert b[..pos + |first|] == old(b[..pos]) + first;
    CopyInto(b, pos + |first|, second);
  }

  lemma CertificateListStep(certs: seq<Bytes>, i: nat)
    requires i < |certs|
    ensures CertificateList(certs[..i + 1]) == CertificateList(certs[..i]) + U24(|certs[i]|) + certs[i]
  {
    assert certs[..i + 1][..i] == certs[..i];
  }

  lemma FillStep(head: Bytes, certs: seq<Bytes>, i: nat)
    requires i < |certs|
    ensures |CertificateList(certs[..i + 1])| == |CertificateList(certs[..i])| + 3 + |certs[i]| <= |CertificateList(certs)|
    ensures head + CertificateList(certs[..i + 1]) == head + CertificateList(certs[..i]) + U24(|certs[i]|) + certs[i]
  {
    CertificateListStep(certs, i);
    CertificateListGrows(certs, i + 1);
  }

  lemma {:induction false} CertificateListGrows(certs: seq<Bytes>, i: nat)
    requires i <= |certs|
    ensures |CertificateList(certs[..i])| <= |CertificateList(certs)|
    decreases |certs| - i
  {
    if i == |certs| {
      assert certs[..i] == certs;
    } else {
      CertificateListGrows(certs, i + 1);
      CertificateListStep(certs, i);
    }
  }

  /** A client's reading of a certificate list: each certificate behind its 24-bit length. */
  function CertificatesIn(list: Bytes): Option<seq<Bytes>>
  {
    if list == [] then Some([])
    else if |list| < 3 || 3 + ReadU24(list, 0) > |list| then None
    else
      var n := ReadU24(list, 0);
      match CertificatesIn(list[3 + n..]) case None => None case Some(rest) => Some([list[3..3 + n]] + rest)
  }

  lemma {:induction false} CertificateListFirst(cert: Bytes, rest: seq<Bytes>)
    ensures CertificateList([cert] + rest) == U24(|cert|) + cert + CertificateList(rest)
  {
    var certs := [cert] + rest;
    if rest == [] {
      assert certs[..0] == [];
    } else {
      var last := rest[|rest| - 1];
      assert certs[..|certs| - 1] == [cert] + rest[..|rest| - 1];
      CertificateListFirst(cert, rest[..|rest| - 1]);
      hide U24;
      assert CertificateList(certs) == U24(|cert|) + cert + CertificateList(rest[..|rest| - 1]) + U24(|last|) + last;
    }
  }

  /** The list reads back as the certificates, in order. */
  lemma {:induction false} CertificatesRead(certs: seq<Bytes>)
    requires |CertificateList(certs)| < 0x100_0000
    ensures CertificatesIn(CertificateList(certs)) == Some(certs)
  {
    if certs != [] {
      var list, cert, rest := CertificateList(certs), certs[0], certs[1..];
      assert certs == [cert] + rest;
      CertificateListFirst(cert, rest);
      U24Reads(|cert|);
      hide CertificateList; hide U24;
      assert list[..3] == U24(|cert|) && ReadU24(list, 0) == ReadU24(list[..3], 0);
      assert list[3..3 + |cert|] == cert && list[3 + |cert|..] == CertificateList(rest);
      CertificatesRead(rest);
    }
  }

  /** The Certificate message: its type, the length of the list, and the server's certificates. */
  lemma CertificateFields(certs: seq<Bytes>)
    requires |CertificateBody(certs)| < 0x100_0000
    ensures var m := Message(CERTIFICATE, CertificateBody(certs));
            IsMessage(m) && m[0] == 11 && |m| >= 7 && ReadU24(m, 4) == |m| - 7 && CertificatesIn(m[7..]) == Some(certs)
  {
    hide CertificateList; hide ReadU24; hide CertificatesIn; hide IsMessage;
    var list := CertificateList(certs);
    MessageIsMessage(CERTIFICATE, CertificateBody(certs));
    CertificatesRead(certs);
    U24Reads(|list|);
    var m := Message(CERTIFICATE, CertificateBody(certs));
    assert m[4..7] == U24(|list|) && m[7..] == list;
    U24At(m, 4);
  }

  lemma U24At(b: Bytes, at: nat)
    requires at + 3 <= |b|
    ensures ReadU24(b, at) == ReadU24(b[at..at + 3], 0)
  {
  }

  /** A client that holds the whole flight finds three messages: a ServerHello with the server's version,
      random and suite, no session and no compression; the certificates; and an empty ServerHelloDone. */
  lemma FlightSplits(version: nat, serverRandom: Bytes, suite: nat, certs: seq<Bytes>)
    requires version < 0x1_0000 && |serverRandom| == 32 && suite < 0x1_0000
    requires |CertificateBody(certs)| < 0x100_0000
    ensures var sh := ServerHello(version, serverRandom, suite);
            Split(Flight(version, serverRandom, suite, certs))
              == Some([sh, Message(CERTIFICATE, CertificateBody(certs)), [14, 0, 0, 0]])
            && |sh| == 42 && sh[0] == 2 && ReadU16(sh, 4) == version && sh[6..38] == serverRandom && sh[38] == 0
            && ReadU16(sh, 39) == suite && sh[41] == 0
            && var cert := Message(CERTIFICATE, CertificateBody(certs));
               IsMessage(cert) && cert[0] == 11 && |cert| >= 7 && ReadU24(cert, 4) == |cert| - 7 && CertificatesIn(cert[7..]) == Some(certs)
  {
    var sh := ServerHello(version, serverRandom, suite);
    ServerHelloFields(version, serverRandom, suite);
    CertificateFields(certs);
    assert Message(SERVER_HELLO_DONE, []) == [14, 0, 0, 0];
    var cert, done := Message(CERTIFICATE, CertificateBody(certs)), Message(SERVER_HELLO_DONE, []);
    MessageIsMessage(SERVER_HELLO_DONE, []);
    FlattenThree(sh, cert, done);
    SplitOfMessages([sh, cert, done]);
  }

  lemma ServerHelloFields(version: nat, serverRandom: Bytes, suite: nat)
    requires version < 0x1_0000 && |serverRandom| == 32 && suite < 0x1_0000
    ensures var sh := ServerHello(version, serverRandom, suite);
            IsMessage(sh) && |sh| == 42 && sh[0] == 2 && ReadU16(sh, 4) == version && sh[6..38] == serverRandom && sh[38] == 0
            && ReadU16(sh, 39) == suite && sh[41] == 0
  {
    var sh := ServerHello(version, serverRandom, suite);
    var body := U16(version) + serverRandom + [0] + U16(suite) + [0];
    MessageIsMessage(SERVER_HELLO, body);
    U16Reads(version);
    U16Reads(suite);
    assert body[..2] == U16(version) && body[2..34] == serverRandom && body[35..37] == U16(suite);
    assert sh[4..] == body;
    assert sh[4..6] == body[..2] && sh[6..38] == body[2..34] && sh[39..41] == body[35..37];
    assert sh[38] == body[34] && sh[41] == body[37];
  }

  lemma FlattenThree(a: Bytes, b: Bytes, c: Bytes)
    ensures Flatten([a, b, c]) == a + b + c
  {
    FlattenAppend([a], [b, c]);
    FlattenAppend([b], [c]);
    FlattenOne(a);
    FlattenOne(b);
    FlattenOne(c);
    assert [a, b, c] == [a] + [b, c] && [b, c] == [b] + [c];
  }

  // ----- ClientKeyExchange -----

  /** A ciphertext that looks as if it carried a length prefix. */
  predicate AnnouncesItself(enc: Bytes) { |enc| >= 2 && ReadU16(enc, 0) == |enc| - 2 }

  /** The encrypted premaster: a two-byte prefix is dropped when it is exactly the remaining length. */
  function KeyExchangePayload(m: Bytes): Bytes
    requires 4 <= |m|
  {
    var enc := m[4..];
    if AnnouncesItself(enc) then enc[2..] else enc
  }

  lemma PrefixedPayload(enc: Bytes)
    requires |enc| < 0x1_0000
    ensures KeyExchangePayload(Message(CLIENT_KEY_EXCHANGE, U16(|enc|) + enc)) == enc
  {
    var body := U16(|enc|) + enc;
    assert Message(CLIENT_KEY_EXCHANGE, body)[4..] == body;
    U16Reads(|enc|);
    assert ReadU16(body, 0) == |enc| && body[2..] == enc;
  }
}
