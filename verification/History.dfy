/** What a server connection has read and written, and what that history says about its ciphers. */
module History {
  import opened Bytes
  import opened Crypto
  import opened KeyDerivation
  import opened HandshakeMessages
  import opened Wrappers
  import opened RecordLayer
  import opened HandshakeProtocol
  import Standard

  predicate SameKeys(a: Cipher, b: Cipher)
  {
    a.active && b.active && a.key == b.key && a.macKey == b.macKey && a.hash == b.hash && a.version == b.version
  }

  // ----- reading -----

  /** What one attempt to read a record took from the stream: a whole record, accepted or not, or the
      bytes after which it gave up. */
  datatype Inbound = Whole(typ: byte, version: nat, body: Bytes) | Cut(bytes: Bytes)
  {
    function Raw(): Bytes { match this case Whole(_, _, _) => Record(version, typ, body) case Cut(_) => bytes }

    predicate Carries(t: byte) { Whole? && typ == t }
  }

  function Arrived(ins: seq<Inbound>): Bytes
  {
    if ins == [] then [] else Arrived(ins[..|ins| - 1]) + ins[|ins| - 1].Raw()
  }

  predicate Accepted(p: Primitives, c: Cipher, x: Inbound) { x.Whole? && Open(p, c, x.typ, x.body).Plain? }

  /** The application data one record gives. */
  function Given(p: Primitives, c: Cipher, x: Inbound): Bytes
  {
    if Accepted(p, c, x) && x.typ == APPLICATION_DATA then Open(p, c, x.typ, x.body).data else []
  }

  function Hear(p: Primitives, c: Cipher, x: Inbound): Cipher { if x.Whole? then AfterOpen(p, c, x.typ, x.body) else c }

  /** The reading cipher after all of `ins`. */
  function Listen(p: Primitives, c: Cipher, ins: seq<Inbound>): Cipher
  {
    if ins == [] then c else Hear(p, Listen(p, c, ins[..|ins| - 1]), ins[|ins| - 1])
  }

  /** The application data that came through the reading cipher, record by record. */
  function Plaintext(p: Primitives, c: Cipher, ins: seq<Inbound>): Bytes
  {
    if ins == [] then []
    else Plaintext(p, c, ins[..|ins| - 1]) + Given(p, Listen(p, c, ins[..|ins| - 1]), ins[|ins| - 1])
  }

  function AcceptedCount(p: Primitives, c: Cipher, ins: seq<Inbound>): nat
  {
    if ins == [] then 0
    else
      AcceptedCount(p, c, ins[..|ins| - 1]) + (if Accepted(p, Listen(p, c, ins[..|ins| - 1]), ins[|ins| - 1]) then 1 else 0)
  }

  function BodyBytes(ins: seq<Inbound>): nat
  {
    if ins == [] then 0 else BodyBytes(ins[..|ins| - 1]) + (if ins[|ins| - 1].Whole? then |ins[|ins| - 1].body| else 0)
  }

  lemma NextCounts(n: nat)
    ensures NextSequence(n % SEQUENCE_MODULUS) == (n + 1) % SEQUENCE_MODULUS
  {
  }

  /** The keys stay, the sequence number counts the accepted records and no others, and the keystream has
      moved over every whole record, refused ones included. */
  lemma {:induction false} ListenCounts(p: Primitives, c: Cipher, ins: seq<Inbound>)
    requires c.active && c.seqNo == 0
    ensures var c' := Listen(p, c, ins);
            SameKeys(c', c) && c'.seqNo == AcceptedCount(p, c, ins) % SEQUENCE_MODULUS && c'.pos == c.pos + BodyBytes(ins)
  {
    if ins != [] {
      ListenCounts(p, c, ins[..|ins| - 1]);
      NextCounts(AcceptedCount(p, c, ins[..|ins| - 1]));
    }
  }

  lemma ListenStep(p: Primitives, c: Cipher, ins: seq<Inbound>, x: Inbound)
    ensures Listen(p, c, ins + [x]) == Hear(p, Listen(p, c, ins), x) && Arrived(ins + [x]) == Arrived(ins) + x.Raw()
    ensures Plaintext(p, c, ins + [x]) == Plaintext(p, c, ins) + Given(p, Listen(p, c, ins), x)
  {
    assert (ins + [x])[..|ins|] == ins;
  }

  // ----- reading, by the standards -----

  /** What each record opened to; nothing for a record that was refused or cut. */
  function Openings(p: Primitives, c: Cipher, ins: seq<Inbound>): (r: seq<Option<Bytes>>)
    ensures |r| == |ins|
  {
    if ins == [] then []
    else
      var init, x := ins[..|ins| - 1], ins[|ins| - 1];
      var before := Listen(p, c, init);
      Openings(p, c, init) + [if Accepted(p, before, x) then Some(Open(p, before, x.typ, x.body).data) else None]
  }

  function CountSome(plains: seq<Option<Bytes>>): nat
  {
    if plains == [] then 0 else CountSome(plains[..|plains| - 1]) + (if plains[|plains| - 1].Some? then 1 else 0)
  }

  /** `plains` is what the records of `ins` carry: each is the standards' protected record of its plaintext,
      numbered by the accepted records before it, and placed in the keystream behind all bytes before it. A
      record without one protects no plaintext at that place under that number. */
  ghost predicate Genuine(p: Primitives, w: Standard.Writer, ins: seq<Inbound>, plains: seq<Option<Bytes>>)
  {
    |plains| == |ins| && forall i :: 0 <= i < |ins| ==> GenuineAt(p, w, ins, plains, i)
  }

  ghost predicate GenuineAt(p: Primitives, w: Standard.Writer, ins: seq<Inbound>, plains: seq<Option<Bytes>>, i: nat)
    requires i < |plains| == |ins|
  {
    var x, pos, number := ins[i], BodyBytes(ins[..i]), CountSome(plains[..i]) % SEQUENCE_MODULUS;
    match plains[i]
    case Some(plain) => x.Whole? && x.body == Standard.Protect(p, w, pos, number, x.typ, plain)
    case None => x.Whole? ==> forall plain :: x.body != Standard.Protect(p, w, pos, number, x.typ, plain)
  }

  /** The application data among those plaintexts. */
  function Application(ins: seq<Inbound>, plains: seq<Option<Bytes>>): Bytes
    requires |ins| == |plains|
  {
    if ins == [] then []
    else
      var n := |ins| - 1;
      Application(ins[..n], plains[..n]) + (if plains[n].Some? && ins[n].Carries(23) then plains[n].value else [])
  }

  lemma {:induction false} OpeningsPrefix(p: Primitives, c: Cipher, ins: seq<Inbound>, i: nat)
    requires i <= |ins|
    ensures Openings(p, c, ins)[..i] == Openings(p, c, ins[..i])
  {
    var n := |ins| - 1;
    if i <= n {
      OpeningsPrefix(p, c, ins[..n], i);
      assert ins[..n][..i] == ins[..i];
      assert Openings(p, c, ins)[..i] == Openings(p, c, ins[..n])[..i];
    } else {
      assert ins[..i] == ins;
    }
  }

  lemma {:induction false} OpeningsCount(p: Primitives, c: Cipher, ins: seq<Inbound>)
    ensures CountSome(Openings(p, c, ins)) == AcceptedCount(p, c, ins)
  {
    if ins != [] {
      var n := |ins| - 1;
      OpeningsCount(p, c, ins[..n]);
      hide Listen; hide Accepted;
      assert Openings(p, c, ins)[..n] == Openings(p, c, ins[..n]);
    }
  }

  /** The cipher that meets record `i`, in the standards' terms. */
  lemma MetWith(p: Primitives, w: Standard.Writer, ins: seq<Inbound>, i: nat)
    requires i <= |ins|
    ensures Listen(p, Writing(w, 0, 0), ins[..i])
            == Writing(w, BodyBytes(ins[..i]), CountSome(Openings(p, Writing(w, 0, 0), ins)[..i]) % SEQUENCE_MODULUS)
  {
    var c := Writing(w, 0, 0);
    ListenCounts(p, c, ins[..i]);
    OpeningsPrefix(p, c, ins, i);
    OpeningsCount(p, c, ins[..i]);
  }

  lemma OpeningsGenuine(p: Primitives, w: Standard.Writer, ins: seq<Inbound>)
    ensures Genuine(p, w, ins, Openings(p, Writing(w, 0, 0), ins))
  {
    var c := Writing(w, 0, 0);
    var plains := Openings(p, c, ins);
    forall i | 0 <= i < |ins|
      ensures GenuineAt(p, w, ins, plains, i)
    {
      var x, before := ins[i], Listen(p, c, ins[..i]);
      OpeningsPrefix(p, c, ins, i + 1);
      assert ins[..i + 1][..i] == ins[..i] && plains[..i + 1][i] == plains[i];
      MetWith(p, w, ins, i);
      if x.Whole? {
        OpenExactly(p, before, x.typ, x.body);
        forall plain
          ensures Seal(p, before, x.typ, plain) == Standard.Protect(p, w, before.pos, before.seqNo, x.typ, plain)
        {
          SealIsStandard(p, before, x.typ, plain);
        }
      }
      hide Listen; hide Open; hide Seal; hide CountSome; hide BodyBytes; hide Standard.Protect;
    }
  }

  lemma {:induction false} PlaintextIsApplication(p: Primitives, c: Cipher, ins: seq<Inbound>)
    ensures Plaintext(p, c, ins) == Application(ins, Openings(p, c, ins))
  {
    if ins != [] {
      var n := |ins| - 1;
      PlaintextIsApplication(p, c, ins[..n]);
      hide Listen; hide Open;
      assert Openings(p, c, ins)[..n] == Openings(p, c, ins[..n]);
    }
  }

  // ----- writing -----

  /** One record handed to the stream, of which the stream took `taken` bytes. */
  datatype Emission = Emission(typ: byte, plain: Bytes, taken: nat)

  function WireSize(c: Cipher, e: Emission): nat { 5 + |e.plain| + MacSize(c) }

  predicate Fits(c: Cipher, e: Emission) { e.taken <= WireSize(c, e) }

  predicate Complete(c: Cipher, e: Emission) { e.taken == WireSize(c, e) }

  /** The writing cipher after all of `es`: it moves over a record whether or not the stream took it. */
  function Speak(c: Cipher, es: seq<Emission>): Cipher
  {
    if es == [] then c else After(Speak(c, es[..|es| - 1]), |es[|es| - 1].plain|)
  }

  function Part(p: Primitives, version: nat, c: Cipher, e: Emission): (r: Bytes)
    requires Fits(c, e)
    ensures |r| == e.taken
  {
    Record(version, e.typ, Seal(p, c, e.typ, e.plain))[..e.taken]
  }

  /** Every record fits the state it was sealed in. */
  ghost predicate AllFit(c: Cipher, es: seq<Emission>)
  {
    forall i :: 0 <= i < |es| ==> Fits(c, es[i])
  }

  lemma {:induction false} SpeakKeepsSize(c: Cipher, es: seq<Emission>)
    ensures MacSize(Speak(c, es)) == MacSize(c) && Speak(c, es).active == c.active
    ensures c.active ==> SameKeys(Speak(c, es), c)
    ensures !c.active ==> Speak(c, es) == c
  {
    if es != [] {
      SpeakKeepsSize(c, es[..|es| - 1]);
    }
  }

  /** The bytes on the stream: each record sealed in the state the ones before it left, as far as taken. */
  function Uttered(p: Primitives, version: nat, c: Cipher, es: seq<Emission>): Bytes
    requires AllFit(c, es)
  {
    if es == [] then []
    else
      SpeakKeepsSize(c, es[..|es| - 1]);
      Uttered(p, version, c, es[..|es| - 1]) + Part(p, version, Speak(c, es[..|es| - 1]), es[|es| - 1])
  }

  lemma UtterStep(p: Primitives, version: nat, c: Cipher, es: seq<Emission>, e: Emission)
    requires AllFit(c, es) && Fits(c, e)
    ensures AllFit(c, es + [e]) && Fits(Speak(c, es), e)
    ensures Uttered(p, version, c, es + [e]) == Uttered(p, version, c, es) + Part(p, version, Speak(c, es), e)
    ensures Speak(c, es + [e]) == After(Speak(c, es), |e.plain|)
  {
    assert (es + [e])[..|es|] == es;
    SpeakKeepsSize(c, es);
  }

  /** The application data among the emissions. */
  function Said(es: seq<Emission>): Bytes
  {
    if es == [] then []
    else Said(es[..|es| - 1]) + (if es[|es| - 1].typ == APPLICATION_DATA then es[|es| - 1].plain else [])
  }

  lemma SaidStep(es: seq<Emission>, e: Emission)
    ensures Said(es + [e]) == Said(es) + (if e.typ == APPLICATION_DATA then e.plain else [])
  {
    assert (es + [e])[..|es|] == es;
  }

  /** No two records share a piece of the keystream, and each has its own place in the numbering, also
      after a record the stream took only in part. */
  lemma {:induction false} KeystreamNeverReused(c: Cipher, es: seq<Emission>, i: nat, j: nat)
    requires c.active && c.seqNo == 0 && i < j <= |es|
    ensures var before, after := Speak(c, es[..i]), Speak(c, es[..j]);
            SameKeys(before, after) && before.pos + |es[i].plain| + MacSize(c) <= after.pos && after.seqNo == j % SEQUENCE_MODULUS
    decreases j
  {
    SpeakKeepsSize(c, es[..j - 1]);
    SpeakKeepsSize(c, es[..i]);
    SpeakCounts(c, es[..j - 1]);
    NextCounts(j - 1);
    assert es[..j][..j - 1] == es[..j - 1];
    if i < j - 1 {
      KeystreamNeverReused(c, es, i, j - 1);
    }
  }

  lemma {:induction false} SpeakCounts(c: Cipher, es: seq<Emission>)
    requires c.active && c.seqNo == 0
    ensures Speak(c, es).seqNo == |es| % SEQUENCE_MODULUS
  {
    if es != [] {
      SpeakCounts(c, es[..|es| - 1]);
      SpeakKeepsSize(c, es[..|es| - 1]);
      NextCounts(|es| - 1);
    }
  }

  // ----- writing, by the standards -----

  function ProtectedBytes(w: Standard.Writer, es: seq<Emission>): nat
  {
    if es == [] then 0 else ProtectedBytes(w, es[..|es| - 1]) + |es[|es| - 1].plain| + w.hash.Size()
  }

  /** The records of `es` as far as the stream took them: each is the standards' protected record of its
      plaintext, numbered by its place, in the keystream behind all those before it. */
  function OnStream(p: Primitives, w: Standard.Writer, es: seq<Emission>): Bytes
  {
    if es == [] then []
    else
      var init, e := es[..|es| - 1], es[|es| - 1];
      var whole := Record(w.version, e.typ, Standard.Protect(p, w, ProtectedBytes(w, init), |init| % SEQUENCE_MODULUS, e.typ, e.plain));
      OnStream(p, w, init) + (if e.taken < |whole| then whole[..e.taken] else whole)
  }

  lemma {:induction false} SpeakIsStandard(w: Standard.Writer, es: seq<Emission>)
    ensures Speak(Writing(w, 0, 0), es) == Writing(w, ProtectedBytes(w, es), |es| % SEQUENCE_MODULUS)
  {
    if es != [] {
      SpeakIsStandard(w, es[..|es| - 1]);
      NextCounts(|es| - 1);
    }
  }

  /** The last record, sealed by the cipher or protected by the standards. */
  lemma PartIsStandard(p: Primitives, w: Standard.Writer, init: seq<Emission>, e: Emission)
    requires Fits(Writing(w, 0, 0), e)
    ensures Fits(Speak(Writing(w, 0, 0), init), e)
    ensures OnStream(p, w, init + [e]) == OnStream(p, w, init) + Part(p, w.version, Speak(Writing(w, 0, 0), init), e)
  {
    hide Speak; hide Seal; hide Record; hide Standard.Protect; hide ProtectedBytes;
    SpeakIsStandard(w, init);
    var c := Writing(w, ProtectedBytes(w, init), |init| % SEQUENCE_MODULUS);
    var body := Standard.Protect(p, w, ProtectedBytes(w, init), |init| % SEQUENCE_MODULUS, e.typ, e.plain);
    SealIsStandard(p, c, e.typ, e.plain);
    assert Seal(p, c, e.typ, e.plain) == body;
    RecordLength(w.version, e.typ, body);
    assert (init + [e])[..|init|] == init;
  }

  lemma {:induction false} UtteredIsStandard(p: Primitives, w: Standard.Writer, es: seq<Emission>)
    requires AllFit(Writing(w, 0, 0), es)
    ensures Uttered(p, w.version, Writing(w, 0, 0), es) == OnStream(p, w, es)
  {
    if es != [] {
      var c, init, e := Writing(w, 0, 0), es[..|es| - 1], es[|es| - 1];
      assert init + [e] == es && AllFit(c, init) && Fits(c, e);
      hide Uttered; hide OnStream; hide Speak; hide Fits; hide AllFit; hide Part;
      UtteredIsStandard(p, w, init);
      UtterStep(p, w.version, c, init, e);
      PartIsStandard(p, w, init, e);
    }
  }

  // ----- the whole history -----

  /** Records read before and after the client's ciphers were installed, records written before and after
      the server's, the negotiated session, and the client Finished once it was verified. */
  datatype History = History(prelude: seq<Inbound>, secured: seq<Inbound>, opening: seq<Emission>, sealed: seq<Emission>,
                             session: Option<Session>, finished: Option<Bytes>)
  {
    function Logged(x: Inbound): History
    {
      if session.None? then this.(prelude := prelude + [x]) else this.(secured := secured + [x])
    }

    predicate ExtendedBy(h: History)
    {
      prelude <= h.prelude && secured <= h.secured && opening <= h.opening && sealed <= h.sealed
      && (session.Some? ==> h.session == session && h.prelude == prelude) && (finished.Some? ==> h.finished == finished)
    }
  }

  const NOTHING: History := History([], [], [], [], None, None)

  /** The secrets come from the client's own messages, the server's random and its private key: suite and
      client random from the ClientHello, the master secret from the decrypted ClientKeyExchange. */
  predicate Derived(p: Primitives, config: Option<Config>, entropy: Option<Bytes>, prelude: seq<Inbound>, s: Session)
  {
    && config.Some? && config.value.privateKey.Some? && entropy == Some(s.serverRandom) && |prelude| == 3
    && prelude[0].Carries(HANDSHAKE) && AcceptsHello(prelude[0].body, s.version, s.clientRandom, s.suite)
    && prelude[1].Carries(HANDSHAKE) && OneMessage(prelude[1].body, CLIENT_KEY_EXCHANGE).Some?
    && (var premaster := config.value.privateKey.value(KeyExchangePayload(prelude[1].body));
        premaster.Some? && |premaster.value| == 48
        && s.master == Standard.Master(p, s.version, premaster.value, s.clientRandom, s.serverRandom))
    && prelude[2].Carries(CHANGE_CIPHER_SPEC) && prelude[2].body == [1]
    && s.transcript == prelude[0].body + Flight(s.version, s.serverRandom, s.suite, config.value.certificate) + prelude[1].body
  }

  /** The first record under the client's ciphers was its Finished, and right for the whole transcript. */
  predicate Verified(p: Primitives, s: Session, secured: seq<Inbound>, finished: Bytes)
  {
    && (s.version == SSL30 || s.version == TLS10)
    && secured != [] && secured[0].Carries(HANDSHAKE) && Open(p, s.Input(p), HANDSHAKE, secured[0].body) == Plain(finished)
    && IsMessage(finished) && finished[0] == FINISHED && finished[4..] == FinishedVerify(p, s.version, s.master, s.transcript, true)
  }

  /** The server's answer to the ClientHello that was read. */
  predicate AnswersHello(config: Option<Config>, entropy: Option<Bytes>, prelude: seq<Inbound>, version: nat, e: Emission)
  {
    && config.Some? && entropy.Some? && prelude != [] && prelude[0].Carries(HANDSHAKE) && HelloMessage(prelude[0].body).Accept?
    && var body := prelude[0].body[4..];
       HelloVersion(body) == Accept(version) && HelloChoice(body).Accept?
       && e.typ == HANDSHAKE && e.plain == Flight(version, entropy.value, HelloChoice(body).value, config.value.certificate)
  }

  function ServerFinished(p: Primitives, s: Session, finished: Bytes): Bytes
    requires s.version == SSL30 || s.version == TLS10
  {
    Message(FINISHED, FinishedVerify(p, s.version, s.master, s.transcript + finished, false))
  }

  // ----- what holds between any two steps -----

  /** Everything consumed is accounted for, and the input cipher is what the records read make of the
      negotiated client cipher. */
  ghost predicate Heard(p: Primitives, h: History, consumed: Bytes, input: Cipher)
  {
    && consumed == Arrived(h.prelude) + Arrived(h.secured)
    && input == (match h.session case None => INACTIVE case Some(s) => Listen(p, s.Input(p), h.secured))
    && (h.session.None? ==> h.secured == [])
  }

  /** Everything sent is accounted for, and the output cipher is what the records written make of the
      negotiated server cipher. */
  ghost predicate Sent(p: Primitives, h: History, version: nat, sent: Bytes, output: Cipher)
  {
    && AllFit(INACTIVE, h.opening)
    && match h.session
       case None => sent == Uttered(p, version, INACTIVE, h.opening) && h.sealed == [] && output == INACTIVE
       case Some(s) =>
         AllFit(s.Output(p), h.sealed)
         && sent == Uttered(p, version, INACTIVE, h.opening) + Uttered(p, version, s.Output(p), h.sealed)
         && (output.active || h.sealed != [] ==> output == Speak(s.Output(p), h.sealed) && |h.opening| == 2)
         && (!output.active ==> output == INACTIVE)
  }

  /** The order of things: flight, key exchange and ciphers, the verified client Finished, only then
      ChangeCipherSpec, the server Finished, and only then application data in fragments. */
  ghost predicate Ordered(p: Primitives, config: Option<Config>, entropy: Option<Bytes>, version: nat, h: History)
  {
    && |h.opening| <= 2
    && (h.opening != [] ==> AnswersHello(config, entropy, h.prelude, version, h.opening[0]))
    && (h.session.Some? ==>
          Derived(p, config, entropy, h.prelude, h.session.value) && version == h.session.value.version
          && h.opening != [] && Complete(INACTIVE, h.opening[0]))
    && (h.finished.Some? ==> h.session.Some? && Verified(p, h.session.value, h.secured, h.finished.value))
    && (|h.opening| == 2 ==> h.finished.Some? && h.opening[1].typ == CHANGE_CIPHER_SPEC && h.opening[1].plain == [1])
    && (h.sealed != [] ==>
          |h.opening| == 2 && Complete(INACTIVE, h.opening[1])
          && h.sealed[0].typ == HANDSHAKE && h.sealed[0].plain == ServerFinished(p, h.session.value, h.finished.value))
    && (|h.sealed| > 1 ==> Complete(h.session.value.Output(p), h.sealed[0]))
    && OnlyFragments(h.sealed)
  }

  ghost predicate OnlyFragments(es: seq<Emission>)
  {
    forall i :: 1 <= i < |es| ==> es[i].typ == APPLICATION_DATA && 1 <= |es[i].plain| <= MAX_FRAGMENT
  }

  /** A new connection has no history. */
  lemma NothingYet(p: Primitives, config: Option<Config>, entropy: Option<Bytes>, version: nat)
    ensures Heard(p, NOTHING, [], INACTIVE) && Sent(p, NOTHING, version, [], INACTIVE) && Ordered(p, config, entropy, version, NOTHING)
  {
    hide Derived; hide Verified; hide AnswersHello;
  }

  /** Reading on changes nothing of what is required. */
  lemma LoggedOrdered(p: Primitives, config: Option<Config>, entropy: Option<Bytes>, version: nat, h: History, x: Inbound)
    requires Ordered(p, config, entropy, version, h)
    ensures Ordered(p, config, entropy, version, h.Logged(x))
  {
    hide AcceptsHello; hide FinishedVerify; hide Flight; hide HelloMessage; hide HelloVersion; hide HelloChoice;
    hide Open;
  }

  lemma RecordLength(version: nat, typ: byte, data: Bytes)
    ensures |Record(version, typ, data)| == 5 + |data|
  {
  }

  /** Installing a session changes nothing of what has been sent, whichever cipher is to be used next. */
  lemma InstalledSent(p: Primitives, h: History, version: nat, sent: Bytes, s: Session)
    requires Sent(p, h.(session := None), version, sent, INACTIVE) || Sent(p, h, version, sent, INACTIVE)
    requires h.session == Some(s) && h.sealed == []
    ensures Sent(p, h, version, sent, INACTIVE) && (|h.opening| == 2 ==> Sent(p, h, version, sent, s.Output(p)))
  {
    assert Uttered(p, version, s.Output(p), h.sealed) == [];
    assert sent == Uttered(p, version, INACTIVE, h.opening) + [];
  }

  /** The client Finished is no application data. */
  lemma NothingOpened(p: Primitives, s: Session, secured: seq<Inbound>, finished: Bytes)
    requires Verified(p, s, secured, finished) && |secured| == 1
    ensures Plaintext(p, s.Input(p), secured) == []
  {
    hide Open;
    assert secured[..0] == [];
  }

  /** The flight is the first thing sent. */
  lemma OrderedFlight(p: Primitives, config: Option<Config>, entropy: Option<Bytes>, version: nat, h: History, e: Emission)
    requires h == NOTHING.(prelude := h.prelude) && AnswersHello(config, entropy, h.prelude, version, e)
    ensures Ordered(p, config, entropy, version, h.(opening := [e]))
  {
    hide AnswersHello;
  }

  lemma OrderedChange(p: Primitives, config: Option<Config>, entropy: Option<Bytes>, version: nat, h: History, e: Emission)
    requires Ordered(p, config, entropy, version, h) && h.finished.Some? && |h.opening| == 1 && h.sealed == []
    requires e.typ == CHANGE_CIPHER_SPEC && e.plain == [1]
    ensures Ordered(p, config, entropy, version, h.(opening := h.opening + [e]))
  {
    hide Derived; hide Verified; hide AnswersHello;
  }

  lemma OrderedFinished(p: Primitives, config: Option<Config>, entropy: Option<Bytes>, version: nat, h: History, e: Emission)
    requires Ordered(p, config, entropy, version, h) && |h.opening| == 2 && Complete(INACTIVE, h.opening[1]) && h.sealed == []
    requires e.typ == HANDSHAKE && e.plain == ServerFinished(p, h.session.value, h.finished.value)
    ensures Ordered(p, config, entropy, version, h.(sealed := [e]))
  {
    hide Derived; hide Verified; hide AnswersHello; hide ServerFinished;
  }

  lemma OrderedFragment(p: Primitives, config: Option<Config>, entropy: Option<Bytes>, version: nat, h: History, e: Emission)
    requires Ordered(p, config, entropy, version, h) && h.sealed != [] && Complete(h.session.value.Output(p), h.sealed[0])
    requires e.typ == APPLICATION_DATA && 1 <= |e.plain| <= MAX_FRAGMENT
    ensures Ordered(p, config, entropy, version, h.(sealed := h.sealed + [e]))
  {
    hide Derived; hide Verified; hide AnswersHello; hide ServerFinished;
  }

  lemma FinishedSaysNothing(p: Primitives, config: Option<Config>, entropy: Option<Bytes>, version: nat, h: History)
    requires Ordered(p, config, entropy, version, h) && |h.sealed| <= 1
    ensures Said(h.sealed) == []
  {
    hide Derived; hide Verified; hide AnswersHello;
    if h.sealed != [] {
      assert h.sealed == [] + [h.sealed[0]];
      SaidStep([], h.sealed[0]);
    }
  }

  /** As long as nothing has been written the version may still change. */
  lemma VersionFree(p: Primitives, config: Option<Config>, entropy: Option<Bytes>, v: nat, v': nat, h: History, sent: Bytes)
    requires Sent(p, h, v, sent, INACTIVE) && Ordered(p, config, entropy, v, h) && h.opening == [] && h.session.None?
    ensures Sent(p, h, v', sent, INACTIVE) && Ordered(p, config, entropy, v', h)
  {
  }

  /** Writing changes nothing of what has been heard. */
  lemma WritingHeard(p: Primitives, h: History, consumed: Bytes, input: Cipher, opening: seq<Emission>, sealed: seq<Emission>)
    requires Heard(p, h, consumed, input)
    ensures Heard(p, h.(opening := opening, sealed := sealed), consumed, input)
  {
  }

  lemma LoggedSent(p: Primitives, h: History, version: nat, sent: Bytes, output: Cipher, x: Inbound)
    requires Sent(p, h, version, sent, output)
    ensures Sent(p, h.Logged(x), version, sent, output)
  {
  }

  lemma HearPlain(p: Primitives, x: Inbound)
    ensures Hear(p, INACTIVE, x) == INACTIVE
  {
  }

  lemma LoggedHeard(p: Primitives, h: History, consumed: Bytes, input: Cipher, x: Inbound)
    requires Heard(p, h, consumed, input)
    ensures Heard(p, h.Logged(x), consumed + x.Raw(), Hear(p, input, x))
  {
    hide Hear; hide Listen; hide Arrived; hide Record;
    if h.session.None? {
      LoggedPrelude(p, h, consumed, x);
    } else {
      ListenStep(p, h.session.value.Input(p), h.secured, x);
      Regroup(Arrived(h.prelude), Arrived(h.secured), x.Raw());
    }
  }

  lemma LoggedPrelude(p: Primitives, h: History, consumed: Bytes, x: Inbound)
    requires Heard(p, h, consumed, INACTIVE) && h.session.None?
    ensures Heard(p, h.(prelude := h.prelude + [x]), consumed + x.Raw(), Hear(p, INACTIVE, x))
  {
    hide Hear; hide Listen; hide Record;
    HearPlain(p, x);
    ListenStep(p, INACTIVE, h.prelude, x);
    assert Arrived([]) == [] && consumed == Arrived(h.prelude);
  }

  /** The ciphers are installed with nothing read under them yet. */
  lemma InstalledHeard(p: Primitives, h: History, consumed: Bytes, s: Session)
    requires Heard(p, h, consumed, INACTIVE) && h.session.None?
    ensures Heard(p, h.(session := Some(s)), consumed, s.Input(p))
  {
  }

  lemma PartPlain(p: Primitives, version: nat, e: Emission)
    requires Fits(INACTIVE, e)
    ensures Part(p, version, INACTIVE, e) == Record(version, e.typ, e.plain)[..e.taken]
  {
  }

  /** An unprotected record is added. */
  lemma OpeningSent(p: Primitives, h: History, version: nat, sent: Bytes, e: Emission)
    requires Sent(p, h, version, sent, INACTIVE) && Fits(INACTIVE, e) && h.sealed == []
    ensures e.taken <= |Record(version, e.typ, e.plain)|
    ensures Sent(p, h.(opening := h.opening + [e]), version, sent + Record(version, e.typ, e.plain)[..e.taken], INACTIVE)
  {
    RecordLength(version, e.typ, e.plain);
    PartPlain(p, version, e);
    UtterStep(p, version, INACTIVE, h.opening, e);
    SpeakKeepsSize(INACTIVE, h.opening);
    if h.session.Some? {
      assert Uttered(p, version, h.session.value.Output(p), h.sealed) == [];
    }
    hide Part; hide Uttered; hide Speak; hide Record; hide AllFit;
    assert sent == Uttered(p, version, INACTIVE, h.opening);
  }

  /** A record under the server's ciphers is added; `output` moves on even if the stream took only a part. */
  lemma SealedSent(p: Primitives, h: History, version: nat, sent: Bytes, output: Cipher, e: Emission)
    requires Sent(p, h, version, sent, output) && output.active && h.session.Some? && Fits(h.session.value.Output(p), e)
    ensures Fits(output, e)
    ensures Sent(p, h.(sealed := h.sealed + [e]), version, sent + Part(p, version, output, e), After(output, |e.plain|))
  {
    hide Part; hide Uttered; hide Speak; hide After;
    var c := h.session.value.Output(p);
    SpeakKeepsSize(c, h.sealed);
    UtterStep(p, version, c, h.sealed, e);
    Regroup(Uttered(p, version, INACTIVE, h.opening), Uttered(p, version, c, h.sealed), Part(p, version, output, e));
    AfterActive(output, |e.plain|);
  }

  lemma AfterActive(c: Cipher, n: nat)
    ensures After(c, n).active == c.active
  {
  }
}
