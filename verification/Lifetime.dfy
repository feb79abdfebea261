/** A whole life of a server connection: any calls in any order, on any stream. */
module Lifetime {
  import opened Bytes
  import opened Crypto
  import opened KeyDerivation
  import opened HandshakeMessages
  import opened Wrappers
  import opened RecordLayer
  import opened HandshakeProtocol
  import opened Channel
  import opened History
  import opened Stream
  import opened Connection
  import Standard

  datatype Call = Handshakes | Reads(size: nat) | Writes(data: Bytes)

  datatype Answer = Shook(error: Option<HandshakeError>) | ReadGot(read: ReadResult) | WriteGot(write: WriteResult)

  /** The bytes a Read has returned. */
  function Got(answer: Answer): Bytes { match answer case ReadGot(Connected(Data(bytes))) => bytes case _ => [] }

  /** The bytes a Write has given to the cipher. */
  function Gave(call: Call, answer: Answer): Bytes { match (call, answer) case (Writes(data), WriteGot(r)) => Handed(data, r) case _ => [] }

  function Returned(answers: seq<Answer>): Bytes
  {
    if answers == [] then [] else Returned(answers[..|answers| - 1]) + Got(answers[|answers| - 1])
  }

  function AllHanded(calls: seq<Call>, answers: seq<Answer>): Bytes
    requires |calls| == |answers|
  {
    if calls == [] then []
    else AllHanded(calls[..|calls| - 1], answers[..|calls| - 1]) + Gave(calls[|calls| - 1], answers[|calls| - 1])
  }

  lemma AnswersStep(calls: seq<Call>, answers: seq<Answer>, i: nat, answer: Answer)
    requires i == |answers| < |calls|
    ensures Returned(answers + [answer]) == Returned(answers) + Got(answer)
    ensures AllHanded(calls[..i + 1], answers + [answer]) == AllHanded(calls[..i], answers) + Gave(calls[i], answer)
  {
    hide Got; hide Gave;
    assert (answers + [answer])[..i] == answers && calls[..i + 1][..i] == calls[..i];
  }

  /** No record of application data among what was sent in the clear. */
  ghost predicate ClearOfApplication(es: seq<Emission>) { forall i :: 0 <= i < |es| ==> es[i].typ != APPLICATION_DATA }

  /** The first record under the client's keys is its Finished, and right for the whole transcript. What was
      returned is a prefix of what the records read protect, each under its number and at its place in the
      keystream. */
  ghost predicate ReadUnder(p: Primitives, client: Standard.Writer, s: Session, secured: seq<Inbound>, finished: Bytes, returned: Bytes)
  {
    secured != [] && secured[0].Carries(22) && secured[0].body == Standard.Protect(p, client, 0, 0, 22, finished)
    && finished == Message(20, Standard.VerifyData(p, s.version, s.master, s.transcript, true))
    && exists plains :: Genuine(p, client, secured, plains) && returned <= Application(secured, plains)
  }

  /** What is on the stream is the flight, the ChangeCipherSpec, the server's Finished and the protected
      records that carry, in fragments, what was handed over. */
  ghost predicate WrittenUnder(p: Primitives, server: Standard.Writer, s: Session, flight: Bytes, sealed: seq<Emission>, finished: Bytes,
                               sent: Bytes, handed: Bytes)
  {
    && sent == Record(s.version, 22, flight) + Record(s.version, 20, [1]) + OnStream(p, server, sealed)
    && sealed != [] && sealed[0].typ == 22 && Complete(Writing(server, 0, 0), sealed[0])
    && sealed[0].plain == Message(20, Standard.VerifyData(p, s.version, s.master, s.transcript + finished, false))
    && OnlyFragments(sealed) && handed == Said(sealed)
  }

  /** Everything read and written by the application went under the write keys that the standards give both
      ends of a session, one that came out of the client's own messages. */
  ghost predicate Shielded(p: Primitives, config: Option<Config>, entropy: Option<Bytes>, h: History,
                           consumed: Bytes, sent: Bytes, returned: Bytes, handed: Bytes)
  {
    h.session.Some? && h.finished.Some? && |h.opening| == 2
    && var s := h.session.value;
       var (client, server) := Standard.Writers(p, s.version, s.suite, s.master, s.clientRandom, s.serverRandom);
       Derived(p, config, entropy, h.prelude, s) && AnswersHello(config, entropy, h.prelude, s.version, h.opening[0])
       && consumed == Arrived(h.prelude) + Arrived(h.secured)
       && ReadUnder(p, client, s, h.secured, h.finished.value, returned)
       && WrittenUnder(p, server, s, h.opening[0].plain, h.sealed, h.finished.value, sent, handed)
  }

  lemma FinishedShields(p: Primitives, s: Session, client: Standard.Writer, secured: seq<Inbound>, finished: Bytes)
    requires s.Input(p) == Writing(client, 0, 0) && Verified(p, s, secured, finished)
    ensures secured[0].Carries(22) && secured[0].body == Standard.Protect(p, client, 0, 0, 22, finished)
    ensures finished == Message(20, Standard.VerifyData(p, s.version, s.master, s.transcript, true))
    ensures ServerFinished(p, s, finished) == Message(20, Standard.VerifyData(p, s.version, s.master, s.transcript + finished, false))
  {
    FinishedIsStandard(p, s.version, s.master, s.transcript, true);
    FinishedIsStandard(p, s.version, s.master, s.transcript + finished, false);
    OpenedIsSealed(p, s.Input(p), HANDSHAKE, secured[0].body);
    FirstSealed(p, client, HANDSHAKE, finished);
    U24OfMessage(finished);
    hide FinishedVerify; hide Standard.VerifyData; hide Open; hide Seal; hide Message; hide Standard.Protect;
  }

  lemma ReadingShields(p: Primitives, client: Standard.Writer, s: Session, secured: seq<Inbound>, finished: Bytes, returned: Bytes)
    requires s.Input(p) == Writing(client, 0, 0) && Verified(p, s, secured, finished) && returned <= Plaintext(p, s.Input(p), secured)
    ensures ReadUnder(p, client, s, secured, finished, returned)
  {
    FinishedShields(p, s, client, secured, finished);
    OpeningsGenuine(p, client, secured);
    PlaintextIsApplication(p, Writing(client, 0, 0), secured);
    assert secured != [];
    hide Genuine; hide Application; hide Plaintext; hide Openings; hide Writing; hide Verified; hide Message; hide Standard.Protect;
    hide Standard.VerifyData;
    assert Genuine(p, client, secured, Openings(p, Writing(client, 0, 0), secured));
  }

  lemma WritingShields(p: Primitives, server: Standard.Writer, s: Session, opening: seq<Emission>, sealed: seq<Emission>,
                       finished: Bytes, sent: Bytes)
    requires s.Output(p) == Writing(server, 0, 0) && server.version == s.version && (s.version == SSL30 || s.version == TLS10)
    requires |opening| == 2 && AllFit(INACTIVE, opening) && Complete(INACTIVE, opening[0]) && Complete(INACTIVE, opening[1])
    requires opening[0].typ == HANDSHAKE && opening[1].typ == CHANGE_CIPHER_SPEC && opening[1].plain == [1]
    requires AllFit(s.Output(p), sealed) && sealed != [] && sealed[0].typ == HANDSHAKE && Complete(s.Output(p), sealed[0])
    requires sealed[0].plain == ServerFinished(p, s, finished) && OnlyFragments(sealed)
    requires sent == Uttered(p, s.version, INACTIVE, opening) + Uttered(p, s.version, s.Output(p), sealed)
    ensures WrittenUnder(p, server, s, opening[0].plain, sealed, finished, sent, Said(sealed))
  {
    FinishedIsStandard(p, s.version, s.master, s.transcript + finished, false);
    OpeningShields(p, s.version, opening);
    UtteredIsStandard(p, server, sealed);
    hide Uttered; hide OnStream; hide Said; hide OnlyFragments; hide AllFit; hide Record; hide Message; hide Complete; hide Writing;
    hide FinishedVerify; hide Standard.VerifyData; hide Session.Output;
  }

  lemma ClearStep(p: Primitives, version: nat, before: seq<Emission>, e: Emission)
    requires AllFit(INACTIVE, before) && Complete(INACTIVE, e)
    ensures AllFit(INACTIVE, before + [e])
    ensures Uttered(p, version, INACTIVE, before + [e]) == Uttered(p, version, INACTIVE, before) + Record(version, e.typ, e.plain)
  {
    SpeakKeepsSize(INACTIVE, before);
    UtterStep(p, version, INACTIVE, before, e);
    PartPlain(p, version, e);
    RecordLength(version, e.typ, e.plain);
    hide Record; hide Part; hide Speak; hide Uttered;
  }

  lemma NothingUttered(p: Primitives, version: nat)
    ensures AllFit(INACTIVE, []) && Uttered(p, version, INACTIVE, []) == []
  {
  }

  /** The two complete records sent in the clear. */
  lemma OpeningShields(p: Primitives, version: nat, opening: seq<Emission>)
    requires |opening| == 2 && AllFit(INACTIVE, opening) && Complete(INACTIVE, opening[0]) && Complete(INACTIVE, opening[1])
    ensures Uttered(p, version, INACTIVE, opening)
            == Record(version, opening[0].typ, opening[0].plain) + Record(version, opening[1].typ, opening[1].plain)
  {
    NothingUttered(p, version);
    hide Uttered; hide Record; hide AllFit; hide Complete;
    ClearStep(p, version, [], opening[0]);
    assert [] + [opening[0]] == [opening[0]] && [opening[0]] + [opening[1]] == opening;
    ClearStep(p, version, [opening[0]], opening[1]);
  }

  /** A connection that was never established, or broke in its handshake, has sent nothing but the records
      of a handshake, in their order and no further than the client's messages allow. */
  ghost predicate Unused(p: Primitives, config: Option<Config>, entropy: Option<Bytes>, h: History, version: nat, consumed: Bytes, sent: Bytes)
  {
    Ordered(p, config, entropy, version, h) && |h.sealed| <= 1
    && consumed == Arrived(h.prelude) + Arrived(h.secured)
    && AllFit(INACTIVE, h.opening) && ClearOfApplication(h.opening) && ClearOfApplication(h.sealed)
    && match h.session
       case None => sent == Uttered(p, version, INACTIVE, h.opening)
       case Some(s) => AllFit(s.Output(p), h.sealed)
                       && sent == Uttered(p, version, INACTIVE, h.opening) + Uttered(p, version, s.Output(p), h.sealed)
  }

  /** What a connection's own account of itself says in the standards' terms. */
  lemma AccountShields(p: Primitives, config: Option<Config>, entropy: Option<Bytes>, h: History, version: nat, consumed: Bytes,
                       input: Cipher, sent: Bytes, output: Cipher, returned: Bytes)
    requires Heard(p, h, consumed, input) && Sent(p, h, version, sent, output) && Ordered(p, config, entropy, version, h)
    requires h.session.Some? && h.finished.Some? && h.sealed != [] && output.active
    requires Complete(h.session.value.Output(p), h.sealed[0]) && returned <= Plaintext(p, h.session.value.Input(p), h.secured)
    ensures Shielded(p, config, entropy, h, consumed, sent, returned, Said(h.sealed))
  {
    var s := h.session.value;
    var (client, server) := Standard.Writers(p, s.version, s.suite, s.master, s.clientRandom, s.serverRandom);
    CiphersAreStandard(p, s.version, s.suite, s.master, s.clientRandom, s.serverRandom);
    assert server.version == s.version;
    hide Standard.Writers; hide Derived; hide Plaintext; hide ServerFinished; hide Arrived; hide Uttered; hide ReadUnder; hide WrittenUnder;
    hide Said; hide Listen; hide Speak; hide OnlyFragments; hide AllFit; hide Flight; hide HelloMessage; hide HelloVersion; hide HelloChoice;
    hide Open; hide FinishedVerify; hide Writing; hide Complete;
    ReadingShields(p, client, s, h.secured, h.finished.value, returned);
    WritingShields(p, server, s, h.opening, h.sealed, h.finished.value, sent);
  }

  lemma ValidShields(conn: Conn)
    requires conn.Valid() && conn.status.Established?
    ensures Shielded(conn.p, conn.config, conn.entropy, conn.history, conn.net.consumed, conn.net.sent,
                     conn.delivered, Said(conn.history.sealed))
  {
    hide Heard; hide Sent; hide Ordered; hide Plaintext; hide Shielded; hide Said;
    AccountShields(conn.p, conn.config, conn.entropy, conn.history, conn.version, conn.net.consumed, conn.input, conn.net.sent,
                   conn.output, conn.delivered);
  }

  lemma AccountUnused(p: Primitives, config: Option<Config>, entropy: Option<Bytes>, h: History, version: nat, consumed: Bytes,
                      input: Cipher, sent: Bytes, output: Cipher)
    requires Heard(p, h, consumed, input) && Sent(p, h, version, sent, output) && Ordered(p, config, entropy, version, h) && |h.sealed| <= 1
    ensures Unused(p, config, entropy, h, version, consumed, sent) && Said(h.sealed) == []
  {
    hide Derived; hide Verified; hide ServerFinished; hide AnswersHello; hide Arrived; hide Uttered; hide Said; hide Listen; hide Speak;
    hide AllFit; hide Fits;
    FinishedSaysNothing(p, config, entropy, version, h);
    if h.opening != [] {
      AnswerInHandshake(config, entropy, h.prelude, version, h.opening[0]);
    }
  }

  lemma AnswerInHandshake(config: Option<Config>, entropy: Option<Bytes>, prelude: seq<Inbound>, version: nat, e: Emission)
    requires AnswersHello(config, entropy, prelude, version, e)
    ensures e.typ == HANDSHAKE
  {
    hide HelloMessage; hide HelloVersion; hide HelloChoice; hide Flight;
  }

  lemma ValidUnused(conn: Conn)
    requires conn.Valid() && !conn.status.Established?
    ensures Unused(conn.p, conn.config, conn.entropy, conn.history, conn.version, conn.net.consumed, conn.net.sent)
    ensures conn.delivered == [] && Said(conn.history.sealed) == []
  {
    hide Heard; hide Sent; hide Ordered; hide Plaintext; hide Unused; hide Said;
    AccountUnused(conn.p, conn.config, conn.entropy, conn.history, conn.version, conn.net.consumed, conn.input, conn.net.sent, conn.output);
  }

  /** One call. */
  method Serve(conn: Conn, call: Call) returns (answer: Answer)
    requires conn.Valid()
    modifies conn, conn.net
    ensures conn.Valid() && old(conn.history).ExtendedBy(conn.history) && (old(conn.status).Established? ==> conn.status.Established?)
    ensures conn.delivered == old(conn.delivered) + Got(answer)
    ensures Said(conn.history.sealed) == old(Said(conn.history.sealed)) + Gave(call, answer)
  {
    hide Said; hide ReadStep; hide WriteStep; hide HandshakeProtocol.Handshake; hide Conn.Valid; hide Handed;
    match call
    case Handshakes =>
      var err := conn.Handshake();
      answer := Shook(err);
    case Reads(size) =>
      var r := conn.Read(size);
      answer := ReadGot(r);
    case Writes(data) =>
      var r := conn.Write(data);
      answer := WriteGot(r);
  }

  method ServeAll(conn: Conn, calls: seq<Call>) returns (answers: seq<Answer>)
    requires conn.Valid()
    modifies conn, conn.net
    ensures conn.Valid() && |answers| == |calls|
    ensures conn.delivered == old(conn.delivered) + Returned(answers)
    ensures Said(conn.history.sealed) == old(Said(conn.history.sealed)) + AllHanded(calls, answers)
  {
    hide Said; hide Got; hide Gave; hide Conn.Valid;
    answers := [];
    for i := 0 to |calls|
      invariant conn.Valid() && |answers| == i
      invariant conn.delivered == old(conn.delivered) + Returned(answers)
      invariant Said(conn.history.sealed) == old(Said(conn.history.sealed)) + AllHanded(calls[..i], answers)
    {
      hide Returned; hide AllHanded;
      var answer := Serve(conn, calls[i]);
      AnswersStep(calls, answers, i, answer);
      Regroup(old(conn.delivered), Returned(answers), Got(answer));
      Regroup(old(Said(conn.history.sealed)), AllHanded(calls[..i], answers), Gave(calls[i], answer));
      answers := answers + [answer];
    }
    assert calls[..|calls|] == calls;
  }

  /** No application data outside the ciphers, over every run of Handshake, Read and Write, failed
      handshakes, refused records and failed writes included. */
  method Live(p: Primitives, config: Option<Config>, entropy: Option<Bytes>, net: NetConn, calls: seq<Call>)
    returns (conn: Conn, answers: seq<Answer>)
    requires net.sent == net.consumed == []
    modifies net
    ensures fresh(conn) && conn.Valid() && |answers| == |calls|
    ensures conn.status.Established? ==>
              Shielded(p, config, entropy, conn.history, net.consumed, net.sent, Returned(answers), AllHanded(calls, answers))
    ensures !conn.status.Established? ==>
              Unused(p, config, entropy, conn.history, conn.version, net.consumed, net.sent) && Returned(answers) == [] && AllHanded(calls, answers) == []
  {
    hide Returned; hide AllHanded; hide Shielded; hide Unused;
    conn := new Conn(p, config, entropy, net);
    assert conn.delivered == [] && Said(conn.history.sealed) == [];
    hide Said; hide Conn.Valid;
    answers := ServeAll(conn, calls);
    assert conn.delivered == Returned(answers) && Said(conn.history.sealed) == AllHanded(calls, answers);
    if conn.status.Established? {
      ValidShields(conn);
    } else {
      ValidUnused(conn);
    }
  }

  /** A connection is established with every honest client that is understood, unless a write fails; both
      ends then hold the same ciphers. */
  method Meet(p: Primitives, certs: seq<Bytes>, decrypt: Bytes -> Option<Bytes>, serverRandom: Bytes, c: Client, reply: Reply,
              later: Bytes, net: NetConn)
    returns (conn: Conn)
    requires c.Honest(decrypt) && c.Understood(decrypt) && certs != [] && |serverRandom| == 32
    requires |Flight(c.hello.version, serverRandom, Choice(c.hello.suites), certs)| < 0x1_0000
    requires Respond(p, c, Flight(c.hello.version, serverRandom, Choice(c.hello.suites), certs)) == Some(reply)
    requires net.sent == net.consumed == [] && net.incoming == c.FirstRecord() + (reply.bytes + later)
    modifies net
    ensures fresh(conn) && conn.Valid()
    ensures conn.failed || (conn.status.Established? && net.incoming == later && conn.readBuf == []
                            && Met(p, conn.View(), c.hello.version, reply))
  {
    HandshakeAgreement(p, certs, decrypt, serverRandom, c, later);
    hide HandshakeProtocol.Handshake; hide Respond; hide Flight; hide Agreed; hide Conclude; hide TakeFlight; hide ReadsFlight;
    hide Conn.Valid; hide Record; hide Client.Honest;
    conn := new Conn(p, Some(Config(certs, Some(decrypt))), Some(serverRandom), net);
    var err := conn.Handshake();
  }

  /** The client that sent `reply` accepts what `server` has sent, and both ends agree. */
  predicate Met(p: Primitives, server: ConnState, version: nat, reply: Reply)
  {
    var taken := TakeFlight(version, server.sent);
    (version == SSL30 || version == TLS10) && taken.Some?
    && var client := Conclude(p, version, reply, taken.value.1);
       client.Some? && client.value.wire == [] && Agreed(server, client.value, reply.output)
  }
}
