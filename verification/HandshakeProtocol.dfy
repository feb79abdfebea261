/** The legacy handshake as a function of what the server reads, and its agreement with an honest
    client that works from the bytes it receives and the standards' definitions. */
module HandshakeProtocol {
  import opened Bytes
  import opened Crypto
  import opened KeyDerivation
  import opened HandshakeMessages
  import opened Wrappers
  import opened RecordLayer
  import Standard

  // ----- connection state -----

  /** `reader.version` is the connection's version; `sent` is everything written to the stream. */
  datatype ConnState = ConnState(reader: Reader, output: Cipher, readBuf: Bytes, sent: Bytes)

  datatype Config = Config(certificate: seq<Bytes>, privateKey: Option<Bytes -> Option<Bytes>>)

  datatype HandshakeError =
    | NoCertificate
    | RecordFailed(record: RecordError)
    | ExpectedClientHello
    | HelloRejected(hello: HelloError)
    | NoRandomness
    | ExpectedClientKeyExchange
    | MalformedClientKeyExchange
    | PremasterDecryptionFailed
    | ExpectedChangeCipherSpec
    | ExpectedFinished
    | MalformedFinished
    | FinishedMismatch
    | WriteFailed

  /** The result of one phase: carry on with a value, or stop the handshake. */
  datatype Phase<+T> = Go(value: T) | Stop(error: HandshakeError)

  function Fresh(wire: Bytes): ConnState
  {
    ConnState(Reader(TLS10, true, INACTIVE, wire), INACTIVE, [], [])
  }

  function Put(s: ConnState, typ: byte, data: Bytes): ConnState
  {
    s.(sent := s.sent + Record(s.reader.version, typ, data))
  }

  // ----- keys -----

  datatype Keys = Keys(clientMac: Bytes, serverMac: Bytes, clientKey: Bytes, serverKey: Bytes, hash: HashKind)

  function SuiteHash(suite: nat): HashKind { if suite == RC4_MD5 then MD5 else SHA1 }

  lemma Quarters(block: Bytes, n: nat)
    requires |block| == 2 * n + 32
    ensures block[..n] + block[n..2 * n] + block[2 * n..2 * n + 16] + block[2 * n + 16..] == block
  {
  }

  /** RFC 2246 section 6.3 / RFC 6101 section 6.2.2: both MAC keys, then both cipher keys. */
  function DeriveKeys(p: Primitives, version: nat, suite: nat, master: Bytes, clientRandom: Bytes, serverRandom: Bytes): (k: Keys)
    ensures |k.clientMac| == |k.serverMac| == k.hash.Size() && |k.clientKey| == |k.serverKey| == 16
    ensures k.clientMac + k.serverMac + k.clientKey + k.serverKey
            == ExpandKeys(p, version, master, clientRandom, serverRandom, 2 * k.hash.Size() + 32)
  {
    var macLen := SuiteHash(suite).Size();
    var keyBlock := ExpandKeys(p, version, master, clientRandom, serverRandom, 2 * macLen + 32);
    Quarters(keyBlock, macLen);
    Keys(keyBlock[..macLen], keyBlock[macLen..2 * macLen], keyBlock[2 * macLen..2 * macLen + 16],
         keyBlock[2 * macLen + 16..], SuiteHash(suite))
  }

  // ----- the server's phases -----

  datatype Greeting = Greeting(message: Bytes, version: nat, random: Bytes, suite: nat)

  /** The ClientHello of a record payload, and the version the connection has from then on. */
  function TakeHello(data: Bytes, version: nat): (r: (Phase<Greeting>, nat))
    ensures r.0.Go? ==> (r.0.value.version == SSL30 || r.0.value.version == TLS10) && r.1 == r.0.value.version
  {
    match HelloMessage(data)
    case Reject(why) => (Stop(HelloRejected(why)), version)
    case Accept(ch) =>
      var body := ch[4..];
      match HelloVersion(body)
      case Reject(why) => (Stop(HelloRejected(why)), version)
      case Accept(clientVersion) =>
        match HelloChoice(body)
        case Reject(why) => (Stop(HelloRejected(why)), clientVersion)
        case Accept(suite) => (Go(Greeting(ch, clientVersion, body[2..34], suite)), clientVersion)
  }

  /** A supported version becomes the connection's even when the suites are refused after it; no other does. */
  lemma VersionTaken(data: Bytes, version: nat)
    ensures TakeHello(data, version).1
            == if IsMessage(data) && data[0] == 1 && |data| >= 39 && data[4] == 3 && data[5] <= 1 then ReadU16(data, 4) else version
  {
    HelloRefusals(data);
    hide OneMessage; hide HelloChoice; hide IsMessage;
  }

  function HelloPhase(p: Primitives, s: ConnState): (r: (Phase<Greeting>, ConnState))
    ensures r.0.Go? ==> (r.0.value.version == SSL30 || r.0.value.version == TLS10) && r.1.reader.version == r.0.value.version
  {
    var (got, reader) := ReadRecord(p, s.reader);
    if got.Failed? then (Stop(RecordFailed(got.why)), s.(reader := reader))
    else if got.typ != HANDSHAKE then (Stop(ExpectedClientHello), s.(reader := reader))
    else
      var (greeting, version) := TakeHello(got.data, reader.version);
      (greeting, s.(reader := reader.(version := version)))
  }

  /** The ClientKeyExchange message and the premaster secret inside it. */
  function KeyExchangePhase(p: Primitives, decrypt: Bytes -> Option<Bytes>, s: ConnState): (r: (Phase<(Bytes, Bytes)>, ConnState))
    ensures r.0.Go? ==> |r.0.value.1| == 48
    ensures r.1.reader.version == s.reader.version && r.1 == s.(reader := r.1.reader)
  {
    var (got, reader) := ReadRecord(p, s.reader);
    var s' := s.(reader := reader);
    if got.Failed? then (Stop(RecordFailed(got.why)), s')
    else if got.typ != HANDSHAKE then (Stop(ExpectedClientKeyExchange), s')
    else
      match OneMessage(got.data, CLIENT_KEY_EXCHANGE)
      case None => (Stop(MalformedClientKeyExchange), s')
      case Some(ckx) =>
        match decrypt(KeyExchangePayload(ckx))
        case None => (Stop(PremasterDecryptionFailed), s')
        case Some(premaster) =>
          if |premaster| != 48 then (Stop(PremasterDecryptionFailed), s') else (Go((ckx, premaster)), s')
  }

  /** ChangeCipherSpec, and with it the client's cipher. */
  function CipherPhase(p: Primitives, cipher: Cipher, s: ConnState): (r: (Phase<()>, ConnState))
    ensures r.1.reader.version == s.reader.version && r.1 == s.(reader := r.1.reader)
    ensures r.0.Go? ==> r.1.reader.cipher == cipher
  {
    var (got, reader) := ReadRecord(p, s.reader);
    if got.Failed? then (Stop(RecordFailed(got.why)), s.(reader := reader))
    else if got.typ != CHANGE_CIPHER_SPEC || got.data != [1] then (Stop(ExpectedChangeCipherSpec), s.(reader := reader))
    else (Go(()), s.(reader := reader.(cipher := cipher)))
  }

  /** The client's encrypted Finished; its verified message. */
  function FinishedPhase(p: Primitives, master: Bytes, transcript: Bytes, s: ConnState): (r: (Phase<Bytes>, ConnState))
    requires s.reader.version == SSL30 || s.reader.version == TLS10
    ensures r.1.reader.version == s.reader.version && r.1 == s.(reader := r.1.reader)
    ensures r.0.Go? ==> |r.0.value| >= 4 && r.0.value[0] == FINISHED
                        && r.0.value[4..] == FinishedVerify(p, s.reader.version, master, transcript, true)
  {
    var (got, reader) := ReadRecord(p, s.reader);
    var s' := s.(reader := reader);
    if got.Failed? then (Stop(RecordFailed(got.why)), s')
    else if got.typ != HANDSHAKE then (Stop(ExpectedFinished), s')
    else
      match OneMessage(got.data, FINISHED)
      case None => (Stop(MalformedFinished), s')
      case Some(finished) =>
        if |finished| != 4 + FinishedLength(s.reader.version) then (Stop(MalformedFinished), s')
        else if finished[4..] != FinishedVerify(p, s.reader.version, master, transcript, true) then (Stop(FinishedMismatch), s')
        else (Go(finished), s')
  }

  /** Each phase goes on only with the one record it waits for, types of records and messages by their numbers. */
  lemma PhasesNeed(p: Primitives, decrypt: Bytes -> Option<Bytes>, cipher: Cipher, master: Bytes, transcript: Bytes, s: ConnState)
    ensures HelloPhase(p, s).0.Go? ==>
              var hello := HelloPhase(p, s).0.value.message;
              ReadRecord(p, s.reader).0 == Received(22, hello) && IsMessage(hello) && hello[0] == 1
    ensures KeyExchangePhase(p, decrypt, s).0.Go? ==>
              var (ckx, premaster) := KeyExchangePhase(p, decrypt, s).0.value;
              ReadRecord(p, s.reader).0 == Received(22, ckx) && IsMessage(ckx) && ckx[0] == 16 && decrypt(KeyExchangePayload(ckx)) == Some(premaster)
    ensures CipherPhase(p, cipher, s).0.Go? <==> ReadRecord(p, s.reader).0 == Received(20, [1])
    ensures s.reader.version in {SSL30, TLS10} ==>
              (FinishedPhase(p, master, transcript, s).0.Go?
               <==> ReadRecord(p, s.reader).0 == Received(22, Message(20, Standard.VerifyData(p, s.reader.version, master, transcript, true))))
  {
    hide ReadRecord; hide HelloVersion; hide HelloChoice; hide FinishedVerify; hide Standard.VerifyData; hide Split; hide Message;
    if s.reader.version in {SSL30, TLS10} {
      var verify := FinishedVerify(p, s.reader.version, master, transcript, true);
      FinishedIsStandard(p, s.reader.version, master, transcript, true);
      OneMessageOf(FINISHED, verify);
      MessageLength(FINISHED, verify);
      if FinishedPhase(p, master, transcript, s).0.Go? {
        U24OfMessage(FinishedPhase(p, master, transcript, s).0.value);
      }
    }
  }

  lemma MessageLength(typ: byte, body: Bytes)
    ensures |Message(typ, body)| == 4 + |body|
  {
  }

  /** The server's ChangeCipherSpec and its Finished, the first record under its own cipher. */
  function ServerFinish(p: Primitives, cipher: Cipher, master: Bytes, transcript: Bytes, s: ConnState): (r: ConnState)
    requires s.reader.version == SSL30 || s.reader.version == TLS10
    ensures r.reader == s.reader
  {
    var finished := Message(FINISHED, FinishedVerify(p, s.reader.version, master, transcript, false));
    var s1 := Put(s, CHANGE_CIPHER_SPEC, [1]);
    Put(s1, HANDSHAKE, Seal(p, cipher, HANDSHAKE, finished)).(output := After(cipher, |finished|))
  }

  /** What both sides know once the premaster has been exchanged; `transcript` is what they have hashed. */
  datatype Session = Session(version: nat, suite: nat, master: Bytes, clientRandom: Bytes, serverRandom: Bytes, transcript: Bytes)
  {
    function Input(p: Primitives): (c: Cipher)
      ensures c.active && c.seqNo == 0
    {
      ClientCipher(p, version, suite, master, clientRandom, serverRandom)
    }

    function Output(p: Primitives): (c: Cipher)
      ensures c.active && c.seqNo == 0
    {
      ServerCipher(p, version, suite, master, clientRandom, serverRandom)
    }
  }

  /** A session with the client Finished that was verified for it. */
  datatype Completion = Completion(session: Session, finished: Bytes)

  function ServerCipher(p: Primitives, version: nat, suite: nat, master: Bytes, clientRandom: Bytes, serverRandom: Bytes): (c: Cipher)
    ensures c.active && c.seqNo == 0
  {
    var k := DeriveKeys(p, version, suite, master, clientRandom, serverRandom);
    MakeCipher(k.serverKey, k.serverMac, k.hash, version)
  }

  function ClientCipher(p: Primitives, version: nat, suite: nat, master: Bytes, clientRandom: Bytes, serverRandom: Bytes): (c: Cipher)
    ensures c.active && c.seqNo == 0
  {
    var k := DeriveKeys(p, version, suite, master, clientRandom, serverRandom);
    MakeCipher(k.clientKey, k.clientMac, k.hash, version)
  }

  /** Both ends' write keys are the standards' division of the standards' key block. */
  lemma CiphersAreStandard(p: Primitives, version: nat, suite: nat, master: Bytes, clientRandom: Bytes, serverRandom: Bytes)
    ensures var (client, server) := Standard.Writers(p, version, suite, master, clientRandom, serverRandom);
            ClientCipher(p, version, suite, master, clientRandom, serverRandom) == Writing(client, 0, 0)
            && ServerCipher(p, version, suite, master, clientRandom, serverRandom) == Writing(server, 0, 0)
  {
    hide ExpandKeys; hide Standard.KeyBlock;
    var n := SuiteHash(suite).Size();
    SecretsAreStandard(p, version, master, clientRandom, serverRandom, 2 * n + 32);
    var block := ExpandKeys(p, version, master, clientRandom, serverRandom, 2 * n + 32);
    assert block[n..][..n] == block[n..2 * n] && block[n..][n..] == block[2 * n..];
    assert block[2 * n..][..16] == block[2 * n..2 * n + 16] && block[2 * n..][16..] == block[2 * n + 16..];
  }

  /** From the flight on: key exchange, client ciphers, client Finished. */
  function ClientPhases(p: Primitives, decrypt: Bytes -> Option<Bytes>, g: Greeting, serverRandom: Bytes, sofar: Bytes, s: ConnState)
    : (r: (Phase<Completion>, ConnState))
    requires s.reader.version == g.version && (g.version == SSL30 || g.version == TLS10)
    ensures r.1.reader.version == s.reader.version && r.1 == s.(reader := r.1.reader)
    ensures r.0.Go? ==> r.0.value.session.version == g.version
  {
    var (exchange, s1) := KeyExchangePhase(p, decrypt, s);
    if exchange.Stop? then (Stop(exchange.error), s1)
    else
      var (ckx, premaster) := exchange.value;
      var transcript := sofar + ckx;
      var master := MasterSecret(p, g.version, premaster, g.random, serverRandom);
      var session := Session(g.version, g.suite, master, g.random, serverRandom, transcript);
      var (change, s2) := CipherPhase(p, session.Input(p), s1);
      if change.Stop? then (Stop(change.error), s2)
      else
        var (finished, s3) := FinishedPhase(p, master, transcript, s2);
        if finished.Stop? then (Stop(finished.error), s3) else (Go(Completion(session, finished.value)), s3)
  }

  function GreetAndSend(p: Primitives, certs: seq<Bytes>, serverRandom: Option<Bytes>, s: ConnState): (r: (Phase<Greeting>, ConnState))
    ensures r.0.Go? ==> serverRandom.Some? && r.1.reader.version == r.0.value.version
                        && (r.0.value.version == SSL30 || r.0.value.version == TLS10)
  {
    var (hello, s1) := HelloPhase(p, s);
    if hello.Stop? then (Stop(hello.error), s1)
    else if serverRandom.None? then (Stop(NoRandomness), s1)
    else (Go(hello.value), Put(s1, HANDSHAKE, Flight(hello.value.version, serverRandom.value, hello.value.suite, certs)))
  }

  function Transcript(g: Greeting, serverRandom: Bytes, certs: seq<Bytes>): Bytes
  {
    g.message + Flight(g.version, serverRandom, g.suite, certs)
  }

  /** The whole handshake on a stream that accepts every write. */
  function Handshake(p: Primitives, config: Option<Config>, serverRandom: Option<Bytes>, s: ConnState): (r: (Phase<Completion>, ConnState))
    ensures r.0.Go? ==> r.1.reader.version == r.0.value.session.version && r.1.output.active
  {
    if config.None? || config.value.privateKey.None? || config.value.certificate == [] then (Stop(NoCertificate), s)
    else
      var certs := config.value.certificate;
      var (greeting, s1) := GreetAndSend(p, certs, serverRandom, s);
      if greeting.Stop? then (Stop(greeting.error), s1)
      else
        var g := greeting.value;
        var (client, s2) := ClientPhases(p, config.value.privateKey.value, g, serverRandom.value, Transcript(g, serverRandom.value, certs), s1);
        if client.Stop? then (Stop(client.error), s2)
        else
          var Completion(session, finished) := client.value;
          (client, ServerFinish(p, session.Output(p), session.master, session.transcript + finished, s2))
  }

  // ----- the honest client -----

  /** `firstVersion` is the record version of its first record; `enc` is its encrypted premaster, sent
      with a length prefix or bare. */
  datatype Client = Client(hello: Hello, firstVersion: nat, premaster: Bytes, enc: Bytes, prefixed: bool)
  {
    function HelloBytes(): Bytes
      requires hello.WellFormed()
    {
      Message(1, hello.Body())
    }

    predicate Honest(decrypt: Bytes -> Option<Bytes>)
    {
      && hello.WellFormed() && Choice(hello.suites) != 0
      && |hello.Body()| + 4 <= MAX_RECORD
      && (firstVersion == SSL30 || firstVersion == TLS10)
      && |premaster| == 48 && decrypt(enc) == Some(premaster)
      && |enc| + 6 <= MAX_RECORD
    }

    function KeyExchange(): Bytes { Message(16, if prefixed then U16(|enc|) + enc else enc) }

    /** What the server takes for the ciphertext. */
    function Taken(): Bytes { if prefixed || !AnnouncesItself(enc) then enc else enc[2..] }

    /** The server recovers the premaster: always from the prefixed form; from the bare form when the
        ciphertext does not announce its own remaining length, or by accident. */
    predicate Understood(decrypt: Bytes -> Option<Bytes>)
    {
      prefixed || !AnnouncesItself(enc) || decrypt(enc[2..]) == Some(premaster)
    }

    function FirstRecord(): Bytes
      requires hello.WellFormed()
    {
      Record(firstVersion, 22, HelloBytes())
    }
  }

  /** Takes the body of the plaintext flight record: whatever its header announces. */
  function TakeFlight(version: nat, wire: Bytes): Option<(Bytes, Bytes)>
  {
    if |wire| < 5 || wire[0] != HANDSHAKE || ReadU16(wire, 1) != version then None
    else
      var n := ReadU16(wire, 3);
      if |wire| < 5 + n then None else Some((wire[5..5 + n], wire[5 + n..]))
  }

  /** The client recovers the flight exactly when it fits the 16-bit record length. */
  lemma FlightTaken(version: nat, flight: Bytes, rest: Bytes)
    requires version < 0x1_0000
    ensures TakeFlight(version, Record(version, HANDSHAKE, flight) + rest) == Some((flight, rest)) <==> |flight| < 0x1_0000
  {
    HeaderFields(version, HANDSHAKE, flight, rest);
    var w := Record(version, HANDSHAKE, flight) + rest;
    var n := |flight| % 0x1_0000;
    assert w[5..5 + n] == w[5..][..n] && w[5 + n..] == w[5..][n..];
  }

  /** A new peer that reads with this record layer, as the server itself does, takes `flight` off the wire. */
  predicate ReadsFlight(p: Primitives, version: nat, wire: Bytes, flight: Bytes, rest: Bytes)
  {
    ReadRecord(p, Reader(version, true, INACTIVE, wire)) == (Received(HANDSHAKE, flight), Reader(version, false, INACTIVE, rest))
  }

  /** It does exactly when the flight fits the reader's own limit, which is far below sixteen bits. */
  lemma FlightRead(p: Primitives, version: nat, flight: Bytes, rest: Bytes)
    requires version < 0x1_0000
    ensures ReadsFlight(p, version, Record(version, HANDSHAKE, flight) + rest, flight, rest) <==> |flight| <= MAX_RECORD
  {
    HeaderFields(version, HANDSHAKE, flight, rest);
    var r := Reader(version, true, INACTIVE, Record(version, HANDSHAKE, flight) + rest);
    assert Seal(p, INACTIVE, HANDSHAKE, flight) == flight;
    if |flight| <= MAX_RECORD {
      ReadOwnRecord(p, r, version, HANDSHAKE, flight, rest);
    } else if ReadRecord(p, r).0.Received? {
      assert |ReadRecord(p, r).0.data| == |flight| % 0x1_0000;
    }
  }

  /** A cipher with these keys that has gone over `pos` bytes and `number` records. */
  function Writing(w: Standard.Writer, pos: nat, number: nat): Cipher
  {
    Cipher(true, w.key, pos, w.macKey, w.hash, number, w.version)
  }

  /** What the client derives from a flight: its own next bytes, both ciphers and its expectations. */
  datatype Reply = Reply(bytes: Bytes, output: Cipher, input: Cipher, master: Bytes, transcript: Bytes)

  /** The client's part: secrets, keys, MAC and Finished are the standards', types of messages and records
      their numbers. */
  function Respond(p: Primitives, c: Client, flight: Bytes): (r: Option<Reply>)
    requires c.hello.WellFormed()
  {
    match Split(flight)
    case None => None
    case Some(ms) =>
      if |ms| != 3 || |ms[0]| < 41 then None
      else
        var v, serverRandom, suite := c.hello.version, ms[0][6..38], ReadU16(ms[0], 39);
        var master := Standard.Master(p, v, c.premaster, c.hello.random, serverRandom);
        var (own, peer) := Standard.Writers(p, v, suite, master, c.hello.random, serverRandom);
        var transcript := c.HelloBytes() + flight + c.KeyExchange();
        var finished := Message(20, Standard.VerifyData(p, v, master, transcript, true));
        Some(Reply(ReplyBytes(v, c.KeyExchange(), Standard.Protect(p, own, 0, 0, 22, finished)),
                   Writing(own, |finished| + own.hash.Size(), 1), Writing(peer, 0, 0), master, transcript + finished))
  }

  /** Key exchange, ChangeCipherSpec and the protected Finished. */
  function ReplyBytes(v: nat, ckx: Bytes, finished: Bytes): Bytes
  {
    Record(v, 22, ckx) + Record(v, 20, [1]) + Record(v, 22, finished)
  }

  /** The client's end: ChangeCipherSpec, then the server's Finished checked against its own hash. */
  function Conclude(p: Primitives, version: nat, reply: Reply, wire: Bytes): Option<Reader>
    requires version == SSL30 || version == TLS10
  {
    var (change, r1) := ReadRecord(p, Reader(version, false, INACTIVE, wire));
    if change != Received(20, [1]) then None
    else
      var (finished, r2) := ReadRecord(p, r1.(cipher := reply.input));
      if finished != Received(22, Message(20, Standard.VerifyData(p, version, reply.master, reply.transcript, false))) then None
      else Some(r2)
  }

  // ----- agreement -----

  lemma HelloPhaseAccepts(p: Primitives, c: Client, decrypt: Bytes -> Option<Bytes>, rest: Bytes)
    requires c.Honest(decrypt)
    ensures HelloPhase(p, Fresh(c.FirstRecord() + rest))
            == (Go(Greeting(c.HelloBytes(), c.hello.version, c.hello.random, Choice(c.hello.suites))),
                ConnState(Reader(c.hello.version, false, INACTIVE, rest), INACTIVE, [], []))
  {
    var s := Fresh(c.FirstRecord() + rest);
    ReadOwnRecord(p, s.reader, c.firstVersion, HANDSHAKE, c.HelloBytes(), rest);
    assert ReadRecord(p, s.reader) == (Received(HANDSHAKE, c.HelloBytes()), Reader(TLS10, false, INACTIVE, rest));
    HelloAccepted(c.hello);
  }

  lemma KeyExchangeTaken(c: Client)
    requires |c.enc| + 6 <= MAX_RECORD
    ensures OneMessage(c.KeyExchange(), CLIENT_KEY_EXCHANGE) == Some(c.KeyExchange())
    ensures KeyExchangePayload(c.KeyExchange()) == c.Taken() && |c.KeyExchange()| <= MAX_RECORD
  {
    OneMessageOf(CLIENT_KEY_EXCHANGE, if c.prefixed then U16(|c.enc|) + c.enc else c.enc);
    PrefixedPayload(c.enc);
  }

  /** The key exchange of an honest client, exactly: its premaster arrives if and only if it is understood. */
  lemma KeyExchangeExactly(p: Primitives, c: Client, decrypt: Bytes -> Option<Bytes>, s: ConnState, rest: Bytes)
    requires c.Honest(decrypt) && s.reader.version < 0x1_0000 && !s.reader.cipher.active
    requires s.reader.wire == Record(s.reader.version, HANDSHAKE, c.KeyExchange()) + rest
    ensures var s' := s.(reader := s.reader.(first := false, wire := rest));
            KeyExchangePhase(p, decrypt, s).1 == s'
            && (KeyExchangePhase(p, decrypt, s).0 == Go((c.KeyExchange(), c.premaster)) <==> c.Understood(decrypt))
            && (decrypt(c.Taken()).None? || |decrypt(c.Taken()).value| != 48 <==>
                  KeyExchangePhase(p, decrypt, s).0 == Stop(PremasterDecryptionFailed))
  {
    var ckx := c.KeyExchange();
    KeyExchangeTaken(c);
    assert Seal(p, s.reader.cipher, HANDSHAKE, ckx) == ckx;
    ReadOwnRecord(p, s.reader, s.reader.version, HANDSHAKE, ckx, rest);
  }

  lemma CipherAccepts(p: Primitives, cipher: Cipher, s: ConnState, rest: Bytes)
    requires s.reader.version < 0x1_0000 && !s.reader.cipher.active
    requires s.reader.wire == Record(s.reader.version, CHANGE_CIPHER_SPEC, [1]) + rest
    ensures CipherPhase(p, cipher, s) == (Go(()), s.(reader := Reader(s.reader.version, false, cipher, rest)))
  {
    ReadOwnRecord(p, s.reader, s.reader.version, CHANGE_CIPHER_SPEC, [1], rest);
  }

  lemma FinishedAccepts(p: Primitives, master: Bytes, transcript: Bytes, s: ConnState, rest: Bytes)
    requires s.reader.version == SSL30 || s.reader.version == TLS10
    requires var finished := Message(FINISHED, FinishedVerify(p, s.reader.version, master, transcript, true));
             s.reader.wire == Record(s.reader.version, HANDSHAKE, Seal(p, s.reader.cipher, HANDSHAKE, finished)) + rest
    ensures var finished := Message(FINISHED, FinishedVerify(p, s.reader.version, master, transcript, true));
            FinishedPhase(p, master, transcript, s)
            == (Go(finished), s.(reader := Reader(s.reader.version, false, After(s.reader.cipher, |finished|), rest)))
  {
    var verify := FinishedVerify(p, s.reader.version, master, transcript, true);
    var finished := Message(FINISHED, verify);
    ReadOwnRecord(p, s.reader, s.reader.version, HANDSHAKE, finished, rest);
    OneMessageOf(FINISHED, verify);
  }

  /** The client's reading of the server's last two records. */
  lemma ConcludeAccepts(p: Primitives, version: nat, reply: Reply)
    requires version == SSL30 || version == TLS10
    requires reply.input.active
    ensures var finished := Message(FINISHED, FinishedVerify(p, version, reply.master, reply.transcript, false));
            Conclude(p, version, reply, Record(version, CHANGE_CIPHER_SPEC, [1]) + Record(version, HANDSHAKE, Seal(p, reply.input, HANDSHAKE, finished)))
            == Some(Reader(version, false, After(reply.input, |finished|), []))
  {
    FinishedIsStandard(p, version, reply.master, reply.transcript, false);
    var finished := Message(FINISHED, FinishedVerify(p, version, reply.master, reply.transcript, false));
    var last := Record(version, HANDSHAKE, Seal(p, reply.input, HANDSHAKE, finished));
    var r := Reader(version, false, INACTIVE, Record(version, CHANGE_CIPHER_SPEC, [1]) + last);
    ReadOwnRecord(p, r, version, CHANGE_CIPHER_SPEC, [1], last);
    assert last + [] == last;
    ReadOwnRecord(p, Reader(version, false, reply.input, last), version, HANDSHAKE, finished, []);
  }

  /** The two ends of an established connection. */
  predicate Agreed(server: ConnState, client: Reader, clientOutput: Cipher)
  {
    && server.reader.version == client.version && (client.version == SSL30 || client.version == TLS10)
    && server.reader.cipher == clientOutput && server.output == client.cipher
    && clientOutput.active && client.cipher.active
    && clientOutput.seqNo == client.cipher.seqNo == 1
  }

  /** The client's three records, regrouped for reading them one by one. */
  lemma ReplyBytesSplit(v: nat, ckx: Bytes, finished: Bytes, later: Bytes)
    ensures ReplyBytes(v, ckx, finished) + later
            == Record(v, HANDSHAKE, ckx) + (Record(v, CHANGE_CIPHER_SPEC, [1]) + (Record(v, HANDSHAKE, finished) + later))
  {
  }

  /** Three phases that go on make the client's part. */
  lemma ClientPhasesGo(p: Primitives, decrypt: Bytes -> Option<Bytes>, g: Greeting, serverRandom: Bytes, sofar: Bytes, s: ConnState,
                       ckx: Bytes, premaster: Bytes, s1: ConnState, s2: ConnState, finished: Bytes, s3: ConnState)
    requires s.reader.version == g.version && (g.version == SSL30 || g.version == TLS10)
    requires KeyExchangePhase(p, decrypt, s) == (Go((ckx, premaster)), s1)
    requires var master := MasterSecret(p, g.version, premaster, g.random, serverRandom);
             CipherPhase(p, ClientCipher(p, g.version, g.suite, master, g.random, serverRandom), s1) == (Go(()), s2)
             && s2.reader.version == g.version && FinishedPhase(p, master, sofar + ckx, s2) == (Go(finished), s3)
    ensures var master := MasterSecret(p, g.version, premaster, g.random, serverRandom);
            ClientPhases(p, decrypt, g, serverRandom, sofar, s)
            == (Go(Completion(Session(g.version, g.suite, master, g.random, serverRandom, sofar + ckx), finished)), s3)
  {
    hide KeyExchangePhase; hide CipherPhase; hide FinishedPhase; hide MasterSecret; hide ClientCipher;
  }

  lemma ClientPhasesAccept(p: Primitives, c: Client, decrypt: Bytes -> Option<Bytes>, g: Greeting, serverRandom: Bytes,
                           sofar: Bytes, s: ConnState, later: Bytes)
    requires c.Honest(decrypt) && c.Understood(decrypt)
    requires g == Greeting(c.HelloBytes(), c.hello.version, c.hello.random, Choice(c.hello.suites))
    requires var master := MasterSecret(p, g.version, c.premaster, g.random, serverRandom);
             var output := ClientCipher(p, g.version, g.suite, master, g.random, serverRandom);
             var finished := Message(FINISHED, FinishedVerify(p, g.version, master, sofar + c.KeyExchange(), true));
             s.reader == Reader(g.version, false, INACTIVE, ReplyBytes(g.version, c.KeyExchange(), Seal(p, output, HANDSHAKE, finished)) + later)
    ensures var master := MasterSecret(p, g.version, c.premaster, g.random, serverRandom);
            var output := ClientCipher(p, g.version, g.suite, master, g.random, serverRandom);
            var finished := Message(FINISHED, FinishedVerify(p, g.version, master, sofar + c.KeyExchange(), true));
            ClientPhases(p, decrypt, g, serverRandom, sofar, s)
            == (Go(Completion(Session(g.version, g.suite, master, g.random, serverRandom, sofar + c.KeyExchange()), finished)),
                s.(reader := Reader(g.version, false, After(output, |finished|), later)))
  {
    var v := g.version;
    var master := MasterSecret(p, v, c.premaster, g.random, serverRandom);
    var transcript := sofar + c.KeyExchange();
    var cipher := ClientCipher(p, v, g.suite, master, g.random, serverRandom);
    var finished := Message(FINISHED, FinishedVerify(p, v, master, transcript, true));
    var last := Record(v, HANDSHAKE, Seal(p, cipher, HANDSHAKE, finished)) + later;
    var change := Record(v, CHANGE_CIPHER_SPEC, [1]) + last;
    hide Record; hide Seal; hide ReplyBytes; hide FinishedVerify; hide MasterSecret; hide ClientCipher; hide KeyExchangePhase;
    hide CipherPhase; hide FinishedPhase; hide After;
    ReplyBytesSplit(v, c.KeyExchange(), Seal(p, cipher, HANDSHAKE, finished), later);
    KeyExchangeExactly(p, c, decrypt, s, change);
    var s1 := s.(reader := Reader(v, false, INACTIVE, change));
    assert KeyExchangePhase(p, decrypt, s) == (Go((c.KeyExchange(), c.premaster)), s1);
    CipherAccepts(p, cipher, s1, last);
    var s2 := s.(reader := Reader(v, false, cipher, last));
    assert CipherPhase(p, cipher, s1) == (Go(()), s2);
    FinishedAccepts(p, master, transcript, s2, later);
    hide ClientPhases;
    ClientPhasesGo(p, decrypt, g, serverRandom, sofar, s, c.KeyExchange(), c.premaster, s1, s2, finished,
                   s.(reader := Reader(v, false, After(cipher, |finished|), later)));
  }

  /** The reply to a flight whose ServerHello has this random and suite. */
  lemma RespondsTo(p: Primitives, c: Client, flight: Bytes, ms: seq<Bytes>, serverRandom: Bytes, suite: nat)
    requires c.hello.WellFormed() && Split(flight) == Some(ms) && |ms| == 3 && |ms[0]| == 42
    requires ms[0][6..38] == serverRandom && ReadU16(ms[0], 39) == suite
    ensures var v := c.hello.version;
            var master := Standard.Master(p, v, c.premaster, c.hello.random, serverRandom);
            var (own, peer) := Standard.Writers(p, v, suite, master, c.hello.random, serverRandom);
            var transcript := c.HelloBytes() + flight + c.KeyExchange();
            var finished := Message(20, Standard.VerifyData(p, v, master, transcript, true));
            Respond(p, c, flight)
            == Some(Reply(ReplyBytes(v, c.KeyExchange(), Standard.Protect(p, own, 0, 0, 22, finished)),
                          Writing(own, |finished| + own.hash.Size(), 1), Writing(peer, 0, 0), master, transcript + finished))
  {
    hide Split; hide ReadU16; hide Standard.Master; hide Standard.Writers; hide Standard.VerifyData; hide Standard.Protect;
    hide Message; hide ReplyBytes; hide Writing;
  }

  lemma FirstSealed(p: Primitives, w: Standard.Writer, typ: byte, plain: Bytes)
    ensures Seal(p, Writing(w, 0, 0), typ, plain) == Standard.Protect(p, w, 0, 0, typ, plain)
    ensures After(Writing(w, 0, 0), |plain|) == Writing(w, |plain| + w.hash.Size(), 1)
  {
    SealIsStandard(p, Writing(w, 0, 0), typ, plain);
  }

  /** The same reply, from the server's own derivations. */
  function ServersReply(p: Primitives, c: Client, serverRandom: Bytes, suite: nat, flight: Bytes): Reply
    requires c.hello.WellFormed()
  {
    var v := c.hello.version;
    var master := MasterSecret(p, v, c.premaster, c.hello.random, serverRandom);
    var output := ClientCipher(p, v, suite, master, c.hello.random, serverRandom);
    var transcript := c.HelloBytes() + flight + c.KeyExchange();
    var finished := Message(FINISHED, FinishedVerify(p, v, master, transcript, true));
    Reply(ReplyBytes(v, c.KeyExchange(), Seal(p, output, HANDSHAKE, finished)), After(output, |finished|),
          ServerCipher(p, v, suite, master, c.hello.random, serverRandom), master, transcript + finished)
  }

  lemma Small(h: Hello)
    requires h.WellFormed()
    ensures (h.version == SSL30 || h.version == TLS10) && Choice(h.suites) < 0x1_0000
  {
  }

  /** What the client computes from the real flight, with the server's own random and suite in it, is what
      the server computes. */
  lemma Responds(p: Primitives, certs: seq<Bytes>, serverRandom: Bytes, c: Client)
    requires c.hello.WellFormed() && Choice(c.hello.suites) != 0 && |serverRandom| == 32
    requires |Flight(c.hello.version, serverRandom, Choice(c.hello.suites), certs)| < 0x1_0000
    ensures var flight := Flight(c.hello.version, serverRandom, Choice(c.hello.suites), certs);
            Respond(p, c, flight) == Some(ServersReply(p, c, serverRandom, Choice(c.hello.suites), flight))
  {
    hide Choice; hide Flight; hide Hello.WellFormed; hide Split; hide Respond; hide Standard.Master; hide Standard.Writers; hide Standard.VerifyData;
    hide Standard.Protect; hide MasterSecret; hide ClientCipher; hide ServerCipher; hide FinishedVerify; hide Seal; hide After; hide Writing;
    hide ReplyBytes; hide Message; hide Client.HelloBytes; hide Client.KeyExchange; hide ReadU16;
    Small(c.hello);
    var v, suite := c.hello.version, Choice(c.hello.suites);
    var flight := Flight(v, serverRandom, suite, certs);
    var ms := FlightCarries(v, serverRandom, suite, certs);
    RespondsTo(p, c, flight, ms, serverRandom, suite);
    ReplyMatches(p, v, suite, c.premaster, c.hello.random, serverRandom, c.HelloBytes() + flight + c.KeyExchange(), c.KeyExchange());
  }

  /** The messages of the flight, as far as the client needs them. */
  lemma FlightCarries(v: nat, serverRandom: Bytes, suite: nat, certs: seq<Bytes>) returns (ms: seq<Bytes>)
    requires (v == SSL30 || v == TLS10) && suite < 0x1_0000 && |serverRandom| == 32 && |Flight(v, serverRandom, suite, certs)| < 0x1_0000
    ensures Split(Flight(v, serverRandom, suite, certs)) == Some(ms) && |ms| == 3 && |ms[0]| == 42
    ensures ms[0][6..38] == serverRandom && ReadU16(ms[0], 39) == suite
  {
    FlightSplits(v, serverRandom, suite, certs);
    ms := Split(Flight(v, serverRandom, suite, certs)).value;
  }

  /** What the standards make of the exchanged values is what the server makes of them. */
  lemma ReplyMatches(p: Primitives, v: nat, suite: nat, premaster: Bytes, clientRandom: Bytes, serverRandom: Bytes, transcript: Bytes, ckx: Bytes)
    requires v == SSL30 || v == TLS10
    ensures var master := Standard.Master(p, v, premaster, clientRandom, serverRandom);
            var (own, peer) := Standard.Writers(p, v, suite, master, clientRandom, serverRandom);
            var finished := Message(20, Standard.VerifyData(p, v, master, transcript, true));
            var output := ClientCipher(p, v, suite, master, clientRandom, serverRandom);
            master == MasterSecret(p, v, premaster, clientRandom, serverRandom)
            && finished == Message(FINISHED, FinishedVerify(p, v, master, transcript, true))
            && ReplyBytes(v, ckx, Standard.Protect(p, own, 0, 0, 22, finished)) == ReplyBytes(v, ckx, Seal(p, output, HANDSHAKE, finished))
            && Writing(own, |finished| + own.hash.Size(), 1) == After(output, |finished|)
            && Writing(peer, 0, 0) == ServerCipher(p, v, suite, master, clientRandom, serverRandom)
  {
    hide Standard.Master; hide Standard.Writers; hide Standard.VerifyData; hide Standard.Protect; hide MasterSecret; hide ClientCipher;
    hide ServerCipher; hide FinishedVerify; hide Seal; hide After; hide Writing; hide ReplyBytes; hide Message;
    var master := Standard.Master(p, v, premaster, clientRandom, serverRandom);
    SecretsAreStandard(p, v, premaster, clientRandom, serverRandom, 0);
    CiphersAreStandard(p, v, suite, master, clientRandom, serverRandom);
    FinishedIsStandard(p, v, master, transcript, true);
    FirstSealed(p, Standard.Writers(p, v, suite, master, clientRandom, serverRandom).0, HANDSHAKE,
                Message(20, Standard.VerifyData(p, v, master, transcript, true)));
  }

  lemma GreetAccepts(p: Primitives, certs: seq<Bytes>, decrypt: Bytes -> Option<Bytes>, serverRandom: Bytes, c: Client, rest: Bytes)
    requires c.Honest(decrypt)
    ensures var v, suite := c.hello.version, Choice(c.hello.suites);
            GreetAndSend(p, certs, Some(serverRandom), Fresh(c.FirstRecord() + rest))
            == (Go(Greeting(c.HelloBytes(), v, c.hello.random, suite)),
                ConnState(Reader(v, false, INACTIVE, rest), INACTIVE, [], Record(v, HANDSHAKE, Flight(v, serverRandom, suite, certs))))
  {
    HelloPhaseAccepts(p, c, decrypt, rest);
    var sent := Record(c.hello.version, HANDSHAKE, Flight(c.hello.version, serverRandom, Choice(c.hello.suites), certs));
    assert [] + sent == sent;
  }

  lemma NeedsCertificate(p: Primitives, config: Option<Config>, serverRandom: Option<Bytes>, s: ConnState)
    requires config.None? || config.value.privateKey.None? || config.value.certificate == []
    ensures Handshake(p, config, serverRandom, s) == (Stop(NoCertificate), s)
  {
  }

  /** The phases in sequence make the handshake. */
  lemma PhasesCompose(p: Primitives, config: Config, serverRandom: Option<Bytes>, s0: ConnState,
                      greeting: Phase<Greeting>, s1: ConnState, client: Phase<Completion>, s2: ConnState)
    requires config.privateKey.Some? && config.certificate != []
    requires GreetAndSend(p, config.certificate, serverRandom, s0) == (greeting, s1)
    requires greeting.Go? ==>
               ClientPhases(p, config.privateKey.value, greeting.value, serverRandom.value,
                            Transcript(greeting.value, serverRandom.value, config.certificate), s1) == (client, s2)
    ensures greeting.Stop? ==> Handshake(p, Some(config), serverRandom, s0) == (Stop(greeting.error), s1)
    ensures greeting.Go? && client.Stop? ==> Handshake(p, Some(config), serverRandom, s0) == (Stop(client.error), s2)
    ensures greeting.Go? && client.Go? ==>
              Handshake(p, Some(config), serverRandom, s0)
              == (client, ServerFinish(p, client.value.session.Output(p), client.value.session.master,
                                       client.value.session.transcript + client.value.finished, s2))
  {
  }

  lemma ServerAccepts(p: Primitives, certs: seq<Bytes>, decrypt: Bytes -> Option<Bytes>, serverRandom: Bytes, c: Client, reply: Reply, later: Bytes)
    requires c.Honest(decrypt) && c.Understood(decrypt) && certs != [] && |serverRandom| == 32
    requires |Flight(c.hello.version, serverRandom, Choice(c.hello.suites), certs)| < 0x1_0000
    requires Respond(p, c, Flight(c.hello.version, serverRandom, Choice(c.hello.suites), certs)) == Some(reply)
    ensures var v := c.hello.version;
            var sent := Record(v, HANDSHAKE, Flight(v, serverRandom, Choice(c.hello.suites), certs));
            var (r, server) := Handshake(p, Some(Config(certs, Some(decrypt))), Some(serverRandom), Fresh(c.FirstRecord() + (reply.bytes + later)));
            r.Go? && server == ServerFinish(p, reply.input, reply.master, reply.transcript,
                                            ConnState(Reader(v, false, reply.output, later), INACTIVE, [], sent))
  {
    var v, suite := c.hello.version, Choice(c.hello.suites);
    var g := Greeting(c.HelloBytes(), v, c.hello.random, suite);
    var sofar := Transcript(g, serverRandom, certs);
    var s0 := Fresh(c.FirstRecord() + (reply.bytes + later));
    var s1 := ConnState(Reader(v, false, INACTIVE, reply.bytes + later), INACTIVE, [],
                        Record(v, HANDSHAKE, Flight(v, serverRandom, suite, certs)));
    var master := MasterSecret(p, v, c.premaster, c.hello.random, serverRandom);
    var finished := Message(FINISHED, FinishedVerify(p, v, master, sofar + c.KeyExchange(), true));
    var done := Completion(Session(v, suite, master, g.random, serverRandom, sofar + c.KeyExchange()), finished);
    var s2 := s1.(reader := Reader(v, false, reply.output, later));
    Responds(p, certs, serverRandom, c);
    GreetAccepts(p, certs, decrypt, serverRandom, c, reply.bytes + later);
    ClientPhasesAccept(p, c, decrypt, g, serverRandom, sofar, s1, later);
    PhasesCompose(p, Config(certs, Some(decrypt)), Some(serverRandom), s0, Go(g), s1, Go(done), s2);
  }

  lemma ClientAccepts(p: Primitives, v: nat, flight: Bytes, reply: Reply, later: Bytes)
    requires (v == SSL30 || v == TLS10) && |flight| < 0x1_0000
    requires reply.output.active && reply.output.seqNo == 1 && reply.input.active && reply.input.seqNo == 0
    ensures var server := ServerFinish(p, reply.input, reply.master, reply.transcript,
                                       ConnState(Reader(v, false, reply.output, later), INACTIVE, [], Record(v, HANDSHAKE, flight)));
            var taken := TakeFlight(v, server.sent);
            taken.Some? && taken.value.0 == flight
            && (ReadsFlight(p, v, server.sent, flight, taken.value.1) <==> |flight| <= MAX_RECORD)
            && var client := Conclude(p, v, reply, taken.value.1);
               client.Some? && client.value.wire == [] && Agreed(server, client.value, reply.output)
  {
    var finished := Message(FINISHED, FinishedVerify(p, v, reply.master, reply.transcript, false));
    var change, last := Record(v, CHANGE_CIPHER_SPEC, [1]), Record(v, HANDSHAKE, Seal(p, reply.input, HANDSHAKE, finished));
    assert Record(v, HANDSHAKE, flight) + change + last == Record(v, HANDSHAKE, flight) + (change + last);
    FlightTaken(v, flight, change + last);
    FlightRead(p, v, flight, change + last);
    ConcludeAccepts(p, v, reply);
  }

  /** Handshake agreement: against every honest client that is understood, of either version, suite and
      form of key exchange, the handshake succeeds, the client accepts the server's Finished, and each
      side's cipher state equals the other's, with sequence number one. A client that takes the flight by
      its announced length gets it whenever it fits sixteen bits; one that reads it with this record
      layer, exactly when it fits the reader's limit. */
  lemma HandshakeAgreement(p: Primitives, certs: seq<Bytes>, decrypt: Bytes -> Option<Bytes>, serverRandom: Bytes, c: Client, later: Bytes)
    requires c.Honest(decrypt) && c.Understood(decrypt) && certs != [] && |serverRandom| == 32
    requires |Flight(c.hello.version, serverRandom, Choice(c.hello.suites), certs)| < 0x1_0000
    ensures var v, flight := c.hello.version, Flight(c.hello.version, serverRandom, Choice(c.hello.suites), certs);
            var reply := Respond(p, c, flight);
            reply.Some?
            && var (r, server) := Handshake(p, Some(Config(certs, Some(decrypt))), Some(serverRandom),
                                            Fresh(c.FirstRecord() + (reply.value.bytes + later)));
               r.Go? && server.reader.wire == later && server.readBuf == []
               && var taken := TakeFlight(v, server.sent);
                  taken.Some? && taken.value.0 == flight
                  && (ReadsFlight(p, v, server.sent, flight, taken.value.1) <==> |flight| <= MAX_RECORD)
                  && var client := Conclude(p, v, reply.value, taken.value.1);
                     client.Some? && client.value.wire == [] && Agreed(server, client.value, reply.value.output)
  {
    var v, flight := c.hello.version, Flight(c.hello.version, serverRandom, Choice(c.hello.suites), certs);
    Responds(p, certs, serverRandom, c);
    var reply := Respond(p, c, flight).value;
    ServerAccepts(p, certs, decrypt, serverRandom, c, reply, later);
    ClientAccepts(p, v, flight, reply, later);
  }

  // ----- the bare key exchange that is misread -----

  /** An honest client that is not understood is refused, unless what the server takes for the ciphertext
      happens to decrypt to some other premaster. */
  lemma MisreadIsRefused(p: Primitives, certs: seq<Bytes>, decrypt: Bytes -> Option<Bytes>, serverRandom: Bytes, c: Client, later: Bytes)
    requires c.Honest(decrypt) && certs != []
    requires decrypt(c.Taken()).None? || |decrypt(c.Taken()).value| != 48
    ensures Handshake(p, Some(Config(certs, Some(decrypt))), Some(serverRandom),
                      Fresh(c.FirstRecord() + (Record(c.hello.version, HANDSHAKE, c.KeyExchange()) + later))).0
            == Stop(PremasterDecryptionFailed)
  {
    var v, suite := c.hello.version, Choice(c.hello.suites);
    var reply := Record(v, HANDSHAKE, c.KeyExchange()) + later;
    var g := Greeting(c.HelloBytes(), v, c.hello.random, suite);
    var s1 := ConnState(Reader(v, false, INACTIVE, reply), INACTIVE, [], Record(v, HANDSHAKE, Flight(v, serverRandom, suite, certs)));
    GreetAccepts(p, certs, decrypt, serverRandom, c, reply);
    KeyExchangeExactly(p, c, decrypt, s1, later);
    var (client, s2) := ClientPhases(p, decrypt, g, serverRandom, Transcript(g, serverRandom, certs), s1);
    PhasesCompose(p, Config(certs, Some(decrypt)), Some(serverRandom), Fresh(c.FirstRecord() + reply), Go(g), s1, client, s2);
  }

  /** Such a client exists for every acceptable ClientHello: a bare 256-byte ciphertext that begins with
      254, the number of bytes behind it. */
  lemma BareClientRefused(p: Primitives, certs: seq<Bytes>, serverRandom: Bytes, hello: Hello, later: Bytes)
    returns (c: Client, decrypt: Bytes -> Option<Bytes>)
    requires hello.WellFormed() && Choice(hello.suites) != 0 && |hello.Body()| + 4 <= MAX_RECORD && certs != []
    ensures c.hello == hello && !c.prefixed && c.enc == [0, 254] + Repeat(7, 254) && c.Honest(decrypt) && !c.Understood(decrypt)
    ensures Handshake(p, Some(Config(certs, Some(decrypt))), Some(serverRandom),
                      Fresh(c.FirstRecord() + (Record(hello.version, HANDSHAKE, c.KeyExchange()) + later))).0
            == Stop(PremasterDecryptionFailed)
  {
    var enc: Bytes, premaster := [0, 254] + Repeat(7, 254), Repeat(3, 48);
    decrypt := (e: Bytes) => if e == enc then Some(premaster) else None;
    c := Client(hello, TLS10, premaster, enc, false);
    assert enc[0] == 0 && enc[1] == 254 && AnnouncesItself(enc);
    assert |enc[2..]| != |enc|;
    MisreadIsRefused(p, certs, decrypt, serverRandom, c, later);
  }
}
