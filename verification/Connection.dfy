/** The server connection: lazy handshake, record reader and writer, and the application-data stream. */
module Connection {
  import opened Bytes
  import opened Crypto
  import opened KeyDerivation
  import opened HandshakeMessages
  import opened Wrappers
  import opened RecordLayer
  import opened HandshakeProtocol
  import opened Channel
  import opened History
  import opened Stream
  import Standard

  lemma MacIgnoresPosition(p: Primitives, c: Cipher, pos: nat, typ: byte, data: Bytes)
    ensures RecordMac(p, c.(pos := pos), typ, data) == RecordMac(p, c, typ, data)
  {
  }

  /** The five header bytes and the body are the record. */
  lemma HeaderWrites(header: Bytes, body: Bytes)
    requires |header| == 5 && ReadU16(header, 3) == |body|
    ensures Record(ReadU16(header, 1), header[0], body) == header + body
  {
    U16Writes(header[1..3]);
    U16Writes(header[3..5]);
    assert header == [header[0]] + header[1..3] + header[3..5];
  }

  /** A whole record is refused exactly if it seals nothing. */
  lemma SealsOrNot(p: Primitives, c: Cipher, x: Inbound)
    requires x.Whole?
    ensures Accepted(p, c, x) ==> x.body == Seal(p, c, x.typ, Open(p, c, x.typ, x.body).data)
    ensures !Accepted(p, c, x) ==> forall plain :: x.body != Seal(p, c, x.typ, plain)
  {
    OpenExactly(p, c, x.typ, x.body);
    hide Open; hide Seal;
  }

  lemma ProtectsOrNot(p: Primitives, c: Cipher, typ: byte, body: Bytes)
    requires c.active
    ensures match Open(p, c, typ, body)
            case Plain(data) => body == Standard.Protect(p, KeysOf(c), c.pos, c.seqNo, typ, data)
            case Rejected(_) => forall data :: body != Standard.Protect(p, KeysOf(c), c.pos, c.seqNo, typ, data)
  {
    OpenExactly(p, c, typ, body);
    forall data
      ensures Seal(p, c, typ, data) == Standard.Protect(p, KeysOf(c), c.pos, c.seqNo, typ, data)
    {
      SealIsStandard(p, c, typ, data);
    }
    hide Open; hide Seal; hide Standard.Protect;
  }

  lemma PlainStays(p: Primitives, c: Cipher, x: Inbound)
    requires !c.active
    ensures Hear(p, c, x) == c && (x.Whole? ==> Open(p, c, x.typ, x.body) == Plain(x.body))
  {
  }

  lemma HearCut(p: Primitives, c: Cipher, x: Inbound)
    requires x.Cut?
    ensures Hear(p, c, x) == c && !Accepted(p, c, x) && Given(p, c, x) == []
  {
  }

  datatype Status = Pending | Broken(error: HandshakeError) | Established

  datatype ReadResult = NotConnected(error: HandshakeError) | Connected(outcome: ReadOutcome)

  datatype WriteResult = WriteRefused(error: HandshakeError) | Wrote(count: nat, ok: bool)

  /** What a Write has given to the cipher: after a failure the fragment that was cut off counts. */
  function Handed(data: Bytes, r: WriteResult): Bytes
  {
    if r.WriteRefused? then [] else if r.ok || r.count > |data| then data else data[..r.count] + FirstFragment(data[r.count..])
  }

  class Conn {
    const p: Primitives
    const config: Option<Config>
    const entropy: Option<Bytes>  // the server random, when the system can supply one
    const net: NetConn
    var status: Status
    var input: Cipher
    var output: Cipher
    var readBuf: Bytes
    var firstRecord: bool
    var version: nat

    // History.
    ghost var failed: bool  // some write to the stream has failed
    ghost var history: History
    ghost var delivered: Bytes

    ghost function View(): ConnState
      reads this, net
    {
      ConnState(Reader(version, firstRecord, input, net.incoming), output, readBuf, net.sent)
    }

    /** Every byte read and written is accounted for, both ciphers are what the records made of the
        negotiated ones, and everything happened in its order. */
    ghost predicate Sound()
      reads this`history, this`input, this`output, this`version, net`consumed, net`sent
    {
      && Heard(p, history, net.consumed, input)
      && Sent(p, history, version, net.sent, output)
      && Ordered(p, config, entropy, version, history)
    }

    /** The application data that came through the client's cipher. */
    ghost function Opened(): Bytes
      reads this`history
    {
      if history.session.None? then [] else Plaintext(p, history.session.value.Input(p), history.secured)
    }

    ghost predicate Valid()
      reads this, net
    {
      && Sound()
      && (status.Established? ==> Ready(history) && output.active && Opened() == delivered + readBuf)
      && (!status.Established? ==> readBuf == [] && delivered == [] && |history.sealed| <= 1)
      && (status.Pending? ==> history == NOTHING && output == INACTIVE && !failed)
    }

    /** The handshake is over: the server Finished is on the stream. */
    ghost predicate Ready(h: History)
    {
      h.finished.Some? && h.session.Some? && h.sealed != [] && Complete(h.session.value.Output(p), h.sealed[0])
    }

    constructor (p: Primitives, config: Option<Config>, entropy: Option<Bytes>, net: NetConn)
      requires net.sent == net.consumed == []
      ensures Valid() && status.Pending? && View() == Fresh(net.incoming) && this.net == net
      ensures this.p == p && this.config == config && this.entropy == entropy && net.sent == net.consumed == []
    {
      this.p, this.config, this.entropy, this.net := p, config, entropy, net;
      status, input, output, readBuf, firstRecord, version := Pending, INACTIVE, INACTIVE, [], true, TLS10;
      failed, history, delivered := false, NOTHING, [];
      new;
      hide Heard; hide Sent; hide Ordered; hide Opened;
      NothingYet(p, config, entropy, TLS10);
    }

    // ----- records -----

    ghost method Log(x: Inbound, before: Cipher, consumed: Bytes)
      requires Heard(p, history, consumed, before) && net.consumed == consumed + x.Raw() && input == Hear(p, before, x)
      requires Sent(p, history, version, net.sent, output) && Ordered(p, config, entropy, version, history)
      modifies `history
      ensures Sound() && history == old(history).Logged(x)
    {
      hide Heard; hide Hear; hide Sent; hide Ordered;
      LoggedHeard(p, history, consumed, before, x);
      LoggedSent(p, history, version, net.sent, output, x);
      LoggedOrdered(p, config, entropy, version, history, x);
      history := history.Logged(x);
    }

    /** `x` is what the attempt took from the stream. */
    method ReadRecord() returns (o: Outcome, ghost x: Inbound)
      requires Sound()
      modifies `input, `firstRecord, `history, net`incoming, net`consumed
      ensures Sound() && history == old(history).Logged(x) && input == Hear(p, old(input), x)
      ensures (o, View().reader) == RecordLayer.ReadRecord(p, old(View().reader))
      ensures Told(o, x, old(input))
    {
      hide Heard; hide Sent; hide Ordered; hide Record; hide Open; hide AfterOpen; hide Hear; hide Seal;
      ghost var consumed, before := net.consumed, input;
      x := Cut(net.incoming);
      var h := net.ReadFull(5);
      if h.None? {
        HearCut(p, before, x);
        Log(x, before, consumed);
        return Failed(EndOfStream), x;
      }
      x := Cut(h.value);
      HearCut(p, before, x);
      var recordVersion := ReadU16(h.value, 1);
      if recordVersion != version && !(firstRecord && recordVersion == SSL30 && h.value[0] == HANDSHAKE) {
        Log(x, before, consumed);
        return Failed(UnsupportedRecordVersion), x;
      }
      firstRecord := false;
      var n := ReadU16(h.value, 3);
      if n > MAX_RECORD {
        Log(x, before, consumed);
        return Failed(OversizedRecord), x;
      }
      o, x := ReadBody(h.value, consumed);
    }

    /** The outcome of a record, as the history has it: what is returned was sealed in the state that met the
        record, and a whole record is refused only if it seals nothing there. */
    ghost predicate Told(o: Outcome, x: Inbound, before: Cipher)
    {
      Given(p, before, x) == (if o.Received? && o.typ == APPLICATION_DATA then o.data else [])
      && match o
         case Received(typ, data) => x.Carries(typ) && Open(p, before, typ, x.body) == Plain(data) && x.body == Seal(p, before, typ, data)
         case Failed(_) => !Accepted(p, before, x) && (x.Whole? ==> forall plain :: x.body != Seal(p, before, x.typ, plain))
    }

    /** The rest of a record whose header was accepted. */
    method ReadBody(header: Bytes, ghost consumed: Bytes) returns (o: Outcome, ghost x: Inbound)
      requires |header| == 5 && !firstRecord && net.consumed == consumed + header && Heard(p, history, consumed, input)
      requires Sent(p, history, version, net.sent, output) && Ordered(p, config, entropy, version, history)
      modifies `input, `history, net`incoming, net`consumed
      ensures Sound() && history == old(history).Logged(x) && input == Hear(p, old(input), x)
      ensures var n, rest, r := ReadU16(header, 3), old(net.incoming), old(View().reader);
              (o, View().reader) == if |rest| < n then (Failed(EndOfStream), r.(wire := [])) else Deliver(p, r, header[0], rest[..n], rest[n..])
      ensures Told(o, x, old(input))
    {
      hide Heard; hide Record; hide Sent; hide Ordered; hide AfterOpen; hide Open; hide Seal;
      ghost var before := input;
      x := Cut(header + net.incoming);
      assert consumed + header + net.incoming == consumed + (header + net.incoming);
      HearCut(p, before, x);
      var body := net.ReadFull(ReadU16(header, 3));
      if body.None? {
        Log(x, before, consumed);
        return Failed(EndOfStream), x;
      }
      x := Whole(header[0], ReadU16(header, 1), body.value);
      HeaderWrites(header, body.value);
      assert consumed + header + body.value == consumed + (header + body.value);
      o := OpenBody(header[0], body.value, x);
      Log(x, before, consumed);
    }

    /** A whole body, through the cipher when there is one. */
    method OpenBody(typ: byte, body: Bytes, ghost x: Inbound) returns (o: Outcome)
      requires x.Carries(typ) && x.body == body
      modifies `input
      ensures input == Hear(p, old(input), x) && Told(o, x, old(input))
      ensures o == match Open(p, old(input), typ, body) { case Plain(data) => Received(typ, data) case Rejected(why) => Failed(why) }
    {
      SealsOrNot(p, input, x);
      hide Seal; hide Standard.Protect;
      if input.active {
        hide Open; hide AfterOpen;
        o := Decrypt(typ, body);
      } else {
        o := Received(typ, body);
      }
    }

    /** The keystream moves on whatever happens; the sequence number only with a good MAC. What is returned is
        what the body protects under the number and at the offset the cipher had. */
    method Decrypt(typ: byte, body: Bytes) returns (o: Outcome)
      requires input.active
      modifies `input
      ensures input == old(input).(pos := old(input).pos + |body|,
                                   seqNo := if o.Received? then NextSequence(old(input).seqNo) else old(input).seqNo)
      ensures match o
              case Received(t, data) => t == typ && body == Standard.Protect(p, KeysOf(old(input)), old(input).pos, old(input).seqNo, typ, data)
              case Failed(why) =>
                why == (if |body| < old(input).hash.Size() then ShortEncryptedRecord else BadRecordMac)
                && forall data :: body != Standard.Protect(p, KeysOf(old(input)), old(input).pos, old(input).seqNo, typ, data)
      ensures input == AfterOpen(p, old(input), typ, body)
      ensures o == match Open(p, old(input), typ, body) { case Plain(data) => Received(typ, data) case Rejected(why) => Failed(why) }
    {
      ghost var before := input;
      ProtectsOrNot(p, before, typ, body);
      var b := p.Rc4(input.key, input.pos, body);
      input := input.(pos := input.pos + |body|);
      var macLen := input.hash.Size();
      if |b| < macLen {
        return Failed(ShortEncryptedRecord);
      }
      var plain, got := b[..|b| - macLen], b[|b| - macLen..];
      var want := RecordMac(p, input, typ, plain);
      MacIgnoresPosition(p, before, input.pos, typ, plain);
      if got != want {
        return Failed(BadRecordMac);
      }
      input := input.(seqNo := NextSequence(input.seqNo));
      o := Received(typ, plain);
    }

    method WriteRawRecord(typ: byte, data: Bytes) returns (ok: bool, ghost taken: nat)
      modifies `failed, net`sent
      ensures taken <= |Record(version, typ, data)| && net.sent == old(net.sent) + Record(version, typ, data)[..taken]
      ensures ok ==> taken == |Record(version, typ, data)|
      ensures failed == (old(failed) || !ok)
    {
      hide Record;
      var whole := Record(version, typ, data);
      ok, taken := net.WriteAll(whole);
      failed := failed || !ok;
    }

    /** The cipher moves on whether or not the stream takes the record. */
    method WriteRecord(typ: byte, plain: Bytes) returns (ok: bool, ghost taken: nat)
      modifies `failed, `output, net`sent
      ensures var whole := Record(version, typ, Seal(p, old(output), typ, plain));
              taken <= |whole| && net.sent == old(net.sent) + whole[..taken] && (ok ==> taken == |whole|)
      ensures output == After(old(output), |plain|) && failed == (old(failed) || !ok)
    {
      hide RecordMac; hide Record;
      var data := plain;
      if output.active {
        data := data + RecordMac(p, output, typ, plain);
        data := p.Rc4(output.key, output.pos, data);
        output := output.(pos := output.pos + |data|, seqNo := NextSequence(output.seqNo));
      }
      ok, taken := WriteRawRecord(typ, data);
    }

    // ----- the handshake's reads -----

    /** What holds throughout a handshake. */
    ghost predicate Negotiating()
      reads this, net
    {
      Sound() && readBuf == [] && delivered == []
    }

    /** One record of the handshake, whatever becomes of it. */
    method ReadHandshakeRecord() returns (o: Outcome, ghost x: Inbound)
      requires Negotiating()
      modifies `input, `firstRecord, `history, net`incoming, net`consumed
      ensures Negotiating() && history == old(history).Logged(x) && input == Hear(p, old(input), x)
      ensures (o, View().reader) == RecordLayer.ReadRecord(p, old(View().reader))
      ensures o.Received? ==> x.Carries(o.typ) && Open(p, old(input), o.typ, x.body) == Plain(o.data)
      ensures !old(input.active) ==> !input.active && (o.Received? ==> x.body == o.data)
    {
      hide Sound; hide RecordLayer.ReadRecord; hide Given;
      ghost var cipher := input;
      o, x := ReadRecord();
      if !cipher.active {
        PlainStays(p, cipher, x);
      }
      hide Hear; hide Open;
    }

    /** The version is set as soon as it is known to be supported. */
    method TakeHello(data: Bytes) returns (r: Phase<Greeting>)
      modifies `version
      ensures (r, version) == HandshakeProtocol.TakeHello(data, old(version))
      ensures r.Go? ==> r.value.message == data && version == r.value.version
                        && AcceptsHello(r.value.message, version, r.value.random, r.value.suite)
    {
      hide HelloMessage; hide HelloChoice;
      var message := ParseHelloMessage(data);
      if message.Reject? {
        return Stop(HelloRejected(message.why));
      }
      var ch := message.value;
      var body := ch[4..];
      var clientVersion := ReadU16(body, 0);
      if clientVersion != SSL30 && clientVersion != TLS10 {
        return Stop(HelloRejected(UnsupportedVersion));
      }
      version := clientVersion;
      var clientRandom := body[2..34];
      var suite := ParseHelloChoice(body);
      if suite.Reject? {
        return Stop(HelloRejected(suite.why));
      }
      r := Go(Greeting(ch, clientVersion, clientRandom, suite.value));
    }

    method ReadHello() returns (r: Phase<Greeting>)
      requires Negotiating() && history == NOTHING && output == INACTIVE
      modifies `input, `firstRecord, `history, `version, net`incoming, net`consumed
      ensures Negotiating() && !input.active && history == NOTHING.(prelude := history.prelude) && |history.prelude| == 1
      ensures (r, View()) == HelloPhase(p, old(View()))
      ensures r.Go? ==> history.prelude[0].Carries(HANDSHAKE) && history.prelude[0].body == r.value.message && version == r.value.version
                        && AcceptsHello(r.value.message, version, r.value.random, r.value.suite)
    {
      assert input == INACTIVE;
      hide RecordLayer.ReadRecord; hide HandshakeProtocol.TakeHello; hide AcceptsHello; hide Open; hide Heard;
      hide Sent; hide Ordered;
      var got; ghost var x, before := Cut([]), version;
      got, x := ReadHandshakeRecord();
      if got.Failed? {
        return Stop(RecordFailed(got.why));
      }
      if got.typ != HANDSHAKE {
        return Stop(ExpectedClientHello);
      }
      r := TakeHello(got.data);
      VersionFree(p, config, entropy, before, version, history, net.sent);
    }

    method ReadKeyExchange(decrypt: Bytes -> Option<Bytes>) returns (r: Phase<(Bytes, Bytes)>)
      requires Negotiating() && history.session.None? && !input.active
      modifies `input, `firstRecord, `history, net`incoming, net`consumed
      ensures Negotiating() && !input.active && exists x :: history == old(history).(prelude := old(history).prelude + [x])
      ensures (r, View()) == KeyExchangePhase(p, decrypt, old(View()))
      ensures r.Go? ==> var x := history.prelude[|history.prelude| - 1];
                x.Carries(HANDSHAKE) && x.body == r.value.0 && OneMessage(x.body, CLIENT_KEY_EXCHANGE) == Some(x.body)
                && decrypt(KeyExchangePayload(x.body)) == Some(r.value.1) && |r.value.1| == 48
    {
      hide RecordLayer.ReadRecord; hide Split; hide Sound;
      var got; ghost var x;
      got, x := ReadHandshakeRecord();
      if got.Failed? {
        return Stop(RecordFailed(got.why));
      }
      if got.typ != HANDSHAKE {
        return Stop(ExpectedClientKeyExchange);
      }
      var msgs := SplitLoop(got.data);
      if msgs.None? || |msgs.value| != 1 || msgs.value[0][0] != CLIENT_KEY_EXCHANGE {
        return Stop(MalformedClientKeyExchange);
      }
      var ckx := msgs.value[0];
      var enc := ckx[4..];
      if |enc| >= 2 && ReadU16(enc, 0) == |enc| - 2 {
        enc := enc[2..];
      }
      var premaster := decrypt(enc);
      if premaster.None? || |premaster.value| != 48 {
        return Stop(PremasterDecryptionFailed);
      }
      r := Go((ckx, premaster.value));
    }

    /** Reads the client's ChangeCipherSpec; on success its cipher is installed. */
    method ReadChangeCipherSpec(cipher: Cipher) returns (r: Phase<()>)
      requires Negotiating() && history.session.None? && !input.active
      modifies `input, `firstRecord, `history, net`incoming, net`consumed
      ensures (r, View()) == CipherPhase(p, cipher, old(View()))
      ensures exists x :: history == old(history).(prelude := old(history).prelude + [x])
      ensures if r.Go?
              then Heard(p, history, net.consumed, INACTIVE) && Sent(p, history, version, net.sent, output)
                   && Ordered(p, config, entropy, version, history) && input == cipher
                   && var x := history.prelude[|history.prelude| - 1]; x.Carries(CHANGE_CIPHER_SPEC) && x.body == [1]
              else Negotiating()
    {
      hide RecordLayer.ReadRecord; hide Split; hide Ordered; hide Sent;
      var got; ghost var x;
      got, x := ReadHandshakeRecord();
      if got.Failed? {
        return Stop(RecordFailed(got.why));
      }
      if got.typ != CHANGE_CIPHER_SPEC || got.data != [1] {
        return Stop(ExpectedChangeCipherSpec);
      }
      input := cipher;
      r := Go(());
    }

    method ReadFinished(s: Session) returns (r: Phase<Bytes>)
      requires Negotiating() && history.session == Some(s) && history.secured == [] && input == s.Input(p)
      requires version == s.version && (s.version == SSL30 || s.version == TLS10)
      modifies `input, `firstRecord, `history, net`incoming, net`consumed
      ensures Negotiating() && input.active
      ensures exists x :: history == old(history).(secured := [x])
      ensures r.Go? ==> Verified(p, s, history.secured, r.value)
      ensures (r, View()) == FinishedPhase(p, s.master, s.transcript, old(View()))
    {
      hide RecordLayer.ReadRecord; hide Split; hide Sound; hide FinishedVerify; hide Open;
      var got; ghost var x;
      got, x := ReadHandshakeRecord();
      assert [] + [x] == [x];
      if got.Failed? {
        return Stop(RecordFailed(got.why));
      }
      if got.typ != HANDSHAKE {
        return Stop(ExpectedFinished);
      }
      var msgs := SplitLoop(got.data);
      var finishedLen := if version == SSL30 then 36 else 12;
      if msgs.None? || |msgs.value| != 1 || msgs.value[0][0] != FINISHED || |msgs.value[0]| != 4 + finishedLen {
        return Stop(MalformedFinished);
      }
      var want := FinishedVerify(p, version, s.master, s.transcript, true);
      if msgs.value[0][4..] != want {
        return Stop(FinishedMismatch);
      }
      assert OneMessage(got.data, FINISHED) == Some(msgs.value[0]);
      r := Go(msgs.value[0]);
    }

    // ----- the handshake's writes -----

    /** An unprotected record. */
    method SendPlain(typ: byte, data: Bytes) returns (ok: bool, ghost e: Emission)
      requires Sent(p, history, version, net.sent, output) && output == INACTIVE && history.sealed == []
      requires Heard(p, history, net.consumed, input)
      modifies `failed, `history, net`sent
      ensures Sent(p, history, version, net.sent, output) && Heard(p, history, net.consumed, input)
      ensures history == old(history).(opening := old(history).opening + [e])
      ensures e.typ == typ && e.plain == data && (ok ==> Complete(INACTIVE, e)) && failed == (old(failed) || !ok)
      ensures ok ==> View() == Put(old(View()), typ, data)
    {
      hide Sent; hide Heard; hide Record;
      ghost var taken, before, sent := 0, history, net.sent;
      ok, taken := WriteRawRecord(typ, data);
      RecordLength(version, typ, data);
      e := Emission(typ, data, taken);
      OpeningSent(p, before, version, sent, e);
      WritingHeard(p, before, net.consumed, input, before.opening + [e], before.sealed);
      history := history.(opening := history.opening + [e]);
      assert ok ==> Record(version, typ, data)[..taken] == Record(version, typ, data);
    }

    /** A record under the server's cipher. */
    method SendSealed(typ: byte, plain: Bytes) returns (ok: bool, ghost e: Emission)
      requires Sent(p, history, version, net.sent, output) && output.active && history.session.Some?
      requires Heard(p, history, net.consumed, input)
      modifies `failed, `history, `output, net`sent
      ensures Sent(p, history, version, net.sent, output) && Heard(p, history, net.consumed, input)
      ensures history == old(history).(sealed := old(history).sealed + [e])
      ensures e.typ == typ && e.plain == plain && (ok ==> Complete(history.session.value.Output(p), e)) && failed == (old(failed) || !ok)
      ensures output == After(old(output), |plain|) && output.active && old(net.sent) <= net.sent
      ensures ok ==> net.sent == old(net.sent) + Record(version, typ, Seal(p, old(output), typ, plain))
    {
      ghost var taken, before, sent, cipher := 0, history, net.sent, output;
      ghost var base := history.session.value.Output(p);
      SpeakKeepsSize(base, history.sealed);
      assert MacSize(output) == MacSize(base);
      hide Sent; hide Heard; hide Seal; hide Record;
      ok, taken := WriteRecord(typ, plain);
      RecordLength(version, typ, Seal(p, cipher, typ, plain));
      e := Emission(typ, plain, taken);
      SealedSent(p, before, version, sent, cipher, e);
      WritingHeard(p, before, net.consumed, input, before.opening, before.sealed + [e]);
      history := history.(sealed := history.sealed + [e]);
      assert ok ==> Record(version, typ, Seal(p, cipher, typ, plain))[..taken] == Record(version, typ, Seal(p, cipher, typ, plain));
    }

    method BuildFlight(g: Greeting, serverRandom: Bytes, certs: seq<Bytes>) returns (flight: Bytes)
      ensures flight == Flight(g.version, serverRandom, g.suite, certs)
    {
      hide CertificateList;
      var sh := HandshakeMessage(SERVER_HELLO, U16(g.version) + serverRandom + [0] + U16(g.suite) + [0]);
      var certBody := FillCertificateBody(certs);
      var certMsg := HandshakeMessage(CERTIFICATE, certBody[..]);
      var done := HandshakeMessage(SERVER_HELLO_DONE, []);
      flight := sh[..] + certMsg[..] + done[..];
    }

    method SendFlight(g: Greeting, serverRandom: Bytes, certs: seq<Bytes>) returns (ok: bool, flight: Bytes)
      requires Negotiating() && output == INACTIVE && history == NOTHING.(prelude := history.prelude) && |history.prelude| == 1
      requires config.Some? && config.value.certificate == certs && entropy == Some(serverRandom)
      requires history.prelude[0].Carries(HANDSHAKE) && history.prelude[0].body == g.message
      requires AcceptsHello(g.message, version, g.random, g.suite) && version == g.version
      modifies `failed, `history, net`sent
      ensures Negotiating() && failed == (old(failed) || !ok)
      ensures flight == Flight(g.version, serverRandom, g.suite, certs)
      ensures ok ==> View() == Put(old(View()), HANDSHAKE, flight)
      ensures exists e :: history == old(history).(opening := [e]) && (ok ==> Complete(INACTIVE, e))
    {
      hide Sent; hide Heard; hide HelloMessage; hide HelloVersion; hide HelloChoice; hide Flight; hide Ordered;
      flight := BuildFlight(g, serverRandom, certs);
      ghost var e, before := Emission(HANDSHAKE, flight, 0), history;
      assert AnswersHello(config, entropy, before.prelude, version, e);
      ok, e := SendPlain(HANDSHAKE, flight);
      assert [] + [e] == [e] && AnswersHello(config, entropy, before.prelude, version, e);
      hide AnswersHello; hide Put;
      OrderedFlight(p, config, entropy, version, before, e);
    }

    /** The server's ChangeCipherSpec and Finished; its cipher is installed in between. */
    method SendFinished(done: Completion) returns (ok: bool)
      requires Negotiating() && history.session == Some(done.session) && history.finished == Some(done.finished)
      requires output == INACTIVE && |history.opening| == 1 && history.sealed == []
      requires version == done.session.version && (version == SSL30 || version == TLS10)
      modifies `failed, `history, `output, net`sent
      ensures Negotiating() && failed == (old(failed) || !ok)
      ensures history == old(history).(opening := history.opening, sealed := history.sealed) && |history.sealed| <= 1
      ensures old(history).opening <= history.opening
      ensures ok ==> Ready(history) && output.active
                     && View() == ServerFinish(p, done.session.Output(p), done.session.master, done.session.transcript + done.finished, old(View()))
    {
      hide Sent; hide Heard; hide FinishedVerify; hide Seal; hide Record; hide Ordered;
      ghost var e, before := Emission(0, [], 0), history;
      ok, e := SendPlain(CHANGE_CIPHER_SPEC, [1]);
      OrderedChange(p, config, entropy, version, before, e);
      if ok {
        InstalledSent(p, history, version, net.sent, done.session);
        output := done.session.Output(p);
        ok := SendServerFinished(done);
      }
    }

    /** The server Finished, the first record under its own cipher. */
    method SendServerFinished(done: Completion) returns (ok: bool)
      requires Negotiating() && history.session == Some(done.session) && history.finished == Some(done.finished)
      requires output.active && |history.opening| == 2 && Complete(INACTIVE, history.opening[1]) && history.sealed == []
      requires version == done.session.version && (version == SSL30 || version == TLS10)
      modifies `failed, `history, `output, net`sent
      ensures Negotiating() && failed == (old(failed) || !ok) && output.active
      ensures history == old(history).(sealed := history.sealed) && |history.sealed| == 1 && (ok ==> Ready(history))
      ensures var finished := ServerFinished(p, done.session, done.finished);
              output == After(old(output), |finished|)
              && (ok ==> net.sent == old(net.sent) + Record(version, HANDSHAKE, Seal(p, old(output), HANDSHAKE, finished)))
    {
      hide Sent; hide Heard; hide FinishedVerify; hide Seal; hide Record; hide Ordered; hide Message;
      ghost var e, before := Emission(0, [], 0), history;
      var s := done.session;
      var message := HandshakeMessage(FINISHED, FinishedVerify(p, version, s.master, s.transcript + done.finished, false));
      ok, e := SendSealed(HANDSHAKE, message[..]);
      assert [] + [e] == [e];
      OrderedFinished(p, config, entropy, version, before, e);
    }

    // ----- the handshake -----

    /** ClientHello in, the server's flight out. */
    method Greet(certs: seq<Bytes>) returns (r: Phase<Greeting>, sofar: Bytes)
      requires Negotiating() && history == NOTHING && output == INACTIVE && !failed && config.Some? && config.value.certificate == certs
      modifies `input, `firstRecord, `history, `version, `failed, net`incoming, net`consumed, net`sent
      ensures Negotiating() && !input.active && history.session.None? && history.finished.None? && history.sealed == []
      ensures failed ==> r == Stop(WriteFailed) && HelloPhase(p, old(View())).0.Go? && View().reader == HelloPhase(p, old(View())).1.reader
      ensures !failed ==> (r, View()) == GreetAndSend(p, certs, entropy, old(View()))
      ensures r.Go? ==> entropy.Some? && version == r.value.version && (version == SSL30 || version == TLS10)
                        && sofar == Transcript(r.value, entropy.value, certs)
                        && AcceptsHello(r.value.message, version, r.value.random, r.value.suite) && Greeted(r.value.message)
    {
      hide Sent; hide Heard; hide Ordered; hide HelloPhase; hide AcceptsHello; hide Flight;
      sofar := [];
      var hello := ReadHello();
      ghost var s1 := View();
      if hello.Stop? {
        return Stop(hello.error), sofar;
      }
      if entropy.None? {
        return Stop(NoRandomness), sofar;
      }
      var ok, flight := SendFlight(hello.value, entropy.value, certs);
      if !ok {
        return Stop(WriteFailed), sofar;
      }
      r, sofar := Go(hello.value), hello.value.message + flight;
    }

    /** One message was read and the whole flight was sent. */
    ghost predicate Greeted(hello: Bytes)
      reads this
    {
      && |history.prelude| == |history.opening| == 1 && history.session.None? && history.finished.None? && history.sealed == []
      && history.prelude[0].Carries(HANDSHAKE) && history.prelude[0].body == hello && Complete(INACTIVE, history.opening[0])
    }

    /** The session in use from here on; its keys come from what has been read. */
    ghost method Install(s: Session)
      requires Heard(p, history, net.consumed, INACTIVE) && Sent(p, history, version, net.sent, output) && output == INACTIVE
      requires Ordered(p, config, entropy, version, history) && readBuf == [] && delivered == [] && input == s.Input(p)
      requires history.session.None? && history.finished.None? && |history.opening| == 1 && Complete(INACTIVE, history.opening[0])
      requires Derived(p, config, entropy, history.prelude, s) && version == s.version
      modifies `history
      ensures Negotiating() && history == old(history).(session := Some(s)) && history.secured == []
    {
      hide Derived; hide AnswersHello;
      InstalledHeard(p, history, net.consumed, s);
      InstalledSent(p, history.(session := Some(s)), version, net.sent, s);
      history := history.(session := Some(s));
    }

    /** Key exchange, the client's ciphers and its Finished. */
    method RunClientPhases(decrypt: Bytes -> Option<Bytes>, g: Greeting, serverRandom: Bytes, sofar: Bytes) returns (r: Phase<Completion>)
      requires Negotiating() && !input.active && output == INACTIVE && Greeted(g.message)
      requires AcceptsHello(g.message, version, g.random, g.suite) && version == g.version && (version == SSL30 || version == TLS10)
      requires config.Some? && config.value.privateKey == Some(decrypt) && entropy == Some(serverRandom)
      requires sofar == Transcript(g, serverRandom, config.value.certificate)
      modifies `input, `firstRecord, `history, net`incoming, net`consumed
      ensures Negotiating()
      ensures history.opening == old(history.opening) && history.sealed == []
      ensures (r, View()) == ClientPhases(p, decrypt, g, serverRandom, sofar, old(View()))
      ensures if r.Go? then Confirmed(r.value) else history.finished.None?
    {
      hide FinishedVerify; hide ClientCipher; hide MasterSecret; hide ExpandKeys; hide Standard.Master; hide Standard.KeyBlock;
      hide KeyExchangePhase; hide CipherPhase;
      hide FinishedPhase; hide Flight;
      hide Heard; hide Sent; hide Verified; hide AcceptsHello;
      hide Ordered;
      ghost var hello := history.prelude[0];
      var exchange := ReadKeyExchange(decrypt);
      if exchange.Stop? {
        return Stop(exchange.error);
      }
      var (ckx, premaster) := exchange.value;
      var master := MasterSecret(p, g.version, premaster, g.random, serverRandom);
      SecretsAreStandard(p, g.version, premaster, g.random, serverRandom, 0);
      var s := Session(g.version, g.suite, master, g.random, serverRandom, sofar + ckx);
      var change := ReadChangeCipherSpec(s.Input(p));
      if change.Stop? {
        return Stop(change.error);
      }
      assert history.prelude[0] == hello && history.prelude[1].body == ckx;
      Install(s);
      var finished := ReadFinished(s);
      if finished.Stop? {
        return Stop(finished.error);
      }
      r := Go(Completion(s, finished.value));
      Confirm(s, finished.value);
    }

    /** The client Finished is there and nothing else has come under its ciphers yet. */
    ghost predicate Confirmed(done: Completion)
      reads this
    {
      && history.session == Some(done.session) && history.finished == Some(done.finished) && |history.secured| == 1
      && Verified(p, done.session, history.secured, done.finished) && version == done.session.version && input.active
    }

    ghost method Confirm(s: Session, finished: Bytes)
      requires Negotiating() && history.session == Some(s) && history.finished.None? && Verified(p, s, history.secured, finished)
      modifies `history
      ensures Negotiating() && history == old(history).(finished := Some(finished))
    {
      hide Verified; hide Derived; hide AnswersHello;
      history := history.(finished := Some(finished));
    }

    /** The handshake; it succeeds only after the client Finished was verified and the server Finished sent. */
    method RunHandshake() returns (r: Phase<Completion>)
      requires Negotiating() && history == NOTHING && output == INACTIVE && !failed
      modifies `input, `firstRecord, `history, `version, `failed, `output, net`incoming, net`consumed, net`sent
      ensures Negotiating() && |history.sealed| <= 1
      ensures r.Go? ==> Ready(history) && output.active && input.active && Opened() == []
      ensures failed ==> r == Stop(WriteFailed)
      ensures !failed ==> (r, View()) == HandshakeProtocol.Handshake(p, config, entropy, old(View()))
      ensures failed && history.finished.None? ==> View().reader == HelloPhase(p, old(View())).1.reader
      ensures failed && history.finished.Some? ==>
                var (h, s) := HandshakeProtocol.Handshake(p, config, entropy, old(View())); h.Go? && View().reader == s.reader
    {
      hide ClientPhases; hide GreetAndSend; hide Sound; hide HelloPhase; hide Verified; hide Plaintext;
      hide AcceptsHello; hide Flight;
      hide HandshakeProtocol.Handshake; hide ServerFinish; hide Transcript; hide Fits; hide MasterSecret; hide Session.Input; hide Session.Output;
      if config.None? || config.value.privateKey.None? || |config.value.certificate| == 0 {
        NeedsCertificate(p, config, entropy, View());
        return Stop(NoCertificate);
      }
      ghost var s0 := View();
      var greeting, sofar := Greet(config.value.certificate);
      ghost var s1 := View();
      if greeting.Stop? {
        if !failed {
          PhasesCompose(p, config.value, entropy, s0, greeting, s1, Stop(greeting.error), s1);
        }
        return Stop(greeting.error);
      }
      r := RunClientPhases(config.value.privateKey.value, greeting.value, entropy.value, sofar);
      PhasesCompose(p, config.value, entropy, s0, greeting, s1, r, View());
      if r.Stop? {
        return;
      }
      NothingOpened(p, r.value.session, history.secured, r.value.finished);
      var ok := SendFinished(r.value);
      if !ok {
        return Stop(WriteFailed);
      }
    }

    lemma SaysNothing()
      requires Sound() && |history.sealed| <= 1
      ensures Said(history.sealed) == []
    {
      FinishedSaysNothing(p, config, entropy, version, history);
    }

    /** Runs at most once; later calls repeat the first result. */
    method Handshake() returns (r: Option<HandshakeError>)
      requires Valid()
      modifies this, net
      ensures Valid() && !status.Pending?
      ensures r == match status { case Broken(e) => Some(e) case _ => None }
      ensures old(history).ExtendedBy(history) && Said(history.sealed) == old(Said(history.sealed))
      ensures !old(status).Pending? ==> status == old(status) && View() == old(View()) && failed == old(failed)
                                        && history == old(history) && net.consumed == old(net.consumed)
      ensures delivered == old(delivered)
      ensures old(status).Pending? ==> (failed ==> status == Broken(WriteFailed))
      ensures old(status).Pending? && !failed ==>
                var (h, s) := HandshakeProtocol.Handshake(p, config, entropy, old(View()));
                View() == s && status == match h { case Go(_) => Established case Stop(e) => Broken(e) }
    {
      hide Sound; hide Said; hide HandshakeProtocol.Handshake; hide Plaintext;
      if status.Pending? {
        SaysNothing();
        var h := RunHandshake();
        status := match h { case Go(_) => Established case Stop(e) => Broken(e) };
        SaysNothing();
      }
      r := match status { case Broken(e) => Some(e) case _ => None };
    }

    // ----- application data -----

    /** `history` after more has been read. */
    ghost predicate ReadOn(before: History)
      reads this`history
    {
      history == before.(secured := history.secured) && before.secured <= history.secured
    }

    /** `history` after more has been written. */
    ghost predicate WroteOn(before: History)
      reads this`history
    {
      history == before.(sealed := history.sealed) && before.sealed <= history.sealed
    }

    method Read(size: nat) returns (r: ReadResult)
      requires Valid()
      modifies this, net
      ensures Valid() && !status.Pending? && old(history).ExtendedBy(history) && Said(history.sealed) == old(Said(history.sealed))
      ensures old(status).Established? ==>
                status.Established? && ReadOn(old(history)) && r.Connected? && (r.outcome, View()) == ReadStep(p, old(View()), size)
      ensures old(status).Broken? ==> status == old(status) && r == NotConnected(old(status).error) && View() == old(View()) && history == old(history)
      ensures old(status).Pending? ==> (r.Connected? <==> status.Established?)
      ensures old(status).Pending? && !failed ==>
                var (h, s) := HandshakeProtocol.Handshake(p, config, entropy, old(View()));
                match h
                case Stop(e) => r == NotConnected(e) && View() == s
                case Go(_) => r.Connected? && (r.outcome, View()) == ReadStep(p, s, size)
      ensures delivered == match r { case Connected(Data(bytes)) => old(delivered) + bytes case _ => old(delivered) }
    {
      hide Valid; hide Said; hide HandshakeProtocol.Handshake; hide ReadStep;
      var err := Handshake();
      if err.Some? {
        return NotConnected(err.value);
      }
      r := ReadEstablished(size);
    }

    /** One record under the client's cipher; what it opened to is added to what came through. */
    method ReadSecured() returns (o: Outcome)
      requires Sound() && history.session.Some?
      modifies `input, `firstRecord, `history, net`incoming, net`consumed
      ensures Sound() && ReadOn(old(history))
      ensures (o, View().reader) == RecordLayer.ReadRecord(p, old(View().reader))
      ensures Opened() == old(Opened()) + (if o.Received? && o.typ == APPLICATION_DATA then o.data else [])
    {
      ghost var before, s := history, history.session.value;
      assert input == Listen(p, s.Input(p), before.secured);
      hide RecordLayer.ReadRecord; hide Sound; hide Listen; hide Plaintext; hide Given; hide Accepted; hide Open;
      ghost var x;
      o, x := ReadRecord();
      ListenStep(p, s.Input(p), before.secured, x);
    }

    /** One record into the empty buffer; any other kind of record is the result. */
    method Refill(size: nat) returns (r: Option<ReadOutcome>)
      requires Valid() && status.Established? && readBuf == []
      modifies `input, `firstRecord, `history, `readBuf, net`incoming, net`consumed
      ensures Valid() && ReadOn(old(history))
      ensures match r
              case None => |net.incoming| < |old(net.incoming)| && ReadStep(p, View(), size) == ReadStep(p, old(View()), size)
              case Some(outcome) => (outcome, View()) == ReadStep(p, old(View()), size) && !outcome.Data?
    {
      hide RecordLayer.ReadRecord; hide ReadStep; hide Sound; hide Opened;
      ghost var s := View();
      var got := ReadSecured();
      ReadUnbuffered(p, s, size, got, View().reader);
      if got.Failed? {
        return Some(RecordError(got.why));
      }
      if got.typ == APPLICATION_DATA {
        readBuf := got.data;
        return None;
      }
      if got.typ == ALERT {
        if |got.data| >= 2 && got.data[1] == 0 {
          return Some(Eof);
        }
        return Some(PeerAlert(got.data));
      }
      r := Some(UnexpectedRecord(got.typ));
    }

    method ReadEstablished(size: nat) returns (r: ReadResult)
      requires Valid() && status.Established?
      modifies `input, `firstRecord, `history, `readBuf, `delivered, net`incoming, net`consumed
      ensures Valid() && ReadOn(old(history))
      ensures r.Connected? && (r.outcome, View()) == ReadStep(p, old(View()), size)
      ensures delivered == match r { case Connected(Data(bytes)) => old(delivered) + bytes case _ => old(delivered) }
    {
      hide ReadStep; hide Sound;
      while |readBuf| == 0
        invariant Valid() && delivered == old(delivered) && ReadOn(old(history))
        invariant ReadStep(p, View(), size) == ReadStep(p, old(View()), size)
        decreases |net.incoming|
      {
        var outcome := Refill(size);
        if outcome.Some? {
          return Connected(outcome.value);
        }
      }
      r := TakeBuffered(size);
    }

    method TakeBuffered(size: nat) returns (r: ReadResult)
      requires Valid() && status.Established? && readBuf != []
      modifies `readBuf, `delivered
      ensures Valid()
      ensures r.Connected? && r.outcome.Data? && (r.outcome, View()) == ReadStep(p, old(View()), size)
      ensures delivered == old(delivered) + r.outcome.bytes
    {
      hide ReadStep; hide Sound;
      ReadBuffered(p, View(), size);
      var k := if size < |readBuf| then size else |readBuf|;
      var bytes := readBuf[..k];
      assert delivered + readBuf == delivered + bytes + readBuf[k..];
      readBuf := readBuf[k..];
      delivered := delivered + bytes;
      r := Connected(Data(bytes));
    }

    method Write(data: Bytes) returns (r: WriteResult)
      requires Valid()
      modifies this, net
      ensures Valid() && !status.Pending? && delivered == old(delivered) && old(history).ExtendedBy(history)
      ensures Said(history.sealed) == old(Said(history.sealed)) + Handed(data, r)
      ensures r.Wrote? ==> r.count <= |data| && (!r.ok ==> failed)
      ensures old(status).Broken? ==> status == old(status) && r == WriteRefused(old(status).error) && View() == old(View()) && history == old(history)
      ensures old(status).Established? ==>
                status.Established? && WroteOn(old(history)) && r.Wrote?
                && if r.ok then r.count == |data| && View() == WriteStep(p, old(View()), data)
                   else r.count < |data| && WriteStep(p, old(View()), data[..r.count]).sent <= net.sent
      ensures old(status).Pending? ==> (r.Wrote? <==> status.Established?)
      ensures old(status).Pending? && !failed ==>
                var (h, s) := HandshakeProtocol.Handshake(p, config, entropy, old(View()));
                match h
                case Stop(e) => r == WriteRefused(e) && View() == s
                case Go(_) => r == Wrote(|data|, true) && View() == WriteStep(p, s, data)
    {
      hide Valid; hide Said; hide HandshakeProtocol.Handshake; hide WriteStep;
      var err := Handshake();
      if err.Some? {
        return WriteRefused(err.value);
      }
      r := WriteEstablished(data);
    }

    /** One fragment, sealed under the server cipher. */
    method WriteFragment(fragment: Bytes) returns (ok: bool)
      requires Valid() && status.Established? && 1 <= |fragment| <= MAX_FRAGMENT
      modifies `output, `failed, `history, net`sent
      ensures Valid() && failed == (old(failed) || !ok) && old(net.sent) <= net.sent && WroteOn(old(history))
      ensures Said(history.sealed) == old(Said(history.sealed)) + fragment
      ensures ok ==> net.sent == old(net.sent) + Record(version, APPLICATION_DATA, Seal(p, old(output), APPLICATION_DATA, fragment))
      ensures output == After(old(output), |fragment|)
    {
      hide Heard; hide Sent; hide Ordered; hide Record; hide Seal; hide Said; hide Plaintext;
      ghost var before, e := history, Emission(0, [], 0);
      ok, e := SendSealed(APPLICATION_DATA, fragment);
      OrderedFragment(p, config, entropy, version, before, e);
      SaidStep(before.sealed, e);
    }

    /** A failed write reports the bytes of the fragments that were written completely before it. */
    method WriteEstablished(data: Bytes) returns (r: WriteResult)
      requires Valid() && status.Established?
      modifies `output, `failed, `history, net`sent
      ensures Valid() && (old(failed) ==> failed) && WroteOn(old(history))
      ensures r.Wrote? && r.count <= |data| && Said(history.sealed) == old(Said(history.sealed)) + Handed(data, r)
      ensures r.ok ==> failed == old(failed) && r.count == |data| && View() == WriteStep(p, old(View()), data)
      ensures !r.ok ==> failed && r.count < |data| && r.count % MAX_FRAGMENT == 0
                        && WriteStep(p, old(View()), data[..r.count]).sent <= net.sent
    {
      hide Record; hide Seal; hide Valid; hide WriteStep; hide Said;
      var rest := data;
      var written := 0;
      WriteNothing(p, View());
      assert data[..0] == [];
      while |rest| > 0
        invariant Valid() && failed == old(failed) && WroteOn(old(history))
        invariant written <= |data| && rest == data[written..] && (rest != [] ==> written % MAX_FRAGMENT == 0)
        invariant View() == WriteStep(p, old(View()), data[..written])
        invariant Said(history.sealed) == old(Said(history.sealed)) + data[..written]
        decreases |rest|
      {
        WriteResumes(p, old(View()), data, written);
        var n := |rest|;
        if n > MAX_FRAGMENT {
          n := MAX_FRAGMENT;
        }
        var fragment := rest[..n];
        assert fragment == FirstFragment(rest);
        var ok := WriteFragment(fragment);
        assert old(Said(history.sealed)) + data[..written] + fragment == old(Said(history.sealed)) + (data[..written] + fragment);
        if !ok {
          return Wrote(written, false);
        }
        assert data[..written + n] == data[..written] + fragment;
        written := written + n;
        rest := rest[n..];
      }
      assert data[..written] == data;
      r := Wrote(written, true);
    }
  }
}
