/** Application data between two connected ends: what every interleaving of writes and reads delivers. */
module Channel {
  import opened Bytes
  import opened Crypto
  import opened HandshakeMessages
  import opened Wrappers
  import opened RecordLayer
  import opened HandshakeProtocol

  // ----- Read and Write as functions of the state -----

  datatype ReadOutcome = Data(bytes: Bytes) | Eof | RecordError(why: RecordError) | PeerAlert(data: Bytes) | UnexpectedRecord(typ: byte)

  function ReadStep(p: Primitives, s: ConnState, n: nat): (ReadOutcome, ConnState)
    decreases |s.reader.wire|
  {
    if s.readBuf != [] then
      var k := if n < |s.readBuf| then n else |s.readBuf|;
      (Data(s.readBuf[..k]), s.(readBuf := s.readBuf[k..]))
    else
      var (got, reader) := ReadRecord(p, s.reader);
      var s' := s.(reader := reader);
      if got.Failed? then (RecordError(got.why), s')
      else if got.typ == APPLICATION_DATA then
        ReadRecordConsumes(p, s.reader);
        ReadStep(p, s'.(readBuf := got.data), n)
      else (Unread(got.typ, got.data), s')
  }

  /** A record that is no application data: close_notify ends the stream, anything else is an error. */
  function Unread(typ: byte, data: Bytes): ReadOutcome
  {
    if typ == ALERT then if |data| >= 2 && data[1] == 0 then Eof else PeerAlert(data)
    else UnexpectedRecord(typ)
  }

  function WriteStep(p: Primitives, s: ConnState, data: Bytes): ConnState
  {
    s.(sent := s.sent + SealAll(p, s.output, s.reader.version, APPLICATION_DATA, Fragments(data)),
       output := AfterAll(s.output, Fragments(data)))
  }

  function FirstFragment(data: Bytes): Bytes { if |data| > MAX_FRAGMENT then data[..MAX_FRAGMENT] else data }

  function Remaining(data: Bytes): Bytes { if |data| > MAX_FRAGMENT then data[MAX_FRAGMENT..] else [] }

  /** One iteration of Write: the first fragment of what is left. */
  function EmitStep(p: Primitives, s: ConnState, data: Bytes): ConnState
  {
    var f := FirstFragment(data);
    s.(sent := s.sent + Record(s.reader.version, APPLICATION_DATA, Seal(p, s.output, APPLICATION_DATA, f)),
       output := After(s.output, |f|))
  }

  /** Write is its iterations, one record each. */
  lemma WriteIsEmissions(p: Primitives, s: ConnState, data: Bytes)
    requires data != []
    ensures WriteStep(p, s, data) == WriteStep(p, EmitStep(p, s, data), Remaining(data))
  {
    var f, fs := FirstFragment(data), Fragments(Remaining(data));
    assert Fragments(data) == [f] + fs;
    var tail := SealAll(p, After(s.output, |f|), s.reader.version, APPLICATION_DATA, fs);
    var first := Record(s.reader.version, APPLICATION_DATA, Seal(p, s.output, APPLICATION_DATA, f));
    assert SealAll(p, s.output, s.reader.version, APPLICATION_DATA, [f] + fs) == first + tail;
    assert AfterAll(s.output, [f] + fs) == AfterAll(After(s.output, |f|), fs);
    assert s.sent + (first + tail) == s.sent + first + tail;
  }

  /** The first fragment and the rest of what is cut off behind it. */
  lemma CutFragments(data: Bytes, upTo: nat)
    requires MAX_FRAGMENT <= upTo <= |data|
    ensures FirstFragment(data[..upTo]) == FirstFragment(data) == data[..MAX_FRAGMENT]
    ensures Remaining(data[..upTo]) == data[MAX_FRAGMENT..][..upTo - MAX_FRAGMENT]
  {
    assert data[..upTo][..MAX_FRAGMENT] == data[..MAX_FRAGMENT];
    assert data[..upTo][MAX_FRAGMENT..] == data[MAX_FRAGMENT..][..upTo - MAX_FRAGMENT];
  }

  /** One emission depends on the first fragment only. */
  lemma SameEmission(p: Primitives, s: ConnState, a: Bytes, b: Bytes)
    requires FirstFragment(a) == FirstFragment(b)
    ensures EmitStep(p, s, a) == EmitStep(p, s, b)
  {
    hide Seal; hide Record; hide After;
  }

  lemma WriteFirst(p: Primitives, s: ConnState, data: Bytes)
    requires data != []
    ensures WriteStep(p, s, FirstFragment(data)) == EmitStep(p, s, data)
  {
    hide WriteStep; hide EmitStep;
    var f := FirstFragment(data);
    assert f != [] && FirstFragment(f) == f && Remaining(f) == [];
    WriteIsEmissions(p, s, f);
    SameEmission(p, s, f, data);
    WriteNothing(p, EmitStep(p, s, data));
  }

  /** Cut behind a whole fragment, a Write is its first part and then one more iteration. */
  lemma {:induction false} WriteResumes(p: Primitives, s: ConnState, data: Bytes, written: nat)
    requires written < |data| && written % MAX_FRAGMENT == 0
    ensures var n := |FirstFragment(data[written..])|;
            written + n <= |data|
            && WriteStep(p, s, data[..written + n]) == EmitStep(p, WriteStep(p, s, data[..written]), data[written..])
    decreases written
  {
    hide WriteStep; hide EmitStep;
    var n := |FirstFragment(data[written..])|;
    if written == 0 {
      assert data[..0] == [] && data[0..] == data && data[..n] == FirstFragment(data);
      WriteNothing(p, s);
      WriteFirst(p, s, data);
    } else {
      var s1, tail := EmitStep(p, s, data), data[MAX_FRAGMENT..];
      CutFragments(data, written);
      CutFragments(data, written + n);
      WriteIsEmissions(p, s, data[..written]);
      WriteIsEmissions(p, s, data[..written + n]);
      SameEmission(p, s, data[..written], data);
      SameEmission(p, s, data[..written + n], data);
      assert tail[written - MAX_FRAGMENT..] == data[written..];
      hide FirstFragment; hide Remaining;
      WriteResumes(p, s1, tail, written - MAX_FRAGMENT);
    }
  }

  lemma WriteNothing(p: Primitives, s: ConnState)
    ensures WriteStep(p, s, []) == s
  {
    assert s.sent + [] == s.sent;
  }

  lemma ReadBuffered(p: Primitives, s: ConnState, n: nat)
    requires s.readBuf != []
    ensures var k := if n < |s.readBuf| then n else |s.readBuf|;
            ReadStep(p, s, n) == (Data(s.readBuf[..k]), s.(readBuf := s.readBuf[k..]))
  {
  }

  /** With an empty buffer, Read is its next record and then itself. */
  lemma ReadUnbuffered(p: Primitives, s: ConnState, n: nat, got: Outcome, reader: Reader)
    requires s.readBuf == [] && ReadRecord(p, s.reader) == (got, reader)
    ensures got.Failed? ==> ReadStep(p, s, n) == (RecordError(got.why), s.(reader := reader))
    ensures got.Received? ==> |reader.wire| < |s.reader.wire|
    ensures got.Received? && got.typ == APPLICATION_DATA ==> ReadStep(p, s, n) == ReadStep(p, s.(reader := reader, readBuf := got.data), n)
    ensures got.Received? && got.typ != APPLICATION_DATA ==> ReadStep(p, s, n) == (Unread(got.typ, got.data), s.(reader := reader))
  {
    ReadRecordConsumes(p, s.reader);
  }

  function Blanks(count: nat): seq<Bytes> { if count == 0 then [] else [[]] + Blanks(count - 1) }

  /** What a Read of size `n` makes of a record, types by their numbers: application data is returned as far
      as `n` goes and the rest is kept; an alert with description 0 is the end of the stream, any other alert
      and any other record an error. */
  predicate Decided(outcome: ReadOutcome, kept: Bytes, typ: byte, plain: Bytes, n: nat)
  {
    if typ == 23 then outcome == Data(if n < |plain| then plain[..n] else plain) && outcome.bytes + kept == plain
    else
      kept == []
      && outcome == if typ == 21 then if |plain| >= 2 && plain[1] == 0 then Eof else PeerAlert(plain) else UnexpectedRecord(typ)
  }

  lemma DecidesNow(p: Primitives, s: ConnState, n: nat, typ: byte, plain: Bytes, rest: Bytes)
    requires s.readBuf == [] && s.reader.version < 0x1_0000 && |plain| + MacSize(s.reader.cipher) <= 18432 && (typ == 23 ==> plain != [])
    requires s.reader.wire == Record(s.reader.version, typ, Seal(p, s.reader.cipher, typ, plain)) + rest
    ensures var (outcome, s') := ReadStep(p, s, n);
            Decided(outcome, s'.readBuf, typ, plain, n)
            && s'.reader == Reader(s.reader.version, false, After(s.reader.cipher, |plain|), rest)
  {
    hide ReadStep; hide ReadRecord; hide Record; hide Seal; hide After;
    var reader := Reader(s.reader.version, false, After(s.reader.cipher, |plain|), rest);
    ReadOwnRecord(p, s.reader, s.reader.version, typ, plain, rest);
    ReadUnbuffered(p, s, n, Received(typ, plain), reader);
    if typ == 23 {
      ReadBuffered(p, s.(reader := reader, readBuf := plain), n);
    }
  }

  /** What Read makes of what the peer has sealed: empty application records are skipped, and the first other
      record decides. */
  lemma {:induction false} ReadDecides(p: Primitives, s: ConnState, n: nat, blanks: nat, typ: byte, plain: Bytes, rest: Bytes)
    requires s.readBuf == [] && s.reader.version < 0x1_0000 && |plain| + MacSize(s.reader.cipher) <= 18432
    requires typ == 23 ==> plain != []
    requires var c, v := s.reader.cipher, s.reader.version;
             s.reader.wire == SealAll(p, c, v, 23, Blanks(blanks)) + (Record(v, typ, Seal(p, AfterAll(c, Blanks(blanks)), typ, plain)) + rest)
    ensures var (outcome, s') := ReadStep(p, s, n);
            Decided(outcome, s'.readBuf, typ, plain, n)
            && s'.reader == Reader(s.reader.version, false, After(AfterAll(s.reader.cipher, Blanks(blanks)), |plain|), rest)
    decreases blanks
  {
    var c, v := s.reader.cipher, s.reader.version;
    hide ReadStep; hide SealAll; hide AfterAll; hide Record; hide Seal; hide Blanks; hide Decided; hide After;
    if blanks == 0 {
      NoBlanks(p, c, v, Record(v, typ, Seal(p, c, typ, plain)) + rest);
      DecidesNow(p, s, n, typ, plain, rest);
    } else {
      var c' := After(c, 0);
      SkipsBlank(p, s, n, blanks, Record(v, typ, Seal(p, AfterAll(c, Blanks(blanks)), typ, plain)) + rest);
      var tail := SealAll(p, c', v, 23, Blanks(blanks - 1)) + (Record(v, typ, Seal(p, AfterAll(c', Blanks(blanks - 1)), typ, plain)) + rest);
      ReadDecides(p, s.(reader := Reader(v, false, c', tail)), n, blanks - 1, typ, plain, rest);
    }
  }

  lemma NoBlanks(p: Primitives, c: Cipher, version: nat, more: Bytes)
    ensures AfterAll(c, Blanks(0)) == c && SealAll(p, c, version, 23, Blanks(0)) + more == more
  {
  }

  lemma SkipsBlank(p: Primitives, s: ConnState, n: nat, blanks: nat, more: Bytes)
    requires s.readBuf == [] && s.reader.version < 0x1_0000 && blanks > 0 && MacSize(s.reader.cipher) <= 18432
    requires s.reader.wire == SealAll(p, s.reader.cipher, s.reader.version, 23, Blanks(blanks)) + more
    ensures AfterAll(s.reader.cipher, Blanks(blanks)) == AfterAll(After(s.reader.cipher, 0), Blanks(blanks - 1))
    ensures MacSize(After(s.reader.cipher, 0)) == MacSize(s.reader.cipher)
    ensures var c := After(s.reader.cipher, 0);
            ReadStep(p, s, n)
            == ReadStep(p, s.(reader := Reader(s.reader.version, false, c, SealAll(p, c, s.reader.version, 23, Blanks(blanks - 1)) + more)), n)
  {
    var c, v := s.reader.cipher, s.reader.version;
    var tail := SealAll(p, After(c, 0), v, 23, Blanks(blanks - 1)) + more;
    assert Blanks(blanks)[0] == [] && Blanks(blanks)[1..] == Blanks(blanks - 1);
    SealAllStep(p, c, v, 23, Blanks(blanks));
    Regroup(Record(v, 23, Seal(p, c, 23, [])), SealAll(p, After(c, 0), v, 23, Blanks(blanks - 1)), more);
    hide SealAll; hide AfterAll;
    ReadOwnRecord(p, s.reader, v, 23, [], tail);
    ReadUnbuffered(p, s, n, Received(23, []), Reader(v, false, After(c, 0), tail));
    hide ReadStep; hide ReadRecord; hide Record; hide Seal;
    assert s.(reader := Reader(v, false, After(c, 0), tail), readBuf := []) == s.(reader := Reader(v, false, After(c, 0), tail));
  }

  // ----- two ends -----

  /** One end. `pending` is what its current Write has not emitted yet; `accepted` is everything given
      to Write, `delivered` everything Read has returned; `broken` records a Read that returned no data. */
  datatype End = End(conn: ConnState, pending: Bytes, accepted: Bytes, delivered: Bytes, emitted: nat, received: nat, broken: bool)

  datatype Link = Link(server: End, client: End)

  datatype Side = ServerSide | ClientSide

  datatype Event =
    | BeginWrite(side: Side, data: Bytes)
    | Emit(side: Side)
    | Receive(side: Side, size: nat)

  function Connected(server: ConnState, client: ConnState): Link
  {
    Link(End(server, [], [], [], 0, 0, false), End(client, [], [], [], 0, 0, false))
  }

  /** A write starts when the previous one of that side has finished (writeMu). */
  function Begin(e: End, data: Bytes): End
  {
    if e.pending != [] then e else e.(pending := data, accepted := e.accepted + data)
  }

  /** One record leaves `from` and arrives on the stream of `to`. */
  function Transmit(p: Primitives, from: End, to: End): (End, End)
  {
    if from.pending == [] then (from, to)
    else
      var f := FirstFragment(from.pending);
      var record := Record(from.conn.reader.version, APPLICATION_DATA, Seal(p, from.conn.output, APPLICATION_DATA, f));
      (from.(conn := EmitStep(p, from.conn, from.pending), pending := Remaining(from.pending), emitted := from.emitted + 1),
       to.(conn := to.conn.(reader := to.conn.reader.(wire := to.conn.reader.wire + record))))
  }

  /** A Read that would have to wait for the peer does not happen yet. */
  function Take(p: Primitives, e: End, size: nat): End
  {
    if e.conn.readBuf == [] && e.conn.reader.wire == [] then e
    else
      var (got, conn) := ReadStep(p, e.conn, size);
      var records := if e.conn.readBuf == [] then 1 else 0;
      match got
      case Data(bytes) => e.(conn := conn, delivered := e.delivered + bytes, received := e.received + records)
      case _ => e.(conn := conn, broken := true)
  }

  function Next(p: Primitives, l: Link, ev: Event): Link
  {
    match ev
    case BeginWrite(ServerSide, data) => l.(server := Begin(l.server, data))
    case BeginWrite(ClientSide, data) => l.(client := Begin(l.client, data))
    case Emit(ServerSide) => var (from, to) := Transmit(p, l.server, l.client); Link(from, to)
    case Emit(ClientSide) => var (from, to) := Transmit(p, l.client, l.server); Link(to, from)
    case Receive(ServerSide, size) => l.(server := Take(p, l.server, size))
    case Receive(ClientSide, size) => l.(client := Take(p, l.client, size))
  }

  function Run(p: Primitives, l: Link, evs: seq<Event>): Link
    decreases |evs|
  {
    if evs == [] then l else Run(p, Next(p, l, evs[0]), evs[1..])
  }

  // ----- the invariant of one direction -----

  /** The ciphers of both ends, with the records of `flying` between them on the stream. */
  ghost predicate Synchronised(p: Primitives, from: End, to: End, flying: seq<Bytes>)
  {
    var version, input := from.conn.reader.version, to.conn.reader.cipher;
    && version == to.conn.reader.version && version < 0x1_0000
    && input.active && from.conn.output == AfterAll(input, flying)
    && to.conn.reader.wire == SealAll(p, input, version, APPLICATION_DATA, flying)
    && AllFragments(flying)
  }

  /** Both sequence numbers count records (the handshake used number 0), modulo 2^64. */
  ghost predicate Counted(from: End, to: End)
  {
    && from.conn.output.seqNo == (1 + from.emitted) % SEQUENCE_MODULUS
    && to.conn.reader.cipher.seqNo == (1 + to.received) % SEQUENCE_MODULUS
    && !to.broken
  }

  lemma CountStep(seqNo: nat, count: nat)
    requires seqNo == (1 + count) % SEQUENCE_MODULUS
    ensures NextSequence(seqNo) == (1 + (count + 1)) % SEQUENCE_MODULUS
  {
  }

  /** Every accepted byte is delivered, buffered at the reader, on the stream, or still to be emitted. */
  ghost predicate Accounted(from: End, to: End, flying: seq<Bytes>)
  {
    from.accepted == to.delivered + (to.conn.readBuf + (Flatten(flying) + from.pending))
  }

  ghost predicate Flowing(p: Primitives, from: End, to: End, flying: seq<Bytes>)
  {
    Synchronised(p, from, to, flying) && Counted(from, to) && Accounted(from, to, flying)
  }

  ghost predicate Sound(p: Primitives, l: Link)
  {
    && (exists flying :: Flowing(p, l.server, l.client, flying))
    && (exists flying :: Flowing(p, l.client, l.server, flying))
  }

  lemma AfterAllActive(c: Cipher, fs: seq<Bytes>)
    requires c.active
    ensures AfterAll(c, fs).active
    decreases |fs|
  {
    if fs != [] {
      AfterAllActive(After(c, |fs[0]|), fs[1..]);
    }
  }

  /** A direction depends only on its writer's writing half and its reader's reading half. */
  lemma FlowingFrame(p: Primitives, from: End, to: End, from': End, to': End, flying: seq<Bytes>)
    requires Flowing(p, from, to, flying)
    requires from'.conn.reader.version == from.conn.reader.version && from'.conn.output == from.conn.output
    requires from'.pending == from.pending && from'.accepted == from.accepted && from'.emitted == from.emitted
    requires to'.conn.reader == to.conn.reader && to'.conn.readBuf == to.conn.readBuf
    requires to'.delivered == to.delivered && to'.received == to.received && to'.broken == to.broken
    ensures Flowing(p, from', to', flying)
  {
    hide SealAll; hide AfterAll; hide Flatten;
  }

  lemma RegroupFour(a: Bytes, b: Bytes, c: Bytes, d: Bytes)
    ensures a + (b + (c + d)) == a + (b + c) + d == a + b + (c + d)
  {
    assert b + (c + d) == b + c + d;
  }

  lemma BeginFlows(p: Primitives, from: End, to: End, flying: seq<Bytes>, data: Bytes)
    requires Flowing(p, from, to, flying)
    ensures Flowing(p, Begin(from, data), to, flying)
  {
    if from.pending == [] {
      assert Flatten(flying) + [] == Flatten(flying);
      RegroupFour(to.delivered, to.conn.readBuf, Flatten(flying), data);
    }
  }

  lemma TransmitSynchronises(p: Primitives, from: End, to: End, flying: seq<Bytes>, f: Bytes)
    requires Synchronised(p, from, to, flying) && from.pending != []
    requires f == FirstFragment(from.pending)
    ensures var (from', to') := Transmit(p, from, to); Synchronised(p, from', to', flying + [f])
  {
    assert 1 <= |f| <= MAX_FRAGMENT;
    SealAllAppend(p, to.conn.reader.cipher, from.conn.reader.version, APPLICATION_DATA, flying, f);
    AfterAllActive(to.conn.reader.cipher, flying);
  }

  lemma TransmitCounts(p: Primitives, from: End, to: End)
    requires Counted(from, to) && from.conn.output.active
    ensures var (from', to') := Transmit(p, from, to); Counted(from', to')
  {
    CountStep(from.conn.output.seqNo, from.emitted);
  }

  lemma TransmitAccounts(p: Primitives, from: End, to: End, flying: seq<Bytes>, f: Bytes)
    requires Accounted(from, to, flying) && from.pending != []
    requires f == FirstFragment(from.pending)
    ensures var (from', to') := Transmit(p, from, to); Accounted(from', to', flying + [f])
  {
    var rest := Remaining(from.pending);
    FlattenAppend(flying, [f]);
    FlattenOne(f);
    assert from.pending == f + rest;
    assert Flatten(flying) + (f + rest) == Flatten(flying) + f + rest;
  }

  lemma TransmitFlows(p: Primitives, from: End, to: End, flying: seq<Bytes>)
    returns (flying': seq<Bytes>)
    requires Flowing(p, from, to, flying)
    ensures var (from', to') := Transmit(p, from, to); Flowing(p, from', to', flying')
  {
    if from.pending == [] {
      return flying;
    }
    var f := FirstFragment(from.pending);
    flying' := flying + [f];
    AfterAllActive(to.conn.reader.cipher, flying);
    TransmitSynchronises(p, from, to, flying, f);
    TransmitCounts(p, from, to);
    TransmitAccounts(p, from, to, flying, f);
  }

  /** Reading one record that is on the stream. */
  lemma ReadStepTakesFirst(p: Primitives, s: ConnState, flying: seq<Bytes>, n: nat)
    requires s.readBuf == [] && flying != [] && AllFragments(flying)
    requires s.reader.version < 0x1_0000 && s.reader.cipher.active
    requires s.reader.wire == SealAll(p, s.reader.cipher, s.reader.version, APPLICATION_DATA, flying)
    ensures var k := if n < |flying[0]| then n else |flying[0]|;
            var c := After(s.reader.cipher, |flying[0]|);
            ReadStep(p, s, n) == (Data(flying[0][..k]),
              s.(reader := Reader(s.reader.version, false, c, SealAll(p, c, s.reader.version, APPLICATION_DATA, flying[1..])),
                 readBuf := flying[0][k..]))
  {
    var c := After(s.reader.cipher, |flying[0]|);
    var rest := SealAll(p, c, s.reader.version, APPLICATION_DATA, flying[1..]);
    ReadOwnRecord(p, s.reader, s.reader.version, APPLICATION_DATA, flying[0], rest);
    var s' := s.(reader := Reader(s.reader.version, false, c, rest), readBuf := flying[0]);
    assert ReadStep(p, s, n) == ReadStep(p, s', n);
  }

  lemma SealAllEmpty(p: Primitives, c: Cipher, version: nat, fs: seq<Bytes>)
    ensures SealAll(p, c, version, APPLICATION_DATA, fs) == [] <==> fs == []
  {
  }

  lemma TakeFlows(p: Primitives, from: End, to: End, flying: seq<Bytes>, n: nat)
    returns (flying': seq<Bytes>)
    requires Flowing(p, from, to, flying)
    ensures Flowing(p, from, Take(p, to, n), flying')
  {
    hide SealAll; hide AfterAll; hide Flatten; hide ReadRecord;
    SealAllEmpty(p, to.conn.reader.cipher, from.conn.reader.version, flying);
    var buf := to.conn.readBuf;
    if buf != [] {
      flying' := flying;
      TakeBuffered(from, to, flying, if n < |buf| then n else |buf|);
    } else if flying == [] {
      flying' := flying;
    } else {
      flying' := flying[1..];
      TakeFirst(p, from, to, flying, n);
    }
  }

  /** The first record in flight is read: what changes at the reader. */
  lemma TakeFirstResult(p: Primitives, to: End, flying: seq<Bytes>, n: nat)
    requires to.conn.readBuf == [] && flying != [] && AllFragments(flying)
    requires to.conn.reader.version < 0x1_0000 && to.conn.reader.cipher.active
    requires to.conn.reader.wire == SealAll(p, to.conn.reader.cipher, to.conn.reader.version, APPLICATION_DATA, flying)
    ensures var f, v := flying[0], to.conn.reader.version;
            var k := if n < |f| then n else |f|;
            var c := After(to.conn.reader.cipher, |f|);
            var to' := Take(p, to, n);
            to'.conn.reader == Reader(v, false, c, SealAll(p, c, v, APPLICATION_DATA, flying[1..]))
            && to'.conn.readBuf == f[k..] && to'.delivered == to.delivered + f[..k]
            && to'.received == to.received + 1 && to'.broken == to.broken
  {
    SealAllEmpty(p, to.conn.reader.cipher, to.conn.reader.version, flying);
    ReadStepTakesFirst(p, to.conn, flying, n);
  }

  lemma TakeFirst(p: Primitives, from: End, to: End, flying: seq<Bytes>, n: nat)
    requires Flowing(p, from, to, flying) && to.conn.readBuf == [] && flying != []
    ensures Flowing(p, from, Take(p, to, n), flying[1..])
  {
    TakeFirstResult(p, to, flying, n);
    FirstTaken(p, from, to, Take(p, to, n), flying, if n < |flying[0]| then n else |flying[0]|);
  }

  lemma FirstTaken(p: Primitives, from: End, to: End, to': End, flying: seq<Bytes>, k: nat)
    requires Flowing(p, from, to, flying) && to.conn.readBuf == [] && flying != [] && k <= |flying[0]|
    requires var v, c := to.conn.reader.version, After(to.conn.reader.cipher, |flying[0]|);
             to'.conn.reader == Reader(v, false, c, SealAll(p, c, v, APPLICATION_DATA, flying[1..]))
    requires to'.conn.readBuf == flying[0][k..] && to'.delivered == to.delivered + flying[0][..k]
    requires to'.received == to.received + 1 && to'.broken == to.broken
    ensures Flowing(p, from, to', flying[1..])
  {
    hide SealAll; hide Flatten; hide Synchronised; hide Counted;
    TakeFlying(from, to, flying, k);
    FirstCounts(p, from, to, to', flying);
    FirstSynchronises(p, from, to, to', flying);
  }

  lemma FirstCounts(p: Primitives, from: End, to: End, to': End, flying: seq<Bytes>)
    requires Synchronised(p, from, to, flying) && Counted(from, to) && flying != []
    requires to'.conn.reader.cipher == After(to.conn.reader.cipher, |flying[0]|)
    requires to'.received == to.received + 1 && to'.broken == to.broken
    ensures Counted(from, to')
  {
    hide SealAll; hide AfterAll;
    CountStep(to.conn.reader.cipher.seqNo, to.received);
  }

  lemma FirstSynchronises(p: Primitives, from: End, to: End, to': End, flying: seq<Bytes>)
    requires Synchronised(p, from, to, flying) && flying != []
    requires var v, c := to.conn.reader.version, After(to.conn.reader.cipher, |flying[0]|);
             to'.conn.reader == Reader(v, false, c, SealAll(p, c, v, APPLICATION_DATA, flying[1..]))
    ensures Synchronised(p, from, to', flying[1..])
  {
  }

  lemma TakeBuffered(from: End, to: End, flying: seq<Bytes>, k: nat)
    requires Accounted(from, to, flying) && k <= |to.conn.readBuf|
    ensures var buf := to.conn.readBuf;
            from.accepted == to.delivered + buf[..k] + (buf[k..] + (Flatten(flying) + from.pending))
  {
    var buf, after := to.conn.readBuf, Flatten(flying) + from.pending;
    assert buf == buf[..k] + buf[k..];
    assert to.delivered + (buf[..k] + buf[k..] + after) == to.delivered + buf[..k] + (buf[k..] + after);
  }

  lemma TakeFlying(from: End, to: End, flying: seq<Bytes>, k: nat)
    requires Accounted(from, to, flying) && to.conn.readBuf == [] && flying != [] && k <= |flying[0]|
    ensures var f := flying[0];
            from.accepted == to.delivered + f[..k] + (f[k..] + (Flatten(flying[1..]) + from.pending))
  {
    var f, after := flying[0], Flatten(flying[1..]) + from.pending;
    assert f == f[..k] + f[k..];
    assert [] + (f + Flatten(flying[1..]) + from.pending) == f[..k] + (f[k..] + after);
    assert to.delivered + (f[..k] + (f[k..] + after)) == to.delivered + f[..k] + (f[k..] + after);
  }

  /** Reading does not disturb the other direction: the writer half of an end is untouched. */
  lemma TakeKeepsWriter(p: Primitives, e: End, n: nat)
    ensures var e' := Take(p, e, n);
            e'.conn.output == e.conn.output && e'.conn.reader.version == e.conn.reader.version
            && e'.pending == e.pending && e'.accepted == e.accepted && e'.emitted == e.emitted
  {
    ReadStepKeeps(p, e.conn, n);
  }

  lemma {:induction false} ReadStepKeeps(p: Primitives, s: ConnState, n: nat)
    ensures ReadStep(p, s, n).1.output == s.output && ReadStep(p, s, n).1.reader.version == s.reader.version
            && ReadStep(p, s, n).1.sent == s.sent
    decreases |s.reader.wire|
  {
    if s.readBuf == [] {
      var (got, reader) := ReadRecord(p, s.reader);
      if got.Received? && got.typ == APPLICATION_DATA {
        ReadRecordConsumes(p, s.reader);
        ReadStepKeeps(p, s.(reader := reader, readBuf := got.data), n);
      }
    }
  }

  lemma NextSound(p: Primitives, l: Link, ev: Event)
    requires Sound(p, l)
    ensures Sound(p, Next(p, l, ev))
  {
    var down :| Flowing(p, l.server, l.client, down);
    var up :| Flowing(p, l.client, l.server, up);
    var l' := Next(p, l, ev);
    match ev
    case BeginWrite(ServerSide, data) =>
      BeginFlows(p, l.server, l.client, down, data);
      FlowingFrame(p, l.client, l.server, l'.client, l'.server, up);
    case BeginWrite(ClientSide, data) =>
      BeginFlows(p, l.client, l.server, up, data);
      FlowingFrame(p, l.server, l.client, l'.server, l'.client, down);
    case Emit(ServerSide) =>
      var down' := TransmitFlows(p, l.server, l.client, down);
      FlowingFrame(p, l.client, l.server, l'.client, l'.server, up);
    case Emit(ClientSide) =>
      var up' := TransmitFlows(p, l.client, l.server, up);
      FlowingFrame(p, l.server, l.client, l'.server, l'.client, down);
    case Receive(ServerSide, size) =>
      var up' := TakeFlows(p, l.client, l.server, up, size);
      TakeKeepsWriter(p, l.server, size);
      FlowingFrame(p, l.server, l.client, l'.server, l'.client, down);
    case Receive(ClientSide, size) =>
      var down' := TakeFlows(p, l.server, l.client, down, size);
      TakeKeepsWriter(p, l.client, size);
      FlowingFrame(p, l.client, l.server, l'.client, l'.server, up);
  }

  lemma {:induction false} RunSound(p: Primitives, l: Link, evs: seq<Event>)
    requires Sound(p, l)
    ensures Sound(p, Run(p, l, evs))
    decreases |evs|
  {
    if evs != [] {
      NextSound(p, l, evs[0]);
      RunSound(p, Next(p, l, evs[0]), evs[1..]);
    }
  }

  // ----- main result -----

  /** What one direction promises: a prefix always, everything once the stream is drained, a counter per
      record on both sides, and no failed read. */
  ghost predicate Delivers(from: End, to: End)
  {
    && to.delivered <= from.accepted
    && (from.pending == [] && to.conn.reader.wire == [] && to.conn.readBuf == [] ==> to.delivered == from.accepted)
    && from.conn.output.seqNo == (1 + from.emitted) % SEQUENCE_MODULUS
    && to.conn.reader.cipher.seqNo == (1 + to.received) % SEQUENCE_MODULUS
    && !to.broken
  }

  lemma FlowingDelivers(p: Primitives, from: End, to: End, flying: seq<Bytes>)
    requires Flowing(p, from, to, flying)
    ensures Delivers(from, to)
  {
    SealAllEmpty(p, to.conn.reader.cipher, from.conn.reader.version, flying);
  }

  lemma AgreedFlows(p: Primitives, server: ConnState, client: ConnState)
    requires Agreed(server, client.reader, client.output)
    requires server.reader.wire == [] && client.reader.wire == [] && server.readBuf == [] && client.readBuf == []
    ensures Sound(p, Connected(server, client))
  {
    var l := Connected(server, client);
    assert Flowing(p, l.server, l.client, []);
    assert Flowing(p, l.client, l.server, []);
  }

  /** Transparency: after an agreed handshake, every interleaving of writes, single-record emissions
      and reads of any sizes keeps both directions faithful. */
  lemma RecordLayerTransparency(p: Primitives, server: ConnState, client: ConnState, evs: seq<Event>)
    requires Agreed(server, client.reader, client.output)
    requires server.reader.wire == [] && client.reader.wire == [] && server.readBuf == [] && client.readBuf == []
    ensures var l := Run(p, Connected(server, client), evs);
            Delivers(l.server, l.client) && Delivers(l.client, l.server)
  {
    AgreedFlows(p, server, client);
    RunSound(p, Connected(server, client), evs);
    var l := Run(p, Connected(server, client), evs);
    var down :| Flowing(p, l.server, l.client, down);
    var up :| Flowing(p, l.client, l.server, up);
    FlowingDelivers(p, l.server, l.client, down);
    FlowingDelivers(p, l.client, l.server, up);
  }

  /** What is still to be emitted or delivered in one direction. */
  function Backlog(from: End, to: End): int { |from.pending| + |from.accepted| - |to.delivered| }

  lemma ReadingDelivers(p: Primitives, from: End, to: End, flying: seq<Bytes>)
    requires Flowing(p, from, to, flying) && from.pending == [] && |to.delivered| < |from.accepted|
    ensures |Take(p, to, 1).delivered| > |to.delivered|
  {
    hide SealAll; hide AfterAll; hide ReadRecord;
    if to.conn.readBuf == [] {
      SealAllEmpty(p, to.conn.reader.cipher, from.conn.reader.version, flying);
      assert flying != [];
      TakeFirstResult(p, to, flying, 1);
    }
  }

  /** As long as there is a backlog in one direction, a step reduces it. */
  lemma Advances(p: Primitives, from: End, to: End, flying: seq<Bytes>)
    requires Flowing(p, from, to, flying)
    ensures Backlog(from, to) >= 0 && (Backlog(from, to) == 0 ==> to.delivered == from.accepted)
    ensures from.pending != [] ==> var (from', to') := Transmit(p, from, to); Backlog(from', to') < Backlog(from, to)
    ensures from.pending == [] && Backlog(from, to) > 0 ==> |Take(p, to, 1).delivered| > |to.delivered|
  {
    hide SealAll; hide AfterAll; hide ReadRecord;
    if from.pending == [] && Backlog(from, to) > 0 {
      ReadingDelivers(p, from, to, flying);
    }
  }

  lemma BacklogSound(p: Primitives, l: Link)
    requires Sound(p, l)
    ensures Backlog(l.server, l.client) >= 0 && Backlog(l.client, l.server) >= 0
    ensures Backlog(l.server, l.client) == 0 ==> l.client.delivered == l.server.accepted
    ensures Backlog(l.client, l.server) == 0 ==> l.server.delivered == l.client.accepted
    ensures l.server.pending != [] ==>
              var (from, to) := Transmit(p, l.server, l.client); Backlog(from, to) < Backlog(l.server, l.client)
    ensures l.client.pending != [] ==>
              var (from, to) := Transmit(p, l.client, l.server); Backlog(from, to) < Backlog(l.client, l.server)
    ensures l.server.pending == [] && Backlog(l.server, l.client) > 0 ==> |Take(p, l.client, 1).delivered| > |l.client.delivered|
    ensures l.client.pending == [] && Backlog(l.client, l.server) > 0 ==> |Take(p, l.server, 1).delivered| > |l.server.delivered|
  {
    var down :| Flowing(p, l.server, l.client, down);
    var up :| Flowing(p, l.client, l.server, up);
    hide Flowing; hide Take; hide Transmit;
    Advances(p, l.server, l.client, down);
    Advances(p, l.client, l.server, up);
  }

  lemma AdvanceLink(p: Primitives, l: Link) returns (ev: Event)
    requires Sound(p, l) && Backlog(l.server, l.client) + Backlog(l.client, l.server) > 0
    ensures var l' := Next(p, l, ev);
            Sound(p, l') && l'.server.accepted == l.server.accepted && l'.client.accepted == l.client.accepted
            && 0 <= Backlog(l'.server, l'.client) + Backlog(l'.client, l'.server) < Backlog(l.server, l.client) + Backlog(l.client, l.server)
  {
    hide Sound; hide EmitStep; hide Take; hide Record;
    BacklogSound(p, l);
    TakeKeepsWriter(p, l.server, 1);
    TakeKeepsWriter(p, l.client, 1);
    ev := if l.server.pending != [] then Emit(ServerSide)
          else if l.client.pending != [] then Emit(ClientSide)
          else if Backlog(l.server, l.client) > 0 then Receive(ClientSide, 1) else Receive(ServerSide, 1);
    NextSound(p, l, ev);
    BacklogSound(p, Next(p, l, ev));
  }

  /** Whatever has happened, emitting and reading on delivers everything that was accepted. */
  lemma {:induction false} Drains(p: Primitives, l: Link) returns (evs: seq<Event>)
    requires Sound(p, l)
    ensures var l' := Run(p, l, evs);
            l'.server.accepted == l.server.accepted && l'.client.accepted == l.client.accepted
            && l'.client.delivered == l.server.accepted && l'.server.delivered == l.client.accepted
    decreases Backlog(l.server, l.client) + Backlog(l.client, l.server)
  {
    hide Next; hide Sound;
    BacklogSound(p, l);
    if Backlog(l.server, l.client) + Backlog(l.client, l.server) == 0 {
      return [];
    }
    var ev := AdvanceLink(p, l);
    var rest := Drains(p, Next(p, l, ev));
    evs := [ev] + rest;
    assert evs[1..] == rest;
  }

  lemma RunTwo(p: Primitives, l: Link, evs: seq<Event>)
    requires |evs| >= 2
    ensures Run(p, l, evs) == Run(p, Next(p, Next(p, l, evs[0]), evs[1]), evs[2..])
  {
    hide Next;
    assert evs[1..][1..] == evs[2..];
  }

  /** From any reachable state, once the pending writes are out: two more writes, one on each side, and some
      emissions and reads later each side has read exactly what the other one has written. */
  lemma WritesArrive(p: Primitives, l: Link, down: Bytes, up: Bytes) returns (evs: seq<Event>)
    requires Sound(p, l) && l.server.pending == [] && l.client.pending == []
    ensures |evs| >= 2 && evs[0] == BeginWrite(ServerSide, down) && evs[1] == BeginWrite(ClientSide, up)
    ensures var l' := Run(p, l, evs);
            l'.client.delivered == l.server.accepted + down && l'.server.delivered == l.client.accepted + up
  {
    var l1 := Next(p, l, BeginWrite(ServerSide, down));
    NextSound(p, l, BeginWrite(ServerSide, down));
    var l2 := Next(p, l1, BeginWrite(ClientSide, up));
    NextSound(p, l1, BeginWrite(ClientSide, up));
    assert l2.server.accepted == l.server.accepted + down && l2.client.accepted == l.client.accepted + up;
    hide Sound; hide Next;
    var rest := Drains(p, l2);
    evs := [BeginWrite(ServerSide, down), BeginWrite(ClientSide, up)] + rest;
    RunTwo(p, l, evs);
    assert evs[2..] == rest;
  }

  /** From the first byte to the last: every honest client gets a link on which nothing is lost,
      reordered or refused, whatever is written and read afterwards. */
  lemma HonestSession(p: Primitives, certs: seq<Bytes>, decrypt: Bytes -> Option<Bytes>, serverRandom: Bytes, c: Client, evs: seq<Event>)
    requires c.Honest(decrypt) && c.Understood(decrypt) && certs != [] && |serverRandom| == 32
    requires |Flight(c.hello.version, serverRandom, Choice(c.hello.suites), certs)| < 0x1_0000
    ensures var v, flight := c.hello.version, Flight(c.hello.version, serverRandom, Choice(c.hello.suites), certs);
            var reply := Respond(p, c, flight);
            reply.Some?
            && var (r, server) := Handshake(p, Some(Config(certs, Some(decrypt))), Some(serverRandom),
                                            Fresh(c.FirstRecord() + (reply.value.bytes + [])));
               r.Go? && TakeFlight(v, server.sent).Some?
               && var reader := Conclude(p, v, reply.value, TakeFlight(v, server.sent).value.1);
                  reader.Some?
                  && var l := Run(p, Connected(server, ConnState(reader.value, reply.value.output, [], [])), evs);
                     Delivers(l.server, l.client) && Delivers(l.client, l.server)
  {
    var v, flight := c.hello.version, Flight(c.hello.version, serverRandom, Choice(c.hello.suites), certs);
    HandshakeAgreement(p, certs, decrypt, serverRandom, c, []);
    var reply := Respond(p, c, flight).value;
    var server := Handshake(p, Some(Config(certs, Some(decrypt))), Some(serverRandom), Fresh(c.FirstRecord() + (reply.bytes + []))).1;
    var reader := Conclude(p, v, reply, TakeFlight(v, server.sent).value.1).value;
    RecordLayerTransparency(p, server, ConnState(reader, reply.output, [], []), evs);
  }
}
