/** Several goroutines write frames to one secure connection under its mutex, and each Write is many
    steps: lock, check, encrypt, any number of partial stream writes, unlock. */
module EasoSenders {
  import opened Bytes
  import opened Crypto
  import opened Wrappers
  import opened Easo

  type Sender = nat

  /** Where a goroutine stands in writeFrame. */
  datatype Phase =
    | Idle
    | Waiting(frame: Frame)
    | Locked(frame: Frame)
    | Sending(rest: Bytes)
    | Finished

  /** `locked` are the frames in the order the mutex was taken for them, `served` those of them that
      their holder has looked at. */
  datatype State = State(holder: Option<Sender>, phases: map<Sender, Phase>, pos: nat, wire: Bytes,
                         locked: seq<Frame>, served: seq<Frame>)
  {
    function PhaseOf(i: Sender): Phase { if i in phases then phases[i] else Idle }

    function At(i: Sender, phase: Phase): State { this.(phases := phases[i := phase]) }
  }

  const START: State := State(None, map[], 0, [], [], [])

  datatype Step =
    | Ask(sender: Sender, frame: Frame)
    | Lock(sender: Sender)
    | Encrypt(sender: Sender)
    | Push(sender: Sender, count: nat)
    | Unlock(sender: Sender)

  /** A step that is not enabled changes nothing; the stream does not fail. */
  function Next(p: Primitives, key: Bytes, s: State, step: Step): State
  {
    var i := step.sender;
    match (step, s.PhaseOf(i))
    case (Ask(_, f), Idle) => s.At(i, Waiting(f))
    case (Lock(_), Waiting(f)) =>
      if s.holder.Some? then s else s.At(i, Locked(f)).(holder := Some(i), locked := s.locked + [f])
    case (Encrypt(_), Locked(f)) =>
      if Refusal(f).Some? then s.At(i, Finished).(served := s.served + [f])
      else s.At(i, Sending(SecurePacket(p, key, s.pos, f))).(pos := s.pos + SecureLength(f), served := s.served + [f])
    case (Push(_, n), Sending(rest)) =>
      if n == 0 || n > |rest| then s
      else s.At(i, if n == |rest| then Finished else Sending(rest[n..])).(wire := s.wire + rest[..n])
    case (Unlock(_), Finished) => s.At(i, Idle).(holder := None)
    case _ => s
  }

  function Run(p: Primitives, key: Bytes, s: State, steps: seq<Step>): State
    decreases |steps|
  {
    if steps == [] then s else Run(p, key, Next(p, key, s, steps[0]), steps[1..])
  }

  // ----- what the stream holds -----

  ghost predicate AllSendable(fs: seq<Frame>) { forall i :: 0 <= i < |fs| ==> Refusal(fs[i]).None? }

  /** The packets of `fs` one behind the other, on one continuous cipher stream. */
  ghost function EncodeAll(p: Primitives, key: Bytes, fs: seq<Frame>): Bytes
    requires AllSendable(fs)
  {
    if fs == [] then []
    else
      var init, f := fs[..|fs| - 1], fs[|fs| - 1];
      assert Refusal(f).None?;
      EncodeAll(p, key, init) + SecurePacket(p, key, Total(init), f)
  }

  function Total(fs: seq<Frame>): nat
  {
    if fs == [] then 0 else Total(fs[..|fs| - 1]) + SecureLength(fs[|fs| - 1])
  }

  /** The frames the writer lets through. */
  function Sendable(fs: seq<Frame>): (r: seq<Frame>)
    ensures AllSendable(r)
  {
    if fs == [] then []
    else Sendable(fs[..|fs| - 1]) + (if Refusal(fs[|fs| - 1]).None? then [fs[|fs| - 1]] else [])
  }

  function HolderPhase(s: State): Phase { if s.holder.None? then Idle else s.PhaseOf(s.holder.value) }

  /** What the holder still has to put on the stream. */
  function HolderRest(s: State): Bytes { match HolderPhase(s) case Sending(rest) => rest case _ => [] }

  /** The frame the holder has locked but not looked at yet. */
  function Undecided(s: State): seq<Frame> { match HolderPhase(s) case Locked(f) => [f] case _ => [] }

  predicate InCritical(phase: Phase) { phase.Locked? || phase.Sending? || phase.Finished? }

  /** Only the mutex holder is past Waiting. */
  ghost predicate Exclusive(s: State)
  {
    && (forall i: Sender :: InCritical(s.PhaseOf(i)) ==> s.holder == Some(i))
    && (s.holder.Some? ==> InCritical(HolderPhase(s)))
  }

  /** The stream is the packets of what was let through, up to what the holder has not written yet. */
  ghost predicate OnWire(p: Primitives, key: Bytes, s: State)
  {
    && s.wire + HolderRest(s) == EncodeAll(p, key, Sendable(s.served))
    && s.pos == Total(Sendable(s.served))
    && (HolderPhase(s).Sending? ==>
          HolderRest(s) != [] && Sendable(s.served) != []
          && |HolderRest(s)| <= SecureLength(Sendable(s.served)[|Sendable(s.served)| - 1]))
  }

  ghost predicate Inv(p: Primitives, key: Bytes, s: State)
  {
    Exclusive(s) && OnWire(p, key, s) && s.locked == s.served + Undecided(s)
  }

  lemma EncodeAllStep(p: Primitives, key: Bytes, fs: seq<Frame>, f: Frame)
    requires AllSendable(fs) && Refusal(f).None?
    ensures AllSendable(fs + [f])
    ensures EncodeAll(p, key, fs + [f]) == EncodeAll(p, key, fs) + SecurePacket(p, key, Total(fs), f)
    ensures Total(fs + [f]) == Total(fs) + SecureLength(f)
  {
    assert (fs + [f])[..|fs|] == fs;
  }

  lemma SendableStep(fs: seq<Frame>, f: Frame)
    ensures Sendable(fs + [f]) == Sendable(fs) + (if Refusal(f).None? then [f] else [])
  {
    assert (fs + [f])[..|fs|] == fs;
  }

  lemma StepKeepsExclusive(p: Primitives, key: Bytes, s: State, step: Step)
    requires Exclusive(s)
    ensures Exclusive(Next(p, key, s, step))
  {
    hide SecurePacket; hide Refusal;
    var s' := Next(p, key, s, step);
    forall i: Sender | InCritical(s'.PhaseOf(i))
      ensures s'.holder == Some(i)
    {
      if i != step.sender {
        assert s'.PhaseOf(i) == s.PhaseOf(i);
      }
    }
  }

  lemma EncryptKeeps(p: Primitives, key: Bytes, s: State, i: Sender, f: Frame)
    requires Inv(p, key, s) && s.PhaseOf(i) == Locked(f)
    ensures var s' := Next(p, key, s, Encrypt(i)); OnWire(p, key, s') && s'.locked == s'.served + Undecided(s')
  {
    hide SecurePacket; hide Sendable; hide EncodeAll; hide Total;
    assert InCritical(s.PhaseOf(i));
    assert s.holder == Some(i) && HolderRest(s) == [] && Undecided(s) == [f];
    var s' := Next(p, key, s, Encrypt(i));
    var sent := Sendable(s.served);
    SendableStep(s.served, f);
    assert s.wire + [] == s.wire;
    assert s.served + [f] + [] == s.served + [f];
    if Refusal(f).None? {
      EncodeAllStep(p, key, sent, f);
      assert HolderRest(s') == SecurePacket(p, key, s.pos, f);
      assert Sendable(s'.served) == sent + [f];
    } else {
      assert sent + [] == sent;
      assert HolderRest(s') == [];
    }
  }

  lemma PushKeeps(p: Primitives, key: Bytes, s: State, i: Sender, n: nat)
    requires Inv(p, key, s) && s.PhaseOf(i).Sending?
    ensures var s' := Next(p, key, s, Push(i, n)); OnWire(p, key, s') && s'.locked == s'.served + Undecided(s')
  {
    hide SecurePacket; hide Sendable; hide Total; hide EncodeAll;
    assert InCritical(s.PhaseOf(i));
    var rest := s.PhaseOf(i).rest;
    if 0 < n <= |rest| {
      assert rest[..n] + rest[n..] == rest;
      assert s.wire + (rest[..n] + rest[n..]) == s.wire + rest[..n] + rest[n..];
      if n == |rest| {
        assert s.wire + rest[..n] + [] == s.wire + rest[..n];
      }
    }
  }

  lemma OthersKeep(p: Primitives, key: Bytes, s: State, step: Step)
    requires Inv(p, key, s) && (step.Ask? || step.Lock? || step.Unlock?)
    ensures var s' := Next(p, key, s, step); OnWire(p, key, s') && s'.locked == s'.served + Undecided(s')
  {
    hide SecurePacket; hide Sendable; hide Total; hide EncodeAll; hide Refusal;
    if InCritical(s.PhaseOf(step.sender)) {
      assert s.holder == Some(step.sender);
    }
    var s' := Next(p, key, s, step);
    assert s.served + [] == s.served;
  }

  lemma StepKeepsInv(p: Primitives, key: Bytes, s: State, step: Step)
    requires Inv(p, key, s)
    ensures Inv(p, key, Next(p, key, s, step))
  {
    hide OnWire;
    StepKeepsExclusive(p, key, s, step);
    match (step, s.PhaseOf(step.sender))
    case (Encrypt(i), Locked(f)) => EncryptKeeps(p, key, s, i, f);
    case (Push(i, n), Sending(_)) => PushKeeps(p, key, s, i, n);
    case _ =>
      if step.Ask? || step.Lock? || step.Unlock? {
        OthersKeep(p, key, s, step);
      }
  }

  lemma {:induction false} RunKeepsInv(p: Primitives, key: Bytes, s: State, steps: seq<Step>)
    requires Inv(p, key, s)
    ensures Inv(p, key, Run(p, key, s, steps))
    decreases |steps|
  {
    if steps != [] {
      StepKeepsInv(p, key, s, steps[0]);
      RunKeepsInv(p, key, Next(p, key, s, steps[0]), steps[1..]);
    }
  }

  // ----- whose frames they are -----

  /** The frames sender `i` has asked to write, in its order; it asks again only when it is idle. */
  function Asked(p: Primitives, key: Bytes, steps: seq<Step>, i: Sender): seq<Frame>
  {
    if steps == [] then []
    else
      var init, step := steps[..|steps| - 1], steps[|steps| - 1];
      Asked(p, key, init, i)
      + (if step.Ask? && step.sender == i && Run(p, key, START, init).PhaseOf(i).Idle? then [step.frame] else [])
  }

  /** Who took the mutex, in order. */
  function Lockers(p: Primitives, key: Bytes, steps: seq<Step>): seq<Sender>
  {
    if steps == [] then []
    else
      var init, step := steps[..|steps| - 1], steps[|steps| - 1];
      var s := Run(p, key, START, init);
      Lockers(p, key, init) + (if step.Lock? && s.holder.None? && s.PhaseOf(step.sender).Waiting? then [step.sender] else [])
  }

  /** The frames at the places of one sender. */
  function FramesOf(lockers: seq<Sender>, frames: seq<Frame>, i: Sender): seq<Frame>
    requires |lockers| == |frames|
  {
    if lockers == [] then []
    else
      var n := |lockers| - 1;
      FramesOf(lockers[..n], frames[..n], i) + (if lockers[n] == i then [frames[n]] else [])
  }

  function Pending(s: State, i: Sender): seq<Frame> { match s.PhaseOf(i) case Waiting(f) => [f] case _ => [] }

  lemma {:induction false} RunStep(p: Primitives, key: Bytes, s: State, steps: seq<Step>)
    requires steps != []
    ensures Run(p, key, s, steps) == Next(p, key, Run(p, key, s, steps[..|steps| - 1]), steps[|steps| - 1])
    decreases |steps|
  {
    hide Next;
    if |steps| > 1 {
      RunStep(p, key, Next(p, key, s, steps[0]), steps[1..]);
      assert steps[1..][..|steps| - 2] == steps[..|steps| - 1][1..];
    }
  }

  /** Over every interleaving the frames locked by a sender are those it asked for, in its order and all but
      the one it is waiting with. */
  lemma {:induction false} LockedAsAsked(p: Primitives, key: Bytes, steps: seq<Step>, i: Sender)
    ensures var s, lockers := Run(p, key, START, steps), Lockers(p, key, steps);
            |lockers| == |s.locked| && Asked(p, key, steps, i) == FramesOf(lockers, s.locked, i) + Pending(s, i)
  {
    if steps != [] {
      var init, step := steps[..|steps| - 1], steps[|steps| - 1];
      LockedAsAsked(p, key, init, i);
      RunStep(p, key, START, steps);
      var s, s' := Run(p, key, START, init), Run(p, key, START, steps);
      var before, lockers := Lockers(p, key, init), Lockers(p, key, steps);
      PendingStep(p, key, s, step, i);
      hide Run; hide Next; hide Pending;
      if step.Lock? && s.holder.None? && s.PhaseOf(step.sender).Waiting? {
        assert lockers[..|before|] == before && s'.locked[..|before|] == s.locked;
      } else {
        assert lockers == before && s'.locked == s.locked;
      }
      assert FramesOf(lockers, s'.locked, i) == FramesOf(before, s.locked, i) + LockedBy(s, step, i);
      assert FramesOf(lockers, s'.locked, i) + Pending(s', i) == FramesOf(before, s.locked, i) + (LockedBy(s, step, i) + Pending(s', i));
    }
  }

  /** The frame a step locks for sender `i`. */
  function LockedBy(s: State, step: Step, i: Sender): seq<Frame>
  {
    if step == Lock(i) && s.holder.None? && s.PhaseOf(i).Waiting? then [s.PhaseOf(i).frame] else []
  }

  lemma PendingStep(p: Primitives, key: Bytes, s: State, step: Step, i: Sender)
    ensures var s' := Next(p, key, s, step);
            Pending(s, i) + (if step.Ask? && step.sender == i && s.PhaseOf(i).Idle? then [step.frame] else [])
              == LockedBy(s, step, i) + Pending(s', i)
            && s'.locked
               == s.locked + if step.Lock? && s.holder.None? && s.PhaseOf(step.sender).Waiting? then [s.PhaseOf(step.sender).frame] else []
  {
    hide SecurePacket; hide Refusal;
    if step.sender != i {
      assert Next(p, key, s, step).PhaseOf(i) == s.PhaseOf(i);
    }
  }

  /** One sender alone, when nobody holds the mutex: its frame is on the stream as one packet, or has left no
      trace when the writer refuses it, and the mutex is free again. */
  lemma WriteAlone(p: Primitives, key: Bytes, s: State, i: Sender, f: Frame)
    requires s.holder.None? && s.PhaseOf(i).Idle?
    ensures var s' := Run(p, key, s, [Ask(i, f), Lock(i), Encrypt(i), Push(i, SecureLength(f)), Unlock(i)]);
            s'.holder.None? && s'.PhaseOf(i).Idle? && s'.locked == s.locked + [f]
            && if Refusal(f).None? then s'.wire == s.wire + SecurePacket(p, key, s.pos, f) && s'.pos == s.pos + SecureLength(f)
               else s'.wire == s.wire && s'.pos == s.pos
  {
    var steps := [Ask(i, f), Lock(i), Encrypt(i), Push(i, SecureLength(f)), Unlock(i)];
    var s1 := Next(p, key, s, steps[0]);
    var s2 := Next(p, key, s1, steps[1]);
    var s3 := Next(p, key, s2, steps[2]);
    var s4 := Next(p, key, s3, steps[3]);
    assert s2.PhaseOf(i) == Locked(f) && s2.holder == Some(i);
    hide SecurePacket;
    if Refusal(f).None? {
      var packet := SecurePacket(p, key, s.pos, f);
      assert packet[..|packet|] == packet;
      assert s4.PhaseOf(i) == Finished && s4.wire == s.wire + packet;
    }
    RunFive(p, key, s, steps);
  }

  lemma RunFive(p: Primitives, key: Bytes, s: State, steps: seq<Step>)
    requires |steps| == 5
    ensures var s1 := Next(p, key, s, steps[0]);
            var s2 := Next(p, key, s1, steps[1]);
            var s3 := Next(p, key, s2, steps[2]);
            var s4 := Next(p, key, s3, steps[3]);
            Run(p, key, s, steps) == Next(p, key, s4, steps[4])
  {
    hide Next;
    RunStep(p, key, s, steps);
    RunStep(p, key, s, steps[..4]);
    RunStep(p, key, s, steps[..3]);
    RunStep(p, key, s, steps[..2]);
    RunStep(p, key, s, steps[..1]);
    assert steps[..4][..3] == steps[..3] && steps[..3][..2] == steps[..2] && steps[..2][..1] == steps[..1] && steps[..1][..0] == [];
  }

  // ----- the peer -----

  /** What a reader that stops at an incomplete frame gets: the frames, its cipher position, the bytes
      it still waits on, and the error if a frame was refused. */
  datatype Received = Received(frames: seq<Frame>, pos: nat, rest: Bytes, error: Option<FrameError>)

  function ReadAll(p: Primitives, key: Bytes, pos: nat, wire: Bytes): Received
    decreases |wire|
  {
    var (r, pos', rest) := SecureDecode(p, key, pos, wire);
    match r
    case Err(EndOfStream) => Received([], pos, wire, None)
    case Err(e) => Received([], pos', rest, Some(e))
    case Ok(f) =>
      DecodeShrinks(p, key, pos, wire);
      var later := ReadAll(p, key, pos', rest);
      later.(frames := [f] + later.frames)
  }

  lemma DecodeShrinks(p: Primitives, key: Bytes, pos: nat, wire: Bytes)
    requires SecureDecode(p, key, pos, wire).0.Ok?
    ensures |SecureDecode(p, key, pos, wire).2| < |wire|
  {
    SecureReadBack(p, key, pos, wire);
  }

  /** A proper prefix of one packet is not a frame yet. */
  lemma PartialPacket(p: Primitives, key: Bytes, pos: nat, f: Frame, n: nat)
    requires Refusal(f).None? && n < SecureLength(f)
    ensures ReadAll(p, key, pos, SecurePacket(p, key, pos, f)[..n]) == Received([], pos, SecurePacket(p, key, pos, f)[..n], None)
  {
    var packet := SecurePacket(p, key, pos, f);
    var wire := packet[..n];
    if n >= HEADER_SIZE {
      assert packet + [] == packet;
      SecureRoundTrip(p, key, pos, f, []);
      assert wire[..HEADER_SIZE] == packet[..HEADER_SIZE];
      HeaderLength(p, key, pos, f);
    }
  }

  lemma HeaderLength(p: Primitives, key: Bytes, pos: nat, f: Frame)
    requires Refusal(f).None?
    ensures ReadU32(p.Rc4(key, pos, SecurePacket(p, key, pos, f)[..HEADER_SIZE]), 8) == SecureLength(f)
  {
    var packet, plain := SecurePacket(p, key, pos, f), SecurePlain(p, f);
    p.Rc4Twice(key, pos, plain);
    assert packet[..|packet|] == packet;
    HeaderDecrypts(p, key, pos, packet, |packet|);
    LayoutFields(f, SecureLength(f), p.md5(Layout(f, SecureLength(f)))[..MAC_SIZE]);
    assert ReadU32(plain[..HEADER_SIZE], 8) == ReadU32(plain, 8);
  }

  /** One frame in front is read, whatever follows. */
  lemma ReadAllFrame(p: Primitives, key: Bytes, pos: nat, f: Frame, tail: Bytes)
    requires Refusal(f).None?
    ensures var later := ReadAll(p, key, pos + SecureLength(f), tail);
            ReadAll(p, key, pos, SecurePacket(p, key, pos, f) + tail) == later.(frames := [f] + later.frames)
  {
    hide SecurePacket; hide SecureDecode; hide Refusal;
    SecureRoundTrip(p, key, pos, f, tail);
  }

  lemma {:induction false} ReadAllFrames(p: Primitives, key: Bytes, fs: seq<Frame>, tail: Bytes)
    requires AllSendable(fs)
    ensures var later := ReadAll(p, key, Total(fs), tail);
            ReadAll(p, key, 0, EncodeAll(p, key, fs) + tail) == later.(frames := fs + later.frames)
    decreases |fs|
  {
    hide SecurePacket; hide ReadAll;
    var later := ReadAll(p, key, Total(fs), tail);
    if fs == [] {
      assert [] + tail == tail;
      assert [] + later.frames == later.frames;
    } else {
      var init, f := fs[..|fs| - 1], fs[|fs| - 1];
      assert Refusal(f).None?;
      var packet := SecurePacket(p, key, Total(init), f);
      ReadAllFrames(p, key, init, packet + tail);
      assert EncodeAll(p, key, init) + packet + tail == EncodeAll(p, key, init) + (packet + tail);
      ReadAllFrame(p, key, Total(init), f, tail);
      assert init + ([f] + later.frames) == fs + later.frames;
    }
  }

  /** Nobody is in the middle of a write: everything let through has been read. */
  lemma PeerReadsAll(p: Primitives, key: Bytes, s: State)
    requires OnWire(p, key, s) && HolderRest(s) == []
    ensures ReadAll(p, key, 0, s.wire) == Received(Sendable(s.served), s.pos, [], None)
  {
    hide SecurePacket; hide Sendable;
    var fs := Sendable(s.served);
    ReadAllFrames(p, key, fs, []);
    assert s.wire + [] == s.wire && EncodeAll(p, key, fs) + [] == EncodeAll(p, key, fs);
    assert ReadAll(p, key, Total(fs), []) == Received([], Total(fs), [], None);
    assert fs + [] == fs;
  }

  /** The holder is in the middle of a write: all but its frame have been read. */
  lemma PeerReadsAllButLast(p: Primitives, key: Bytes, s: State)
    requires OnWire(p, key, s) && HolderRest(s) != []
    ensures var fs := Sendable(s.served);
            var got := ReadAll(p, key, 0, s.wire);
            fs != [] && got.frames == fs[..|fs| - 1] && got.error == None
  {
    hide Sendable; hide SecurePacket; hide ReadAll;
    var fs := Sendable(s.served);
    var init, f, rest := fs[..|fs| - 1], fs[|fs| - 1], HolderRest(s);
    assert Refusal(f).None?;
    var packet := SecurePacket(p, key, Total(init), f);
    var n := |packet| - |rest|;
    assert s.wire + rest == EncodeAll(p, key, init) + packet && 0 < |rest| <= |packet|;
    hide EncodeAll; hide Total; hide HolderRest; hide OnWire; hide SecureLength;
    DropSuffix(s.wire, rest, EncodeAll(p, key, init), packet);
    ReadAllFrames(p, key, init, packet[..n]);
    PartialPacket(p, key, Total(init), f, n);
    assert init + [] == init;
  }

  lemma DropSuffix(wire: Bytes, rest: Bytes, before: Bytes, packet: Bytes)
    requires wire + rest == before + packet && |rest| <= |packet|
    ensures wire == before + packet[..|packet| - |rest|]
  {
    assert wire == (wire + rest)[..|wire|];
  }

  /** Every interleaving: the peer has read exactly the sendable frames in the order the mutex was
      taken for them, except the one being written right now. Every digest matches, and refused
      frames leave no trace. */
  lemma PeerReadsLockOrder(p: Primitives, key: Bytes, steps: seq<Step>)
    ensures var s := Run(p, key, START, steps);
            var got, sent := ReadAll(p, key, 0, s.wire), Sendable(s.served);
            s.locked == s.served + Undecided(s) && got.error == None
            && (if HolderRest(s) == [] then got == Received(sent, s.pos, [], None)
                else sent != [] && got.frames == sent[..|sent| - 1])
  {
    var s := Run(p, key, START, steps);
    assert Inv(p, key, START);
    RunKeepsInv(p, key, START, steps);
    if HolderRest(s) == [] {
      PeerReadsAll(p, key, s);
    } else {
      PeerReadsAllButLast(p, key, s);
    }
  }
}
