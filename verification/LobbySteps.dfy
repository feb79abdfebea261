/** What each request does to the lobby, step by step, and to whom: said of the roster, the fields of the
    request and the clients' names, not of the machine's own searches. */
module LobbySteps {
  import opened Wrappers
  import opened Text
  import opened Decimal
  import opened GameRequest
  import opened LobbyModel

  // ----- who is meant -----

  predicate GoesBy<Id(==)>(names: map<Id, string>, c: Id, persona: string) { c in names && EqualFold(names[c], persona) }

  /** The first player of that name stands at `i`. */
  predicate FirstPlayer<Id(==)>(players: seq<Id>, names: map<Id, string>, persona: string, i: int)
  {
    0 <= i < |players| && GoesBy(names, players[i], persona) && forall j :: 0 <= j < i ==> !GoesBy(names, players[j], persona)
  }

  /** The first player of that name other than the host. */
  predicate FirstGuest<Id(==)>(players: seq<Id>, host: Id, names: map<Id, string>, persona: string, i: int)
  {
    0 <= i < |players| && players[i] != host && GoesBy(names, players[i], persona)
    && forall j :: 0 <= j < i ==> players[j] == host || !GoesBy(names, players[j], persona)
  }

  lemma {:induction false} FirstNamedExactly<Id>(players: seq<Id>, names: map<Id, string>, persona: string)
    ensures var t := FirstNamed(players, names, persona);
            (forall c :: t == Some(c) <==> exists i :: FirstPlayer(players, names, persona, i) && players[i] == c)
            && (t == None <==> forall c <- players :: !GoesBy(names, c, persona))
  {
    hide EqualFold;
    if players != [] && !GoesBy(names, players[0], persona) {
      FirstNamedExactly(players[1..], names, persona);
      FirstPlayerLater(players, names, persona);
    } else if players != [] {
      assert FirstPlayer(players, names, persona, 0);
    }
  }

  lemma FirstPlayerLater<Id>(players: seq<Id>, names: map<Id, string>, persona: string)
    requires players != [] && !GoesBy(names, players[0], persona)
    ensures forall i :: FirstPlayer(players[1..], names, persona, i) ==> FirstPlayer(players, names, persona, i + 1)
    ensures forall i :: FirstPlayer(players, names, persona, i) ==> i > 0 && FirstPlayer(players[1..], names, persona, i - 1)
  {
    hide EqualFold;
    forall i | FirstPlayer(players, names, persona, i)
      ensures i > 0 && FirstPlayer(players[1..], names, persona, i - 1)
    {
      assert forall j :: 0 <= j < i - 1 ==> players[1..][j] == players[j + 1];
    }
  }

  lemma {:induction false} KickIndexExactly<Id>(players: seq<Id>, host: Id, names: map<Id, string>, persona: string)
    ensures var k := KickIndex(players, host, names, persona);
            (forall i :: k == Some(i) <==> FirstGuest(players, host, names, persona, i))
            && (k == None <==> forall c <- players :: c == host || !GoesBy(names, c, persona))
  {
    hide EqualFold;
    if players != [] && (players[0] == host || !GoesBy(names, players[0], persona)) {
      KickIndexExactly(players[1..], host, names, persona);
      FirstGuestLater(players, host, names, persona);
    } else if players != [] {
      assert FirstGuest(players, host, names, persona, 0);
    }
  }

  lemma FirstGuestLater<Id>(players: seq<Id>, host: Id, names: map<Id, string>, persona: string)
    requires players != [] && (players[0] == host || !GoesBy(names, players[0], persona))
    ensures forall i :: FirstGuest(players[1..], host, names, persona, i) ==> FirstGuest(players, host, names, persona, i + 1)
    ensures forall i :: FirstGuest(players, host, names, persona, i) ==> i > 0 && FirstGuest(players[1..], host, names, persona, i - 1)
  {
    hide EqualFold;
    forall i | FirstGuest(players, host, names, persona, i)
      ensures i > 0 && FirstGuest(players[1..], host, names, persona, i - 1)
    {
      assert forall j :: 0 <= j < i - 1 ==> players[1..][j] == players[j + 1];
    }
  }

  // ----- the stored request -----

  /** The flags are `flags` now, and the other nine fields have only been read once more. */
  ghost predicate Reflagged(before: string, after: string, flags: int)
  {
    SysFlags(after) == flags
    && forall key <- KEYS :: key != "SYSFLAGS" ==> FieldValue(after, key) == Some(Reading(Field(before, key)))
  }

  lemma FlagsMerged(request: string, flags: int)
    requires Is32(flags)
    ensures Reflagged(request, Merge(request, FlagsUpdate(flags)), flags)
  {
    FlagsArrive(request, flags, 6);
    hide Merge; hide FieldValue; hide Reading; hide FlagsUpdate; hide SysFlags;
    assert KEYS[6] == "SYSFLAGS";
    forall i | 0 <= i < |KEYS| && i != 6
      ensures FieldValue(Merge(request, FlagsUpdate(flags)), KEYS[i]) == Some(Reading(Field(request, KEYS[i])))
    {
      FlagsUpdateReads(flags, i);
      MergeReads(request, FlagsUpdate(flags), i);
    }
  }

  lemma Restarted(request: string)
    ensures Reflagged(request, StartRequest(request), SetStarted(SysFlags(request))) && IsStarted(SetStarted(SysFlags(request)))
  {
    var flags := SysFlags(request);
    SysFlagsRange(request);
    FlagBits(flags);
    assert SetStarted(flags) in [SetStarted(flags), ClearStarted(flags)];
    hide Reflagged; hide Merge; hide FlagsUpdate; hide SysFlags; hide SetStarted; hide ClearStarted; hide IsStarted;
    FlagsMerged(request, SetStarted(flags));
  }

  lemma Refinished(request: string)
    ensures Reflagged(request, FinishRequest(request), ClearStarted(SysFlags(request))) && !IsStarted(ClearStarted(SysFlags(request)))
  {
    var flags := SysFlags(request);
    SysFlagsRange(request);
    FlagBits(flags);
    assert ClearStarted(flags) in [SetStarted(flags), ClearStarted(flags)];
    hide Reflagged; hide Merge; hide FlagsUpdate; hide SysFlags; hide SetStarted; hide ClearStarted; hide IsStarted;
    FlagsMerged(request, ClearStarted(flags));
  }

  // ----- start and result -----

  lemma NextRank<Id>(s: State<Id>, c: Id)
    requires c in s.live
    ensures Next(s, Rank(c)) == s.(lobby := match s.lobby case None => None case Some(l) => Some(Report(l, c).0))
  {
  }

  lemma NextGsta<Id>(s: State<Id>, c: Id)
    requires c in s.live
    ensures Next(s, Gsta(c)) == s.(lobby := match s.lobby case None => None case Some(l) => Some(Start(l, c).0))
  {
  }

  /** The host's start sets the flag, forgets the reports and changes nothing else; anybody else's start
      changes nothing. */
  lemma StartEffect<Id>(s: State<Id>, c: Id)
    requires c in s.live && s.lobby.Some?
    ensures var s', l := Next(s, Gsta(c)), s.lobby.value;
            if c != l.host then s' == s
            else
              s'.lobby.Some? && s' == s.(lobby := s'.lobby) && s'.lobby.value == l.(request := s'.lobby.value.request, reports := {})
              && Reflagged(l.request, s'.lobby.value.request, SetStarted(SysFlags(l.request))) && IsStarted(SetStarted(SysFlags(l.request)))
  {
    Restarted(s.lobby.value.request);
    NextGsta(s, c);
    hide Next; hide Reflagged; hide StartRequest; hide SetStarted; hide SysFlags; hide IsStarted;
  }

  /** Whether one more report makes as many as there are players. */
  predicate Suffices<Id(==)>(l: Lobby<Id>, c: Id) { |l.reports + {c}| >= |l.players| }

  /** A report counts if its sender is a player and the flag is set. When it does not suffice it is only
      noted; when it does, the flag is cleared besides, and nothing else changes. */
  lemma ReportEffect<Id>(s: State<Id>, c: Id)
    requires c in s.live && s.lobby.Some?
    ensures var s', l := Next(s, Rank(c)), s.lobby.value;
            if c !in l.players || !IsStarted(SysFlags(l.request)) then s' == s
            else
              s'.lobby.Some? && s' == s.(lobby := s'.lobby) && s'.lobby.value == l.(request := s'.lobby.value.request, reports := l.reports + {c})
              && if Suffices(l, c) then
                   Reflagged(l.request, s'.lobby.value.request, ClearStarted(SysFlags(l.request))) && !IsStarted(ClearStarted(SysFlags(l.request)))
                 else s'.lobby.value.request == l.request
  {
    Refinished(s.lobby.value.request);
    NextRank(s, c);
    hide Next; hide Reflagged; hide FinishRequest; hide ClearStarted; hide SysFlags; hide IsStarted;
  }

  // ----- kick and update -----

  /** `kicked` was the first guest of that name, and the roster without it is all that has changed. */
  ghost predicate TakesOut<Id>(before: Lobby<Id>, after: Lobby<Id>, names: map<Id, string>, persona: string, kicked: Id)
  {
    exists i :: FirstGuest(before.players, before.host, names, persona, i) && before.players[i] == kicked
                && after == before.(players := before.players[..i] + before.players[i + 1..])
  }

  /** Only the host kicks, and it kicks the first guest of that name, if there is one. */
  ghost predicate KickedAsNamed<Id>(before: Option<Lobby<Id>>, after: Option<Lobby<Id>>, names: map<Id, string>, c: Id, persona: string,
                                    kicked: Option<Id>)
  {
    match before
    case None => kicked == None && after == None
    case Some(l) =>
      match kicked
      case None => after == before && (c != l.host || forall d <- l.players :: d == l.host || !GoesBy(names, d, persona))
      case Some(k) => c == l.host && after.Some? && TakesOut(l, after.value, names, persona, k)
  }

  lemma NobodyKicked<Id>(names: map<Id, string>, c: Id, persona: string)
    ensures KickedAsNamed(None, None, names, c, persona, None)
  {
  }

  lemma KickNames<Id>(l: Lobby<Id>, names: map<Id, string>, c: Id, persona: string)
    ensures KickedAsNamed(Some(l), Some(Kick(l, names, c, persona).0), names, c, persona, Kick(l, names, c, persona).1)
  {
    KickIndexExactly(l.players, l.host, names, persona);
    hide KickIndex; hide FirstGuest; hide GoesBy;
  }

  /** A kick by the host takes out the first guest of that name and nobody else; it changes nothing else, and
      nothing at all when there is no such guest or somebody else asks. */
  lemma KickEffect<Id>(s: State<Id>, c: Id, payload: string)
    requires c in s.live && s.lobby.Some? && Field(payload, "KICK") != ""
    ensures var s', l, persona := Next(s, Gset(c, payload)), s.lobby.value, Field(payload, "KICK");
            (forall i :: c == l.host && FirstGuest(l.players, l.host, s.names, persona, i) ==>
                           s' == s.(lobby := Some(l.(players := l.players[..i] + l.players[i + 1..]))))
            && (c != l.host || (forall d <- l.players :: d == l.host || !GoesBy(s.names, d, persona)) ==> s' == s)
  {
    var l, persona := s.lobby.value, Field(payload, "KICK");
    KickIndexExactly(l.players, l.host, s.names, persona);
    hide Field; hide KickIndex; hide FirstGuest; hide GoesBy;
  }

  /** Whose parameters an update is about: without PERS the sender's own; with it, the first player of that
      name when the host sends it, and otherwise the sender, if it is its own name. */
  ghost predicate About<Id>(l: Lobby<Id>, names: map<Id, string>, c: Id, persona: string, t: Option<Id>)
  {
    if persona == "" then t == Some(c)
    else if c == l.host then
      match t
      case Some(d) => exists i :: FirstPlayer(l.players, names, persona, i) && l.players[i] == d
      case None => forall d <- l.players :: !GoesBy(names, d, persona)
    else t == if GoesBy(names, c, persona) then Some(c) else None
  }

  /** `after` is `before` with what `update` carries of the two. */
  predicate Carried(before: Params, after: Params, update: string)
  {
    && after.userParams == (match FieldValue(update, "USERPARAMS") case Some(v) => v case None => before.userParams)
    && after.userFlags == (match FieldValue(update, "USERFLAGS") case Some(v) => DecimalField(v, "0") case None => before.userFlags)
  }

  lemma TargetExactly<Id>(l: Lobby<Id>, names: map<Id, string>, c: Id, update: string)
    ensures About(l, names, c, Field(update, "PERS"), Target(l, names, c, update))
  {
    FirstNamedExactly(l.players, names, Field(update, "PERS"));
    hide Field; hide FirstNamed; hide EqualFold; hide FirstPlayer;
  }

  /** An update without a kick changes the parameters of the one player it is about, to what it carries, and
      the stored request only if the host sends it. */
  lemma UpdateEffect<Id>(s: State<Id>, c: Id, payload: string) returns (t: Option<Id>)
    requires c in s.live && s.lobby.Some? && Field(payload, "KICK") == ""
    ensures About(s.lobby.value, s.names, c, Field(payload, "PERS"), t)
    ensures var s', l := Next(s, Gset(c, payload)), s.lobby.value;
            s' == s.(lobby := Some(l.(request := if c == l.host then Merge(l.request, payload) else l.request)), params := s'.params)
            && match t
               case None => s'.params == s.params
               case Some(d) => d in s'.params && s'.params == s.params[d := s'.params[d]] && Carried(ParamsOf(s, d), s'.params[d], payload)
  {
    t := Target(s.lobby.value, s.names, c, payload);
    TargetExactly(s.lobby.value, s.names, c, payload);
    hide Field; hide FieldValue; hide Target; hide DecimalField; hide Merge; hide About;
  }

  // ----- who is in -----

  /** Connecting, logging in, creating, joining and leaving: the roster begins with the creator, a newcomer is
      put behind it as long as it is shorter than the limit, a guest who goes is taken out of it, and a host
      who goes ends the lobby. */
  lemma RosterEffects<Id>(s: State<Id>, c: Id, text: string)
    ensures c !in s.used ==>
              Next(s, Connect(c)) == State(s.used + {c}, s.live + {c}, s.names[c := "LocalPlayer"], s.params[c := Params("", "")], s.lobby)
    ensures c in s.live ==>
              Next(s, Pers(c, text)) == s.(names := s.names[c := text])
              && Next(s, Gpsc(c, text)) == s.(params := s.params[c := Own(text)], lobby := Some(Lobby(text, c, [c], {})))
    ensures c in s.live ==>
              Next(s, Gjoi(c, text))
              == s.(params := s.params[c := Own(text)],
                    lobby := if s.lobby.None? || c in s.lobby.value.players then s.lobby
                             else if |s.lobby.value.players| >= EffectiveMax(s.lobby.value.request) then s.lobby
                             else Some(s.lobby.value.(players := s.lobby.value.players + [c])))
    ensures c in s.live && s.lobby.Some? ==>
              var s', l := Next(s, Disconnect(c)), s.lobby.value;
              (s'.lobby.None? <==> c == l.host) && s' == s.(live := s.live - {c}, lobby := s'.lobby)
              && (c != l.host && c !in l.players ==> s'.lobby == s.lobby)
              && (forall i :: 0 <= i < |l.players| && l.players[i] == c != l.host && c !in l.players[..i] ==>
                                s'.lobby == Some(l.(players := l.players[..i] + l.players[i + 1..])))
  {
    hide Field; hide DecimalField; hide EffectiveMax;
    if s.lobby.Some? {
      var players := s.lobby.value.players;
      forall i | 0 <= i < |players| && players[i] == c && c !in players[..i]
        ensures IndexOf(players, c) == Some(i)
      {
        FirstPlace(players, c, i);
      }
      hide IndexOf;
    }
  }

  /** Whoever has gone does nothing, and nobody connects twice. */
  lemma Gone<Id>(s: State<Id>, ev: Event<Id>)
    requires if ev.Connect? then ev.client in s.used else ev.client !in s.live
    ensures Next(s, ev) == s
  {
  }

  /** The parameters a creation or a join sets for its sender. */
  function Own(payload: string): Params { Params(Field(payload, "USERPARAMS"), DecimalField(Field(payload, "USERFLAGS"), "0")) }

  lemma FirstPlace<Id>(players: seq<Id>, c: Id, i: nat)
    requires i < |players| && players[i] == c && c !in players[..i]
    ensures IndexOf(players, c) == Some(i)
  {
    var r := IndexOf(players, c);
    hide IndexOf;
    assert forall k :: 0 <= k < i ==> players[..i][k] == players[k];
    assert forall k :: 0 <= k < r.value ==> players[..r.value][k] == players[k];
  }
}
