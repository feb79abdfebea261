/** The shared lobby as a state machine: one step per request, for any number of clients. */
module LobbyModel {
  import opened Wrappers
  import opened Text
  import opened Decimal
  import opened GameRequest

  // ----- one lobby -----

  datatype Lobby<Id(==)> = Lobby(request: string, host: Id, players: seq<Id>, reports: set<Id>)

  function Create<Id(==)>(host: Id, request: string): Lobby<Id> { Lobby(request, host, [host], {}) }

  /** A member is let in again unchanged; a newcomer only below the limit in force. */
  function Join<Id(==)>(l: Lobby<Id>, c: Id): (Lobby<Id>, bool)
  {
    if c in l.players then (l, true)
    else if |l.players| >= EffectiveMax(l.request) then (l, false)
    else (l.(players := l.players + [c]), true)
  }

  function FirstNamed<Id(==)>(players: seq<Id>, names: map<Id, string>, persona: string): Option<Id>
  {
    if players == [] then None
    else if players[0] in names && EqualFold(names[players[0]], persona) then Some(players[0])
    else FirstNamed(players[1..], names, persona)
  }

  /** Whose parameters an update is about: the sender's own, or the player PERS names, whom only the
      host may name. */
  function Target<Id(==)>(l: Lobby<Id>, names: map<Id, string>, c: Id, update: string): Option<Id>
  {
    var persona := Field(update, "PERS");
    if persona == "" then Some(c)
    else if c == l.host then FirstNamed(l.players, names, persona)
    else if c in names && EqualFold(names[c], persona) then Some(c)
    else None
  }

  function Update<Id(==)>(l: Lobby<Id>, c: Id, update: string): Lobby<Id>
  {
    if c == l.host then l.(request := Merge(l.request, update)) else l
  }

  function Start<Id(==)>(l: Lobby<Id>, c: Id): (Lobby<Id>, bool)
  {
    if c == l.host then (l.(request := StartRequest(l.request), reports := {}), true) else (l, false)
  }

  /** The barrier compares sizes: as many reporters as there are players completes the race. */
  function Report<Id(==)>(l: Lobby<Id>, c: Id): (Lobby<Id>, bool)
  {
    if c !in l.players || !IsStarted(SysFlags(l.request)) then (l, false)
    else
      var l' := l.(reports := l.reports + {c});
      if |l'.reports| < |l.players| then (l', false) else (l'.(request := FinishRequest(l.request)), true)
  }

  function IndexOf<Id(==)>(players: seq<Id>, c: Id): (r: Option<nat>)
    ensures r.Some? ==> r.value < |players| && players[r.value] == c && c !in players[..r.value]
    ensures r.None? <==> c !in players
  {
    if players == [] then None
    else if players[0] == c then Some(0)
    else
      match IndexOf(players[1..], c)
      case None => None
      case Some(i) =>
        assert players[..i + 1] == [players[0]] + players[1..][..i];
        Some(i + 1)
  }

  function Without<Id(==)>(players: seq<Id>, i: nat): seq<Id>
    requires i < |players|
  {
    players[..i] + players[i + 1..]
  }

  /** The player a kick removes: never the host. */
  function KickIndex<Id(==)>(players: seq<Id>, host: Id, names: map<Id, string>, persona: string): (r: Option<nat>)
    ensures r.Some? ==> r.value < |players| && players[r.value] != host
  {
    if players == [] then None
    else if players[0] != host && players[0] in names && EqualFold(names[players[0]], persona) then Some(0)
    else
      match KickIndex(players[1..], host, names, persona) case None => None case Some(i) => Some(i + 1)
  }

  function Kick<Id(==)>(l: Lobby<Id>, names: map<Id, string>, c: Id, persona: string): (Lobby<Id>, Option<Id>)
  {
    if c != l.host then (l, None)
    else
      match KickIndex(l.players, l.host, names, persona)
      case None => (l, None)
      case Some(i) => (l.(players := Without(l.players, i)), Some(l.players[i]))
  }

  /** A host who goes takes the lobby along. */
  function Remove<Id(==)>(l: Lobby<Id>, c: Id): Option<Lobby<Id>>
  {
    if c == l.host then None
    else match IndexOf(l.players, c) case None => Some(l) case Some(i) => Some(l.(players := Without(l.players, i)))
  }

  // ----- the server -----

  datatype Params = Params(userParams: string, userFlags: string)

  /** `used` are the connections there have ever been, `live` those whose handler has not run its
      deferred removal. */
  datatype State<Id(==)> = State(used: set<Id>, live: set<Id>, names: map<Id, string>, params: map<Id, Params>, lobby: Option<Lobby<Id>>)

  datatype Event<Id(==)> =
    | Connect(client: Id)
    | Disconnect(client: Id)
    | Pers(client: Id, name: string)
    | Gpsc(client: Id, payload: string)
    | Gjoi(client: Id, payload: string)
    | Gset(client: Id, payload: string)
    | Gsta(client: Id)
    | Rank(client: Id)

  function RequestParams(payload: string): Params
  {
    Params(Field(payload, "USERPARAMS"), DecimalField(Field(payload, "USERFLAGS"), "0"))
  }

  /** An update changes only the parameters it carries. */
  function UpdatedParams(old_: Params, update: string): Params
  {
    Params(match FieldValue(update, "USERPARAMS") case Some(v) => v case None => old_.userParams,
           match FieldValue(update, "USERFLAGS") case Some(v) => DecimalField(v, "0") case None => old_.userFlags)
  }

  function ParamsOf<Id(==)>(s: State<Id>, c: Id): Params { if c in s.params then s.params[c] else Params("", "") }

  function UpdateParams<Id(==)>(s: State<Id>, target: Option<Id>, update: string): State<Id>
  {
    match target
    case None => s
    case Some(t) => s.(params := s.params[t := UpdatedParams(ParamsOf(s, t), update)])
  }

  /** Whether a report by `c` counts now. */
  predicate Counts<Id(==)>(s: State<Id>, c: Id)
  {
    c in s.live && s.lobby.Some? && c in s.lobby.value.players && IsStarted(SysFlags(s.lobby.value.request))
  }

  /** What the handler of one connection does with one request; dead connections do nothing. */
  function Next<Id(==)>(s: State<Id>, ev: Event<Id>): State<Id>
  {
    var c := ev.client;
    if ev.Connect? then
      if c in s.used then s
      else s.(used := s.used + {c}, live := s.live + {c}, names := s.names[c := "LocalPlayer"], params := s.params[c := Params("", "")])
    else if c !in s.live then s
    else
      match ev
      case Disconnect(_) =>
        s.(live := s.live - {c}, lobby := match s.lobby case None => None case Some(l) => Remove(l, c))
      case Pers(_, name) => s.(names := s.names[c := name])
      case Gpsc(_, payload) => s.(params := s.params[c := RequestParams(payload)], lobby := Some(Create(c, payload)))
      case Gjoi(_, payload) =>
        s.(params := s.params[c := RequestParams(payload)],
           lobby := match s.lobby case None => None case Some(l) => Some(Join(l, c).0))
      case Gset(_, payload) => if s.lobby.None? then s else Set(s, s.lobby.value, c, payload)
      case Gsta(_) => if s.lobby.None? then s else s.(lobby := Some(Start(s.lobby.value, c).0))
      case Rank(_) => if s.lobby.None? then s else s.(lobby := Some(Report(s.lobby.value, c).0))
  }

  /** A gset is a kick when it names one, an update otherwise. */
  function Set<Id(==)>(s: State<Id>, l: Lobby<Id>, c: Id, payload: string): State<Id>
  {
    var kicked := Field(payload, "KICK");
    if kicked != "" then s.(lobby := Some(Kick(l, s.names, c, kicked).0))
    else Updated(s, l, c, payload)
  }

  function Updated<Id(==)>(s: State<Id>, l: Lobby<Id>, c: Id, payload: string): State<Id>
  {
    UpdateParams(s, Target(l, s.names, c, payload), payload).(lobby := Some(Update(l, c, payload)))
  }

  function Empty<Id(==)>(): State<Id> { State({}, {}, map[], map[], None) }

  function Run<Id(==)>(evs: seq<Event<Id>>): State<Id>
  {
    if evs == [] then Empty() else Next(Run(evs[..|evs| - 1]), evs[|evs| - 1])
  }

  // ----- the invariant -----

  function Members<Id(==)>(xs: seq<Id>): set<Id> { set x | x in xs }

  /** The host stands first, nobody stands twice, and everybody is still connected. */
  ghost predicate LobbyInv<Id>(l: Lobby<Id>, live: set<Id>)
  {
    |l.players| >= 1 && l.players[0] == l.host && NoRepeats(l.players) && Members(l.players) <= live
  }

  ghost predicate Inv<Id>(s: State<Id>)
  {
    && (s.lobby.Some? ==> LobbyInv(s.lobby.value, s.live))
    && s.live <= s.used && s.live <= s.names.Keys
  }

  lemma WithoutKeeps<Id>(players: seq<Id>, i: nat)
    requires 0 < i < |players| && NoRepeats(players)
    ensures var rest := Without(players, i);
            NoRepeats(rest) && rest[0] == players[0] && Members(rest) == Members(players) - {players[i]}
  {
    var rest := Without(players, i);
    forall a, b | 0 <= a < b < |rest|
      ensures rest[a] != rest[b]
    {
      assert rest[a] == players[if a < i then a else a + 1] && rest[b] == players[if b < i then b else b + 1];
    }
    forall x
      ensures x in rest <==> x in players && x != players[i]
    {
      if x in players && x != players[i] {
        var k :| 0 <= k < |players| && players[k] == x;
        assert rest[if k < i then k else k - 1] == x;
      }
    }
  }

  lemma JoinKeeps<Id>(l: Lobby<Id>, c: Id, live: set<Id>)
    requires LobbyInv(l, live) && c in live
    ensures LobbyInv(Join(l, c).0, live)
  {
    var l' := Join(l, c).0;
    if l' != l {
      assert l'.players == l.players + [c];
    }
  }

  lemma KickKeeps<Id>(l: Lobby<Id>, names: map<Id, string>, c: Id, persona: string, live: set<Id>)
    requires LobbyInv(l, live)
    ensures LobbyInv(Kick(l, names, c, persona).0, live)
  {
    var i := KickIndex(l.players, l.host, names, persona);
    if i.Some? {
      WithoutKeeps(l.players, i.value);
    }
  }

  lemma RemoveKeeps<Id>(l: Lobby<Id>, c: Id, live: set<Id>)
    requires LobbyInv(l, live)
    ensures Remove(l, c).Some? ==> LobbyInv(Remove(l, c).value, live - {c})
  {
    var i := IndexOf(l.players, c);
    if c != l.host && i.Some? {
      WithoutKeeps(l.players, i.value);
    }
  }

  lemma NextKeepsInv<Id>(s: State<Id>, ev: Event<Id>)
    requires Inv(s)
    ensures Inv(Next(s, ev))
  {
    hide Merge; hide StartRequest; hide FinishRequest; hide EffectiveMax; hide FieldValue; hide Field; hide SysFlags;
    hide UpdatedParams;
    if s.lobby.Some? {
      var l, c := s.lobby.value, ev.client;
      match ev
      case Disconnect(_) => RemoveKeeps(l, c, s.live);
      case Gjoi(_, _) =>
        if c in s.live {
          JoinKeeps(l, c, s.live);
        }
      case Gset(_, payload) => KickKeeps(l, s.names, c, Field(payload, "KICK"), s.live);
      case _ =>
    }
  }

  /** Over every run of connects, requests and disconnects: when a lobby exists its first player is the
      host, the roster has no duplicates, and every member's handler has not yet run its removal. */
  lemma {:induction false} RunKeepsInv<Id>(evs: seq<Event<Id>>)
    ensures Inv(Run(evs))
  {
    if evs != [] {
      RunKeepsInv(evs[..|evs| - 1]);
      NextKeepsInv(Run(evs[..|evs| - 1]), evs[|evs| - 1]);
    }
  }
}
