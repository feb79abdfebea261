/** The shared lobby as the server keeps it: clients, the lobby record, and one method per request. */
module Lobby {
  import opened Wrappers
  import opened Text
  import opened Decimal
  import opened GameRequest
  import opened GameRecord
  import opened LobbyModel
  import opened LobbyRuns
  import opened LobbySteps
  import opened Notices

  // ----- clients -----

  /** Where a client's frames go. A write may fail at any time. */
  class FrameWriter {
    var frames: seq<Notice>
    var failed: bool

    constructor ()
      ensures frames == [] && !failed
    {
      frames, failed := [], false;
    }

    method Write(n: Notice) returns (ok: bool)
      modifies this
      ensures ok ==> frames == old(frames) + [n] && failed == old(failed)
      ensures !ok ==> frames == old(frames) && failed
    {
      ok := *;
      if ok {
        frames := frames + [n];
      } else {
        failed := true;
      }
    }
  }

  class ServiceClient {
    var personaID: int
    var personaName: string
    var address: string
    var gamePort: int
    var userParams: string
    var userFlags: string
    const writer: FrameWriter

    constructor (address: string, gamePort: int)
      ensures personaName == "LocalPlayer" && userParams == userFlags == ""
      ensures this.address == address && this.gamePort == gamePort && fresh(writer)
    {
      personaID, personaName := 0, "LocalPlayer";
      this.address, this.gamePort := address, gamePort;
      userParams, userFlags := "", "";
      writer := new FrameWriter();
    }

    function Profile(): GameRecord.Profile
      reads this
    {
      GameRecord.Profile(personaID, personaName, address, gamePort, userParams, userFlags)
    }

    ghost function Itself(): (string, string)
      reads this`personaID, this`personaName
    {
      IdentityOf(GameRecord.Profile(personaID, personaName, "", 0, "", ""))
    }
  }

  /** Unless a write to it failed, a client's own record is itself. */
  ghost predicate KnowsItself(c: ServiceClient)
    reads c`personaID, c`personaName, c.writer
  {
    !c.writer.failed ==> Settles(c.writer.frames, c.Itself())
  }

  function Info(clients: seq<ServiceClient>): map<ServiceClient, GameRecord.Profile>
    reads clients
  {
    map c | c in clients :: c.Profile()
  }

  ghost function Names(clients: set<ServiceClient>): map<ServiceClient, string>
    reads clients`personaName
  {
    map c | c in clients :: c.personaName
  }

  ghost function AllParams(clients: set<ServiceClient>): map<ServiceClient, Params>
    reads clients`userParams, clients`userFlags
  {
    map c | c in clients :: Params(c.userParams, c.userFlags)
  }

  class LocalLobby {
    var request: string
    var host: ServiceClient
    var players: seq<ServiceClient>
    var resultReports: set<ServiceClient>

    constructor (request: string, host: ServiceClient)
      ensures this.request == request && this.host == host && players == [host] && resultReports == {}
    {
      this.request, this.host, players, resultReports := request, host, [host], {};
    }
  }

  class Server {
    const rule: AddressRule
    const advertise: string
    var nextPersonaID: int
    var personaIDs: map<string, int>
    var lobby: LocalLobby?
    ghost var used: set<ServiceClient>
    ghost var live: set<ServiceClient>
    ghost var loggedIn: set<ServiceClient>
    ghost var history: seq<Event<ServiceClient>>

    // ----- the state, seen as the machine's -----

    ghost function View(): Option<LobbyModel.Lobby<ServiceClient>>
      reads this`lobby, lobby
    {
      if lobby == null then None else Some(LobbyModel.Lobby(lobby.request, lobby.host, lobby.players, lobby.resultReports))
    }

    ghost function Model(): State<ServiceClient>
      reads this`lobby, lobby, this`used, this`live, used`personaName, used`userParams, used`userFlags
    {
      State(used, live, Names(used), AllParams(used), View())
    }

    ghost predicate Wired()
      reads this`used
    {
      forall c, d :: c in used && d in used && c != d ==> c.writer != d.writer
    }

    /** Every client that has logged in has itself as its own record. */
    ghost predicate Selves()
      reads this`loggedIn, loggedIn`personaID, loggedIn`personaName, set c | c in loggedIn :: c.writer
    {
      forall c :: c in loggedIn ==> KnowsItself(c)
    }

    /** Between requests: the server's state is what the run of all requests so far makes of it. */
    ghost predicate Valid()
      reads this, lobby, used`personaName, used`userParams, used`userFlags
      reads loggedIn`personaID, loggedIn`personaName, set c | c in loggedIn :: c.writer
    {
      Model() == Run(history) && Linked()
    }

    /** What no request but a login can touch. */
    ghost predicate Linked()
      reads this`used, this`loggedIn, this`nextPersonaID, this`personaIDs
      reads loggedIn`personaID, loggedIn`personaName, set c | c in loggedIn :: c.writer
    {
      Wired() && IDsValid() && loggedIn <= used && Selves()
    }

    /** Identities are positive and no two personas share one. */
    ghost predicate IDsValid()
      reads this`nextPersonaID, this`personaIDs
    {
      nextPersonaID >= 1
      && (forall p <- personaIDs :: 1 <= personaIDs[p] < nextPersonaID)
      && (forall p, q :: p in personaIDs && q in personaIDs && p != q ==> personaIDs[p] != personaIDs[q])
    }

    constructor (rule: AddressRule, advertise: string)
      ensures Valid() && history == [] && lobby == null
    {
      this.rule, this.advertise := rule, advertise;
      nextPersonaID, personaIDs := 1, map[];
      lobby := null;
      used, live, loggedIn, history := {}, {}, {}, [];
    }

    ghost predicate IsSnapshot(game: string, players: seq<ServiceClient>, clients: seq<ServiceClient>)
      reads this`lobby, lobby, players, if lobby == null then {} else {lobby.host}
    {
      lobby != null && players == clients == lobby.players
      && game == Record(rule, advertise, lobby.request, lobby.host.Profile(), Profiles(players, Info(players)))
    }

    method LocalLobbySnapshotLocked() returns (game: string, players: seq<ServiceClient>, clients: seq<ServiceClient>)
      ensures lobby != null ==> IsSnapshot(game, players, clients)
    {
      if lobby == null {
        return "", [], [];
      }
      players, clients := lobby.players, lobby.players;
      game := GetLocalMultiplayerGameRecord(rule, advertise, lobby.request, lobby.host.Profile(), Profiles(players, Info(players)));
    }

    // ----- lobby steps -----

    method CreateLocalLobby(host: ServiceClient, request: string)
      returns (game: string, players: seq<ServiceClient>, clients: seq<ServiceClient>)
      modifies this`lobby, host`address
      ensures View() == Some(Create(host, request)) && fresh(lobby)
      ensures host.address == ValidPlayerAddress(rule, old(host.address), advertise)
      ensures IsSnapshot(game, players, clients)
      ensures Model() == old(Model()).(lobby := View())
    {
      hide Names; hide AllParams; hide Record; hide Profiles; hide Info; hide ValidPlayerAddress;
      host.address := ValidPlayerAddress(rule, host.address, advertise);
      lobby := new LocalLobby(request, host);
      game, players, clients := LocalLobbySnapshotLocked();
    }

    method JoinLocalLobby(client: ServiceClient)
      returns (game: string, players: seq<ServiceClient>, clients: seq<ServiceClient>, joined: bool)
      modifies lobby, client`address
      ensures View() == match old(View()) case None => None case Some(l) => Some(Join(l, client).0)
      ensures joined == (View().Some? && client in View().value.players)
      ensures Model() == old(Model()).(lobby := View())
      ensures client.address == if old(View()).Some? && View() != old(View()) then ValidPlayerAddress(rule, old(client.address), advertise)
                                else old(client.address)
      ensures joined ==> IsSnapshot(game, players, clients)
    {
      hide Names; hide AllParams; hide Record; hide Profiles; hide Info; hide EffectiveMax; hide ValidPlayerAddress;
      if lobby == null {
        return "", [], [], false;
      }
      for i := 0 to |lobby.players|
        invariant client !in lobby.players[..i] && unchanged(lobby) && unchanged(client`address)
      {
        if lobby.players[i] == client {
          game, players, clients := LocalLobbySnapshotLocked();
          return game, players, clients, true;
        }
      }
      assert client !in lobby.players;
      var maxPlayers := EffectiveMax(lobby.request);
      if |lobby.players| >= maxPlayers {
        return "", [], [], false;
      }
      client.address := ValidPlayerAddress(rule, client.address, advertise);
      lobby.players := lobby.players + [client];
      game, players, clients := LocalLobbySnapshotLocked();
      joined := true;
    }

    lemma InvUsed()
      requires Inv(Model()) && lobby != null
      ensures Members(lobby.players) <= live <= used && used <= AllParams(used).Keys
    {
    }

    /** Whose parameters an update is about. */
    method FindTarget(client: ServiceClient, update: string) returns (target: ServiceClient?)
      requires lobby != null && client in used && Members(lobby.players) <= used
      ensures Target(View().value, Names(used), client, update) == if target == null then None else Some(target)
    {
      target := client;
      var persona, found := GetPayloadFieldValue(update, "PERS");
      ghost var names := Names(used);
      hide FieldValue;
      if found && persona != "" {
        target := null;
        if client == lobby.host {
          var players := lobby.players;
          for i := 0 to |players|
            invariant target == null && FirstNamed(players, names, persona) == FirstNamed(players[i..], names, persona)
          {
            assert players[i] in Members(players) && players[i..][0] == players[i] && players[i..][1..] == players[i + 1..];
            if EqualFold(players[i].personaName, persona) {
              target := players[i];
              break;
            }
          }
        } else if EqualFold(client.personaName, persona) {
          target := client;
        }
      }
    }

    method SetParams(target: ServiceClient, update: string)
      requires target in used
      modifies target`userParams, target`userFlags
      ensures AllParams(used) == old(AllParams(used))[target := UpdatedParams(old(AllParams(used))[target], update)]
    {
      hide FieldValue; hide DecimalField;
      var value, found := GetPayloadFieldValue(update, "USERPARAMS");
      if found {
        target.userParams := value;
      }
      value, found := GetPayloadFieldValue(update, "USERFLAGS");
      if found {
        target.userFlags := DecimalField(value, "0");
      }
    }

    /** The parameters of whomever an update is about. */
    method UpdateTarget(client: ServiceClient, update: string)
      requires Inv(Model()) && client in live && lobby != null
      modifies used`userParams, used`userFlags
      ensures Model() == UpdateParams(old(Model()), Target(View().value, Names(used), client, update), update)
    {
      hide FieldValue; hide Target; hide UpdatedParams; hide Field; hide Names; hide AllParams; hide Inv;
      InvUsed();
      var target := FindTarget(client, update);
      if target != null {
        TargetUsed(View().value, Names(used), client, update);
        SetParams(target, update);
      }
    }

    method UpdateLocalLobby(client: ServiceClient, update: string)
      returns (game: string, players: seq<ServiceClient>, clients: seq<ServiceClient>, updated: bool)
      requires Inv(Model()) && client in live
      modifies lobby, used`userParams, used`userFlags
      ensures updated == old(View()).Some?
      ensures !updated ==> Model() == old(Model())
      ensures updated ==> Model() == Updated(old(Model()), old(View()).value, client, update)
      ensures updated ==> IsSnapshot(game, players, clients)
    {
      hide Merge; hide Target; hide UpdateParams; hide Record; hide Names; hide AllParams; hide Inv; hide Profiles;
      hide Info;
      if lobby == null {
        return "", [], [], false;
      }
      UpdateTarget(client, update);
      if lobby.host == client {
        lobby.request := MergeLocalGameRequest(lobby.request, update);
      }
      game, players, clients := LocalLobbySnapshotLocked();
      updated := true;
    }

    method StartLocalLobby(client: ServiceClient)
      returns (game: string, players: seq<ServiceClient>, clients: seq<ServiceClient>, started: bool)
      modifies lobby
      ensures started == (lobby != null && lobby.host == client)
      ensures View() == match old(View()) case None => None case Some(l) => Some(Start(l, client).0)
      ensures started ==> Reflagged(old(lobby.request), lobby.request, SetStarted(SysFlags(old(lobby.request))))
      ensures Model() == old(Model()).(lobby := View())
      ensures started ==> IsSnapshot(game, players, clients)
    {
      hide Merge; hide SysFlags; hide Record; hide FlagsUpdate; hide SetStarted; hide Names; hide AllParams;
      hide Profiles; hide Info; hide Reflagged;
      if lobby == null || lobby.host != client {
        return "", [], [], false;
      }
      Restarted(lobby.request);
      var flags := SysFlags(lobby.request);
      lobby.request := MergeLocalGameRequest(lobby.request, FlagsUpdate(SetStarted(flags)));
      lobby.resultReports := {};
      game, players, clients := LocalLobbySnapshotLocked();
      started := true;
    }

    /** A report that completes the race clears the flag in the request; any other leaves the request alone. */
    ghost predicate Concludes(before: string, after: string, complete: bool)
    {
      if complete then Reflagged(before, after, ClearStarted(SysFlags(before))) else after == before
    }

    method RecordLocalLobbyResult(client: ServiceClient)
      returns (game: string, players: seq<ServiceClient>, clients: seq<ServiceClient>, complete: bool)
      modifies lobby
      ensures View() == match old(View()) case None => None case Some(l) => Some(Report(l, client).0)
      ensures complete == (old(View()).Some? && Report(old(View()).value, client).1)
      ensures lobby != null ==> Concludes(old(lobby.request), lobby.request, complete)
      ensures Model() == old(Model()).(lobby := View())
      ensures complete ==> IsSnapshot(game, players, clients)
    {
      hide Merge; hide SysFlags; hide Record; hide FlagsUpdate; hide Names; hide AllParams; hide Profiles; hide Info;
      hide Reflagged; hide ClearStarted;
      game, players, clients, complete := "", [], [], false;
      if lobby == null {
        return;
      }
      var found := false;
      for i := 0 to |lobby.players|
        invariant !found && client !in lobby.players[..i] && unchanged(lobby)
      {
        if lobby.players[i] == client {
          found := true;
          break;
        }
      }
      assert found == (client in lobby.players);
      if !found {
        return;
      }
      var flags := SysFlags(lobby.request);
      if !IsStarted(flags) {
        return;
      }
      lobby.resultReports := lobby.resultReports + {client};
      if |lobby.resultReports| < |lobby.players| {
        return;
      }
      Refinished(lobby.request);
      lobby.request := MergeLocalGameRequest(lobby.request, FlagsUpdate(ClearStarted(flags)));
      game, players, clients := LocalLobbySnapshotLocked();
      complete := true;
    }

    /** The place of the player a kick names. */
    method FindKicked(persona: string) returns (index: int)
      requires lobby != null && Members(lobby.players) <= used
      ensures KickIndex(lobby.players, lobby.host, Names(used), persona) == if index < 0 then None else Some(index)
    {
      index := -1;
      ghost var names := Names(used);
      var players, host := lobby.players, lobby.host;
      for i := 0 to |players|
        invariant index == -1
        invariant KickIndex(players, host, names, persona)
                  == match KickIndex(players[i..], host, names, persona) case None => None case Some(k) => Some(i + k)
      {
        assert players[i] in Members(players) && players[i..][0] == players[i] && players[i..][1..] == players[i + 1..];
        if players[i] != host && EqualFold(players[i].personaName, persona) {
          index := i;
          break;
        }
      }
    }

    /** The player at `index` is taken out of the roster. */
    method TakeOut(index: nat)
      returns (game: string, players: seq<ServiceClient>, clients: seq<ServiceClient>, kicked: ServiceClient)
      requires lobby != null && index < |lobby.players|
      modifies lobby
      ensures lobby.players == Without(old(lobby.players), index) && kicked == old(lobby.players)[index]
      ensures lobby.request == old(lobby.request) && lobby.host == old(lobby.host) && lobby.resultReports == old(lobby.resultReports)
      ensures IsSnapshot(game, players, clients)
    {
      hide Record; hide Profiles; hide Info;
      kicked := lobby.players[index];
      lobby.players := lobby.players[..index] + lobby.players[index + 1..];
      game, players, clients := LocalLobbySnapshotLocked();
    }

    method KickLocalLobbyPlayer(client: ServiceClient, persona: string)
      returns (game: string, players: seq<ServiceClient>, clients: seq<ServiceClient>, kicked: ServiceClient?, updated: bool)
      requires Inv(Model())
      modifies lobby
      ensures View() == match old(View()) case None => None case Some(l) => Some(Kick(l, old(Names(used)), client, persona).0)
      ensures Model() == old(Model()).(lobby := View())
      ensures updated == (kicked != null) && (updated ==> old(View()).Some? && IsSnapshot(game, players, clients))
      ensures KickedAsNamed(old(View()), View(), old(Names(used)), client, persona, if kicked == null then None else Some(kicked))
    {
      hide IsSnapshot; hide KickIndex; hide Names; hide AllParams; hide KickedAsNamed;
      game, players, clients, kicked, updated := "", [], [], null, false;
      NobodyKicked(Names(used), client, persona);
      if lobby == null {
        return;
      }
      KickNames(View().value, Names(used), client, persona);
      if lobby.host != client {
        return;
      }
      InvUsed();
      var index := FindKicked(persona);
      if index < 0 {
        return;
      }
      game, players, clients, kicked := TakeOut(index);
      updated := true;
    }

    // ----- notifications -----

    method SendPresence(order: seq<ServiceClient>, client: ServiceClient) returns (ghost sent: nat)
      modifies client.writer
      ensures sent <= |order| && (old(client.writer.failed) ==> client.writer.failed)
      ensures client.writer.frames == old(client.writer.frames) + PresenceFrames(rule, order, Info(order), client)[..sent]
      ensures sent < |order| ==> client.writer.failed
      ensures sent == |order| ==> client.writer.failed == old(client.writer.failed)
    {
      hide Presence;
      var writer := client.writer;
      ghost var frames := PresenceFrames(rule, order, Info(order), client);
      sent := 0;
      for i := 0 to |order|
        invariant sent == i && writer.frames == old(writer.frames) + frames[..sent] && writer.failed == old(writer.failed)
      {
        var kind := Usr;
        if order[i] == client {
          kind := Who;
        }
        var ok := writer.Write(Notice(kind, Presence(rule, order[i].Profile(), 1)));
        if !ok {
          break;
        }
        assert frames[..sent + 1] == frames[..sent] + [frames[sent]];
        sent := sent + 1;
      }
    }

    /** One recipient's frames; any of the writes may fail. */
    method NotifyClient(game: string, players: seq<ServiceClient>, client: ServiceClient, presence: bool, collection: bool)
      requires players != []
      modifies client.writer
      ensures old(client.writer.failed) ==> client.writer.failed
      ensures Reached(old(client.writer.frames), client.writer.frames, client.writer.failed,
                      LobbyFrames(rule, advertise, game, players, Info(players), client, presence, collection), HeadSize(collection))
    {
      hide Record; hide Presence; hide LocalFirst; hide LocalLast; hide PresenceFrames; hide Reached; hide Profiles;
      hide LobbyFrames;
      hide Info; hide Known;
      InfoKnown(players);
      var info, writer := Info(players), client.writer;
      OrdersKnown(players, info, client);
      var recipientPlayers := GetLocalPlayerFirst(players, client);
      var record := GetLocalMultiplayerGameRecord(rule, advertise, game, players[0].Profile(), Profiles(recipientPlayers, info));
      assert record == RecipientGame(rule, advertise, game, players, info, client);
      ghost var before, head, middle, sent := writer.frames, [], [], 0;
      if collection {
        head := [Notice(Gam, record)];
        var ok := writer.Write(Notice(Gam, record));
        if !ok {
          NothingReached(before, LobbyFrames(rule, advertise, game, players, info, client, presence, collection), 1);
          return;
        }
      }
      assert writer.frames == before + head;
      if presence {
        var order := GetLocalPlayerLast(players, client);
        SameFrames(rule, players, order, client);
        middle := PresenceFrames(rule, order, info, client);
        sent := SendPresence(order, client);
      }
      FramesParts(rule, advertise, game, players, info, client, presence, collection);
      ghost var frames := head + middle + [Notice(Mgm, record)];
      PartReached(before, head, middle, Notice(Mgm, record), sent);
      assert writer.frames == before + head + middle[..sent];
      var ok := writer.Write(Notice(Mgm, record));
      assert info == Info(players);
      assert Reached(before, writer.frames, writer.failed, frames, HeadSize(collection));
    }

    /** Every client of the roster gets its own view of the lobby. */
    method NotifyLobby(game: string, players: seq<ServiceClient>, clients: seq<ServiceClient>, presence: bool, collection: bool)
      requires forall i, j :: 0 <= i < j < |clients| ==> clients[i].writer != clients[j].writer
      modifies set c | c in clients :: c.writer
      ensures forall i :: 0 <= i < |clients| && old(clients[i].writer.failed) ==> clients[i].writer.failed
      ensures players != [] ==>
                forall i :: 0 <= i < |clients| ==>
                  Reached(old(clients[i].writer.frames), clients[i].writer.frames, clients[i].writer.failed,
                          LobbyFrames(rule, advertise, game, players, Info(players), clients[i], presence, collection), HeadSize(collection))
      ensures players == [] ==> forall i :: 0 <= i < |clients| ==> unchanged(clients[i].writer)
    {
      hide Reached; hide LobbyFrames; hide Info; hide Known;
      if players == [] {
        return;
      }
      InfoKnown(players);
      for n := 0 to |clients|
        invariant forall i :: 0 <= i < n ==>
                    Reached(old(clients[i].writer.frames), clients[i].writer.frames, clients[i].writer.failed,
                            LobbyFrames(rule, advertise, game, players, Info(players), clients[i], presence, collection), HeadSize(collection))
        invariant forall i :: n <= i < |clients| ==> unchanged(clients[i].writer)
        invariant forall i :: 0 <= i < n && old(clients[i].writer.failed) ==> clients[i].writer.failed
      {
        NotifyClient(game, players, clients[n], presence, collection);
      }
    }

    method NotifyClientStart(game: string, players: seq<ServiceClient>, client: ServiceClient)
      requires players != []
      modifies client.writer
      ensures old(client.writer.failed) ==> client.writer.failed
      ensures Delivered(old(client.writer.frames), client.writer.frames, client.writer.failed,
                        StartFrames(rule, advertise, game, players, Info(players), client))
    {
      hide Record; hide LocalFirst; hide Delivered; hide Profiles; hide Info; hide Known;
      InfoKnown(players);
      OrdersKnown(players, Info(players), client);
      var writer := client.writer;
      var recipientPlayers := GetLocalPlayerFirst(players, client);
      var record := GetLocalMultiplayerGameRecord(rule, advertise, game, players[0].Profile(), Profiles(recipientPlayers, Info(players)));
      var kinds := [Gam, Mgm, Ses];
      ghost var before, frames, sent := writer.frames, StartFrames(rule, advertise, game, players, Info(players), client), 0;
      for i := 0 to |kinds|
        invariant sent == i && writer.frames == before + frames[..sent] && writer.failed == old(writer.failed)
      {
        var ok := writer.Write(Notice(kinds[i], record));
        if !ok {
          break;
        }
        assert frames[..sent + 1] == frames[..sent] + [frames[sent]];
        sent := sent + 1;
      }
      PrefixDelivered(before, frames, sent);
    }

    method NotifyLobbyStart(game: string, players: seq<ServiceClient>, clients: seq<ServiceClient>)
      requires forall i, j :: 0 <= i < j < |clients| ==> clients[i].writer != clients[j].writer
      modifies set c | c in clients :: c.writer
      ensures forall i :: 0 <= i < |clients| && old(clients[i].writer.failed) ==> clients[i].writer.failed
      ensures players != [] ==>
                forall i :: 0 <= i < |clients| ==>
                  Delivered(old(clients[i].writer.frames), clients[i].writer.frames, clients[i].writer.failed,
                            StartFrames(rule, advertise, game, players, Info(players), clients[i]))
      ensures players == [] ==> forall i :: 0 <= i < |clients| ==> unchanged(clients[i].writer)
    {
      hide Delivered; hide StartFrames; hide Info; hide Known;
      if players == [] {
        return;
      }
      InfoKnown(players);
      for n := 0 to |clients|
        invariant forall i :: 0 <= i < n ==>
                    Delivered(old(clients[i].writer.frames), clients[i].writer.frames, clients[i].writer.failed,
                              StartFrames(rule, advertise, game, players, Info(players), clients[i]))
        invariant forall i :: n <= i < |clients| ==> unchanged(clients[i].writer)
        invariant forall i :: 0 <= i < n && old(clients[i].writer.failed) ==> clients[i].writer.failed
      {
        NotifyClientStart(game, players, clients[n]);
      }
    }

    // ----- requests -----

    /** The record of the lobby as it stands, printed for its whole roster. */
    ghost function Game(): string
      requires lobby != null
      reads this`lobby, lobby, lobby.host, lobby.players
    {
      Record(rule, advertise, lobby.request, lobby.host.Profile(), Profiles(lobby.players, Info(lobby.players)))
    }

    /** The frames that show the lobby as it stands to one of its members. */
    ghost function Shown(c: ServiceClient, presence: bool, collection: bool): seq<Notice>
      requires lobby != null && lobby.players != []
      reads this`lobby, lobby, lobby.host, lobby.players
    {
      LobbyFrames(rule, advertise, Game(), lobby.players, Info(lobby.players), c, presence, collection)
    }

    ghost function ShownStart(c: ServiceClient): seq<Notice>
      requires lobby != null && lobby.players != []
      reads this`lobby, lobby, lobby.host, lobby.players
    {
      StartFrames(rule, advertise, Game(), lobby.players, Info(lobby.players), c)
    }

    /** Every member of the lobby as it now stands is shown it; nobody else, but perhaps `except`, is told
        anything. */
    twostate predicate Announced(new except: ServiceClient?, presence: bool, collection: bool)
      reads this`lobby, lobby, this`used, if lobby == null then {} else {lobby.host}, if lobby == null then [] else lobby.players
      reads set c | c in used :: c.writer
    {
      used == old(used) && lobby != null && lobby.players != []
      && forall c :: c in old(used) ==>
           (old(c.writer.failed) ==> c.writer.failed)
           && if c in lobby.players then Reached(old(c.writer.frames), c.writer.frames, c.writer.failed, Shown(c, presence, collection), HeadSize(collection))
           else c == except || unchanged(c.writer)
    }

    /** The same for the frames that start a race. */
    twostate predicate StartAnnounced()
      reads this`lobby, lobby, this`used, if lobby == null then {} else {lobby.host}, if lobby == null then [] else lobby.players
      reads set c | c in used :: c.writer
    {
      used == old(used) && lobby != null && lobby.players != []
      && forall c :: c in old(used) ==>
           (old(c.writer.failed) ==> c.writer.failed)
           && if c in lobby.players then Delivered(old(c.writer.frames), c.writer.frames, c.writer.failed, ShownStart(c)) else unchanged(c.writer)
    }

    twostate predicate Silent()
      reads this`used, set c | c in used :: c.writer
    {
      used == old(used) && forall c :: c in old(used) ==> unchanged(c.writer)
    }

    /** A record that shows the lobby as it stands to its member `c`. */
    ghost predicate ShowsLobby(record: string, c: ServiceClient)
      requires lobby != null
      reads this`lobby, lobby, lobby.host, lobby.players
    {
      SysFlags(record) == SysFlags(lobby.request)
      && exists i :: 0 <= i < |lobby.players| && lobby.players[i] == c && SeatsAt(record, i)
    }

    ghost predicate SeatsAt(record: string, i: nat)
      requires lobby != null && i < |lobby.players|
      reads this`lobby, lobby, lobby.host, lobby.players
    {
      Seats(rule, advertise, record, Game(), lobby.players, Info(lobby.players), i)
    }

    /** Every game record that members of the lobby have been sent in this step shows it as it stands now:
        with the recipient first and the flags of the stored request. */
    twostate predicate Seated()
      reads this`lobby, lobby, this`used, if lobby == null then {} else {lobby.host}, if lobby == null then [] else lobby.players
      reads set c | c in used :: c.writer
    {
      used == old(used) && lobby != null
      && forall c :: c in old(used) && c in lobby.players ==> ShowsSince(c, |old(c.writer.frames)|)
    }

    /** From frame `n` on, every game record sent to `c` shows it the lobby. */
    ghost predicate ShowsSince(c: ServiceClient, n: nat)
      requires lobby != null
      reads this`lobby, lobby, lobby.host, lobby.players, c.writer
    {
      forall j :: n <= j < |c.writer.frames| && CarriesGame(c.writer.frames[j]) ==> ShowsLobby(c.writer.frames[j].payload, c)
    }

    /** What the recipient's print of the lobby says. */
    lemma PrintShows(record: string, i: nat)
      requires lobby != null && i < |lobby.players| && SeatsAt(record, i)
      ensures ShowsLobby(record, lobby.players[i])
    {
      var players, host := lobby.players, lobby.host.Profile();
      hide Record; hide Announces; hide Lists; hide FieldValue; hide SysFlags;
      RecordAnnounces(rule, advertise, lobby.request, host, Profiles(players, Info(players)));
      FlagsShown(rule, advertise, Game(), lobby.request, host, |Roster(host, Profiles(players, Info(players)))|);
      FlagsShown(rule, advertise, record, Game(), Info(players)[players[0]], |players|);
    }

    /** Frames that all show a member its place do show it the lobby. */
    lemma FramesShow(c: ServiceClient, frames: seq<Notice>, notice: Notice)
      requires lobby != null && notice in frames && CarriesGame(notice)
      requires exists i :: 0 <= i < |lobby.players| && lobby.players[i] == c
                           && AllSeated(rule, advertise, frames, Game(), lobby.players, Info(lobby.players), i)
      ensures ShowsLobby(notice.payload, c)
    {
      var i :| 0 <= i < |lobby.players| && lobby.players[i] == c
               && AllSeated(rule, advertise, frames, Game(), lobby.players, Info(lobby.players), i);
      hide Seats; hide ShowsLobby; hide Game;
      assert SeatsAt(notice.payload, i);
      PrintShows(notice.payload, i);
    }

    twostate lemma AnnouncedSeats(new except: ServiceClient?, new presence: bool, new collection: bool)
      requires lobby != null && NoRepeats(lobby.players) && Announced(except, presence, collection)
      ensures Seated()
    {
      hide Reached; hide LobbyFrames; hide Record; hide Profiles; hide ShowsLobby; hide AllSeated; hide Game;
      forall c | c in old(used) && c in lobby.players
        ensures ShowsSince(c, |old(c.writer.frames)|)
      {
        var i :| 0 <= i < |lobby.players| && lobby.players[i] == c;
        LobbyFramesSeat(rule, advertise, Game(), lobby.players, Info(lobby.players), i, presence, collection);
        forall j | |old(c.writer.frames)| <= j < |c.writer.frames| && CarriesGame(c.writer.frames[j])
          ensures ShowsLobby(c.writer.frames[j].payload, c)
        {
          ArrivedFrames(old(c.writer.frames), c.writer.frames, c.writer.failed, Shown(c, presence, collection), HeadSize(collection), j);
          FramesShow(c, Shown(c, presence, collection), c.writer.frames[j]);
        }
      }
    }

    twostate lemma StartAnnouncedSeats()
      requires lobby != null && NoRepeats(lobby.players) && StartAnnounced()
      ensures Seated()
    {
      hide Delivered; hide StartFrames; hide Record; hide Profiles; hide ShowsLobby; hide AllSeated; hide Game;
      forall c | c in old(used) && c in lobby.players
        ensures ShowsSince(c, |old(c.writer.frames)|)
      {
        var i :| 0 <= i < |lobby.players| && lobby.players[i] == c;
        StartFramesSeat(rule, advertise, Game(), lobby.players, Info(lobby.players), i);
        forall j | |old(c.writer.frames)| <= j < |c.writer.frames| && CarriesGame(c.writer.frames[j])
          ensures ShowsLobby(c.writer.frames[j].payload, c)
        {
          ArrivedFrames(old(c.writer.frames), c.writer.frames, c.writer.failed, ShownStart(c), 0, j);
          FramesShow(c, ShownStart(c), c.writer.frames[j]);
        }
      }
    }

    lemma LobbyWired()
      requires Inv(Model()) && Wired() && lobby != null
      ensures lobby.players != [] && lobby.host == lobby.players[0] && NoRepeats(lobby.players)
      ensures forall i :: 0 <= i < |lobby.players| ==> lobby.players[i] in used
      ensures forall i, j :: 0 <= i < j < |lobby.players| ==> lobby.players[i].writer != lobby.players[j].writer
    {
      forall i | 0 <= i < |lobby.players|
        ensures lobby.players[i] in used
      {
        assert lobby.players[i] in Members(lobby.players);
      }
    }

    lemma LiveUsed()
      requires Valid()
      ensures live <= used && Inv(Model()) && Model().live == live && Model().used == used && Model().lobby == View() && Model().names == Names(used)
      ensures Wired() && loggedIn <= used && Selves() && Model() == Run(history) && Linked()
    {
      hide Inv; hide Selves; hide Wired; hide IDsValid;
      RunKeepsInv(history);
      LiveInUsed(Model());
    }

    lemma Tracked()
      requires Valid()
      ensures Inv(Model()) && Model() == Run(history) && Linked()
      ensures Model().live == live && Model().used == used && Model().lobby == View() && live <= used
    {
      LiveUsed();
    }

    /** As long as only writers are touched, and rightly, the server stays as it is. */
    twostate lemma StillValid()
      requires lobby != null && old(Valid()) && unchanged(this) && unchanged(lobby)
      requires forall c <- old(used) :: unchanged(c)
      requires Selves()
      ensures Valid()
    {
      hide Run; hide Selves;
      assert Model() == old(Model());
    }

    /** One frame to one client that is no +who leaves every client's own record alone. */
    twostate lemma ToldKeeps(c: ServiceClient, new frame: Notice)
      requires old(Selves()) && loggedIn == old(loggedIn) && old(loggedIn) <= old(used) && old(Wired()) && c in old(used)
      requires forall d <- old(loggedIn) :: unchanged(d) && (d != c ==> unchanged(d.writer))
      requires Delivered(old(c.writer.frames), c.writer.frames, c.writer.failed, [frame]) && frame.kind != Who
      requires old(c.writer.failed) ==> c.writer.failed
      ensures Selves()
    {
      hide Delivered; hide Settles; hide IdentityOf;
      forall d | d in loggedIn
        ensures KnowsItself(d)
      {
        assert d in old(loggedIn) && old(KnowsItself(d));
        if d == c && !d.writer.failed {
          SettledDelivered(old(d.writer.frames), d.writer.frames, d.writer.failed, [frame], d.Itself());
        }
      }
    }

    twostate lemma WasSound()
      requires lobby != null && old(Valid()) && unchanged(this) && unchanged(lobby)
      ensures old(Selves()) && loggedIn <= old(used) && NoRepeats(lobby.players)
    {
      hide Run; hide Selves; hide Wired; hide IDsValid;
      RunKeepsInv(history);
    }

    lemma ShownSettles(c: ServiceClient, presence: bool, collection: bool, before: seq<Notice>, after: seq<Notice>, failed: bool)
      requires lobby != null && NoRepeats(lobby.players) && c in lobby.players && Settles(before, c.Itself())
      requires Reached(before, after, failed, Shown(c, presence, collection), HeadSize(collection))
      ensures Settles(after, c.Itself())
    {
      hide Reached; hide LobbyFrames; hide Record; hide Profiles; hide Settles; hide IdentityOf; hide Game;
      var i :| 0 <= i < |lobby.players| && lobby.players[i] == c;
      SameIdentity(c);
      InfoKnown(lobby.players);
      SettledReached(rule, advertise, Game(), lobby.players, Info(lobby.players), i, presence, collection, before, after, failed);
    }

    /** What is announced leaves every client's own record alone. */
    twostate lemma AnnouncedKeeps(new presence: bool, new collection: bool)
      requires lobby != null && Announced(null, presence, collection) && old(Valid()) && unchanged(this) && unchanged(lobby)
      requires forall c <- old(used) :: unchanged(c)
      ensures Selves()
    {
      hide Valid; hide Inv; hide Model; hide Wired; hide Reached; hide Shown; hide Settles;
      WasSound();
      forall c | c in loggedIn
        ensures KnowsItself(c)
      {
        assert c in old(used) && old(KnowsItself(c));
        if c in lobby.players && !c.writer.failed {
          ShownSettles(c, presence, collection, old(c.writer.frames), c.writer.frames, c.writer.failed);
        }
      }
    }

    twostate lemma StartAnnouncedKeeps()
      requires lobby != null && StartAnnounced() && old(Valid()) && unchanged(this) && unchanged(lobby)
      requires forall c <- old(used) :: unchanged(c)
      ensures Selves()
    {
      hide Delivered; hide Record; hide Profiles; hide Settles; hide IdentityOf; hide RecipientGame;
      forall c | c in loggedIn
        ensures KnowsItself(c)
      {
        assert c in old(loggedIn) && old(KnowsItself(c));
        if c in lobby.players && !c.writer.failed {
          SettledDelivered(old(c.writer.frames), c.writer.frames, c.writer.failed, ShownStart(c), c.Itself());
        }
      }
    }

    twostate lemma AnnouncedValid(new presence: bool, new collection: bool)
      requires lobby != null && Announced(null, presence, collection) && old(Valid()) && unchanged(this) && unchanged(lobby)
      requires forall c <- old(used) :: unchanged(c)
      ensures Valid()
    {
      hide Announced; hide Valid; hide Selves;
      AnnouncedKeeps(presence, collection);
      StillValid();
    }

    twostate lemma StartAnnouncedValid()
      requires lobby != null && StartAnnounced() && old(Valid()) && unchanged(this) && unchanged(lobby)
      requires forall c <- old(used) :: unchanged(c)
      ensures Valid()
    {
      hide StartAnnounced; hide Valid; hide Selves;
      StartAnnouncedKeeps();
      StillValid();
    }

    method Announce(game: string, players: seq<ServiceClient>, clients: seq<ServiceClient>, presence: bool, collection: bool)
      requires Valid() && IsSnapshot(game, players, clients)
      modifies set c | c in used :: c.writer
      ensures Valid() && Announced(null, presence, collection) && Seated()
    {
      LiveUsed();
      hide Seated;
      hide Valid; hide Inv; hide Announced; hide View; hide Names; hide Selves; hide Model; hide Wired; hide IsSnapshot;
      Show(game, players, clients, presence, collection);
      AnnouncedValid(presence, collection);
      AnnouncedSeats(null, presence, collection);
    }

    method Show(game: string, players: seq<ServiceClient>, clients: seq<ServiceClient>, presence: bool, collection: bool)
      requires Inv(Model()) && Wired() && IsSnapshot(game, players, clients)
      modifies set c | c in used :: c.writer
      ensures Announced(null, presence, collection)
    {
      hide Inv; hide Reached; hide LobbyFrames; hide Record; hide Profiles; hide Info;
      LobbyWired();
      NotifyLobby(game, players, clients, presence, collection);
      forall c | c in old(used)
        ensures old(c.writer.failed) ==> c.writer.failed
        ensures if c in lobby.players then Reached(old(c.writer.frames), c.writer.frames, c.writer.failed, Shown(c, presence, collection), HeadSize(collection))
                else unchanged(c.writer)
      {
        if c in lobby.players {
          var i :| 0 <= i < |clients| && clients[i] == c;
        }
      }
    }

    method AnnounceStart(game: string, players: seq<ServiceClient>, clients: seq<ServiceClient>)
      requires Valid() && IsSnapshot(game, players, clients)
      modifies set c | c in used :: c.writer
      ensures Valid() && StartAnnounced() && Seated()
    {
      LiveUsed();
      hide Seated;
      hide Valid; hide Inv; hide StartAnnounced; hide View; hide Names; hide Selves; hide Model; hide Wired;
      hide IsSnapshot;
      ShowStart(game, players, clients);
      StartAnnouncedValid();
      StartAnnouncedSeats();
    }

    method ShowStart(game: string, players: seq<ServiceClient>, clients: seq<ServiceClient>)
      requires Inv(Model()) && Wired() && IsSnapshot(game, players, clients)
      modifies set c | c in used :: c.writer
      ensures StartAnnounced()
    {
      hide Inv; hide Delivered; hide StartFrames; hide Record; hide Profiles; hide Info;
      LobbyWired();
      NotifyLobbyStart(game, players, clients);
      forall c | c in old(used)
        ensures old(c.writer.failed) ==> c.writer.failed
        ensures if c in lobby.players then Delivered(old(c.writer.frames), c.writer.frames, c.writer.failed, ShownStart(c)) else unchanged(c.writer)
      {
        if c in lobby.players {
          var i :| 0 <= i < |clients| && clients[i] == c;
        }
      }
    }

    /** What holds of the fields between any two requests, whatever the requests were. */
    lemma LobbySound()
      requires Valid() && lobby != null
      ensures lobby.players != [] && lobby.players[0] == lobby.host && NoRepeats(lobby.players) && Members(lobby.players) <= live
      ensures lobby.resultReports == Reporters(history) && |lobby.players| <= Peak(history)
    {
      RunKeepsInv(history);
      RunBooked(history);
      RosterWithinPeak(history);
    }

    /** The step is complete. */
    ghost method Commit(ev: Event<ServiceClient>)
      requires Model() == Next(Run(history), ev) && Linked()
      modifies this`history
      ensures Valid() && history == old(history) + [ev]
    {
      hide Model; hide Linked; hide Run; hide Next;
      Log(ev);
    }

    /** Over every run: a client that has logged in, and to which no write has failed, has itself as its own
        record, whatever it had before. */
    lemma KnownToItself(c: ServiceClient, self: (string, string))
      requires Valid() && c in loggedIn && !c.writer.failed
      ensures After(self, c.writer.frames) == IdentityOf(c.Profile())
    {
      hide Run; hide Model; hide Wired; hide IDsValid; hide After; hide IdentityOf;
      assert KnowsItself(c);
      SameIdentity(c);
    }

    ghost method Log(ev: Event<ServiceClient>)
      requires Model() == Next(Run(history), ev)
      modifies this`history
      ensures history == old(history) + [ev] && Model() == Run(history) && Inv(Model())
    {
      RunStep(history, ev);
      history := history + [ev];
      RunKeepsInv(history);
    }

    /** A connection is accepted: its client is new. */
    method Accept(address: string, gamePort: int) returns (service: ServiceClient)
      requires Valid()
      modifies this`used, this`live, this`history
      ensures Valid() && fresh(service) && history == old(history) + [Connect(service)]
    {
      hide Run; hide Inv; hide Next; hide IDsValid; hide Model; hide Wired; hide Selves;
      service := new ServiceClient(address, gamePort);
      Register(service);
      Log(Connect(service));
    }

    ghost method Register(service: ServiceClient)
      requires service !in used && service.personaName == "LocalPlayer" && service.userParams == service.userFlags == ""
      requires Wired() && forall c <- used :: c.writer != service.writer
      modifies this`used, this`live
      ensures Model() == Next(old(Model()), Connect(service)) && Wired() && old(used) <= used
    {
      hide Next; hide View;
      ghost var before := Model();
      NextConnect(before, service);
      used, live := used + {service}, live + {service};
      assert Names(used) == before.names[service := "LocalPlayer"];
      assert AllParams(used) == before.params[service := Params("", "")];
    }

    method PersonaIDFor(persona: string) returns (id: int)
      requires IDsValid()
      modifies this`personaIDs, this`nextPersonaID
      ensures IDsValid() && persona in personaIDs && personaIDs[persona] == id
      ensures forall p <- old(personaIDs) :: p in personaIDs && personaIDs[p] == old(personaIDs[p])
    {
      if persona in personaIDs {
        return personaIDs[persona];
      }
      id := nextPersonaID;
      nextPersonaID := nextPersonaID + 1;
      personaIDs := personaIDs[persona := id];
    }

    lemma AllUsed()
      requires Valid()
      ensures Wired() && loggedIn <= used && live <= used
    {
      LiveUsed();
    }

    lemma Identified()
      requires Valid()
      ensures IDsValid()
    {
      hide Run; hide Model; hide Selves; hide Wired;
    }

    method SetPersona(service: ServiceClient, id: int, persona: string, address: string)
      requires service in live && live <= used
      modifies service`personaID, service`personaName, service`address
      ensures Model() == Next(old(Model()), Pers(service, persona))
      ensures service.personaID == id && service.personaName == persona && service.address == address
    {
      hide Next;
      ghost var before := Model();
      service.personaID, service.personaName, service.address := id, persona, address;
      assert Names(used) == before.names[service := persona];
      NextPers(before, service, persona);
    }

    method ApplyPers(service: ServiceClient, payload: string, clientAddress: string)
      requires Valid() && service in live
      modifies this`personaIDs, this`nextPersonaID, this`history, service`personaID, service`personaName, service`address
      ensures Model() == Run(history) && IDsValid() && history == old(history) + [Pers(service, AccountName(Field(payload, "PERS")))]
      ensures service.address == clientAddress && service.personaName in personaIDs && personaIDs[service.personaName] == service.personaID
    {
      AllUsed();
      Identified();
      assert Model() == Run(history);
      hide Valid; hide Run; hide AccountName; hide Field; hide Model; hide Next; hide IDsValid; hide Inv;
      hide Selves; hide Wired; hide Linked;
      var persona := GetLocalAccountName(Field(payload, "PERS"));
      var id := PersonaIDFor(persona);
      assert Model() == old(Model());
      SetPersona(service, id, persona, clientAddress);
      Log(Pers(service, persona));
    }

    /** A persona login; the client then makes the +who it is sent its own record. */
    method HandlePers(service: ServiceClient, payload: string, clientAddress: string)
      requires Valid() && service in live
      modifies this`personaIDs, this`nextPersonaID, this`history, this`loggedIn
      modifies service`personaID, service`personaName, service`address, service.writer
      ensures Valid() && history == old(history) + [Pers(service, AccountName(Field(payload, "PERS")))]
      ensures loggedIn == old(loggedIn) + {service}
      ensures service.address == clientAddress && service.personaName in personaIDs && personaIDs[service.personaName] == service.personaID
      ensures !service.writer.failed ==>
                service.writer.frames == old(service.writer.frames) + [Notice(Who, Presence(rule, service.Profile().(address := advertise), 0))]
    {
      hide Run; hide Presence; hide IdentityOf; hide AccountName; hide Field; hide Settles; hide Model; hide IDsValid;
      hide Selves; hide Wired; hide Valid;
      AllUsed();
      ApplyPers(service, payload, clientAddress);
      var shown := service.Profile().(address := advertise);
      var ok := service.writer.Write(Notice(Who, Presence(rule, shown, 0)));
      WhoLast(service.writer.frames, rule, shown, service.Profile());
      SameIdentity(service);
      LoginKeeps(service);
      Welcome(service);
    }

    ghost method Welcome(service: ServiceClient)
      requires Model() == Run(history) && Wired() && IDsValid() && loggedIn <= used && service in used
      requires forall d <- loggedIn + {service} :: KnowsItself(d)
      modifies this`loggedIn
      ensures Valid() && loggedIn == old(loggedIn) + {service}
    {
      hide Run; hide KnowsItself; hide Model; hide Wired; hide IDsValid;
      loggedIn := loggedIn + {service};
    }

    /** A login touches no other client's record. */
    twostate lemma LoginKeeps(service: ServiceClient)
      requires old(Valid()) && loggedIn == old(loggedIn) && service in old(used)
      requires forall d <- old(used) :: d != service ==> unchanged(d) && (d.writer != service.writer ==> unchanged(d.writer))
      requires KnowsItself(service)
      ensures forall d <- loggedIn + {service} :: KnowsItself(d)
    {
      assert old(Selves()) && old(Wired()) && old(loggedIn) <= old(used) by {
        hide Run; hide Model;
      }
      hide Valid; hide Settles; hide IdentityOf;
      forall d | d in loggedIn && d != service
        ensures KnowsItself(d)
      {
        assert d in old(loggedIn) && old(KnowsItself(d));
      }
    }

    method SetOwnParams(service: ServiceClient, payload: string)
      requires service in used
      modifies service`userParams, service`userFlags
      ensures Model() == old(Model()).(params := old(Model()).params[service := RequestParams(payload)])
    {
      hide FieldValue; hide Field; hide DecimalField;
      ghost var before := Model();
      service.userParams := Field(payload, "USERPARAMS");
      service.userFlags := DecimalField(Field(payload, "USERFLAGS"), "0");
      assert AllParams(used) == before.params[service := RequestParams(payload)];
    }

    // Each request is applied to the state, and then announced.

    method ApplyGpsc(service: ServiceClient, payload: string)
      returns (game: string, players: seq<ServiceClient>, clients: seq<ServiceClient>)
      requires Valid() && service in live
      modifies this`lobby, this`history, service`userParams, service`userFlags, service`address
      ensures Valid() && history == old(history) + [Gpsc(service, payload)] && View() == Some(Create(service, payload))
      ensures service.address == ValidPlayerAddress(rule, old(service.address), advertise)
      ensures IsSnapshot(game, players, clients)
    {
      hide Valid; hide Run; hide IsSnapshot; hide Linked; hide Inv; hide Model; hide RequestParams; hide Create;
      hide View;
      LiveUsed();
      SetOwnParams(service, payload);
      assert Linked();
      game, players, clients := OpenLobby(service, payload);
    }

    /** The creation itself, with the parameters already set. */
    method OpenLobby(service: ServiceClient, payload: string)
      returns (game: string, players: seq<ServiceClient>, clients: seq<ServiceClient>)
      requires Linked() && service in live && Run(history).live == live
      requires Model() == Run(history).(params := Run(history).params[service := RequestParams(payload)])
      modifies this`lobby, this`history, service`address
      ensures Valid() && history == old(history) + [Gpsc(service, payload)] && View() == Some(Create(service, payload))
      ensures service.address == ValidPlayerAddress(rule, old(service.address), advertise)
      ensures IsSnapshot(game, players, clients)
    {
      hide Valid; hide Run; hide IsSnapshot; hide Linked; hide Model; hide RequestParams; hide Create; hide View;
      hide Next;
      ghost var before := Run(history);
      game, players, clients := CreateLocalLobby(service, payload);
      NextGpsc(before, service, payload);
      assert Linked();
      Commit(Gpsc(service, payload));
    }

    method HandleGpsc(service: ServiceClient, payload: string)
      requires Valid() && service in live
      modifies this`lobby, this`history, service`userParams, service`userFlags, service`address, set c | c in used :: c.writer
      ensures Valid() && history == old(history) + [Gpsc(service, payload)]
      ensures View() == Some(Create(service, payload)) && Announced(null, true, true) && Seated()
      ensures service.address == ValidPlayerAddress(rule, old(service.address), advertise)
    {
      hide Valid; hide IsSnapshot; hide Reached; hide Shown; hide Create; hide View; hide ShowsSince;
      var game, players, clients := ApplyGpsc(service, payload);
      Announce(game, players, clients, true, true);
    }

    method ApplyGjoi(service: ServiceClient, payload: string)
      returns (game: string, players: seq<ServiceClient>, clients: seq<ServiceClient>, joined: bool)
      requires Valid() && service in live
      modifies lobby, this`history, service`userParams, service`userFlags, service`address
      ensures Valid() && history == old(history) + [Gjoi(service, payload)]
      ensures joined == (View().Some? && service in View().value.players)
      ensures joined ==> IsSnapshot(game, players, clients)
    {
      hide Valid; hide Run; hide IsSnapshot; hide Linked; hide Inv; hide Model; hide RequestParams; hide Join;
      hide View;
      Tracked();
      SetOwnParams(service, payload);
      assert Linked();
      game, players, clients, joined := EnterLobby(service, payload);
    }

    /** The join itself, with the parameters already set. */
    method EnterLobby(service: ServiceClient, payload: string)
      returns (game: string, players: seq<ServiceClient>, clients: seq<ServiceClient>, joined: bool)
      requires Linked() && service in live && Run(history).live == live && Run(history).lobby == View()
      requires Model() == Run(history).(params := Run(history).params[service := RequestParams(payload)])
      modifies lobby, this`history, service`address
      ensures Valid() && history == old(history) + [Gjoi(service, payload)]
      ensures joined == (View().Some? && service in View().value.players)
      ensures joined ==> IsSnapshot(game, players, clients)
    {
      hide Valid; hide Run; hide IsSnapshot; hide Linked; hide Model; hide RequestParams; hide Join; hide View;
      hide Next;
      ghost var before := Run(history);
      game, players, clients, joined := JoinLocalLobby(service);
      NextGjoi(before, service, payload);
      assert Linked();
      Commit(Gjoi(service, payload));
    }

    method HandleGjoi(service: ServiceClient, payload: string) returns (joined: bool)
      requires Valid() && service in live
      modifies lobby, this`history, service`userParams, service`userFlags, service`address, set c | c in used :: c.writer
      ensures Valid() && history == old(history) + [Gjoi(service, payload)]
      ensures joined == (View().Some? && service in View().value.players)
      ensures if joined then Announced(null, true, false) && Seated() else Silent()
    {
      hide Valid; hide IsSnapshot; hide Reached; hide Shown; hide Join; hide View; hide ShowsSince;
      var game, players, clients;
      game, players, clients, joined := ApplyGjoi(service, payload);
      if !joined {
        return;
      }
      Announce(game, players, clients, true, false);
    }

    method ApplyRank(service: ServiceClient)
      returns (game: string, players: seq<ServiceClient>, clients: seq<ServiceClient>, complete: bool)
      requires Valid() && service in live
      modifies lobby, this`history
      ensures Valid() && history == old(history) + [Rank(service)]
      ensures complete == Completes(old(Model()), service) && AsIntended(old(history), service, complete)
      ensures lobby != null ==> Concludes(old(lobby.request), lobby.request, complete)
      ensures complete ==> IsSnapshot(game, players, clients)
    {
      hide Concludes;
      hide Valid; hide Run; hide IsSnapshot; hide Next; hide Linked; hide Inv; hide Model; hide Report; hide AsIntended;
      Tracked();
      Barrier(service);
      ghost var before := Model();
      game, players, clients, complete := RecordLocalLobbyResult(service);
      NextRank(before, service);
      assert Linked();
      Commit(Rank(service));
    }

    /** A result: the race completes by the sizes, which is by everybody having reported as long as nobody
        has left since it began. */
    method HandleRank(service: ServiceClient) returns (complete: bool)
      requires Valid() && service in live
      modifies lobby, this`history, set c | c in used :: c.writer
      ensures Valid() && history == old(history) + [Rank(service)]
      ensures complete == Completes(old(Model()), service) && AsIntended(old(history), service, complete)
      ensures lobby != null ==> Concludes(old(lobby.request), lobby.request, complete)
      ensures if complete then Announced(null, false, true) && Seated() else Silent()
    {
      hide Concludes; hide ShowsSince;
      hide Valid; hide IsSnapshot; hide Reached; hide Shown; hide View; hide Completes; hide AsIntended; hide Model;
      var game, players, clients;
      game, players, clients, complete := ApplyRank(service);
      if complete {
        Announce(game, players, clients, false, true);
      }
    }

    lemma Barrier(service: ServiceClient)
      requires Valid()
      ensures AsIntended(history, service, Completes(Model(), service))
    {
      hide Completes;
      if Departed(history) == {} && Counts(Model(), service) {
        BarrierHolds(history, service);
      }
    }

    method ApplyGsta(service: ServiceClient)
      returns (game: string, players: seq<ServiceClient>, clients: seq<ServiceClient>, started: bool)
      requires Valid() && service in live
      modifies lobby, this`history
      ensures Valid() && history == old(history) + [Gsta(service)]
      ensures started == (lobby != null && old(lobby.host) == service)
      ensures started ==> Reflagged(old(lobby.request), lobby.request, SetStarted(SysFlags(old(lobby.request))))
      ensures started ==> IsSnapshot(game, players, clients)
    {
      Tracked();
      hide Reflagged; hide SysFlags; hide SetStarted;
      hide Valid; hide Run; hide IsSnapshot; hide Next; hide Linked; hide Inv; hide Model; hide Start;
      ghost var before := Model();
      game, players, clients, started := StartLocalLobby(service);
      NextGsta(before, service);
      assert Linked();
      Commit(Gsta(service));
    }

    method HandleGsta(service: ServiceClient) returns (started: bool)
      requires Valid() && service in live
      modifies lobby, this`history, set c | c in used :: c.writer
      ensures Valid() && history == old(history) + [Gsta(service)]
      ensures started == (lobby != null && old(lobby.host) == service)
      ensures started ==> Reflagged(old(lobby.request), lobby.request, SetStarted(SysFlags(old(lobby.request))))
      ensures if started then StartAnnounced() && Seated() else Silent()
    {
      hide Reflagged; hide SysFlags; hide SetStarted; hide ShowsSince;
      hide Valid; hide IsSnapshot; hide Delivered; hide ShownStart;
      var game, players, clients;
      game, players, clients, started := ApplyGsta(service);
      if started {
        AnnounceStart(game, players, clients);
      }
    }

    /** The kicked player is told so, and those who stay are shown the lobby without it. */
    method AnnounceKick(kicked: ServiceClient, frame: Notice, game: string, players: seq<ServiceClient>, clients: seq<ServiceClient>)
      requires Valid() && IsSnapshot(game, players, clients) && kicked in used && kicked !in players && frame.kind != Who
      modifies set c | c in used :: c.writer
      ensures Valid() && Delivered(old(kicked.writer.frames), kicked.writer.frames, kicked.writer.failed, [frame])
      ensures Announced(kicked, false, true) && Seated()
    {
      hide Reached; hide Selves; hide Shown; hide Record; hide Profiles; hide Info; hide Inv; hide Model; hide Run;
      hide IDsValid; hide Delivered; hide ShowsSince;
      var ok := kicked.writer.Write(frame);
      OneDelivered(old(kicked.writer.frames), frame);
      ToldKeeps(kicked, frame);
      Announce(game, players, clients, false, true);
    }

    /** A gset is a kick when it names somebody, an update otherwise. */
    method HandleGset(service: ServiceClient, payload: string) returns (kicked: ServiceClient?, updated: bool)
      requires Valid() && service in live
      modifies lobby, this`history, used`userParams, used`userFlags, set c | c in used :: c.writer
      ensures Valid() && history == old(history) + [Gset(service, payload)]
      ensures updated == (old(View()).Some? && (Field(payload, "KICK") == "" || kicked != null))
      ensures if updated then Announced(kicked, false, true) && Seated() else Silent()
      ensures Field(payload, "KICK") != "" ==>
                KickedAsNamed(old(View()), View(), old(Names(used)), service, Field(payload, "KICK"), if kicked == null then None else Some(kicked))
      ensures kicked != null ==>
                kicked in old(used) && Field(payload, "KICK") != ""
                && Delivered(old(kicked.writer.frames), kicked.writer.frames, kicked.writer.failed,
                             [Notice(Kik, Payload([("REASON", DecimalField(Field(payload, "KICK_REASON"), "0"))]))])
    {
      hide Valid; hide Reached; hide Shown; hide View; hide Kick; hide Payload; hide DecimalField; hide Delivered;
      hide Names;
      hide KickedAsNamed; hide ShowsSince;
      var kickedName, kick := GetPayloadFieldValue(payload, "KICK");
      kicked := null;
      if kick && kickedName != "" {
        kicked, updated := HandleKick(service, payload, kickedName);
      } else {
        updated := HandleUpdate(service, payload);
      }
    }

    method ApplyUpdate(service: ServiceClient, payload: string)
      returns (game: string, players: seq<ServiceClient>, clients: seq<ServiceClient>, updated: bool)
      requires Valid() && service in live && Field(payload, "KICK") == ""
      modifies lobby, this`history, used`userParams, used`userFlags
      ensures Valid() && history == old(history) + [Gset(service, payload)]
      ensures updated == old(View()).Some?
      ensures updated ==> IsSnapshot(game, players, clients)
    {
      hide Valid; hide Run; hide IsSnapshot; hide Next; hide Linked; hide Inv; hide Model; hide View;
      hide Field; hide Updated;
      Tracked();
      ghost var before := Model();
      game, players, clients, updated := UpdateLocalLobby(service, payload);
      NextUpdate(before, service, payload);
      assert Linked();
      Commit(Gset(service, payload));
    }

    method HandleUpdate(service: ServiceClient, payload: string) returns (updated: bool)
      requires Valid() && service in live && Field(payload, "KICK") == ""
      modifies lobby, this`history, used`userParams, used`userFlags, set c | c in used :: c.writer
      ensures Valid() && history == old(history) + [Gset(service, payload)]
      ensures updated == old(View()).Some?
      ensures if updated then Announced(null, false, true) && Seated() else Silent()
    {
      hide Valid; hide IsSnapshot; hide Reached; hide Shown; hide Field; hide View; hide ShowsSince;
      var game, players, clients;
      game, players, clients, updated := ApplyUpdate(service, payload);
      if updated {
        Announce(game, players, clients, false, true);
      }
    }

    method ApplyKick(service: ServiceClient, payload: string, persona: string)
      returns (game: string, players: seq<ServiceClient>, clients: seq<ServiceClient>, kicked: ServiceClient?, updated: bool)
      requires Valid() && service in live && Field(payload, "KICK") == persona != ""
      modifies lobby, this`history
      ensures Valid() && history == old(history) + [Gset(service, payload)]
      ensures updated == (kicked != null)
      ensures KickedAsNamed(old(View()), View(), old(Names(used)), service, persona, if kicked == null then None else Some(kicked))
      ensures kicked != null ==> old(View()).Some? && kicked in used && kicked !in players && IsSnapshot(game, players, clients)
    {
      hide Valid; hide Run; hide IsSnapshot; hide Next; hide Linked; hide Inv; hide Model; hide Names; hide Kick;
      hide Field; hide KickedAsNamed;
      LiveUsed();
      ghost var before := Model();
      game, players, clients, kicked, updated := KickLocalLobbyPlayer(service, persona);
      NextKick(before, service, payload);
      assert Linked();
      Commit(Gset(service, payload));
      if updated {
        KickedOut(before, View(), service, persona, kicked);
        SnapshotPlayers(game, players, clients);
      }
    }

    lemma SnapshotPlayers(game: string, players: seq<ServiceClient>, clients: seq<ServiceClient>)
      requires IsSnapshot(game, players, clients)
      ensures View().Some? && View().value.players == players
    {
      hide Record; hide Profiles;
    }

    method HandleKick(service: ServiceClient, payload: string, persona: string) returns (kicked: ServiceClient?, updated: bool)
      requires Valid() && service in live && Field(payload, "KICK") == persona != ""
      modifies lobby, this`history, set c | c in used :: c.writer
      ensures Valid() && history == old(history) + [Gset(service, payload)]
      ensures updated == (kicked != null)
      ensures KickedAsNamed(old(View()), View(), old(Names(used)), service, persona, if kicked == null then None else Some(kicked))
      ensures kicked != null ==>
                kicked in old(used) && old(View()).Some?
                && Delivered(old(kicked.writer.frames), kicked.writer.frames, kicked.writer.failed,
                             [Notice(Kik, Payload([("REASON", DecimalField(Field(payload, "KICK_REASON"), "0"))]))])
      ensures if updated then Announced(kicked, false, true) && Seated() else Silent()
    {
      hide KickedAsNamed; hide ShowsSince;
      hide Valid; hide IsSnapshot; hide Reached; hide Shown; hide Field; hide View; hide Kick; hide Names;
      hide Payload; hide DecimalField; hide Delivered;
      var game, players, clients;
      game, players, clients, kicked, updated := ApplyKick(service, payload, persona);
      if updated {
        var reason := DecimalField(Field(payload, "KICK_REASON"), "0");
        AnnounceKick(kicked, Notice(Kik, Payload([("REASON", reason)])), game, players, clients);
      }
    }

    method FindPlayer(client: ServiceClient) returns (index: int)
      requires lobby != null
      ensures IndexOf(lobby.players, client) == if index < 0 then None else Some(index)
    {
      index := -1;
      var players := lobby.players;
      for i := 0 to |players|
        invariant index == -1 && client !in players[..i]
      {
        if players[i] == client {
          FirstPlace(players, client, i);
          index := i;
          break;
        }
      }
      hide IndexOf;
    }

    /** The lobby without `client`; the host takes it along. */
    method LeaveLobby(client: ServiceClient) returns (game: string, players: seq<ServiceClient>, clients: seq<ServiceClient>, left: bool)
      modifies lobby, this`lobby
      ensures View() == match old(View()) case None => None case Some(l) => Remove(l, client)
      ensures Model() == old(Model()).(lobby := View())
      ensures left == (old(View()).Some? && View().Some? && client in old(View()).value.players)
      ensures left ==> IsSnapshot(game, players, clients)
    {
      hide Names; hide AllParams; hide Record; hide Profiles; hide Info;
      game, players, clients, left := "", [], [], false;
      if lobby == null {
        return;
      }
      if lobby.host == client {
        lobby := null;
        return;
      }
      var i := FindPlayer(client);
      hide IndexOf;
      if i >= 0 {
        lobby.players := lobby.players[..i] + lobby.players[i + 1..];
        game, players, clients := LocalLobbySnapshotLocked();
        left := true;
      }
    }

    ghost method Depart(client: ServiceClient)
      modifies this`live
      ensures live == old(live) - {client} && Model() == old(Model()).(live := live)
    {
      hide Names; hide AllParams; hide View;
      live := live - {client};
    }

    method ApplyDisconnect(client: ServiceClient)
      returns (game: string, players: seq<ServiceClient>, clients: seq<ServiceClient>, left: bool)
      requires Valid() && client in live
      modifies lobby, this`lobby, this`live, this`history
      ensures Valid() && history == old(history) + [Disconnect(client)]
      ensures left == (old(View()).Some? && View().Some? && client in old(View()).value.players)
      ensures left ==> IsSnapshot(game, players, clients)
    {
      hide Valid; hide Run; hide IsSnapshot; hide Linked; hide Inv; hide Model; hide View;
      LiveUsed();
      Depart(client);
      assert Linked();
      game, players, clients, left := Withdraw(client);
    }

    /** The removal itself, of a client that is not live any more. */
    method Withdraw(client: ServiceClient)
      returns (game: string, players: seq<ServiceClient>, clients: seq<ServiceClient>, left: bool)
      requires Linked() && client in Run(history).live && Run(history).lobby == View()
      requires Model() == Run(history).(live := Run(history).live - {client})
      modifies lobby, this`lobby, this`history
      ensures Valid() && history == old(history) + [Disconnect(client)]
      ensures left == (old(View()).Some? && View().Some? && client in old(View()).value.players)
      ensures left ==> IsSnapshot(game, players, clients)
    {
      hide Valid; hide Run; hide IsSnapshot; hide Next; hide Linked; hide Model; hide Remove; hide View;
      ghost var before := Run(history);
      game, players, clients, left := LeaveLobby(client);
      NextDisconnect(before, client);
      assert Linked();
      Commit(Disconnect(client));
    }

    /** What a handler defers: its client leaves the lobby, and those who stay are told. */
    method RemoveClientFromLobby(client: ServiceClient)
      requires Valid() && client in live
      modifies lobby, this`lobby, this`live, this`history, set c | c in used :: c.writer
      ensures Valid() && history == old(history) + [Disconnect(client)]
      ensures if old(View()).Some? && View().Some? && client in old(View()).value.players then Announced(null, false, true) && Seated() else Silent()
    {
      hide Valid; hide IsSnapshot; hide Reached; hide Shown; hide ShowsSince;
      var game, players, clients, left := ApplyDisconnect(client);
      if left {
        Announce(game, players, clients, false, true);
      }
    }
  }

  lemma LiveInUsed(s: State<ServiceClient>)
    requires Inv(s)
    ensures s.live <= s.used
  {
  }

  lemma SameIdentity(c: ServiceClient)
    ensures c.Itself() == IdentityOf(c.Profile())
  {
  }

  lemma NextConnect(s: State<ServiceClient>, c: ServiceClient)
    requires c !in s.used
    ensures Next(s, Connect(c)) == s.(used := s.used + {c}, live := s.live + {c},
                                      names := s.names[c := "LocalPlayer"], params := s.params[c := Params("", "")])
  {
  }

  lemma NextPers(s: State<ServiceClient>, c: ServiceClient, name: string)
    requires c in s.live
    ensures Next(s, Pers(c, name)) == s.(names := s.names[c := name])
  {
  }

  lemma NextGjoi(s: State<ServiceClient>, c: ServiceClient, payload: string)
    requires c in s.live
    ensures Next(s, Gjoi(c, payload)) == s.(params := s.params[c := RequestParams(payload)],
                                            lobby := match s.lobby case None => None case Some(l) => Some(Join(l, c).0))
  {
  }

  lemma NextUpdate(s: State<ServiceClient>, c: ServiceClient, payload: string)
    requires c in s.live && Field(payload, "KICK") == ""
    ensures Next(s, Gset(c, payload))
            == match s.lobby
               case None => s
               case Some(l) => Updated(s, l, c, payload)
  {
  }

  lemma NextKick(s: State<ServiceClient>, c: ServiceClient, payload: string)
    requires c in s.live && Field(payload, "KICK") != ""
    ensures Next(s, Gset(c, payload))
            == s.(lobby := match s.lobby case None => None case Some(l) => Some(Kick(l, s.names, c, Field(payload, "KICK")).0))
  {
  }

  lemma NextDisconnect(s: State<ServiceClient>, c: ServiceClient)
    requires c in s.live
    ensures Next(s, Disconnect(c)) == s.(live := s.live - {c}, lobby := match s.lobby case None => None case Some(l) => Remove(l, c))
  {
  }

  /** A kicked player is somebody of the roster and not in it any more. */
  lemma KickedOut(s: State<ServiceClient>, after: Option<LobbyModel.Lobby<ServiceClient>>, c: ServiceClient, persona: string, kicked: ServiceClient)
    requires Inv(s) && KickedAsNamed(s.lobby, after, s.names, c, persona, Some(kicked))
    ensures kicked in s.live && after.Some? && kicked !in after.value.players
  {
    hide GoesBy;
    var l := s.lobby.value;
    var i :| FirstGuest(l.players, l.host, s.names, persona, i) && l.players[i] == kicked
             && after.value.players == l.players[..i] + l.players[i + 1..];
    WithoutKeeps(l.players, i);
    assert l.players[i] in Members(l.players);
    assert l.players[i] !in Members(Without(l.players, i));
  }

  lemma NextGpsc(s: State<ServiceClient>, c: ServiceClient, payload: string)
    requires c in s.live
    ensures Next(s, Gpsc(c, payload)) == s.(params := s.params[c := RequestParams(payload)], lobby := Some(Create(c, payload)))
  {
  }

  /** Once a client has been sent its own presence last, its user record is its own whatever it was. */
  lemma WhoLast(frames: seq<Notice>, rule: AddressRule, shown: GameRecord.Profile, p: GameRecord.Profile)
    requires shown.personaID == p.personaID && shown.name == p.name
    ensures frames != [] && frames[|frames| - 1] == Notice(Who, Presence(rule, shown, 0)) ==>
              Settles(frames, IdentityOf(p))
  {
    hide Presence; hide Identity;
    PresenceReads(rule, shown, 0);
  }

  lemma FramesParts(rule: AddressRule, advertise: string, game: string, players: seq<ServiceClient>,
                    info: map<ServiceClient, GameRecord.Profile>, client: ServiceClient, presence: bool, collection: bool)
    requires players != [] && Known(players, info) && Known(LocalLast(players, client), info)
    ensures var record := RecipientGame(rule, advertise, game, players, info, client);
            LobbyFrames(rule, advertise, game, players, info, client, presence, collection)
            == (if collection then [Notice(Gam, record)] else [])
               + (if presence then PresenceFrames(rule, LocalLast(players, client), info, client) else [])
               + [Notice(Mgm, record)]
  {
  }

  lemma InfoKnown(players: seq<ServiceClient>)
    ensures Known(players, Info(players))
    ensures players != [] ==> Info(players)[players[0]] == players[0].Profile()
  {
  }

  /** The presence of a reordered roster is the same whichever list the profiles are taken from. */
  lemma SameFrames(rule: AddressRule, players: seq<ServiceClient>, order: seq<ServiceClient>, client: ServiceClient)
    requires Known(order, Info(players))
    ensures PresenceFrames(rule, order, Info(order), client) == PresenceFrames(rule, order, Info(players), client)
  {
    hide Presence;
  }

  lemma TargetUsed(l: LobbyModel.Lobby<ServiceClient>, names: map<ServiceClient, string>, client: ServiceClient, update: string)
    ensures var t := Target(l, names, client, update); t.Some? ==> t.value == client || t.value in l.players
  {
    NamedIsPlayer(l.players, names, Field(update, "PERS"));
  }
}
