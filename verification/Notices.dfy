/** Who is told what about the lobby: the roster as each recipient sees it, and the frames it gets. */
module Notices {
  import opened Wrappers
  import opened Text
  import opened Decimal
  import opened GameRequest
  import opened GameRecord
  import opened Rerender
  import opened LobbyModel

  // ----- the roster, seen by one of its members -----

  function Others<Id(==)>(players: seq<Id>, local: Id): seq<Id>
  {
    if players == [] then []
    else
      var last := players[|players| - 1];
      Others(players[..|players| - 1], local) + (if last == local then [] else [last])
  }

  function Itself<Id(==)>(players: seq<Id>, local: Id): seq<Id> { if local in players then [local] else [] }

  function LocalFirst<Id(==)>(players: seq<Id>, local: Id): seq<Id> { Itself(players, local) + Others(players, local) }

  function LocalLast<Id(==)>(players: seq<Id>, local: Id): seq<Id> { Others(players, local) + Itself(players, local) }

  method GetLocalPlayerFirst<Id(==)>(players: seq<Id>, local: Id) returns (ordered: seq<Id>)
    ensures ordered == LocalFirst(players, local)
  {
    ordered := [];
    for i := 0 to |players|
      invariant ordered == [] && local !in players[..i]
    {
      if players[i] == local {
        ordered := ordered + [players[i]];
        break;
      }
    }
    assert ordered == Itself(players, local);
    ghost var itself := ordered;
    for i := 0 to |players|
      invariant ordered == itself + Others(players[..i], local)
    {
      assert players[..i + 1][..i] == players[..i];
      if players[i] != local {
        ordered := ordered + [players[i]];
      }
    }
    assert players[..|players|] == players;
  }

  method GetLocalPlayerLast<Id(==)>(players: seq<Id>, local: Id) returns (ordered: seq<Id>)
    ensures ordered == LocalLast(players, local)
  {
    ordered := [];
    for i := 0 to |players|
      invariant ordered == Others(players[..i], local)
    {
      assert players[..i + 1][..i] == players[..i];
      if players[i] != local {
        ordered := ordered + [players[i]];
      }
    }
    assert players[..|players|] == players;
    ghost var others := ordered;
    for i := 0 to |players|
      invariant ordered == others && local !in players[..i]
    {
      if players[i] == local {
        ordered := ordered + [players[i]];
        break;
      }
    }
  }

  lemma {:induction false} OthersAbsent<Id>(players: seq<Id>, local: Id)
    requires local !in players
    ensures Others(players, local) == players
  {
    if players != [] {
      var init, last := players[..|players| - 1], players[|players| - 1];
      OthersAbsent(init, local);
      assert init + [last] == players;
    }
  }

  /** In a roster without duplicates the others are the roster without that one place, in order. */
  lemma {:induction false} OthersWithout<Id>(players: seq<Id>, i: nat)
    requires i < |players| && NoRepeats(players)
    ensures Others(players, players[i]) == Without(players, i)
  {
    var init, last := players[..|players| - 1], players[|players| - 1];
    if i == |init| {
      OthersAbsent(init, last);
    } else {
      assert init[i] == players[i];
      OthersWithout(init, i);
      assert players[i + 1..] == init[i + 1..] + [last];
    }
  }

  lemma {:induction false} OthersIn<Id>(players: seq<Id>, local: Id)
    ensures forall i :: 0 <= i < |Others(players, local)| ==> Others(players, local)[i] in players && Others(players, local)[i] != local
  {
    if players != [] {
      OthersIn(players[..|players| - 1], local);
    }
  }

  // ----- frames -----

  datatype Kind = Gam | Usr | Who | Mgm | Ses | Kik

  datatype Notice = Notice(kind: Kind, payload: string)

  const PRESENCE_KEYS: seq<string> := ["I", "N", "F", "P", "S", "X", "G", "A", "LA"]

  function PresenceAddress(rule: AddressRule, p: Profile): string { if IsAddress(rule, p.address) then p.address else "127.0.0.1" }

  function PresenceEntries(rule: AddressRule, p: Profile, gameID: int): (r: seq<Entry>)
    ensures |r| == |PRESENCE_KEYS|
  {
    [("I", Print(p.personaID)), ("N", Persona(p)), ("F", ""), ("P", "PC"), ("S", ""), ("X", ""), ("G", Print(gameID)),
     ("A", PresenceAddress(rule, p)), ("LA", PresenceAddress(rule, p))]
  }

  function Presence(rule: AddressRule, p: Profile, gameID: int): string { Payload(PresenceEntries(rule, p, gameID)) }

  lemma PresencePrints(rule: AddressRule, p: Profile, gameID: int)
    ensures Printed(PresenceEntries(rule, p, gameID)) && DistinctKeys(PresenceEntries(rule, p, gameID))
  {
    hide Print; hide Persona; hide Reading;
    PersonaProper(p);
    PrintStable(p.personaID);
    PrintStable(gameID);
    AddressPrints(rule, p.address, "");
    AddressPrints(rule, "127.0.0.1", "127.0.0.1");
    assert forall c <- PresenceAddress(rule, p) :: AddressChar(c);
  }

  /** A presence record reads back as the identity it was printed for. */
  lemma PresenceReads(rule: AddressRule, p: Profile, gameID: int)
    ensures Identity(Presence(rule, p, gameID)) == IdentityOf(p)
  {
    hide Print; hide Persona; hide Reading; hide FieldValue; hide Payload;
    var es := PresenceEntries(rule, p, gameID);
    PresencePrints(rule, p, gameID);
    PrintedReads(es, 0);
    PrintedReads(es, 1);
    PrintStable(p.personaID);
  }

  /** And everything else in it: no flags, the game the player is in, and its address twice. */
  lemma PresenceTells(rule: AddressRule, p: Profile, gameID: int)
    ensures var r, address := Presence(rule, p, gameID), if IsAddress(rule, p.address) then p.address else "127.0.0.1";
            FieldValue(r, "I") == Some(Print(p.personaID)) && FieldValue(r, "N") == Some(Reading(CleanField(p.name, 19, "LocalPlayer")))
            && FieldValue(r, "F") == FieldValue(r, "S") == FieldValue(r, "X") == Some("") && FieldValue(r, "P") == Some("PC")
            && FieldValue(r, "G") == Some(Print(gameID)) && FieldValue(r, "A") == FieldValue(r, "LA") == Some(address)
  {
    var es := PresenceEntries(rule, p, gameID);
    PresencePrints(rule, p, gameID);
    PrintStable(p.personaID);
    PrintStable(gameID);
    AddressPrints(rule, p.address, "127.0.0.1");
    PresenceAt(rule, p, gameID);
    hide *;
    PrintedReads(es, 0);
    PrintedReads(es, 1);
    PrintedReads(es, 6);
    PrintedReads(es, 7);
    PrintedReads(es, 8);
    PresenceConstants(rule, p, gameID);
  }

  lemma PlatformReads()
    ensures Reading("PC") == "PC"
  {
    StableReads("PC");
  }

  lemma PresenceConstants(rule: AddressRule, p: Profile, gameID: int)
    ensures var r := Presence(rule, p, gameID);
            FieldValue(r, "F") == FieldValue(r, "S") == FieldValue(r, "X") == Some("") && FieldValue(r, "P") == Some("PC")
  {
    var es := PresenceEntries(rule, p, gameID);
    PresencePrints(rule, p, gameID);
    ConstantsRead();
    PlatformReads();
    PresenceAt(rule, p, gameID);
    hide *;
    PrintedReads(es, 2);
    PrintedReads(es, 3);
    PrintedReads(es, 4);
    PrintedReads(es, 5);
  }

  lemma PresenceAt(rule: AddressRule, p: Profile, gameID: int)
    ensures var es, address := PresenceEntries(rule, p, gameID), if IsAddress(rule, p.address) then p.address else "127.0.0.1";
            es == [("I", Print(p.personaID)), ("N", CleanField(p.name, 19, "LocalPlayer")), ("F", ""), ("P", "PC"), ("S", ""), ("X", ""),
                   ("G", Print(gameID)), ("A", address), ("LA", address)]
            && Presence(rule, p, gameID) == Payload(es) && address == ValidPlayerAddress(rule, p.address, "127.0.0.1")
  {
    hide Print; hide CleanField; hide Payload;
  }

  /** Whom a presence record is about, as a client parses it. */
  function Identity(payload: string): (string, string) { (Field(payload, "I"), Field(payload, "N")) }

  function IdentityOf(p: Profile): (string, string) { (Print(p.personaID), Reading(Persona(p))) }

  ghost predicate Known<Id>(ids: seq<Id>, info: map<Id, Profile>) { forall i :: 0 <= i < |ids| ==> ids[i] in info }

  function Profiles<Id(==)>(ids: seq<Id>, info: map<Id, Profile>): (r: seq<Profile>)
    requires Known(ids, info)
    ensures |r| == |ids|
  {
    seq(|ids|, i requires 0 <= i < |ids| => info[ids[i]])
  }

  lemma OrdersKnown<Id>(players: seq<Id>, info: map<Id, Profile>, client: Id)
    requires Known(players, info)
    ensures Known(LocalFirst(players, client), info) && Known(LocalLast(players, client), info)
  {
    OthersIn(players, client);
  }

  function PresenceFrames<Id(==)>(rule: AddressRule, order: seq<Id>, info: map<Id, Profile>, client: Id): (r: seq<Notice>)
    requires Known(order, info)
    ensures |r| == |order|
  {
    seq(|order|, i requires 0 <= i < |order| => Notice(if order[i] == client then Who else Usr, Presence(rule, info[order[i]], 1)))
  }

  /** The record for one recipient: printed again from the printed game, with the recipient in front. */
  function RecipientGame<Id(==)>(rule: AddressRule, advertise: string, game: string, players: seq<Id>, info: map<Id, Profile>, client: Id): string
    requires players != [] && Known(players, info)
  {
    OrdersKnown(players, info, client);
    Record(rule, advertise, game, info[players[0]], Profiles(LocalFirst(players, client), info))
  }

  function LobbyFrames<Id(==)>(rule: AddressRule, advertise: string, game: string, players: seq<Id>, info: map<Id, Profile>, client: Id,
                               presence: bool, collection: bool): (r: seq<Notice>)
    requires players != [] && Known(players, info)
    ensures r != []
  {
    OrdersKnown(players, info, client);
    var record := RecipientGame(rule, advertise, game, players, info, client);
    (if collection then [Notice(Gam, record)] else [])
    + (if presence then PresenceFrames(rule, LocalLast(players, client), info, client) else [])
    + [Notice(Mgm, record)]
  }

  function StartFrames<Id(==)>(rule: AddressRule, advertise: string, game: string, players: seq<Id>, info: map<Id, Profile>, client: Id): seq<Notice>
    requires players != [] && Known(players, info)
  {
    var record := RecipientGame(rule, advertise, game, players, info, client);
    [Notice(Gam, record), Notice(Mgm, record), Notice(Ses, record)]
  }

  // ----- what a client makes of them -----

  /** A +who replaces the client's own user record, whoever it is about; nothing else does. */
  function After(self: (string, string), frames: seq<Notice>): (string, string)
  {
    if frames == [] then self
    else
      var last := frames[|frames| - 1];
      if last.kind == Who then Identity(last.payload) else After(self, frames[..|frames| - 1])
  }

  lemma MiddleShape<Id>(rule: AddressRule, players: seq<Id>, info: map<Id, Profile>, i: nat)
    requires i < |players| && NoRepeats(players) && Known(players, info) && Known(LocalLast(players, players[i]), info)
    ensures var middle, others := PresenceFrames(rule, LocalLast(players, players[i]), info, players[i]), Without(players, i);
            |middle| == |players|
            && (forall k :: 0 <= k < |others| ==> others[k] in info && middle[k] == Notice(Usr, Presence(rule, info[others[k]], 1)))
            && middle[|others|] == Notice(Who, Presence(rule, info[players[i]], 1))
            && (forall k :: 0 <= k < |players| ==> (middle[k].kind == Who <==> k == |others|) && middle[k].kind != Mgm)
  {
    hide Presence;
    var client, others := players[i], Without(players, i);
    OthersWithout(players, i);
    OthersIn(players, client);
    var order := LocalLast(players, client);
    assert order == others + [client];
    assert forall k :: 0 <= k < |others| ==> order[k] == others[k];
  }

  /** The frames of one notification, in order, to a member of a roster without duplicates: at most one
      +gam, one +usr for each other player in roster order, one +who, which is about the recipient, and
      the +mgm. */
  lemma FramesShape<Id>(rule: AddressRule, advertise: string, game: string, players: seq<Id>, info: map<Id, Profile>, i: nat,
                        presence: bool, collection: bool)
    requires i < |players| && NoRepeats(players) && Known(players, info)
    ensures var fs := LobbyFrames(rule, advertise, game, players, info, players[i], presence, collection);
            var others, c, n := Without(players, i), if collection then 1 else 0, if presence then |players| else 0;
            |fs| == c + n + 1
            && (collection ==> fs[0].kind == Gam)
            && (presence ==> forall k :: 0 <= k < |others| ==> others[k] in info && fs[c + k] == Notice(Usr, Presence(rule, info[others[k]], 1)))
            && (presence ==> fs[c + |others|] == Notice(Who, Presence(rule, info[players[i]], 1)))
            && fs[c + n].kind == Mgm
            && (forall j :: 0 <= j < |fs| ==> (fs[j].kind == Who <==> presence && j == c + |others|))
            && (forall j :: 0 <= j < |fs| ==> (fs[j].kind == Mgm <==> j == c + n))
  {
    hide Presence; hide RecipientGame; hide PresenceFrames; hide LocalLast;
    OrdersKnown(players, info, players[i]);
    MiddleShape(rule, players, info, i);
    var record := RecipientGame(rule, advertise, game, players, info, players[i]);
    var middle := PresenceFrames(rule, LocalLast(players, players[i]), info, players[i]);
    var fs := LobbyFrames(rule, advertise, game, players, info, players[i], presence, collection);
    assert fs == Assembled(record, middle, presence, collection);
    AssembledShape(record, middle, presence, collection);
    hide LobbyFrames; hide Assembled;
  }

  function Assembled(record: string, middle: seq<Notice>, presence: bool, collection: bool): seq<Notice>
  {
    (if collection then [Notice(Gam, record)] else []) + (if presence then middle else []) + [Notice(Mgm, record)]
  }

  lemma AssembledShape(record: string, middle: seq<Notice>, presence: bool, collection: bool)
    requires forall k :: 0 <= k < |middle| ==> (middle[k].kind == Who <==> k == |middle| - 1) && middle[k].kind != Mgm
    ensures var fs, c, n := Assembled(record, middle, presence, collection), if collection then 1 else 0, if presence then |middle| else 0;
            |fs| == c + n + 1 && (collection ==> fs[0].kind == Gam) && fs[c + n].kind == Mgm
            && (presence ==> forall k :: 0 <= k < |middle| ==> fs[c + k] == middle[k])
            && (forall j :: 0 <= j < |fs| ==> (fs[j].kind == Who <==> presence && j == c + |middle| - 1 && |middle| > 0))
            && (forall j :: 0 <= j < |fs| ==> (fs[j].kind == Mgm <==> j == c + n))
  {
    AssembledAt(record, middle, presence, collection);
    hide Assembled;
  }

  lemma AssembledAt(record: string, middle: seq<Notice>, presence: bool, collection: bool)
    ensures var fs, c, n := Assembled(record, middle, presence, collection), if collection then 1 else 0, if presence then |middle| else 0;
            |fs| == c + n + 1
            && forall j :: 0 <= j < |fs| ==> fs[j] == if j < c then Notice(Gam, record) else if j < c + n then middle[j - c] else Notice(Mgm, record)
  {
  }

  /** After every frame of a notification, delivered wholly or cut anywhere, the client's own record is
      still its own: no +who is about anybody else. */
  lemma SelfStaysSelf<Id>(rule: AddressRule, advertise: string, game: string, players: seq<Id>, info: map<Id, Profile>, i: nat,
                          presence: bool, collection: bool, k: nat)
    requires i < |players| && NoRepeats(players) && Known(players, info)
    requires k <= |LobbyFrames(rule, advertise, game, players, info, players[i], presence, collection)|
    ensures var fs := LobbyFrames(rule, advertise, game, players, info, players[i], presence, collection);
            After(IdentityOf(info[players[i]]), fs[..k]) == IdentityOf(info[players[i]])
  {
    hide Identity; hide IdentityOf; hide LobbyFrames; hide Presence;
    var fs := LobbyFrames(rule, advertise, game, players, info, players[i], presence, collection);
    FramesShape(rule, advertise, game, players, info, i, presence, collection);
    PresenceReads(rule, info[players[i]], 1);
    OwnWhosKeep(IdentityOf(info[players[i]]), fs[..k]);
  }

  lemma {:induction false} OwnWhosKeep(self: (string, string), frames: seq<Notice>)
    requires forall j :: 0 <= j < |frames| && frames[j].kind == Who ==> Identity(frames[j].payload) == self
    ensures After(self, frames) == self
  {
    if frames != [] {
      OwnWhosKeep(self, frames[..|frames| - 1]);
    }
  }

  // ----- delivery -----

  /** Frames written one after the other until a write fails: a prefix of them arrives. */
  ghost predicate Delivered(before: seq<Notice>, after: seq<Notice>, failed: bool, frames: seq<Notice>)
  {
    (!failed ==> after == before + frames) && exists k :: 0 <= k <= |frames| && after == before + frames[..k]
  }

  /** The frames of a lobby notification: nothing follows a failure among the first `head` frames, but
      after a failure behind them the last frame is still tried. */
  ghost predicate Reached(before: seq<Notice>, after: seq<Notice>, failed: bool, frames: seq<Notice>, head: nat)
  {
    (!failed ==> after == before + frames)
    && (Delivered(before, after, true, frames)
        || exists k :: head <= k < |frames| - 1 && after == before + frames[..k] + [frames[|frames| - 1]])
  }

  function HeadSize(collection: bool): nat { if collection then 1 else 0 }

  lemma NothingReached(before: seq<Notice>, frames: seq<Notice>, head: nat)
    ensures Reached(before, before, true, frames, head)
  {
    assert before == before + frames[..0];
  }

  lemma PartReached(before: seq<Notice>, head: seq<Notice>, middle: seq<Notice>, last: Notice, sent: nat)
    requires sent <= |middle|
    ensures var frames, part := head + middle + [last], before + head + middle[..sent];
            Reached(before, part, true, frames, |head|) && Reached(before, part + [last], true, frames, |head|)
            && (sent == |middle| ==> Reached(before, part + [last], false, frames, |head|))
  {
    var frames, k := head + middle + [last], |head| + sent;
    assert before + head + middle[..sent] == before + frames[..k];
    assert frames[..|frames|] == frames;
    assert sent == |middle| ==> before + frames[..k] + [last] == before + frames;
  }

  lemma PrefixDelivered(before: seq<Notice>, frames: seq<Notice>, sent: nat)
    requires sent <= |frames|
    ensures Delivered(before, before + frames[..sent], true, frames)
    ensures sent == |frames| ==> Delivered(before, before + frames[..sent], false, frames)
  {
    assert frames[..|frames|] == frames;
  }

  lemma OneDelivered(before: seq<Notice>, frame: Notice)
    ensures Delivered(before, before, true, [frame]) && Delivered(before, before + [frame], true, [frame])
            && Delivered(before, before + [frame], false, [frame])
  {
    PrefixDelivered(before, [frame], 0);
    PrefixDelivered(before, [frame], 1);
    assert [frame][..0] == [] && [frame][..1] == [frame];
  }

  /** Whichever writes fail, no client is sent +ses without +gam and +mgm before it in the same start. */
  lemma SesComesLast<Id>(rule: AddressRule, advertise: string, game: string, players: seq<Id>, info: map<Id, Profile>, client: Id,
                         before: seq<Notice>, after: seq<Notice>, failed: bool, j: nat)
    requires players != [] && Known(players, info)
    requires Delivered(before, after, failed, StartFrames(rule, advertise, game, players, info, client))
    requires |before| <= j < |after| && after[j].kind == Ses
    ensures j == |before| + 2 && after[j - 2].kind == Gam && after[j - 1].kind == Mgm
    ensures after[j - 2].payload == after[j - 1].payload == after[j].payload
  {
    hide RecipientGame;
    var frames := StartFrames(rule, advertise, game, players, info, client);
    var k :| 0 <= k <= |frames| && after == before + frames[..k];
    assert after[j] == frames[j - |before|];
    assert after[|before|] == frames[0] && after[|before| + 1] == frames[1];
  }

  /** Nor, where the collection is included, +mgm without +gam; and +mgm is the last frame, once. */
  lemma MgmComesLast<Id>(rule: AddressRule, advertise: string, game: string, players: seq<Id>, info: map<Id, Profile>, i: nat,
                         presence: bool, collection: bool, before: seq<Notice>, after: seq<Notice>, failed: bool, j: nat)
    requires i < |players| && NoRepeats(players) && Known(players, info)
    requires Reached(before, after, failed, LobbyFrames(rule, advertise, game, players, info, players[i], presence, collection),
                     HeadSize(collection))
    requires |before| <= j < |after| && after[j].kind == Mgm
    ensures j == |after| - 1 && (collection ==> j > |before| && after[|before|].kind == Gam)
  {
    hide LobbyFrames; hide Presence;
    var fs := LobbyFrames(rule, advertise, game, players, info, players[i], presence, collection);
    FramesShape(rule, advertise, game, players, info, i, presence, collection);
    var k :| 0 <= k <= |fs| && (after == before + fs[..k] || (HeadSize(collection) <= k < |fs| - 1 && after == before + fs[..k] + [fs[|fs| - 1]]));
    if j < |before| + k {
      assert after[j] == fs[j - |before|];
    }
    if k > 0 {
      assert after[|before|] == fs[0];
    }
  }

  lemma {:induction false} AfterAppend(self: (string, string), a: seq<Notice>, b: seq<Notice>)
    ensures After(self, a + b) == After(After(self, a), b)
  {
    if b == [] {
      assert a + b == a;
    } else {
      assert (a + b)[..|a + b| - 1] == a + b[..|b| - 1];
      AfterAppend(self, a, b[..|b| - 1]);
    }
  }

  /** Whichever writes fail, a client whose record was its own keeps it: the frames that do reach it never
      carry a +who about anybody else. */
  lemma ReachedKeepsSelf<Id>(rule: AddressRule, advertise: string, game: string, players: seq<Id>, info: map<Id, Profile>, i: nat,
                             presence: bool, collection: bool, self: (string, string), before: seq<Notice>, after: seq<Notice>, failed: bool)
    requires i < |players| && NoRepeats(players) && Known(players, info)
    requires After(self, before) == IdentityOf(info[players[i]])
    requires Reached(before, after, failed, LobbyFrames(rule, advertise, game, players, info, players[i], presence, collection),
                     HeadSize(collection))
    ensures After(self, after) == IdentityOf(info[players[i]])
  {
    hide Identity; hide IdentityOf; hide LobbyFrames; hide After;
    var fs := LobbyFrames(rule, advertise, game, players, info, players[i], presence, collection);
    MgmLast(rule, advertise, game, players, info, players[i], presence, collection);
    var k :| 0 <= k <= |fs| && (after == before + fs[..k] || after == before + fs[..k] + [fs[|fs| - 1]]);
    SelfStaysSelf(rule, advertise, game, players, info, i, presence, collection, k);
    AfterAppend(self, before, fs[..k]);
    AfterAppend(self, before + fs[..k], [fs[|fs| - 1]]);
    LastKeeps(After(self, before), [fs[|fs| - 1]]);
  }

  /** Whatever a client's own record was before, after these frames it is `id`. */
  ghost predicate Settles(frames: seq<Notice>, id: (string, string)) { forall self :: After(self, frames) == id }

  lemma SettledReached<Id>(rule: AddressRule, advertise: string, game: string, players: seq<Id>, info: map<Id, Profile>, i: nat,
                           presence: bool, collection: bool, before: seq<Notice>, after: seq<Notice>, failed: bool)
    requires i < |players| && NoRepeats(players) && Known(players, info)
    requires Settles(before, IdentityOf(info[players[i]]))
    requires Reached(before, after, failed, LobbyFrames(rule, advertise, game, players, info, players[i], presence, collection),
                     HeadSize(collection))
    ensures Settles(after, IdentityOf(info[players[i]]))
  {
    hide IdentityOf; hide LobbyFrames; hide After; hide Reached;
    forall self
      ensures After(self, after) == IdentityOf(info[players[i]])
    {
      ReachedKeepsSelf(rule, advertise, game, players, info, i, presence, collection, self, before, after, failed);
    }
  }

  /** Frames without a +who change nobody's own record. */
  lemma SettledDelivered(before: seq<Notice>, after: seq<Notice>, failed: bool, frames: seq<Notice>, id: (string, string))
    requires Settles(before, id) && Delivered(before, after, failed, frames)
    requires forall j :: 0 <= j < |frames| ==> frames[j].kind != Who
    ensures Settles(after, id)
  {
    hide After;
    var k :| 0 <= k <= |frames| && after == before + frames[..k];
    forall self
      ensures After(self, after) == id
    {
      AfterAppend(self, before, frames[..k]);
      OwnWhosKeep(id, frames[..k]);
    }
  }

  lemma MgmLast<Id>(rule: AddressRule, advertise: string, game: string, players: seq<Id>, info: map<Id, Profile>, client: Id,
                    presence: bool, collection: bool)
    requires players != [] && Known(players, info)
    ensures var fs := LobbyFrames(rule, advertise, game, players, info, client, presence, collection); fs[|fs| - 1].kind == Mgm
  {
    hide RecipientGame; hide PresenceFrames; hide LocalLast;
  }

  lemma LastKeeps(self: (string, string), frames: seq<Notice>)
    requires |frames| == 1 && frames[0].kind != Who
    ensures After(self, frames) == self
  {
  }

  /** A record as the recipient at place `i` of the roster must see it: the game of `game` under the same
      host, the recipient at index 0, the others behind it in roster order, nobody else, and COUNT the size of
      the roster. */
  ghost predicate Seats<Id>(rule: AddressRule, advertise: string, record: string, game: string, players: seq<Id>, info: map<Id, Profile>, i: nat)
    requires i < |players| && Known(players, info)
  {
    && Announces(record, game, info[players[0]], |players|)
    && Lists(rule, advertise, record, 0, info[players[i]])
    && (forall k :: 0 <= k < |players| - 1 ==> SeatsOther(rule, advertise, record, players, info, i, k))
    && (forall k: nat :: k >= |players| ==> FieldValue(record, "OPPO" + Print(k)) == None)
  }

  ghost predicate SeatsOther<Id>(rule: AddressRule, advertise: string, record: string, players: seq<Id>, info: map<Id, Profile>, i: nat, k: nat)
    requires i < |players| && k < |players| - 1 && Known(players, info)
  {
    Lists(rule, advertise, record, k + 1, info[players[if k < i then k else k + 1]])
  }

  lemma SeatAt<Id>(rule: AddressRule, advertise: string, game: string, players: seq<Id>, info: map<Id, Profile>, i: nat, k: nat)
    requires i < |players| && NoRepeats(players) && Known(players, info) && k < |players|
    ensures var record := RecipientGame(rule, advertise, game, players, info, players[i]);
            Lists(rule, advertise, record, k, info[if k == 0 then players[i] else players[if k - 1 < i then k - 1 else k]])
  {
    var client, host := players[i], info[players[0]];
    OrdersKnown(players, info, client);
    OthersWithout(players, i);
    hide Record; hide Lists; hide Others;
    var order := LocalFirst(players, client);
    var ps := Profiles(order, info);
    assert order == [client] + Without(players, i);
    assert Roster(host, ps) == ps && |ps| == |players|;
    RecordLists(rule, advertise, game, host, ps, k);
  }

  lemma OtherSeatAt<Id>(rule: AddressRule, advertise: string, game: string, players: seq<Id>, info: map<Id, Profile>, i: nat, k: nat)
    requires i < |players| && NoRepeats(players) && Known(players, info) && k < |players| - 1
    ensures SeatsOther(rule, advertise, RecipientGame(rule, advertise, game, players, info, players[i]), players, info, i, k)
  {
    hide RecipientGame; hide Lists; hide NoRepeats;
    SeatAt(rule, advertise, game, players, info, i, k + 1);
  }

  lemma SeatsCounted<Id>(rule: AddressRule, advertise: string, game: string, players: seq<Id>, info: map<Id, Profile>, i: nat)
    requires i < |players| && NoRepeats(players) && Known(players, info)
    ensures var record := RecipientGame(rule, advertise, game, players, info, players[i]);
            Announces(record, game, info[players[0]], |players|)
            && forall k: nat :: k >= |players| ==> FieldValue(record, "OPPO" + Print(k)) == None
  {
    var client, host := players[i], info[players[0]];
    OrdersKnown(players, info, client);
    OthersWithout(players, i);
    var ps := Profiles(LocalFirst(players, client), info);
    assert Roster(host, ps) == ps && |ps| == |players|;
    assert PLAYER_KEYS[1] == "OPPO";
    hide Record; hide Announces; hide FieldValue; hide Print; hide Others;
    RecordAnnounces(rule, advertise, game, host, ps);
    forall k: nat | k >= |players|
      ensures FieldValue(Record(rule, advertise, game, host, ps), "OPPO" + Print(k)) == None
    {
      NoBlock(rule, advertise, game, host, ps, k, 1);
    }
  }

  /** The recipient's own print of a game is such a record. */
  lemma RecipientFirst<Id>(rule: AddressRule, advertise: string, game: string, players: seq<Id>, info: map<Id, Profile>, i: nat)
    requires i < |players| && NoRepeats(players) && Known(players, info)
    ensures Seats(rule, advertise, RecipientGame(rule, advertise, game, players, info, players[i]), game, players, info, i)
  {
    hide RecipientGame; hide Announces; hide Lists; hide FieldValue; hide Print; hide SeatsOther; hide NoRepeats;
    SeatsCounted(rule, advertise, game, players, info, i);
    SeatAt(rule, advertise, game, players, info, i, 0);
    var record := RecipientGame(rule, advertise, game, players, info, players[i]);
    forall k | 0 <= k < |players| - 1
      ensures SeatsOther(rule, advertise, record, players, info, i, k)
    {
      OtherSeatAt(rule, advertise, game, players, info, i, k);
    }
  }

  predicate CarriesGame(n: Notice) { n.kind.Gam? || n.kind.Mgm? || n.kind.Ses? }

  /** Frames that carry a game, and carry it as their recipient must see it. */
  ghost predicate AllSeated<Id>(rule: AddressRule, advertise: string, frames: seq<Notice>, game: string, players: seq<Id>,
                                info: map<Id, Profile>, i: nat)
    requires i < |players| && Known(players, info)
  {
    forall j :: 0 <= j < |frames| && CarriesGame(frames[j]) ==> Seats(rule, advertise, frames[j].payload, game, players, info, i)
  }

  /** At a start every member gets +gam, +mgm and +ses, each with the recipient first. */
  lemma StartFramesSeat<Id>(rule: AddressRule, advertise: string, game: string, players: seq<Id>, info: map<Id, Profile>, i: nat)
    requires i < |players| && NoRepeats(players) && Known(players, info)
    ensures var fs := StartFrames(rule, advertise, game, players, info, players[i]);
            |fs| == 3 && fs[0].kind == Gam && fs[1].kind == Mgm && fs[2].kind == Ses && AllSeated(rule, advertise, fs, game, players, info, i)
  {
    hide RecipientGame; hide Seats; hide NoRepeats;
    RecipientFirst(rule, advertise, game, players, info, i);
  }

  /** And so have the +gam and the +mgm of every other notification. */
  lemma LobbyFramesSeat<Id>(rule: AddressRule, advertise: string, game: string, players: seq<Id>, info: map<Id, Profile>, i: nat,
                            presence: bool, collection: bool)
    requires i < |players| && NoRepeats(players) && Known(players, info)
    ensures AllSeated(rule, advertise, LobbyFrames(rule, advertise, game, players, info, players[i], presence, collection), game, players, info, i)
  {
    RecipientFirst(rule, advertise, game, players, info, i);
    OrdersKnown(players, info, players[i]);
    hide RecipientGame; hide Seats; hide LocalLast; hide Presence;
    var record := RecipientGame(rule, advertise, game, players, info, players[i]);
    var middle := PresenceFrames(rule, LocalLast(players, players[i]), info, players[i]);
    AssembledRecords(record, middle, presence, collection);
    assert LobbyFrames(rule, advertise, game, players, info, players[i], presence, collection) == Assembled(record, middle, presence, collection);
    hide LobbyFrames; hide Assembled;
  }

  lemma AssembledRecords(record: string, middle: seq<Notice>, presence: bool, collection: bool)
    requires forall k :: 0 <= k < |middle| ==> middle[k].kind == Usr || middle[k].kind == Who
    ensures var fs := Assembled(record, middle, presence, collection);
            forall j :: 0 <= j < |fs| && CarriesGame(fs[j]) ==> fs[j].payload == record
  {
    AssembledAt(record, middle, presence, collection);
    hide Assembled;
  }

  /** Whatever fails, only frames of the notification arrive. */
  lemma ArrivedFrames(before: seq<Notice>, after: seq<Notice>, failed: bool, frames: seq<Notice>, head: nat, j: nat)
    requires Delivered(before, after, failed, frames) || Reached(before, after, failed, frames, head)
    requires |before| <= j < |after|
    ensures after[j] in frames
  {
    var k :| 0 <= k <= |frames| && (after == before + frames[..k] || (k < |frames| && after == before + frames[..k] + [frames[|frames| - 1]]));
    if j < |before| + k {
      assert after[j] == frames[j - |before|];
    }
  }

  /** The flags of a printed game are those of the request it was printed from. */
  lemma FlagsShown(rule: AddressRule, advertise: string, record: string, request: string, host: Profile, count: nat)
    requires Announces(record, request, host, count)
    ensures SysFlags(record) == SysFlags(request)
  {
    ZeroParses();
    DecimalFieldProper(Field(request, "SYSFLAGS"), "0");
    hide FieldValue; hide AnnouncesNames; hide Parse; hide Reading; hide Print;
  }

  /** The record is printed twice on its way: first for the whole roster from the stored request, then
      for the recipient from that record. The recipient sees the stored request exactly when the first
      print is settled. */
  lemma SentAsStored<Id>(rule: AddressRule, advertise: string, request: string, players: seq<Id>, info: map<Id, Profile>, client: Id)
    requires players != [] && Known(players, info)
    ensures var host := info[players[0]];
            var game := Record(rule, advertise, request, host, Profiles(players, info));
            RecipientGame(rule, advertise, game, players, info, client) == RecipientGame(rule, advertise, request, players, info, client)
            <==> Settled(request, host)
  {
    hide Record; hide Settled;
    OrdersKnown(players, info, client);
    RerenderExactly(rule, advertise, request, info[players[0]], Profiles(players, info), Profiles(LocalFirst(players, client), info));
  }
}
