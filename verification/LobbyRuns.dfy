/** What the lobby promises over whole runs: the result barrier, the roster limit and who may change what. */
module LobbyRuns {
  import opened Wrappers
  import opened Text
  import opened Decimal
  import opened GameRequest
  import opened LobbyModel

  // ----- history, independent of the server's own bookkeeping -----

  /** A gsta by the host, or a gpsc, begins a new race. */
  predicate Begins<Id(==)>(s: State<Id>, ev: Event<Id>)
  {
    ev.client in s.live && (ev.Gpsc? || (ev.Gsta? && s.lobby.Some? && s.lobby.value.host == ev.client))
  }

  /** The clients whose report counted since the race began, wherever they are now. */
  function Reporters<Id(==)>(evs: seq<Event<Id>>): set<Id>
  {
    if evs == [] then {}
    else
      var before, s, ev := Reporters(evs[..|evs| - 1]), Run(evs[..|evs| - 1]), evs[|evs| - 1];
      if Begins(s, ev) then {} else if ev.Rank? && Counts(s, ev.client) then before + {ev.client} else before
  }

  function Players<Id(==)>(s: State<Id>): set<Id> { if s.lobby.None? then {} else Members(s.lobby.value.players) }

  /** The clients who were in the roster at some time since the race began and left it or were kicked. */
  function Departed<Id(==)>(evs: seq<Event<Id>>): set<Id>
  {
    if evs == [] then {}
    else
      var before, s, ev := Departed(evs[..|evs| - 1]), Run(evs[..|evs| - 1]), evs[|evs| - 1];
      if Begins(s, ev) then {} else before + (Players(s) - Players(Run(evs)))
  }

  // ----- the barrier -----

  /** The report set, exactly: nobody is forgotten, and nobody is added, when players come and go. */
  ghost predicate Booked<Id>(evs: seq<Event<Id>>)
  {
    var s := Run(evs);
    s.lobby.Some? ==> s.lobby.value.reports == Reporters(evs) && Reporters(evs) <= Players(s) + Departed(evs)
  }

  lemma NextReports<Id>(s: State<Id>, ev: Event<Id>)
    requires s.lobby.Some? && Next(s, ev).lobby.Some?
    ensures Next(s, ev).lobby.value.reports
            == if Begins(s, ev) then {}
               else s.lobby.value.reports + (if ev.Rank? && Counts(s, ev.client) then {ev.client} else {})
  {
    hide Merge; hide StartRequest; hide FinishRequest; hide EffectiveMax; hide FieldValue; hide Field; hide SysFlags;
    hide UpdatedParams;
  }

  lemma {:induction false} RunBooked<Id>(evs: seq<Event<Id>>)
    ensures Booked(evs)
  {
    if evs != [] {
      var init, ev := evs[..|evs| - 1], evs[|evs| - 1];
      var s := Run(init);
      RunBooked(init);
      if s.lobby.Some? && Run(evs).lobby.Some? {
        NextReports(s, ev);
      } else if Run(evs).lobby.Some? {
        OnlyGpscCreates(s, ev);
      }
      JoinersStay(s, ev);
    }
  }

  lemma OnlyGpscCreates<Id>(s: State<Id>, ev: Event<Id>)
    requires s.lobby.None? && Next(s, ev).lobby.Some?
    ensures ev.Gpsc? && ev.client in s.live && Next(s, ev).lobby.value.reports == {}
  {
    hide Field; hide FieldValue;
  }

  /** Whoever reports is a player, before and after. */
  lemma JoinersStay<Id>(s: State<Id>, ev: Event<Id>)
    ensures ev.Rank? && Counts(s, ev.client) ==> ev.client in Players(s) && ev.client in Players(Next(s, ev))
  {
    hide SysFlags; hide FinishRequest;
  }

  lemma SetSizes<Id>(a: set<Id>, b: set<Id>)
    ensures |a| >= |b| <==> |b - a| <= |a - b|
  {
    var both := a * b;
    assert a == both + (a - b) && b == both + (b - a);
  }

  lemma {:induction false} RosterSize<Id>(xs: seq<Id>)
    requires NoRepeats(xs)
    ensures |Members(xs)| == |xs|
  {
    if xs != [] {
      var init, last := xs[..|xs| - 1], xs[|xs| - 1];
      RosterSize(init);
      assert Members(xs) == Members(init) + {last};
      assert last !in init;
    }
  }

  /** The report that completes a race: it counts, and clears the started flag. */
  predicate Completes<Id(==)>(s: State<Id>, c: Id) { c in s.live && s.lobby.Some? && Report(s.lobby.value, c).1 }

  /** When a race is complete, for every run: exactly when the players who have not reported are no
      more than the reporters who have gone. */
  lemma CompletionExactly<Id>(evs: seq<Event<Id>>, c: Id)
    requires Counts(Run(evs), c)
    ensures var s, reported := Run(evs), Reporters(evs) + {c};
            Completes(s, c) <==> |Players(s) - reported| <= |reported - Players(s)|
    ensures Reporters(evs) + {c} - Players(Run(evs)) <= Departed(evs)
  {
    var s, reported := Run(evs), Reporters(evs) + {c};
    RunKeepsInv(evs);
    RunBooked(evs);
    RosterSize(s.lobby.value.players);
    SetSizes(reported, Players(s));
  }

  /** The intent: if nobody left or was kicked since the race began, it completes exactly when every
      current player, mid-race joiners included, has reported. */
  lemma BarrierHolds<Id>(evs: seq<Event<Id>>, c: Id)
    requires Counts(Run(evs), c) && Departed(evs) == {}
    ensures Completes(Run(evs), c) <==> Players(Run(evs)) <= Reporters(evs) + {c}
  {
    var s, reported := Run(evs), Reporters(evs) + {c};
    CompletionExactly(evs, c);
    assert reported - Players(s) == {};
    assert |Players(s) - reported| == 0 <==> Players(s) - reported == {};
  }

  /** Whether a race completes as intended: if nobody has left since it began, with everybody's report. */
  ghost predicate AsIntended<Id>(evs: seq<Event<Id>>, c: Id, complete: bool)
  {
    Counts(Run(evs), c) && Departed(evs) == {} ==> (complete <==> Players(Run(evs)) <= Reporters(evs) + {c})
  }

  /** When the intent fails: somebody has not reported, and at least as many reporters have gone. */
  lemma BarrierFailsExactly<Id>(evs: seq<Event<Id>>, c: Id)
    requires Counts(Run(evs), c)
    ensures var s, reported := Run(evs), Reporters(evs) + {c};
            Completes(s, c) && !(Players(s) <= reported)
            <==> 0 < |Players(s) - reported| <= |reported - Players(s)|
  {
    var s, reported := Run(evs), Reporters(evs) + {c};
    CompletionExactly(evs, c);
    assert Players(s) <= reported <==> Players(s) - reported == {};
  }

  /** Such a run: a host and two guests start; one guest reports and leaves; the host's
      report completes the race although the other guest never reported. */
  function DepartedReporterRun(request: string): seq<Event<nat>>
  {
    [Connect(0), Connect(1), Connect(2), Gpsc(0, request), Gjoi(1, ""), Gjoi(2, ""), Gsta(0), Rank(1), Disconnect(1)]
  }

  lemma RunStep<Id>(evs: seq<Event<Id>>, ev: Event<Id>)
    ensures Run(evs + [ev]) == Next(Run(evs), ev)
    ensures Reporters(evs + [ev]) == if Begins(Run(evs), ev) then {}
                                     else if ev.Rank? && Counts(Run(evs), ev.client) then Reporters(evs) + {ev.client} else Reporters(evs)
  {
    assert (evs + [ev])[..|evs|] == evs;
  }

  lemma ConnectStep(evs: seq<Event<nat>>, c: nat)
    requires c !in Run(evs).used
    ensures var s, s' := Run(evs), Run(evs + [Connect(c)]);
            s'.used == s.used + {c} && s'.live == s.live + {c} && s'.lobby == s.lobby
  {
    hide Field; hide FieldValue; hide DecimalField;
    RunStep(evs, Connect(c));
    hide Run;
  }

  lemma ConnectThree(three: seq<Event<nat>>)
    requires three == [Connect(0), Connect(1), Connect(2)]
    ensures Run(three).lobby == None && Run(three).live == {0, 1, 2}
  {
    var none: seq<Event<nat>> := [];
    assert Run(none) == Empty();
    hide Run;
    ConnectStep(none, 0);
    assert none + [Connect(0)] == three[..1];
    ConnectStep(three[..1], 1);
    assert three[..1] + [Connect(1)] == three[..2];
    ConnectStep(three[..2], 2);
    assert three[..2] + [Connect(2)] == three;
    assert Run(three).live == {} + {0} + {1} + {2};
  }

  lemma JoinStep(evs: seq<Event<nat>>, l: Lobby<nat>, c: nat)
    requires Run(evs).lobby == Some(l) && c in Run(evs).live && c !in l.players && |l.players| < EffectiveMax(l.request)
    ensures Run(evs + [Gjoi(c, "")]).lobby == Some(l.(players := l.players + [c])) && Run(evs + [Gjoi(c, "")]).live == Run(evs).live
  {
    hide EffectiveMax; hide Field; hide FieldValue; hide DecimalField;
    RunStep(evs, Gjoi(c, ""));
  }

  lemma CreateStep(evs: seq<Event<nat>>, c: nat, request: string)
    requires c in Run(evs).live
    ensures Run(evs + [Gpsc(c, request)]).lobby == Some(Lobby(request, c, [c], {}))
    ensures Run(evs + [Gpsc(c, request)]).live == Run(evs).live
  {
    hide Field; hide FieldValue; hide DecimalField;
    RunStep(evs, Gpsc(c, request));
  }

  lemma SetupRun(request: string) returns (setup: seq<Event<nat>>)
    requires EffectiveMax(request) >= 3
    ensures setup == [Connect(0), Connect(1), Connect(2), Gpsc(0, request), Gjoi(1, ""), Gjoi(2, "")]
    ensures Run(setup).lobby == Some(Lobby(request, 0, [0, 1, 2], {})) && Run(setup).live == {0, 1, 2}
  {
    hide EffectiveMax; hide Run;
    var three: seq<Event<nat>> := [Connect(0), Connect(1), Connect(2)];
    ConnectThree(three);
    CreateStep(three, 0, request);
    var four := three + [Gpsc(0, request)];
    JoinStep(four, Lobby(request, 0, [0], {}), 1);
    assert [0] + [1] == [0, 1];
    var five := four + [Gjoi(1, "")];
    JoinStep(five, Lobby(request, 0, [0, 1], {}), 2);
    assert [0, 1] + [2] == [0, 1, 2];
    setup := five + [Gjoi(2, "")];
  }

  /** Before anybody leaves, the barrier of that run holds: the host's report alone completes nothing. */
  lemma WaitsForGuests(request: string) returns (evs: seq<Event<nat>>)
    requires EffectiveMax(request) >= 3
    ensures evs == DepartedReporterRun(request)[..7] && Departed(evs) == {}
    ensures Counts(Run(evs), 0) && !Completes(Run(evs), 0)
  {
    hide EffectiveMax; hide SysFlags; hide StartRequest; hide Run; hide Reporters; hide Completes;
    var setup := SetupRun(request);
    StartedRoundTrip(request);
    evs := setup + [Gsta(0)];
    StartStep(setup, request);
    BarrierHolds(evs, 0);
    assert 1 in [0, 1, 2] && 1 !in {} + {0};
    assert 1 in Players(Run(evs)) && 1 !in Reporters(evs) + {0};
  }

  lemma StartStep(evs: seq<Event<nat>>, request: string)
    requires Run(evs).lobby == Some(Lobby(request, 0, [0, 1, 2], {})) && Run(evs).live == {0, 1, 2}
    ensures var evs' := evs + [Gsta(0)];
            Run(evs').lobby == Some(Lobby(StartRequest(request), 0, [0, 1, 2], {})) && Run(evs').live == {0, 1, 2}
            && Reporters(evs') == {} && Departed(evs') == {}
  {
    hide StartRequest;
    RunStep(evs, Gsta(0));
    assert (evs + [Gsta(0)])[..|evs|] == evs;
    assert Begins(Run(evs), Gsta(0));
  }

  lemma DepartedReporterCounts(request: string)
    requires EffectiveMax(request) >= 3
    ensures var evs := DepartedReporterRun(request);
            Counts(Run(evs), 0) && Completes(Run(evs), 0) && 2 in Players(Run(evs)) && 2 !in Reporters(evs) + {0}
  {
    hide EffectiveMax; hide Field; hide FieldValue; hide DecimalField; hide StartRequest; hide FinishRequest;
    hide SysFlags;
    hide Merge; hide Run; hide Reporters;
    var setup := SetupRun(request);
    StartedRoundTrip(request);
    StartStep(setup, request);
    var started := setup + [Gsta(0)];
    RunStep(started, Rank(1));
    var ranked := started + [Rank(1)];
    assert Counts(Run(started), 1) && {} + {1} == {1};
    assert Run(ranked).lobby == Some(Lobby(StartRequest(request), 0, [0, 1, 2], {1})) && Reporters(ranked) == {1};
    LeaveStep(ranked, StartRequest(request));
    var evs := ranked + [Disconnect(1)];
    assert evs == DepartedReporterRun(request);
    assert {1} + {0} == {0, 1};
    assert 2 in [0, 2];
  }

  lemma LeaverGone(l: Lobby<nat>)
    requires l.host == 0 && l.players == [0, 1, 2]
    ensures Remove(l, 1) == Some(l.(players := [0, 2]))
  {
    var i := IndexOf(l.players, 1);
    assert l.players[0] == 0 && l.players[1] == 1 && l.players[2] == 2;
    assert i.value == 1;
    assert Without(l.players, 1) == [0, 2];
  }

  lemma LeaveStep(evs: seq<Event<nat>>, request: string)
    requires Run(evs).lobby == Some(Lobby(request, 0, [0, 1, 2], {1})) && Run(evs).live == {0, 1, 2}
    ensures var evs' := evs + [Disconnect(1)];
            Run(evs').lobby == Some(Lobby(request, 0, [0, 2], {1})) && Run(evs').live == {0, 2} && Reporters(evs') == Reporters(evs)
  {
    hide Run; hide Reporters; hide Remove;
    RunStep(evs, Disconnect(1));
    LeaverGone(Run(evs).lobby.value);
    assert {0, 1, 2} - {1} == {0, 2};
  }

  // ----- the roster limit -----

  /** The largest limit in force at any time since the lobby was created. */
  function Peak<Id(==)>(evs: seq<Event<Id>>): int
  {
    if evs == [] then 0
    else
      var before, s, s' := Peak(evs[..|evs| - 1]), Run(evs[..|evs| - 1]), Run(evs);
      var ev := evs[|evs| - 1];
      if s'.lobby.None? then 0
      else
        var now := EffectiveMax(s'.lobby.value.request);
        if ev.Gpsc? && ev.client in s.live then now else if before < now then now else before
  }

  /** Only a join lets the roster grow, by one, and then it ends within the limit in force. */
  lemma RosterGrowth<Id>(s: State<Id>, ev: Event<Id>)
    requires s.lobby.Some? && Next(s, ev).lobby.Some? && !(ev.Gpsc? && ev.client in s.live)
    ensures var l, l' := s.lobby.value, Next(s, ev).lobby.value;
            |l'.players| > |l.players| ==>
              ev.Gjoi? && l'.players == l.players + [ev.client] && l'.request == l.request && |l'.players| <= EffectiveMax(l.request)
  {
    hide Merge; hide StartRequest; hide FinishRequest; hide EffectiveMax; hide FieldValue; hide Field; hide SysFlags;
    hide UpdatedParams;
  }

  /** Over every run the roster never exceeds the largest limit in force since the creation, even when
      the host has lowered it since. */
  lemma {:induction false} RosterWithinPeak<Id>(evs: seq<Event<Id>>)
    ensures Run(evs).lobby.Some? ==> |Run(evs).lobby.value.players| <= Peak(evs)
  {
    if evs != [] {
      var init, ev := evs[..|evs| - 1], evs[|evs| - 1];
      var s, s' := Run(init), Run(evs);
      RosterWithinPeak(init);
      if s'.lobby.Some? {
        if s.lobby.None? {
          OnlyGpscCreates(s, ev);
        } else if !(ev.Gpsc? && ev.client in s.live) {
          RosterGrowth(s, ev);
        }
      }
    }
  }

  // ----- who may change what -----

  /** A gset of anybody but the host changes no stored request and nobody else's parameters; one of the
      host changes at most one player's parameters, `t`. */
  lemma UpdatesAreScoped<Id>(s: State<Id>, c: Id, payload: string) returns (t: Id)
    requires Inv(s) && c in s.live && s.lobby.Some?
    ensures var s', l := Next(s, Gset(c, payload)), s.lobby.value;
            s'.lobby.Some? && s'.lobby.value.host == l.host
            && (t == c || (c == l.host && t in l.players))
            && (forall other :: other != t ==> ParamsOf(s', other) == ParamsOf(s, other))
            && (c != l.host ==> s'.lobby.value == l)
            && (Field(payload, "KICK") != "" ==> s'.params == s.params && s'.lobby.value.request == l.request)
            && (c == l.host && Field(payload, "KICK") == "" ==>
                  s'.lobby.value.request == Merge(l.request, payload) && s'.lobby.value.players == l.players)
  {
    hide Merge; hide FieldValue; hide Field; hide UpdatedParams;
    var l := s.lobby.value;
    var target := Target(l, s.names, c, payload);
    NamedIsPlayer(l.players, s.names, Field(payload, "PERS"));
    t := if target.Some? then target.value else c;
  }

  lemma {:induction false} NamedIsPlayer<Id>(players: seq<Id>, names: map<Id, string>, persona: string)
    ensures var t := FirstNamed(players, names, persona); t.Some? ==> t.value in players && t.value in names && EqualFold(names[t.value], persona)
  {
    if players != [] {
      NamedIsPlayer(players[1..], names, persona);
    }
  }
}
