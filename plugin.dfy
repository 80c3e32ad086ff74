/**
 * The raid-session controller of the mistake tracker: the handlers that follow
 * the raid phase, resolve the roster, run detection once per tick and keep the
 * raiders' snapshots and death flags.
 *
 * Host inputs arrive as parameters: the varbit value, the client strings
 * (`varcStr`) and `Text.sanitize` (`sanitize`), the present players, the
 * spectating option, game states and chat messages, and the detectors' verdicts
 * for the tick.
 */
module Plugin {
  import opened Host
  import opened Mistakes
  import opened Detectors
  import opened Raiders
  import Raid
  import Roster

  const ConfigGroup: string := "tobMistakeTracker"
  const ClearMistakesKey: string := "clearMistakes"

  class TobMistakeTrackerPlugin {
    var raidState: int
    var inTob: bool
    var isRaider: bool
    var allRaidersLoaded: bool
    /** Name to raider. */
    var raiders: map<string, TobRaider>
    const mistakeManager: MistakeManager
    const mistakeDetectorManager: MistakeDetectorManager

    function Flags(): Raid.Flags
      reads this
    {
      Raid.Flags(raidState, inTob, isRaider, allRaidersLoaded)
    }

    ghost function RaiderSet(): set<TobRaider>
      reads this
    {
      raiders.Values
    }

    /** Every raider's mutable fields, by name. */
    ghost function RosterState(): map<string, RaiderState>
      reads this, RaiderSet()
    {
      map k | k in raiders :: raiders[k].State()
    }

    /** Each raider is filed under its own name (so distinct keys hold distinct raiders), and the flags are reachable. */
    ghost predicate WellFormed()
      reads this
    {
      (forall k :: k in raiders ==> raiders[k].name == k) && Raid.Inv(Flags())
    }

    /** Between start-up and shut-down the roster is non-empty exactly when it is loaded. */
    ghost predicate Valid()
      reads this
    {
      WellFormed() && (allRaidersLoaded <==> raiders != map[])
    }

    /** A controller in the reset state, with an empty ledger and a detector manager that has had no calls. */
    constructor ()
      ensures Valid() && Flags() == Raid.ResetFlags && raiders == map[]
      ensures fresh(mistakeManager) && fresh(mistakeDetectorManager)
      ensures mistakeManager.mistakes == map[] && mistakeDetectorManager.calls == []
    {
      raidState := Raid.NoParty;
      inTob, isRaider, allRaidersLoaded := false, false, false;
      raiders := map[];
      mistakeManager := new MistakeManager();
      mistakeDetectorManager := new MistakeDetectorManager();
    }

    method StartUp()
      requires WellFormed()
      modifies this, mistakeDetectorManager
      ensures Valid() && Flags() == Raid.ResetFlags && raiders == map[]
      ensures mistakeDetectorManager.calls == old(mistakeDetectorManager.calls) + [ResetCall]
    {
      ResetRaidState();
    }

    /** Empties the roster and shuts the detectors down; the flags are left as they are. */
    method ShutDown()
      requires WellFormed()
      modifies this, mistakeDetectorManager
      ensures WellFormed() && Flags() == old(Flags()) && raiders == map[]
      ensures mistakeDetectorManager.calls == old(mistakeDetectorManager.calls) + [ShutdownCall]
    {
      raiders := map[];
      mistakeDetectorManager.Shutdown();
    }

    /** Ends the session: no raid, no roster, detectors reset, stored phase 0. */
    method ResetRaidState()
      modifies this, mistakeDetectorManager
      ensures Valid() && Flags() == Raid.ResetFlags && raiders == map[]
      ensures mistakeDetectorManager.calls == old(mistakeDetectorManager.calls) + [ResetCall]
    {
      raidState := 0;
      inTob := false;
      isRaider := false;
      allRaidersLoaded := false;
      raiders := map[];
      mistakeDetectorManager.Reset();
    }

    /** Follows the phase varbit: ends the session on phase 0 or 1, and admits raiders and allowed spectators to phase 2. */
    method OnVarbitChanged(newRaidState: int, spectatingEnabled: bool)
      requires Valid()
      modifies this, mistakeDetectorManager
      ensures Valid()
      ensures Flags() == Raid.OnVarbit(old(Flags()), newRaidState, spectatingEnabled)
      ensures Raid.Resets(old(raidState), newRaidState) ==>
                raiders == map[] && mistakeDetectorManager.calls == old(mistakeDetectorManager.calls) + [ResetCall]
      ensures !Raid.Resets(old(raidState), newRaidState) ==>
                raiders == old(raiders) && mistakeDetectorManager.calls == old(mistakeDetectorManager.calls)
    {
      Raid.OnVarbitPreservesInv(Flags(), newRaidState, spectatingEnabled);
      if raidState != newRaidState {
        if newRaidState == Raid.NoParty || newRaidState == Raid.InParty {
          ResetRaidState();
        } else if Raid.IsNewRaiderInRaid(raidState, newRaidState) || Raid.IsNewAllowedSpectator(newRaidState, spectatingEnabled) {
          inTob := true;
          isRaider := Raid.IsNewRaiderInRaid(raidState, newRaidState);
        }
        raidState := newRaidState;
      }
    }

    /**
     * The per-tick cycle: resolve the roster while it is not loaded, detect and
     * record, snapshot, end the tick. `start` is the roster state the round began
     * with, which is what the detectors saw.
     */
    method OnGameTick(varcStr: int -> string, sanitize: string -> string, players: seq<Player>,
                      verdicts: map<string, seq<Mistake>>, spectatingEnabled: bool)
      returns (ghost order: seq<string>, ghost start: map<string, RaiderState>)
      requires Valid()
      modifies this, mistakeManager, mistakeDetectorManager, RaiderSet()
      ensures Valid()
      ensures (raidState, inTob, isRaider) == old((raidState, inTob, isRaider))
      ensures old(allRaidersLoaded) ==> allRaidersLoaded && raiders == old(raiders)
      ensures !old(inTob) ==>
                (allRaidersLoaded, raiders, RosterState(), mistakeManager.mistakes, mistakeDetectorManager.calls) ==
                old((allRaidersLoaded, raiders, RosterState(), mistakeManager.mistakes, mistakeDetectorManager.calls))
      ensures old(inTob) ==>
                var names := Roster.SlotNames(varcStr, sanitize);
                TickEnded(!old(allRaidersLoaded) && Roster.Commits(players, names), old(allRaidersLoaded), names, players,
                          order, start, verdicts, spectatingEnabled, old(raiders), old(RosterState()),
                          old(mistakeDetectorManager.calls), old(mistakeManager.mistakes))
    {
      if !inTob {
        return [], RosterState();
      }

      if !allRaidersLoaded {
        order, start := LoadAndDetect(varcStr, sanitize, players, verdicts, spectatingEnabled);
      } else {
        order, start := DetectLoaded(verdicts, spectatingEnabled);
      }
    }

    /**
     * What a tick in the raid leaves, measured from the raiders `raiders0`, their
     * state `roster0`, the detector calls `calls0` and the ledger `ledger0` it began
     * with; `start` is the roster state detection began with. `committed` says
     * whether this tick resolved the roster to `names`: then the roster holds
     * exactly those names, each raider made where its player stood, and the
     * detectors were started first; otherwise the roster is the old one. Either way
     * the detectors were called once per raider, in the order `order`, each seeing
     * that raider's state from before its snapshot; the ledger is the old one with
     * each raider's reported mistakes recorded in that order when tracking; every
     * snapshot was taken; and the round ended with the barrier.
     */
    ghost predicate TickEnded(committed: bool, wasLoaded: bool, names: set<string>, players: seq<Player>,
                              order: seq<string>, start: map<string, RaiderState>,
                              verdicts: map<string, seq<Mistake>>, spectatingEnabled: bool,
                              raiders0: map<string, TobRaider>, roster0: map<string, RaiderState>,
                              calls0: seq<Call>, ledger0: Ledger)
      reads this, mistakeManager, mistakeDetectorManager, RaiderSet()
    {
      && allRaidersLoaded == (wasLoaded || committed)
      && (committed ==> raiders.Keys == names && JoinedFrom(start, players))
      && (!committed ==> raiders == raiders0 && start == roster0)
      && start.Keys == raiders.Keys
      && RosterState() == TickAll(start)
      && IsEnumeration(order, raiders.Keys)
      && mistakeDetectorManager.calls ==
           calls0 + (if committed then [StartupCall] else []) + DetectCalls(order, start) + [AfterDetectCall]
      && mistakeManager.mistakes == RoundLedger(ledger0, order, verdicts, Raid.ShouldTrackMistakes(isRaider, spectatingEnabled))
    }

    /** A tick in the raid before the roster is loaded: try to resolve it, then detect for whoever is on it. */
    method LoadAndDetect(varcStr: int -> string, sanitize: string -> string, players: seq<Player>,
                         verdicts: map<string, seq<Mistake>>, spectatingEnabled: bool)
      returns (ghost order: seq<string>, ghost start: map<string, RaiderState>)
      requires Valid() && inTob && !allRaidersLoaded
      modifies this, mistakeManager, mistakeDetectorManager, RaiderSet()
      ensures Valid()
      ensures raidState == old(raidState) && inTob == old(inTob) && isRaider == old(isRaider)
      ensures var names := Roster.SlotNames(varcStr, sanitize);
              TickEnded(Roster.Commits(players, names), false, names, players,
                        order, start, verdicts, spectatingEnabled, old(raiders), old(RosterState()),
                        old(mistakeDetectorManager.calls), old(mistakeManager.mistakes))
    {
      LoadRaiders(varcStr, sanitize, players);
      start := RosterState();
      order := DetectAndFinish(verdicts, spectatingEnabled);
    }

    /** A tick in the raid with the roster loaded: the roster stays and is detected for as it stands. */
    method DetectLoaded(verdicts: map<string, seq<Mistake>>, spectatingEnabled: bool)
      returns (ghost order: seq<string>, ghost start: map<string, RaiderState>)
      requires Valid() && inTob && allRaidersLoaded
      modifies mistakeManager, mistakeDetectorManager, RaiderSet()
      ensures Valid()
      ensures TickEnded(false, true, {}, [], order, start, verdicts, spectatingEnabled, old(raiders), old(RosterState()),
                        old(mistakeDetectorManager.calls), old(mistakeManager.mistakes))
    {
      start := RosterState();
      order := DetectAndFinish(verdicts, spectatingEnabled);
    }

    /** The tail of every tick in the raid: detection for the whole roster, then the detectors' end-of-tick barrier. */
    method DetectAndFinish(verdicts: map<string, seq<Mistake>>, spectatingEnabled: bool)
      returns (ghost order: seq<string>)
      requires WellFormed()
      modifies mistakeManager, mistakeDetectorManager, RaiderSet()
      ensures IsEnumeration(order, raiders.Keys) && old(RosterState()).Keys == raiders.Keys
      ensures mistakeDetectorManager.calls ==
                old(mistakeDetectorManager.calls) + DetectCalls(order, old(RosterState())) + [AfterDetectCall]
      ensures mistakeManager.mistakes ==
                RoundLedger(old(mistakeManager.mistakes), order, verdicts, Raid.ShouldTrackMistakes(isRaider, spectatingEnabled))
      ensures RosterState() == TickAll(old(RosterState()))
    {
      order := DetectAll(verdicts, spectatingEnabled);
      AfterDetectAll();
    }

    /** Runs detection for every raider, recording what it finds and taking each raider's snapshot right after its detection. */
    method DetectAll(verdicts: map<string, seq<Mistake>>, spectatingEnabled: bool) returns (ghost order: seq<string>)
      requires WellFormed()
      modifies mistakeManager, mistakeDetectorManager, RaiderSet()
      ensures IsEnumeration(order, raiders.Keys) && old(RosterState()).Keys == raiders.Keys
      ensures mistakeDetectorManager.calls == old(mistakeDetectorManager.calls) + DetectCalls(order, old(RosterState()))
      ensures mistakeManager.mistakes ==
                RoundLedger(old(mistakeManager.mistakes), order, verdicts, Raid.ShouldTrackMistakes(isRaider, spectatingEnabled))
      ensures RosterState() == TickAll(old(RosterState()))
    {
      var names := RaiderNames();
      ghost var before := RosterState();
      DetectRound(names, verdicts, spectatingEnabled);
      TickSomeEnds(before, names);
      order := names;
    }

    /** Runs detection for the raiders in the order `names` lists them. */
    method DetectRound(names: seq<string>, verdicts: map<string, seq<Mistake>>, spectatingEnabled: bool)
      requires WellFormed() && IsEnumeration(names, raiders.Keys)
      modifies mistakeManager, mistakeDetectorManager, RaiderSet()
      ensures RoundSoFar(names, old(RosterState()), old(mistakeManager.mistakes), old(mistakeDetectorManager.calls), verdicts, spectatingEnabled)
    {
      ghost var before := RosterState();
      ghost var ledger := mistakeManager.mistakes;
      ghost var calls := mistakeDetectorManager.calls;
      TickSomeEnds(before, names);
      assert names[..0] == [];
      for i := 0 to |names|
        invariant RoundSoFar(names[..i], before, ledger, calls, verdicts, spectatingEnabled)
      {
        DetectInRound(names, i, before, ledger, calls, verdicts, spectatingEnabled);
      }
      assert names[..|names|] == names;
    }

    /**
     * Detection has run for exactly the raiders in `done`, in that order, since the
     * round began with the roster state `before`, the ledger `ledger` and the
     * detector calls `calls`; each call saw its raider as `before` holds it.
     */
    ghost predicate RoundSoFar(done: seq<string>, before: map<string, RaiderState>, ledger: Ledger, calls: seq<Call>,
                               verdicts: map<string, seq<Mistake>>, spectatingEnabled: bool)
      reads this, mistakeManager, mistakeDetectorManager, RaiderSet()
    {
      && (forall i :: 0 <= i < |done| ==> done[i] in before)
      && mistakeDetectorManager.calls == calls + DetectCalls(done, before)
      && mistakeManager.mistakes == RoundLedger(ledger, done, verdicts, Raid.ShouldTrackMistakes(isRaider, spectatingEnabled))
      && RosterState() == TickSome(before, done)
    }

    /** One step of the detection round: detecting for the raider `names[i]` extends the round by that raider. */
    method DetectInRound(names: seq<string>, i: nat, ghost before: map<string, RaiderState>, ghost ledger: Ledger, ghost calls: seq<Call>,
                         verdicts: map<string, seq<Mistake>>, spectatingEnabled: bool)
      requires WellFormed() && IsEnumeration(names, raiders.Keys) && i < |names| && before.Keys == raiders.Keys
      requires RoundSoFar(names[..i], before, ledger, calls, verdicts, spectatingEnabled)
      modifies mistakeManager, mistakeDetectorManager, raiders[names[i]]
      ensures RoundSoFar(names[..i + 1], before, ledger, calls, verdicts, spectatingEnabled)
    {
      var name := names[i];
      assert name !in names[..i];
      assert names[..i + 1] == names[..i] + [name];
      assert raiders[name].State() == before[name] by {
        assert RosterState()[name] == TickSome(before, names[..i])[name];
      }
      Detect(raiders[name], verdicts, spectatingEnabled);
      RoundLedgerStep(ledger, names[..i], verdicts, Raid.ShouldTrackMistakes(isRaider, spectatingEnabled), name);
      TickSomeStep(before, names[..i], name);
      DetectCallsStep(names[..i], before, name);
    }

    /** The roster's names in the order the map yields them: each once, in an order the model leaves open. */
    method RaiderNames() returns (names: seq<string>)
      ensures IsEnumeration(names, raiders.Keys)
    {
      names := [];
      var remaining := raiders.Keys;
      while remaining != {}
        invariant remaining <= raiders.Keys
        invariant forall i :: 0 <= i < |names| ==> names[i] in raiders && names[i] !in remaining
        invariant forall k :: k in raiders ==> k in remaining || k in names
        invariant forall i, j :: 0 <= i < j < |names| ==> names[i] != names[j]
        decreases remaining
      {
        var k :| k in remaining;
        names := names + [k];
        remaining := remaining - {k};
      }
    }

    /**
     * Detection for one raider: the detectors see the raider as it stands, every
     * mistake found is recorded on its own, then the snapshot is taken.
     */
    method Detect(raider: TobRaider, verdicts: map<string, seq<Mistake>>, spectatingEnabled: bool)
      requires WellFormed() && raider.name in raiders && raiders[raider.name] == raider
      modifies mistakeManager, mistakeDetectorManager, raider
      ensures mistakeDetectorManager.calls == old(mistakeDetectorManager.calls) + [DetectCall(raider.name, old(raider.State()))]
      ensures mistakeManager.mistakes ==
                if Raid.ShouldTrackMistakes(isRaider, spectatingEnabled)
                then Record(old(mistakeManager.mistakes), raider.name, Verdict(verdicts, raider.name))
                else old(mistakeManager.mistakes)
      ensures RosterState() == old(RosterState())[raider.name := EndOfTick(old(RosterState())[raider.name])]
    {
      var mistakes := mistakeDetectorManager.DetectMistakes(raider, verdicts);
      RecordMistakes(raider.name, mistakes, spectatingEnabled);
      AfterDetect(raider);
    }

    /** Adds each detected mistake of `playerName` to the ledger in turn, which counts only while tracking. */
    method RecordMistakes(playerName: string, mistakes: seq<Mistake>, spectatingEnabled: bool)
      modifies mistakeManager
      ensures mistakeManager.mistakes ==
                if Raid.ShouldTrackMistakes(isRaider, spectatingEnabled)
                then Record(old(mistakeManager.mistakes), playerName, mistakes)
                else old(mistakeManager.mistakes)
    {
      ghost var start := mistakeManager.mistakes;
      for i := 0 to |mistakes|
        invariant mistakeManager.mistakes ==
                    if Raid.ShouldTrackMistakes(isRaider, spectatingEnabled)
                    then Record(start, playerName, mistakes[..i])
                    else start
      {
        assert mistakes[..i + 1][..i] == mistakes[..i];
        var mistakeCount := AddMistakeForPlayer(playerName, mistakes[i], spectatingEnabled);
      }
      assert mistakes[..|mistakes|] == mistakes;
    }

    /** The two-phase snapshot: the overlay keeps the old previous location before previous takes the current one. */
    method AfterDetect(raider: TobRaider)
      modifies raider
      ensures raider.State() == EndOfTick(old(raider.State()))
    {
      raider.previousLocationForOverlay := raider.previousLocation;
      raider.previousLocation := Some(raider.currentLocation);
      raider.previousIsDead := raider.isDead;
    }

    method AfterDetectAll()
      modifies mistakeDetectorManager
      ensures mistakeDetectorManager.calls == old(mistakeDetectorManager.calls) + [AfterDetectCall]
    {
      mistakeDetectorManager.AfterDetect();
    }

    /**
     * Reads the five party slots and the present players, and commits the roster
     * only when every non-empty slot name belongs to a present player.
     */
    method LoadRaiders(varcStr: int -> string, sanitize: string -> string, players: seq<Player>)
      requires Valid() && inTob && !allRaidersLoaded
      modifies this, mistakeDetectorManager
      ensures Valid()
      ensures raidState == old(raidState) && inTob == old(inTob) && isRaider == old(isRaider)
      ensures var names := Roster.SlotNames(varcStr, sanitize);
              var committed := Roster.Commits(players, names);
              && allRaidersLoaded == committed
              && (committed ==>
                    && raiders.Keys == names
                    && (forall k :: k in raiders ==> fresh(raiders[k]))
                    && JoinedFrom(RosterState(), players)
                    && mistakeDetectorManager.calls == old(mistakeDetectorManager.calls) + [StartupCall])
              && (!committed ==>
                    && raiders == old(raiders) && RosterState() == old(RosterState())
                    && mistakeDetectorManager.calls == old(mistakeDetectorManager.calls))
    {
      var raiderNames := ReadRaiderNames(varcStr, sanitize);
      var raidersTemp := RaidersForPlayers(players, raiderNames);
      Roster.CommitIff(players, raiderNames);

      if raiderNames != {} && |raiderNames| == |raidersTemp| {
        Commit(raidersTemp, players);
      }
    }

    /** Installs a resolved, non-empty roster and starts the detectors. */
    method Commit(raidersTemp: map<string, TobRaider>, ghost players: seq<Player>)
      requires Raid.Inv(Flags()) && inTob && raidersTemp != map[]
      requires forall k :: k in raidersTemp ==> raidersTemp[k].name == k
      requires JoinedFrom(map k | k in raidersTemp :: raidersTemp[k].State(), players)
      modifies this, mistakeDetectorManager
      ensures Valid() && allRaidersLoaded && raiders == raidersTemp
      ensures raidState == old(raidState) && inTob == old(inTob) && isRaider == old(isRaider)
      ensures JoinedFrom(RosterState(), players)
      ensures mistakeDetectorManager.calls == old(mistakeDetectorManager.calls) + [StartupCall]
    {
      raiders := raidersTemp;
      AllRaidersLoaded();
    }

    /** The distinct non-empty sanitized names in the five party slots. */
    method ReadRaiderNames(varcStr: int -> string, sanitize: string -> string) returns (raiderNames: set<string>)
      ensures raiderNames == Roster.SlotNames(varcStr, sanitize)
    {
      raiderNames := {};
      for i := 0 to Roster.MaxRaiders
        invariant raiderNames == Roster.SlotNamesUpTo(varcStr, sanitize, i)
      {
        var name := sanitize(varcStr(Roster.TheatreRaidersVarc + i));
        if name != "" {
          raiderNames := raiderNames + {name};
        }
      }
    }

    /** A new raider, filed under its name, for every present player whose name is among `raiderNames`. */
    method RaidersForPlayers(players: seq<Player>, raiderNames: set<string>) returns (raidersTemp: map<string, TobRaider>)
      ensures raidersTemp.Keys == Roster.PresentNames(players, raiderNames)
      ensures |raidersTemp| == |Roster.PresentNames(players, raiderNames)|
      ensures forall k :: k in raidersTemp ==> raidersTemp[k].name == k && fresh(raidersTemp[k])
      ensures JoinedFrom(map k | k in raidersTemp :: raidersTemp[k].State(), players)
    {
      raidersTemp := map[];
      ghost var origin: map<string, nat> := map[];
      for j := 0 to |players|
        invariant raidersTemp.Keys == Roster.PresentNames(players[..j], raiderNames)
        invariant origin.Keys == raidersTemp.Keys
        invariant forall k :: k in raidersTemp ==> raidersTemp[k].name == k && fresh(raidersTemp[k])
        invariant forall k :: k in raidersTemp ==>
                    origin[k] < |players| && players[origin[k]].name == Some(k) &&
                    raidersTemp[k].State() == Joined(players[origin[k]].location)
      {
        var player := players[j];
        assert players[..j + 1][..j] == players[..j];
        if player.name.Some? && player.name.value in raiderNames {
          var raider := new TobRaider(player.name.value, player.location);
          raidersTemp := raidersTemp[player.name.value := raider];
          origin := origin[player.name.value := j];
        }
      }
      assert players[..|players|] == players;
      ghost var roster := map k | k in raidersTemp :: raidersTemp[k].State();
      forall k | k in roster
        ensures exists j :: 0 <= j < |players| && players[j].name == Some(k) && roster[k] == Joined(players[j].location)
      {
        assert players[origin[k]].name == Some(k);
      }
    }

    method AllRaidersLoaded()
      modifies this`allRaidersLoaded, mistakeDetectorManager
      ensures allRaidersLoaded
      ensures mistakeDetectorManager.calls == old(mistakeDetectorManager.calls) + [StartupCall]
    {
      allRaidersLoaded := true;
      mistakeDetectorManager.Startup();
    }

    /** Records through the ledger when tracking; otherwise leaves it untouched and answers 0. */
    method AddMistakeForPlayer(playerName: string, mistake: Mistake, spectatingEnabled: bool) returns (count: nat)
      modifies mistakeManager
      ensures Raid.ShouldTrackMistakes(isRaider, spectatingEnabled) ==>
                mistakeManager.mistakes == AddOne(old(mistakeManager.mistakes), playerName, mistake) &&
                count == Count(mistakeManager.mistakes, playerName, mistake)
      ensures !Raid.ShouldTrackMistakes(isRaider, spectatingEnabled) ==>
                mistakeManager.mistakes == old(mistakeManager.mistakes) && count == 0
    {
      if Raid.ShouldTrackMistakes(isRaider, spectatingEnabled) {
        count := mistakeManager.AddMistakeForPlayer(playerName, mistake);
        return;
      }

      count := 0;
    }

    /**
     * The death event names a player on the roster: never a non-player actor or
     * a nameless player, never before the roster loads, and then the raider
     * filed under that name carries it.
     */
    predicate IsRaiderDeath(actor: Actor): (b: bool)
      reads this
      ensures actor.OtherActor? || actor.player.name.None? ==> !b
      ensures Valid() && !allRaidersLoaded ==> !b
      ensures b && WellFormed() ==>
                actor.PlayerActor? && actor.player.name.Some? && actor.player.name.value in raiders &&
                raiders[actor.player.name.value].name == actor.player.name.value
    {
      actor.PlayerActor? && actor.player.name.Some? && IsPlayerInRaid(actor.player.name.value)
    }

    /** A named player who is on the roster died: record it (when tracking) and mark the raider dead. */
    method OnActorDeath(actor: Actor, spectatingEnabled: bool)
      requires WellFormed()
      modifies mistakeManager, RaiderSet()
      ensures IsRaiderDeath(actor) ==>
                var name := actor.player.name.value;
                && RosterState() == old(RosterState())[name := Died(old(RosterState())[name])]
                && mistakeManager.mistakes ==
                     if Raid.ShouldTrackMistakes(isRaider, spectatingEnabled)
                     then AddOne(old(mistakeManager.mistakes), name, Death)
                     else old(mistakeManager.mistakes)
      ensures !IsRaiderDeath(actor) ==>
                RosterState() == old(RosterState()) && mistakeManager.mistakes == old(mistakeManager.mistakes)
    {
      if actor.PlayerActor? {
        var player := actor.player;
        if player.name.None? {
          return;
        }

        if IsPlayerInRaid(player.name.value) {
          var raider := raiders[player.name.value];
          var _ := AddMistakeForPlayer(raider.name, Death, spectatingEnabled);
          raider.isDead := true;
        }
      }
    }

    /** Applies a configuration change: only the clear-mistakes key of this plugin's group clears the ledger. */
    method OnConfigChanged(group: string, key: string)
      modifies mistakeManager
      ensures group == ConfigGroup && key == ClearMistakesKey ==>
                mistakeManager.mistakes == Clear(old(mistakeManager.mistakes))
      ensures !(group == ConfigGroup && key == ClearMistakesKey) ==>
                mistakeManager.mistakes == old(mistakeManager.mistakes)
    {
      if ConfigGroup != group {
        return;
      }

      if ClearMistakesKey == key {
        mistakeManager.ClearAllMistakes();
      }
    }

    /** After a loading screen nobody on the roster is dead any more. */
    method OnGameStateChanged(gameState: GameState)
      requires WellFormed()
      modifies RaiderSet()
      ensures RosterState() == if gameState == Loading then ReviveAll(old(RosterState())) else old(RosterState())
    {
      if gameState == Loading {
        ClearDeathFlags();
      }
    }

    /** A story-mode failure game message revives every raider. */
    method OnChatMessage(messageType: ChatMessageType, message: string)
      requires WellFormed()
      modifies RaiderSet()
      ensures RosterState() ==
                if messageType == GameMessage && StoryModeFailedFound(message)
                then ReviveAll(old(RosterState())) else old(RosterState())
    {
      if messageType == GameMessage {
        if StoryModeFailedFound(message) {
          ClearDeathFlags();
        }
      }
    }

    method ClearDeathFlags()
      requires WellFormed()
      modifies RaiderSet()
      ensures RosterState() == ReviveAll(old(RosterState()))
    {
      ghost var before := RosterState();
      var remaining := raiders.Keys;
      while remaining != {}
        invariant remaining <= raiders.Keys
        invariant forall k :: k in raiders && k !in remaining ==> raiders[k].State() == Revived(before[k])
        invariant forall k :: k in remaining ==> raiders[k].State() == before[k]
        decreases remaining
      {
        var k :| k in remaining;
        raiders[k].isDead := false;
        remaining := remaining - {k};
      }
    }

    /** A player is in the raid when the roster has a raider of that name; before the roster loads nobody is. */
    function IsPlayerInRaid(playerName: string): (b: bool)
      reads this
      ensures b && WellFormed() ==> playerName in raiders && raiders[playerName].name == playerName
      ensures Valid() && !allRaidersLoaded ==> !b
    {
      playerName in raiders
    }
  }
}
