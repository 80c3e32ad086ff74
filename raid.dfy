/**
 * The raid-phase state machine: the flags the controller derives from the
 * Theatre of Blood varbit (0 no party, 1 in a party, 2 in the raid), as a pure
 * transition function the controller's handler is proved against.
 */
module Raid {

  const NoParty: int := 0
  const InParty: int := 1
  const InTob: int := 2

  /** The controller's session flags; `raidState` is the last varbit value seen. */
  datatype Flags = Flags(raidState: int, inTob: bool, isRaider: bool, allRaidersLoaded: bool)

  /** The flags `resetRaidState` leaves. */
  const ResetFlags: Flags := Flags(NoParty, false, false, false)

  /** A party member following the party into the raid: always a change of phase into phase 2, never a reset. */
  predicate IsNewRaiderInRaid(raidState: int, newRaidState: int): (b: bool)
    ensures b ==> raidState != newRaidState && newRaidState == InTob && !Resets(raidState, newRaidState)
    ensures b ==> raidState == InParty
  {
    raidState == InParty && newRaidState == InTob
  }

  /**
   * An outsider entering the raid as a spectator, which the configuration may
   * allow: such a spectator enters phase 2 and has its mistakes tracked without
   * being a raider.
   */
  predicate IsNewAllowedSpectator(newRaidState: int, spectatingEnabled: bool): (b: bool)
    ensures b ==> newRaidState == InTob && ShouldTrackMistakes(false, spectatingEnabled)
    ensures newRaidState == InTob ==> (b <==> ShouldTrackMistakes(false, spectatingEnabled))
  {
    newRaidState == InTob && spectatingEnabled
  }

  /**
   * Mistakes are recorded for a raider, or for anyone while spectating is
   * enabled: a raider is always tracked, and with spectating off only a raider is.
   */
  predicate ShouldTrackMistakes(isRaider: bool, spectatingEnabled: bool): (b: bool)
    ensures isRaider ==> b
    ensures !spectatingEnabled ==> (b <==> isRaider)
    ensures !isRaider ==> (b <==> spectatingEnabled)
  {
    isRaider || spectatingEnabled
  }

  /** A change of phase to 0 or 1 ends the session. */
  predicate Resets(raidState: int, newRaidState: int) {
    raidState != newRaidState && (newRaidState == NoParty || newRaidState == InParty)
  }

  /**
   * `onVarbitChanged` on the flags. The new value is always stored, even when
   * it is ignored for membership; the roster flag is never set here; the raid is
   * entered only on a change into phase 2, and one becomes a raider only by
   * following the party from phase 1.
   */
  function OnVarbit(f: Flags, newRaidState: int, spectatingEnabled: bool): (g: Flags)
    ensures g.raidState == newRaidState
    ensures g.allRaidersLoaded ==> f.allRaidersLoaded
    ensures g.inTob && !f.inTob ==> f.raidState != newRaidState && newRaidState == InTob
    ensures g.isRaider && !f.isRaider ==> IsNewRaiderInRaid(f.raidState, newRaidState)
  {
    if f.raidState == newRaidState then f
    else if newRaidState == NoParty || newRaidState == InParty then ResetFlags.(raidState := newRaidState)
    else if IsNewRaiderInRaid(f.raidState, newRaidState) || IsNewAllowedSpectator(newRaidState, spectatingEnabled) then
      f.(raidState := newRaidState, inTob := true, isRaider := IsNewRaiderInRaid(f.raidState, newRaidState))
    else f.(raidState := newRaidState)
  }

  /**
   * What every reachable state satisfies: a raider and a loaded roster only exist
   * inside the raid, and outside phase 2 (in phase 0 or 1) there is no raid.
   */
  ghost predicate Inv(f: Flags) {
    (f.isRaider ==> f.inTob) &&
    (f.allRaidersLoaded ==> f.inTob) &&
    (f.raidState == NoParty || f.raidState == InParty ==> !f.inTob)
  }

  lemma ResetFlagsValid()
    ensures Inv(ResetFlags)
  {
  }

  lemma OnVarbitPreservesInv(f: Flags, v: int, spectatingEnabled: bool)
    requires Inv(f)
    ensures Inv(OnVarbit(f, v, spectatingEnabled))
  {
  }

  /** Seeing the stored phase again changes nothing. */
  lemma UnchangedPhase(f: Flags, spectatingEnabled: bool)
    ensures OnVarbit(f, f.raidState, spectatingEnabled) == f
  {
  }

  /** Phase 0 or 1 after another phase clears every flag; the stored phase is the new one, not 0. */
  lemma ResetOnPartyPhases(f: Flags, v: int, spectatingEnabled: bool)
    requires Resets(f.raidState, v)
    ensures OnVarbit(f, v, spectatingEnabled) == Flags(v, false, false, false)
  {
  }

  /**
   * Entering phase 2: the raid is joined only from phase 1 or as an allowed
   * spectator, and then one is a raider exactly when coming from phase 1;
   * otherwise the membership flags stay as they were. The roster flag never moves.
   */
  lemma EntryIntoRaid(f: Flags, spectatingEnabled: bool)
    requires f.raidState != InTob
    ensures var g := OnVarbit(f, InTob, spectatingEnabled);
            var accepted := f.raidState == InParty || spectatingEnabled;
            && g.inTob == (accepted || f.inTob)
            && g.isRaider == (if accepted then f.raidState == InParty else f.isRaider)
            && g.allRaidersLoaded == f.allRaidersLoaded
  {
  }

  /**
   * From a party phase in a reachable state, entering the raid makes one a raider
   * exactly when coming from phase 1, and inside the raid exactly when that or
   * spectating holds.
   */
  lemma EntryFromPartyPhase(f: Flags, spectatingEnabled: bool)
    requires Inv(f) && (f.raidState == NoParty || f.raidState == InParty)
    ensures OnVarbit(f, InTob, spectatingEnabled).isRaider == (f.raidState == InParty)
    ensures OnVarbit(f, InTob, spectatingEnabled).inTob == (f.raidState == InParty || spectatingEnabled)
  {
  }

  /** Delivering the same varbit value twice has the effect of delivering it once. */
  lemma OnVarbitIdempotent(f: Flags, v: int, spectatingEnabled: bool)
    ensures OnVarbit(OnVarbit(f, v, spectatingEnabled), v, spectatingEnabled) == OnVarbit(f, v, spectatingEnabled)
  {
  }

  /** The flags after a sequence of varbit values. */
  function Replay(f: Flags, vs: seq<int>, spectatingEnabled: bool): Flags
    decreases |vs|
  {
    if vs == [] then f else Replay(OnVarbit(f, vs[0], spectatingEnabled), vs[1..], spectatingEnabled)
  }

  lemma {:induction false} ReplayPreservesInv(f: Flags, vs: seq<int>, spectatingEnabled: bool)
    requires Inv(f)
    ensures Inv(Replay(f, vs, spectatingEnabled))
    decreases |vs|
  {
    if vs != [] {
      OnVarbitPreservesInv(f, vs[0], spectatingEnabled);
      ReplayPreservesInv(OnVarbit(f, vs[0], spectatingEnabled), vs[1..], spectatingEnabled);
    }
  }

  /** Whatever came before: no party, party, raid makes a raider inside the raid. */
  lemma PartyThenRaid(f: Flags)
    ensures Replay(f, [NoParty, InParty, InTob], false).isRaider
    ensures Replay(f, [NoParty, InParty, InTob], false).inTob
  {
    var g0 := OnVarbit(f, NoParty, false);
    var g1 := OnVarbit(g0, InParty, false);
    var g2 := OnVarbit(g1, InTob, false);
    assert g1 == Flags(InParty, false, false, false);
    assert g2.isRaider && g2.inTob;
    assert [NoParty, InParty, InTob][1..] == [InParty, InTob];
    assert [InParty, InTob][1..] == [InTob];
    assert [InTob][1..] == [];
    assert Replay(g2, [], false) == g2;
    assert Replay(g1, [InTob], false) == g2;
    assert Replay(g0, [InParty, InTob], false) == g2;
  }

  /** From any reachable state, skipping the party phase without spectating leaves one outside the raid. */
  lemma SkippedPartyIgnored(f: Flags)
    requires Inv(f)
    ensures !Replay(f, [NoParty, InTob], false).inTob
    ensures !Replay(f, [NoParty, InTob], false).isRaider
  {
    var g0 := OnVarbit(f, NoParty, false);
    var g1 := OnVarbit(g0, InTob, false);
    assert g0.raidState == NoParty && !g0.inTob && !g0.isRaider;
    assert !g1.inTob && !g1.isRaider;
    assert [NoParty, InTob][1..] == [InTob];
    assert [InTob][1..] == [];
    assert Replay(g1, [], false) == g1;
    assert Replay(g0, [InTob], false) == g1;
  }
}
