/**
 * The tracked participant of a raid. Its location fields and death flags are
 * updated in place by the controller; its name never changes. `RaiderState` is
 * the value of those fields, and the functions on it say what the controller's
 * updates do.
 */
module Raiders {
  import opened Host

  /** The mutable fields of a raider, as a value. */
  datatype RaiderState = RaiderState(
    currentLocation: WorldPoint,
    previousLocation: Option<WorldPoint>,
    previousLocationForOverlay: Option<WorldPoint>,
    isDead: bool,
    previousIsDead: bool)

  /** A raider for a present player: alive, with no earlier locations yet. */
  function Joined(location: WorldPoint): RaiderState {
    RaiderState(location, None, None, false, false)
  }

  /**
   * End-of-tick bookkeeping: the overlay's location takes the old previous
   * location, then previous takes the current one, and the death flag is copied.
   */
  function EndOfTick(s: RaiderState): (r: RaiderState)
    ensures r.currentLocation == s.currentLocation && r.isDead == s.isDead
    ensures r.previousLocationForOverlay == s.previousLocation
    ensures r.previousLocation == Some(s.currentLocation) && r.previousIsDead == s.isDead
  {
    s.(previousLocationForOverlay := s.previousLocation,
       previousLocation := Some(s.currentLocation),
       previousIsDead := s.isDead)
  }

  function Revived(s: RaiderState): RaiderState {
    s.(isDead := false)
  }

  function Died(s: RaiderState): RaiderState {
    s.(isDead := true)
  }

  /** The overlay's location is the detection location one tick late. */
  lemma OverlayLagsOneTick(s: RaiderState)
    ensures EndOfTick(EndOfTick(s)).previousLocationForOverlay == EndOfTick(s).previousLocation
    ensures EndOfTick(s).previousLocation == Some(s.currentLocation)
    ensures EndOfTick(s).previousIsDead == s.isDead
  {
  }

  /**
   * The two snapshots differ in general: writing previous first would lose the
   * overlay's lag. A previous location that differs from the current one arises
   * only from the host's location updates between ticks, which lie outside the
   * model; the lemma takes such a state as given.
   */
  lemma TwoPhaseSnapshotMatters(here: WorldPoint, there: WorldPoint)
    requires here != there
    ensures var t := EndOfTick(RaiderState(here, Some(there), None, false, false));
            t.previousLocationForOverlay == Some(there) && t.previousLocation == Some(here)
  {
  }

  /**
   * A player who stays put and keeps the same death flag is settled after two
   * ticks. Staying put means no host location update between the ticks; those
   * updates lie outside the model, so this is the only case it can iterate.
   */
  lemma StationarySettles(s: RaiderState)
    ensures EndOfTick(EndOfTick(EndOfTick(s))) == EndOfTick(EndOfTick(s))
  {
  }

  /** Bookkeeping and death handling touch different fields. */
  lemma ReviveKeepsSnapshot(s: RaiderState)
    ensures Revived(EndOfTick(s)).previousIsDead == s.isDead
    ensures Revived(Died(s)) == Revived(s)
  {
  }

  /** End-of-tick bookkeeping for every raider. */
  function TickAll(m: map<string, RaiderState>): map<string, RaiderState> {
    map k | k in m :: EndOfTick(m[k])
  }

  /** End-of-tick bookkeeping done so far, for the raiders visited in `done` only. */
  function TickSome(m: map<string, RaiderState>, done: seq<string>): map<string, RaiderState> {
    map k | k in m :: if k in done then EndOfTick(m[k]) else m[k]
  }

  lemma TickSomeStep(m: map<string, RaiderState>, done: seq<string>, k: string)
    requires k in m && k !in done
    ensures TickSome(m, done)[k := EndOfTick(m[k])] == TickSome(m, done + [k])
  {
  }

  lemma TickSomeEnds(m: map<string, RaiderState>, done: seq<string>)
    requires forall k :: k in m ==> k in done
    ensures TickSome(m, []) == m
    ensures TickSome(m, done) == TickAll(m)
  {
  }

  /** Every raider was made this tick for a present player of the same name. */
  ghost predicate JoinedFrom(roster: map<string, RaiderState>, players: seq<Player>) {
    forall k :: k in roster ==>
      exists j :: 0 <= j < |players| && players[j].name == Some(k) && roster[k] == Joined(players[j].location)
  }

  /** As `JoinedFrom`, after the end-of-tick bookkeeping. */
  ghost predicate JoinedAndTicked(roster: map<string, RaiderState>, players: seq<Player>) {
    forall k :: k in roster ==>
      exists j :: 0 <= j < |players| && players[j].name == Some(k) && roster[k] == EndOfTick(Joined(players[j].location))
  }

  /** A freshly joined roster after its first tick: everyone stands where the player stood, alive, with that as previous location. */
  lemma TickJoined(roster: map<string, RaiderState>, players: seq<Player>)
    requires JoinedFrom(roster, players)
    ensures JoinedAndTicked(TickAll(roster), players)
    ensures forall k :: k in TickAll(roster) ==>
              var s := TickAll(roster)[k];
              s.previousLocation == Some(s.currentLocation) && s.previousLocationForOverlay == None && !s.isDead && !s.previousIsDead
  {
    forall k | k in TickAll(roster)
      ensures exists j :: 0 <= j < |players| && players[j].name == Some(k) &&
                TickAll(roster)[k] == EndOfTick(Joined(players[j].location))
    {
      var j :| 0 <= j < |players| && players[j].name == Some(k) && roster[k] == Joined(players[j].location);
      assert TickAll(roster)[k] == EndOfTick(Joined(players[j].location));
    }
  }

  /** Every raider alive, nothing else changed. */
  function ReviveAll(m: map<string, RaiderState>): map<string, RaiderState> {
    map k | k in m :: Revived(m[k])
  }

  /** Clearing death flags keeps every raider, frees every raider, changes nothing else, and is idempotent. */
  lemma ReviveAllProperties(m: map<string, RaiderState>)
    ensures ReviveAll(m).Keys == m.Keys
    ensures forall k :: k in m ==> !ReviveAll(m)[k].isDead && ReviveAll(m)[k].(isDead := m[k].isDead) == m[k]
    ensures ReviveAll(ReviveAll(m)) == ReviveAll(m)
  {
  }

  class TobRaider {
    /** The sanitized player name the roster is keyed by. */
    const name: string
    /** Where the player stands this tick, as the client reports it. */
    var currentLocation: WorldPoint
    /** The location detectors compare against: the one from the end of the previous tick. */
    var previousLocation: Option<WorldPoint>
    /** One tick older than `previousLocation`, kept for the overlay. */
    var previousLocationForOverlay: Option<WorldPoint>
    var isDead: bool
    var previousIsDead: bool

    function State(): RaiderState
      reads this
    {
      RaiderState(currentLocation, previousLocation, previousLocationForOverlay, isDead, previousIsDead)
    }

    constructor (playerName: string, location: WorldPoint)
      ensures name == playerName && State() == Joined(location)
    {
      name := playerName;
      currentLocation := location;
      previousLocation := None;
      previousLocationForOverlay := None;
      isDead := false;
      previousIsDead := false;
    }
  }
}
