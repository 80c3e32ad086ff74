/**
 * The detector manager as the controller sees it: lifecycle calls it forwards to
 * every registered detector, and one detection call per raider per tick whose
 * answer comes from the detectors' verdicts on the current world state.
 */
module Detectors {
  import opened Mistakes
  import opened Raiders

  /** One call the controller made on the manager, in the order it made them; a detection call carries the raider state the detectors saw. */
  datatype Call = ResetCall | StartupCall | DetectCall(raider: string, seen: RaiderState) | AfterDetectCall | ShutdownCall

  /** What the registered detectors report for `name` this tick, in registration order. */
  function Verdict(verdicts: map<string, seq<Mistake>>, name: string): seq<Mistake> {
    if name in verdicts then verdicts[name] else []
  }

  /** `order` lists every name of `names` exactly once. */
  ghost predicate IsEnumeration(order: seq<string>, names: set<string>) {
    (forall i :: 0 <= i < |order| ==> order[i] in names) &&
    (forall n :: n in names ==> n in order) &&
    (forall i, j :: 0 <= i < j < |order| ==> order[i] != order[j])
  }

  /** The detection calls of a round that visits the raiders in `order`, each seen as `roster` holds it. */
  function DetectCalls(order: seq<string>, roster: map<string, RaiderState>): seq<Call>
    requires forall i :: 0 <= i < |order| ==> order[i] in roster
    decreases |order|
  {
    if order == [] then []
    else
      var k := order[|order| - 1];
      DetectCalls(order[..|order| - 1], roster) + [DetectCall(k, roster[k])]
  }

  /**
   * A round makes one call per visit, each a detection call, for exactly the
   * visited raiders, in visiting order, each seeing that raider's state from
   * before the round.
   */
  lemma {:induction false} DetectCallsMembers(order: seq<string>, roster: map<string, RaiderState>)
    requires forall i :: 0 <= i < |order| ==> order[i] in roster
    ensures |DetectCalls(order, roster)| == |order|
    ensures forall i :: 0 <= i < |order| ==> DetectCalls(order, roster)[i] == DetectCall(order[i], roster[order[i]])
    decreases |order|
  {
    if order != [] {
      DetectCallsMembers(order[..|order| - 1], roster);
    }
  }

  lemma DetectCallsStep(order: seq<string>, roster: map<string, RaiderState>, k: string)
    requires forall i :: 0 <= i < |order| ==> order[i] in roster
    requires k in roster
    ensures DetectCalls(order + [k], roster) == DetectCalls(order, roster) + [DetectCall(k, roster[k])]
  {
    assert (order + [k])[..|order|] == order;
  }

  /**
   * The ledger after a round that visits the raiders in `order`: when tracking,
   * each visited raider's reported mistakes are recorded in turn; otherwise the
   * ledger is left as it was.
   */
  function RoundLedger(l: Ledger, order: seq<string>, verdicts: map<string, seq<Mistake>>, track: bool): Ledger
    decreases |order|
  {
    if !track || order == [] then l
    else
      var k := order[|order| - 1];
      Record(RoundLedger(l, order[..|order| - 1], verdicts, track), k, Verdict(verdicts, k))
  }

  lemma RoundLedgerStep(l: Ledger, order: seq<string>, verdicts: map<string, seq<Mistake>>, track: bool, k: string)
    ensures RoundLedger(l, order + [k], verdicts, track) ==
              if track then Record(RoundLedger(l, order, verdicts, track), k, Verdict(verdicts, k))
              else RoundLedger(l, order, verdicts, track)
  {
    assert (order + [k])[..|order|] == order;
  }

  /** A round that visits each raider once counts every reported mistake once, duplicates included, and nobody else's. */
  lemma {:induction false} RoundLedgerCounts(l: Ledger, order: seq<string>, verdicts: map<string, seq<Mistake>>, track: bool,
                                             p: string, m: Mistake)
    requires forall i, j :: 0 <= i < j < |order| ==> order[i] != order[j]
    ensures Count(RoundLedger(l, order, verdicts, track), p, m) ==
              Count(l, p, m) + (if track && p in order then multiset(Verdict(verdicts, p))[m] else 0)
    decreases |order|
  {
    if track && order != [] {
      var init := order[..|order| - 1];
      var k := order[|order| - 1];
      RoundLedgerCounts(l, init, verdicts, track, p, m);
      RecordCount(RoundLedger(l, init, verdicts, track), k, Verdict(verdicts, k), p, m);
      assert order == init + [k];
      assert k !in init;
    }
  }

  /** Over an enumeration of the roster: each raider's reported mistakes are counted once when tracking, and nobody else's count moves. */
  lemma RoundLedgerRosterCounts(l: Ledger, order: seq<string>, names: set<string>, verdicts: map<string, seq<Mistake>>,
                                track: bool, p: string, m: Mistake)
    requires IsEnumeration(order, names)
    ensures Count(RoundLedger(l, order, verdicts, track), p, m) ==
              Count(l, p, m) + (if track && p in names then multiset(Verdict(verdicts, p))[m] else 0)
  {
    RoundLedgerCounts(l, order, verdicts, track, p, m);
    if p in order {
      var i :| 0 <= i < |order| && order[i] == p;
    }
  }

  /**
   * A round never drops a ledger entry, creates one only for a visited raider
   * with something reported while tracking, and leaves every unvisited player's
   * entry exactly as it was.
   */
  lemma {:induction false} RoundLedgerEntries(l: Ledger, order: seq<string>, verdicts: map<string, seq<Mistake>>, track: bool)
    ensures l.Keys <= RoundLedger(l, order, verdicts, track).Keys
    ensures forall p :: p in RoundLedger(l, order, verdicts, track) && p !in l ==>
              track && p in order && Verdict(verdicts, p) != []
    ensures forall p :: p !in order ==> AgreeOn(RoundLedger(l, order, verdicts, track), l, p)
    decreases |order|
  {
    if track && order != [] {
      var init := order[..|order| - 1];
      var k := order[|order| - 1];
      var mid := RoundLedger(l, init, verdicts, track);
      RoundLedgerEntries(l, init, verdicts, track);
      RecordKeys(mid, k, Verdict(verdicts, k));
      forall p | p !in order
        ensures AgreeOn(RoundLedger(l, order, verdicts, track), l, p)
      {
        assert p != k && p !in init;
        RecordOnlyTouches(mid, k, Verdict(verdicts, k), p);
      }
      forall p | p in RoundLedger(l, order, verdicts, track) && p !in l
        ensures track && p in order && Verdict(verdicts, p) != []
      {
        if p != k {
          assert p in mid;
          assert p in init;
          var i :| 0 <= i < |init| && init[i] == p;
          assert order[i] == p;
        }
      }
    }
  }

  class MistakeDetectorManager {
    /** Every call received so far. */
    var calls: seq<Call>

    constructor ()
      ensures calls == []
    {
      calls := [];
    }

    /** Detectors drop all state they keep about raiders. */
    method Reset()
      modifies this
      ensures calls == old(calls) + [ResetCall]
    {
      calls := calls + [ResetCall];
    }

    /** Detectors initialise their state for a fully resolved roster. */
    method Startup()
      modifies this
      ensures calls == old(calls) + [StartupCall]
    {
      calls := calls + [StartupCall];
    }

    method Shutdown()
      modifies this
      ensures calls == old(calls) + [ShutdownCall]
    {
      calls := calls + [ShutdownCall];
    }

    /** The mistakes all detectors find for `raider` this tick, duplicates included. */
    method DetectMistakes(raider: TobRaider, verdicts: map<string, seq<Mistake>>) returns (mistakes: seq<Mistake>)
      modifies this
      ensures mistakes == Verdict(verdicts, raider.name)
      ensures calls == old(calls) + [DetectCall(raider.name, raider.State())]
    {
      mistakes := Verdict(verdicts, raider.name);
      calls := calls + [DetectCall(raider.name, raider.State())];
    }

    /** The end-of-tick barrier, after every raider has been processed. */
    method AfterDetect()
      modifies this
      ensures calls == old(calls) + [AfterDetectCall]
    {
      calls := calls + [AfterDetectCall];
    }
  }
}
