/**
 * The mistake catalog and the per-player ledger of mistake counts that the
 * controller writes into.
 */
module Mistakes {

  /** The mistake kinds the controller itself names. */
  datatype Mistake = Death | MaidenBlood

  /** Player name to mistake kind to number of occurrences. */
  type Ledger = map<string, map<Mistake, nat>>

  /** How often `player` made mistake `m`; zero when nothing is recorded. */
  function Count(l: Ledger, player: string, m: Mistake): nat {
    if player in l && m in l[player] then l[player][m] else 0
  }

  /** Both ledgers hold the same entry (or none) for `player`. */
  predicate AgreeOn(l1: Ledger, l2: Ledger, player: string) {
    (player in l1 <==> player in l2) && (player in l1 ==> l1[player] == l2[player])
  }

  /** One more occurrence of `m` for `player`, creating the player's entry on first use. */
  function AddOne(l: Ledger, player: string, m: Mistake): (r: Ledger)
    ensures Count(r, player, m) == Count(l, player, m) + 1
    ensures forall q, k :: q != player || k != m ==> Count(r, q, k) == Count(l, q, k)
    ensures r.Keys == l.Keys + {player}
    ensures forall q :: q != player ==> AgreeOn(r, l, q)
  {
    var row := if player in l then l[player] else map[];
    l[player := row[m := Count(l, player, m) + 1]]
  }

  /** Every count back to zero; no player and no mistake kind disappears. */
  function Clear(l: Ledger): (r: Ledger)
    ensures r.Keys == l.Keys
    ensures forall p :: p in r ==> r[p].Keys == l[p].Keys
    ensures forall p, m :: Count(r, p, m) == 0
  {
    map p | p in l :: map k | k in l[p] :: 0
  }

  /** The ledger after recording each of `ms`, in order, for `player`. */
  function Record(l: Ledger, player: string, ms: seq<Mistake>): Ledger
    decreases |ms|
  {
    if ms == [] then l else AddOne(Record(l, player, ms[..|ms| - 1]), player, ms[|ms| - 1])
  }

  /** Every occurrence counts: duplicates in `ms` raise the count once each. */
  lemma {:induction false} RecordCount(l: Ledger, player: string, ms: seq<Mistake>, q: string, k: Mistake)
    ensures Count(Record(l, player, ms), q, k) == Count(l, q, k) + (if q == player then multiset(ms)[k] else 0)
    decreases |ms|
  {
    if ms != [] {
      var init := ms[..|ms| - 1];
      assert ms == init + [ms[|ms| - 1]];
      RecordCount(l, player, init, q, k);
    }
  }

  /** Recording for one player leaves every other player's entry as it was. */
  lemma {:induction false} RecordOnlyTouches(l: Ledger, player: string, ms: seq<Mistake>, q: string)
    requires q != player
    ensures AgreeOn(Record(l, player, ms), l, q)
    decreases |ms|
  {
    if ms != [] {
      RecordOnlyTouches(l, player, ms[..|ms| - 1], q);
    }
  }

  /** What recording does to a player's entry depends on that entry alone. */
  lemma {:induction false} RecordLocal(l1: Ledger, l2: Ledger, player: string, ms: seq<Mistake>)
    requires AgreeOn(l1, l2, player)
    ensures AgreeOn(Record(l1, player, ms), Record(l2, player, ms), player)
    decreases |ms|
  {
    if ms != [] {
      var init := ms[..|ms| - 1];
      RecordLocal(l1, l2, player, init);
    }
  }

  /** Recording creates the player's entry when there is something to record, and never drops an entry. */
  lemma {:induction false} RecordKeys(l: Ledger, player: string, ms: seq<Mistake>)
    ensures Record(l, player, ms).Keys == l.Keys + (if ms == [] then {} else {player})
    decreases |ms|
  {
    if ms != [] {
      RecordKeys(l, player, ms[..|ms| - 1]);
    }
  }

  /** Counts never decrease while mistakes are only recorded. */
  lemma RecordMonotone(l: Ledger, player: string, ms: seq<Mistake>, q: string, k: Mistake)
    ensures Count(l, q, k) <= Count(Record(l, player, ms), q, k)
  {
    RecordCount(l, player, ms, q, k);
  }

  /** The ledger's own object: owns the counts and changes them only through its two operations. */
  class MistakeManager {
    var mistakes: Ledger

    constructor ()
      ensures mistakes == map[]
    {
      mistakes := map[];
    }

    /** Records one occurrence and returns the player's new count for that kind. */
    method AddMistakeForPlayer(playerName: string, mistake: Mistake) returns (count: nat)
      modifies this
      ensures mistakes == AddOne(old(mistakes), playerName, mistake)
      ensures count == Count(mistakes, playerName, mistake) == Count(old(mistakes), playerName, mistake) + 1
    {
      mistakes := AddOne(mistakes, playerName, mistake);
      count := Count(mistakes, playerName, mistake);
    }

    method ClearAllMistakes()
      modifies this
      ensures mistakes == Clear(old(mistakes))
    {
      mistakes := Clear(mistakes);
    }
  }
}
