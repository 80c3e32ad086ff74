/**
 * Roster resolution: the names in the five party-slot client strings, the subset
 * of them that belong to players present in the scene, and the rule that commits
 * the roster only when every slot name is present.
 */
module Roster {
  import opened Host

  /** The client string holding the first party slot; the others follow it. */
  const TheatreRaidersVarc: int := 330
  const MaxRaiders: nat := 5

  /** The raw client string of party slot `i`. */
  function Slot(varcStr: int -> string, i: int): string {
    varcStr(TheatreRaidersVarc + i)
  }

  /** The sanitized contents of party slot `i`. */
  function SlotName(varcStr: int -> string, sanitize: string -> string, i: int): string {
    sanitize(Slot(varcStr, i))
  }

  /** The distinct non-empty names in the first `n` slots: never the empty name. */
  function SlotNamesUpTo(varcStr: int -> string, sanitize: string -> string, n: nat): (r: set<string>)
    ensures "" !in r
    decreases n
  {
    if n == 0 then {}
    else
      var name := SlotName(varcStr, sanitize, n - 1);
      SlotNamesUpTo(varcStr, sanitize, n - 1) + (if name != "" then {name} else {})
  }

  /** The candidate raiders: the distinct non-empty names of all five slots, so at most five. */
  function SlotNames(varcStr: int -> string, sanitize: string -> string): (r: set<string>)
    ensures |r| <= MaxRaiders && "" !in r
  {
    SlotNamesUpToSize(varcStr, sanitize, MaxRaiders);
    SlotNamesUpTo(varcStr, sanitize, MaxRaiders)
  }

  lemma {:induction false} SlotNamesUpToMembers(varcStr: int -> string, sanitize: string -> string, n: nat, name: string)
    ensures name in SlotNamesUpTo(varcStr, sanitize, n) <==>
              name != "" && exists i :: 0 <= i < n && SlotName(varcStr, sanitize, i) == name
    decreases n
  {
    if n > 0 {
      var prev := SlotNamesUpTo(varcStr, sanitize, n - 1);
      var last := SlotName(varcStr, sanitize, n - 1);
      assert SlotNamesUpTo(varcStr, sanitize, n) == prev + (if last != "" then {last} else {});
      SlotNamesUpToMembers(varcStr, sanitize, n - 1, name);
      if name in prev {
        var i :| 0 <= i < n - 1 && SlotName(varcStr, sanitize, i) == name;
        assert 0 <= i < n;
      } else if name != "" && last == name {
        assert SlotName(varcStr, sanitize, n - 1) == name;
      }
    }
  }

  /** At most one name per slot. */
  lemma {:induction false} SlotNamesUpToSize(varcStr: int -> string, sanitize: string -> string, n: nat)
    ensures |SlotNamesUpTo(varcStr, sanitize, n)| <= n
    decreases n
  {
    if n > 0 {
      SlotNamesUpToSize(varcStr, sanitize, n - 1);
    }
  }

  /** A name is a candidate exactly when it is non-empty and fills one of the five slots. */
  lemma SlotNamesMembers(varcStr: int -> string, sanitize: string -> string, name: string)
    ensures name in SlotNames(varcStr, sanitize) <==>
              name != "" && exists i :: 0 <= i < MaxRaiders && SlotName(varcStr, sanitize, i) == name
  {
    SlotNamesUpToMembers(varcStr, sanitize, MaxRaiders, name);
  }

  lemma {:induction false} SlotNamesUpToReadsSlots(v1: int -> string, v2: int -> string, sanitize: string -> string, n: nat)
    requires forall i :: 0 <= i < n ==> Slot(v1, i) == Slot(v2, i)
    ensures SlotNamesUpTo(v1, sanitize, n) == SlotNamesUpTo(v2, sanitize, n)
    decreases n
  {
    if n > 0 {
      SlotNamesUpToReadsSlots(v1, v2, sanitize, n - 1);
      assert Slot(v1, n - 1) == Slot(v2, n - 1);
    }
  }

  /** Only the client strings 330 to 334 are read. */
  lemma SlotNamesReadOnlySlots(v1: int -> string, v2: int -> string, sanitize: string -> string)
    requires forall i :: 0 <= i < MaxRaiders ==> Slot(v1, i) == Slot(v2, i)
    ensures SlotNames(v1, sanitize) == SlotNames(v2, sanitize)
  {
    SlotNamesUpToReadsSlots(v1, v2, sanitize, MaxRaiders);
  }

  /** Some player in `players` is called `name`. */
  predicate IsPresent(players: seq<Player>, name: string) {
    exists j :: 0 <= j < |players| && players[j].name == Some(name)
  }

  /**
   * The names among `names` that some player in `players` carries (the keys the
   * raider map gets): never a name that was not read.
   */
  function PresentNames(players: seq<Player>, names: set<string>): (r: set<string>)
    ensures r <= names
    decreases |players|
  {
    if players == [] then {}
    else
      var last := players[|players| - 1];
      PresentNames(players[..|players| - 1], names) +
        (if last.name.Some? && last.name.value in names then {last.name.value} else {})
  }

  lemma {:induction false} PresentNamesMembers(players: seq<Player>, names: set<string>, name: string)
    ensures name in PresentNames(players, names) <==> name in names && IsPresent(players, name)
    decreases |players|
  {
    if players != [] {
      var init := players[..|players| - 1];
      PresentNamesMembers(init, names, name);
      if IsPresent(init, name) {
        var j :| 0 <= j < |init| && init[j].name == Some(name);
        assert players[j] == init[j];
      }
      if IsPresent(players, name) {
        var j :| 0 <= j < |players| && players[j].name == Some(name);
        if j < |init| {
          assert init[j] == players[j];
        }
      }
    }
  }

  /**
   * The size test the controller performs: some name was read and as many
   * raiders were made as names read. On raiders made from read names only it is
   * the test that they are all the read names.
   */
  predicate SizesMatch(names: set<string>, present: set<string>): (b: bool)
    ensures present <= names ==> (b <==> names != {} && present == names)
  {
    SubsetSameSize(present, names);
    names != {} && |names| == |present|
  }

  /** The roster commits: some name was read and every read name belongs to a present player. */
  predicate Commits(players: seq<Player>, names: set<string>) {
    names != {} && forall name :: name in names ==> IsPresent(players, name)
  }

  lemma {:induction false} SubsetSameSize(a: set<string>, b: set<string>)
    ensures a <= b && |a| == |b| ==> a == b
  {
    if a <= b && a != b {
      var x :| x in b && x !in a;
      SubsetCard(a, b - {x});
    }
  }

  lemma {:induction false} SubsetCard(a: set<string>, b: set<string>)
    requires a <= b
    ensures |a| <= |b|
    decreases |b|
  {
    if a != {} {
      var y :| y in a;
      SubsetCard(a - {y}, b - {y});
    }
  }

  /**
   * The size comparison is an exact test: it passes exactly when the roster
   * commits, and then the raiders made are exactly the slot names.
   */
  lemma CommitIff(players: seq<Player>, names: set<string>)
    ensures SizesMatch(names, PresentNames(players, names)) <==> Commits(players, names)
    ensures Commits(players, names) ==> PresentNames(players, names) == names
  {
    var present := PresentNames(players, names);
    forall name ensures name in present <==> name in names && IsPresent(players, name) {
      PresentNamesMembers(players, names, name);
    }
    if SizesMatch(names, present) {
      SubsetSameSize(present, names);
    }
    if Commits(players, names) {
      assert present == names;
    }
  }
}
