/**
 * A model of the draft pipeline of GenericDrafter (src/lib.rs): drawing picks
 * from a list of options, with or without replacement, and cutting the flat
 * pick list into one group per player.
 *
 * The random generator is a nondeterministic choice: every `:|` below stands
 * for one call of `gen_range(0..len)`, and every contract holds for every
 * choice it could make.
 */
module Drafter {

  /** A player of the draft: its 1-based number and the options dealt to it. */
  datatype Player = Player(number: nat, picks: seq<string>)

  // ---------------------------------------------------------------------------
  // Specification functions
  // ---------------------------------------------------------------------------

  /** No string occurs twice in `s`. */
  predicate Distinct(s: seq<string>) {
    forall i, j :: 0 <= i < j < |s| ==> s[i] != s[j]
  }

  /** The distinct values of a list of options. */
  function Elements(s: seq<string>): set<string> {
    set x | x in s
  }

  /** The picks of all players, in player order. */
  function Flatten(players: seq<Player>): seq<string> {
    if players == [] then []
    else Flatten(players[..|players| - 1]) + players[|players| - 1].picks
  }

  /** Every one of `numPlayers` blocks of `numPicks` fits into a prefix of `numPlayers * numPicks`. */
  lemma BlockFits(numPlayers: nat, numPicks: nat, i: nat)
    requires i < numPlayers
    ensures i * numPicks + numPicks <= numPlayers * numPicks
  {
    if i + 1 < numPlayers {
      BlockFits(numPlayers - 1, numPicks, i);
      assert (numPlayers - 1) * numPicks + numPicks == numPlayers * numPicks;
    } else {
      assert i * numPicks + numPicks == numPlayers * numPicks;
    }
  }

  /** The picks of player `i` (0-based): entries `i * numPicks` up to `(i + 1) * numPicks` of the pick list. */
  function Block(pickList: seq<string>, numPlayers: nat, numPicks: nat, i: nat): (b: seq<string>)
    requires i < numPlayers && numPlayers * numPicks <= |pickList|
    ensures |b| == numPicks
  {
    BlockFits(numPlayers, numPicks, i);
    pickList[i * numPicks .. i * numPicks + numPicks]
  }

  /** `players` is `pickList` cut into `numPlayers` consecutive groups of `numPicks`, numbered from 1. */
  predicate IsGrouping(players: seq<Player>, pickList: seq<string>, numPlayers: nat, numPicks: nat)
    requires numPlayers * numPicks <= |pickList|
  {
    |players| == numPlayers &&
    forall i :: 0 <= i < numPlayers ==>
      players[i].number == i + 1 && players[i].picks == Block(pickList, numPlayers, numPicks, i)
  }

  /** `options.remove(index)`: the list without its element at `index`, the rest shifted left. */
  function RemoveAt(s: seq<string>, index: nat): (r: seq<string>)
    requires index < |s|
    ensures |r| == |s| - 1
    ensures forall k :: 0 <= k < index ==> r[k] == s[k]
    ensures forall k :: index <= k < |r| ==> r[k] == s[k + 1]
    ensures multiset(r) + multiset{s[index]} == multiset(s)
  {
    assert s == s[..index] + [s[index]] + s[index + 1..];
    s[..index] + s[index + 1..]
  }

  /** The random indices of a unique-mode draft are valid: the k-th is below the length the option list has then. */
  predicate IndicesInRange(len: nat, indices: seq<nat>) {
    forall k :: 0 <= k < |indices| ==> indices[k] < len - k
  }

  /**
   * The unique-mode loop replayed on the indices the generator returned:
   * the picks made so far and the options left over.
   */
  function UniqueDraws(options: seq<string>, indices: seq<nat>): (r: (seq<string>, seq<string>))
    requires IndicesInRange(|options|, indices)
    ensures |r.0| == |indices|
    ensures |r.1| == |options| - |indices|
    decreases |indices|
  {
    if indices == [] then ([], options)
    else
      var prev := UniqueDraws(options, indices[..|indices| - 1]);
      var index := indices[|indices| - 1];
      (prev.0 + [prev.1[index]], RemoveAt(prev.1, index))
  }

  // ---------------------------------------------------------------------------
  // Lemmas
  // ---------------------------------------------------------------------------

  /** Removal by index loses nothing: picks and leftover options together are the original options. */
  lemma {:induction false} UniqueDrawsConserve(options: seq<string>, indices: seq<nat>)
    requires IndicesInRange(|options|, indices)
    ensures multiset(UniqueDraws(options, indices).0) + multiset(UniqueDraws(options, indices).1) == multiset(options)
  {
    if indices != [] {
      var init := indices[..|indices| - 1];
      UniqueDrawsConserve(options, init);
      var prev := UniqueDraws(options, init);
      var index := indices[|indices| - 1];
      assert multiset(prev.0 + [prev.1[index]]) == multiset(prev.0) + multiset{prev.1[index]};
    }
  }

  /** From pairwise distinct options, the unique mode never deals the same string twice. */
  lemma {:induction false} UniqueDrawsDistinct(options: seq<string>, indices: seq<nat>)
    requires IndicesInRange(|options|, indices)
    requires Distinct(options)
    ensures Distinct(UniqueDraws(options, indices).0)
    ensures Distinct(UniqueDraws(options, indices).1)
    ensures forall x :: x in UniqueDraws(options, indices).0 ==> x !in UniqueDraws(options, indices).1
  {
    if indices != [] {
      var init := indices[..|indices| - 1];
      UniqueDrawsDistinct(options, init);
      UniqueDrawsConserve(options, init);
      var prev := UniqueDraws(options, init);
      var index := indices[|indices| - 1];
      var picks, rest := prev.0 + [prev.1[index]], RemoveAt(prev.1, index);
      assert UniqueDraws(options, indices) == (picks, rest);
      assert prev.1[index] in prev.1;
      forall i, j | 0 <= i < j < |rest| ensures rest[i] != rest[j] {
        var i', j' := if i < index then i else i + 1, if j < index then j else j + 1;
        assert rest[i] == prev.1[i'] && rest[j] == prev.1[j'];
      }
      forall x | x in rest ensures x in prev.1 && x != prev.1[index] {
        var k :| 0 <= k < |rest| && rest[k] == x;
        var k' := if k < index then k else k + 1;
        assert x == prev.1[k'];
      }
    }
  }

  /** Every pick of the unique mode is one of the options. */
  lemma UniqueDrawsFromOptions(options: seq<string>, indices: seq<nat>)
    requires IndicesInRange(|options|, indices)
    ensures forall x :: x in UniqueDraws(options, indices).0 ==> x in options
  {
    UniqueDrawsConserve(options, indices);
    forall x | x in UniqueDraws(options, indices).0 ensures x in options {
      assert x in multiset(options);
    }
  }

  /** The number of distinct values of a list is at most its length. */
  lemma {:induction false} ElementsBound(s: seq<string>)
    ensures |Elements(s)| <= |s|
  {
    if s != [] {
      ElementsBound(s[1..]);
      assert Elements(s) == {s[0]} + Elements(s[1..]);
    }
  }

  /** A subset has no more elements than its superset. */
  lemma {:induction false} SubsetBound(a: set<string>, b: set<string>)
    requires a <= b
    ensures |a| <= |b|
  {
    if a != {} {
      var x :| x in a;
      SubsetBound(a - {x}, b - {x});
    }
  }

  /** While a player holds fewer picks than there are distinct options, some option is still new to it. */
  lemma FreshOptionExists(options: seq<string>, picks: seq<string>)
    requires |picks| < |Elements(options)|
    ensures exists index :: 0 <= index < |options| && options[index] !in picks
  {
    ElementsBound(picks);
    var all, held := Elements(options), Elements(picks);
    if all <= held {
      SubsetBound(all, held);
      assert false;
    }
    var x :| x in all && x !in held;
    var index :| 0 <= index < |options| && options[index] == x;
  }

  /** A list without repeats has as many distinct values as entries. */
  lemma {:induction false} ElementsOfDistinct(s: seq<string>)
    requires Distinct(s)
    ensures |Elements(s)| == |s|
  {
    if s != [] {
      ElementsOfDistinct(s[1..]);
      assert Elements(s) == {s[0]} + Elements(s[1..]);
      assert s[0] !in Elements(s[1..]);
    }
  }

  /**
   * Once a player holds as many distinct picks as there are distinct options,
   * every option is already among them: no re-draw can succeed, so a player
   * that needs one more pick stays in the retry loop for ever.
   */
  lemma RetryExhausted(options: seq<string>, picks: seq<string>)
    requires Distinct(picks)
    requires forall k :: 0 <= k < |picks| ==> picks[k] in options
    requires |picks| == |Elements(options)|
    ensures forall index :: 0 <= index < |options| ==> options[index] in picks
  {
    forall index | 0 <= index < |options| ensures options[index] in picks {
      if options[index] !in picks {
        ElementsOfDistinct(picks);
        SubsetBound(Elements(picks), Elements(options) - {options[index]});
        assert false;
      }
    }
  }

  /**
   * The unique mode removes by position, not by value: from a list with a
   * repeated line it can deal the same string twice.
   */
  lemma UniqueModeMayRepeat()
    ensures IndicesInRange(2, [0, 0])
    ensures UniqueDraws(["x", "x"], [0, 0]).0 == ["x", "x"]
    ensures !Distinct(UniqueDraws(["x", "x"], [0, 0]).0)
  {
    var o: seq<string> := ["x", "x"];
    assert [0, 0][..1] == [0];
    assert [0][..0] == [];
    assert UniqueDraws(o, []) == ([], o);
    assert RemoveAt(o, 0) == ["x"];
    assert UniqueDraws(o, [0]) == (["x"], ["x"]);
  }

  /** The players' picks, read in order, give back the pick list the groups were cut from. */
  lemma {:induction false} FlattenGrouping(players: seq<Player>, pickList: seq<string>, numPlayers: nat, numPicks: nat)
    requires numPlayers * numPicks <= |pickList|
    requires IsGrouping(players, pickList, numPlayers, numPicks)
    ensures Flatten(players) == pickList[..numPlayers * numPicks]
  {
    if numPlayers > 0 {
      var n := numPlayers - 1;
      BlockFits(numPlayers, numPicks, n);
      assert n * numPicks + numPicks == numPlayers * numPicks;
      var init := players[..n];
      forall i | 0 <= i < n
        ensures init[i].number == i + 1 && init[i].picks == Block(pickList, n, numPicks, i)
      {
        assert init[i] == players[i];
      }
      FlattenGrouping(init, pickList, n, numPicks);
      assert players[n].picks == pickList[n * numPicks .. numPlayers * numPicks];
      assert pickList[..numPlayers * numPicks] == pickList[..n * numPicks] + pickList[n * numPicks .. numPlayers * numPicks];
    }
  }

  /** Player `i` holds `numPicks` picks, and its `j`-th is entry `i * numPicks + j` of the pick list. */
  lemma GroupingPickAt(players: seq<Player>, pickList: seq<string>, numPlayers: nat, numPicks: nat, i: nat, j: nat)
    requires numPlayers * numPicks <= |pickList|
    requires IsGrouping(players, pickList, numPlayers, numPicks)
    requires i < numPlayers && j < numPicks
    ensures |players[i].picks| == numPicks
    ensures i * numPicks + j < |pickList| && players[i].picks[j] == pickList[i * numPicks + j]
  {
    BlockFits(numPlayers, numPicks, i);
  }

  /** Regrouping the picks of a well-formed player list gives that list back. */
  lemma {:induction false} GroupingOfFlatten(players: seq<Player>, numPicks: nat)
    requires forall i :: 0 <= i < |players| ==> players[i].number == i + 1 && |players[i].picks| == numPicks
    ensures |Flatten(players)| == |players| * numPicks
    ensures IsGrouping(players, Flatten(players), |players|, numPicks)
  {
    if players != [] {
      var n := |players| - 1;
      var init, last := players[..n], players[n].picks;
      assert forall i :: 0 <= i < n ==> init[i] == players[i];
      GroupingOfFlatten(init, numPicks);
      var prefix := Flatten(init);
      assert Flatten(players) == prefix + last;
      BlockExtend(prefix, last, n, numPicks);
      forall i | 0 <= i < n
        ensures players[i].picks == Block(prefix + last, n + 1, numPicks, i)
      {
        assert players[i] == init[i];
      }
    }
  }

  /** Appending a new player's block keeps the blocks already in the pick list. */
  lemma BlockExtend(pickList: seq<string>, picks: seq<string>, numPlayers: nat, numPicks: nat)
    requires |pickList| == numPlayers * numPicks && |picks| == numPicks
    ensures (numPlayers + 1) * numPicks == |pickList + picks|
    ensures forall b :: 0 <= b < numPlayers ==>
      Block(pickList + picks, numPlayers + 1, numPicks, b) == Block(pickList, numPlayers, numPicks, b)
    ensures Block(pickList + picks, numPlayers + 1, numPicks, numPlayers) == picks
  {
    forall b | 0 <= b < numPlayers
      ensures Block(pickList + picks, numPlayers + 1, numPicks, b) == Block(pickList, numPlayers, numPicks, b)
    {
      BlockFits(numPlayers, numPicks, b);
    }
  }

  // ---------------------------------------------------------------------------
  // The pipeline of src/lib.rs
  // ---------------------------------------------------------------------------

  /**
   * The unique mode of `generate_picks`: `total` times, draw an index below the
   * current length, copy that option and remove it from the list.
   * `drawn` records the generator's answers, `leftover` the options left.
   */
  method UniquePicks(total: nat, options: seq<string>)
    returns (pickList: seq<string>, ghost drawn: seq<nat>, ghost leftover: seq<string>)
    requires total <= |options|
    ensures |pickList| == total
    ensures |drawn| == total && IndicesInRange(|options|, drawn)
    ensures (pickList, leftover) == UniqueDraws(options, drawn)
  {
    var remaining := options;
    pickList, drawn := [], [];
    for k := 0 to total
      invariant |drawn| == k && IndicesInRange(|options|, drawn)
      invariant (pickList, remaining) == UniqueDraws(options, drawn)
    {
      var index :| 0 <= index < |remaining|;
      var pick := remaining[index];
      remaining := RemoveAt(remaining, index);
      pickList := pickList + [pick];
      drawn := drawn + [index];
      assert drawn[..|drawn| - 1] == drawn[..k];
    }
    leftover := remaining;
  }

  /**
   * One player's picks in the non-unique mode: `numPicks` draws, each
   * re-drawn while the candidate is already among this player's picks.
   */
  method DrawPlayerPicks(options: seq<string>, numPicks: nat) returns (picks: seq<string>)
    requires numPicks <= |Elements(options)|
    ensures |picks| == numPicks
    ensures Distinct(picks)
    ensures forall j :: 0 <= j < |picks| ==> picks[j] in options
  {
    picks := [];
    for j := 0 to numPicks
      invariant |picks| == j
      invariant Distinct(picks)
      invariant forall k :: 0 <= k < |picks| ==> picks[k] in options
    {
      FreshOptionExists(options, picks);
      var index :| 0 <= index < |options|;
      var pick := options[index];
      if pick in picks {
        // The retry loop ends on an option this player does not hold yet; any such option is a possible outcome.
        var retry :| 0 <= retry < |options| && options[retry] !in picks;
        pick := options[retry];
      }
      picks := picks + [pick];
    }
  }

  /** The non-unique mode of `generate_picks`: one block of distinct picks per player, appended in order. */
  method NonUniquePicks(numPlayers: nat, numPicks: nat, options: seq<string>) returns (pickList: seq<string>)
    requires numPlayers == 0 || numPicks <= |Elements(options)|
    ensures |pickList| == numPlayers * numPicks
    ensures forall k :: 0 <= k < |pickList| ==> pickList[k] in options
    ensures forall i :: 0 <= i < numPlayers ==> Distinct(Block(pickList, numPlayers, numPicks, i))
  {
    pickList := [];
    for i := 0 to numPlayers
      invariant |pickList| == i * numPicks
      invariant forall k :: 0 <= k < |pickList| ==> pickList[k] in options
      invariant forall b :: 0 <= b < i ==> Distinct(Block(pickList, i, numPicks, b))
    {
      var picks := DrawPlayerPicks(options, numPicks);
      ghost var before := pickList;
      for j := 0 to numPicks
        invariant pickList == before + picks[..j]
      {
        pickList := pickList + [picks[j]];
      }
      assert picks[..numPicks] == picks;
      BlockExtend(before, picks, i, numPicks);
      ghost var done := i + 1;
      forall b | 0 <= b < done ensures Distinct(Block(pickList, done, numPicks, b)) {
        if b < i {
          assert Block(pickList, done, numPicks, b) == Block(before, i, numPicks, b);
        }
      }
    }
  }

  /** `generate_picks`: `numPlayers * numPicks` picks, drawn without replacement when `uniquePicks` holds. */
  method GeneratePicks(numPlayers: nat, numPicks: nat, options: seq<string>, uniquePicks: bool)
    returns (pickList: seq<string>, ghost drawn: seq<nat>)
    requires uniquePicks ==> numPlayers * numPicks <= |options|
    requires !uniquePicks ==> numPlayers == 0 || numPicks <= |Elements(options)|
    ensures |pickList| == numPlayers * numPicks
    ensures forall k :: 0 <= k < |pickList| ==> pickList[k] in options
    ensures uniquePicks ==> IndicesInRange(|options|, drawn) && pickList == UniqueDraws(options, drawn).0
    ensures uniquePicks ==> multiset(pickList) <= multiset(options)
    ensures uniquePicks && Distinct(options) ==> Distinct(pickList)
    ensures !uniquePicks ==> forall i :: 0 <= i < numPlayers ==> Distinct(Block(pickList, numPlayers, numPicks, i))
  {
    if uniquePicks {
      ghost var leftover;
      pickList, drawn, leftover := UniquePicks(numPlayers * numPicks, options);
      UniqueDrawsConserve(options, drawn);
      UniqueDrawsFromOptions(options, drawn);
      if Distinct(options) {
        UniqueDrawsDistinct(options, drawn);
      }
    } else {
      drawn := [];
      pickList := NonUniquePicks(numPlayers, numPicks, options);
    }
  }

  /** `generate_players`: cut the pick list into `numPlayers` groups of `numPicks`, numbered from 1. */
  method GeneratePlayers(numPlayers: nat, numPicks: nat, pickList: seq<string>) returns (players: seq<Player>)
    requires numPlayers * numPicks <= |pickList|
    ensures IsGrouping(players, pickList, numPlayers, numPicks)
  {
    players := [];
    for i := 0 to numPlayers
      invariant |players| == i
      invariant forall b :: 0 <= b < i ==>
        players[b].number == b + 1 && players[b].picks == Block(pickList, numPlayers, numPicks, b)
    {
      BlockFits(numPlayers, numPicks, i);
      var picks := [];
      for j := 0 to numPicks
        invariant picks == pickList[i * numPicks .. i * numPicks + j]
      {
        picks := picks + [pickList[i * numPicks + j]];
      }
      players := players + [Player(i + 1, picks)];
    }
  }

  /**
   * `run_drafter` after the file has been read: `options` holds its lines.
   * Every player gets `numPicks` options; in the unique mode no option is dealt
   * more often than it occurs in the file, so distinct lines are dealt at most once;
   * otherwise no player holds the same option twice.
   */
  method RunDrafter(options: seq<string>, numPlayers: nat, numPicks: nat, uniquePicks: bool)
    returns (players: seq<Player>)
    requires uniquePicks ==> numPlayers * numPicks <= |options|
    requires !uniquePicks ==> numPlayers == 0 || numPicks <= |Elements(options)|
    ensures |players| == numPlayers
    ensures forall i :: 0 <= i < numPlayers ==> players[i].number == i + 1 && |players[i].picks| == numPicks
    ensures forall i, j :: 0 <= i < numPlayers && 0 <= j < |players[i].picks| ==> players[i].picks[j] in options
    ensures |Flatten(players)| == numPlayers * numPicks
    ensures uniquePicks ==> multiset(Flatten(players)) <= multiset(options)
    ensures uniquePicks && Distinct(options) ==> Distinct(Flatten(players))
    ensures !uniquePicks ==> forall i :: 0 <= i < numPlayers ==> Distinct(players[i].picks)
  {
    var pickList, drawn := GeneratePicks(numPlayers, numPicks, options, uniquePicks);
    players := GeneratePlayers(numPlayers, numPicks, pickList);
    FlattenGrouping(players, pickList, numPlayers, numPicks);
    assert pickList[..numPlayers * numPicks] == pickList;
    forall i, j | 0 <= i < numPlayers && 0 <= j < |players[i].picks| ensures players[i].picks[j] in options {
      GroupingPickAt(players, pickList, numPlayers, numPicks, i, j);
    }
  }
}
