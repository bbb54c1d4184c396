/** The solver-output reshapers of the game-theory parser: they cut the flat
    probability vectors that external solvers print into one tuple per player
    (normal-form games), one action dictionary per information set (extensive
    form games), or pairs of strategy vectors read from lrs text output.
    Probabilities and evaluated tokens are opaque values of a type parameter. */
module Parser {
  import opened Wrappers
  import Strings

  datatype ParseError =
    | NoPlayers   // `gambit_game.players[0]` on a game without players
    | ShortProfile  // `infoset_strategy[i]` past the end of a short slice

  /** Python's `v[a:b]` for non-negative bounds: both ends are clamped to the length. */
  function Slice<V>(v: seq<V>, a: nat, b: nat): seq<V>
  {
    if a < b && a < |v| then v[a..if b < |v| then b else |v|] else []
  }

  /** Concatenation of a list of lists, left to right. */
  function Joined<V>(ss: seq<seq<V>>): seq<V>
  {
    if ss == [] then [] else Joined(ss[..|ss| - 1]) + ss[|ss| - 1]
  }

  lemma {:induction false} JoinedSnoc<V>(ss: seq<seq<V>>, s: seq<V>)
    ensures Joined(ss + [s]) == Joined(ss) + s
  {
    assert (ss + [s])[..|ss|] == ss;
  }

  lemma AppendAssoc<V>(a: seq<V>, b: seq<V>, c: seq<V>)
    ensures a + (b + c) == (a + b) + c
  {
  }

  function Sum(counts: seq<nat>): nat
  {
    if counts == [] then 0 else Sum(counts[..|counts| - 1]) + counts[|counts| - 1]
  }

  // ---------------------------------------------------------------------------
  // format_gambit: one tuple per player of a normal-form game
  // ---------------------------------------------------------------------------

  /** The per-player tuples as the code cuts them: player 0 takes the first
      `counts[0]` entries, and every later player's tuple starts at the length
      of the tuple just before it (not at the running total). */
  function SplitAsWritten<V>(v: seq<V>, counts: seq<nat>): (r: seq<seq<V>>)
    requires |counts| > 0
    ensures |r| == |counts|
    decreases |counts|
  {
    if |counts| == 1 then [Slice(v, 0, counts[0])]
    else
      var r := SplitAsWritten(v, counts[..|counts| - 1]);
      var prev := |r[|r| - 1]|;
      r + [Slice(v, prev, prev + counts[|counts| - 1])]
  }

  /** The evidently intended split: player k's tuple starts where the tuples of
      players 0..k-1 end together. */
  function SplitByPlayer<V>(v: seq<V>, counts: seq<nat>): (r: seq<seq<V>>)
    ensures |r| == |counts|
    decreases |counts|
  {
    if counts == [] then []
    else
      var init := counts[..|counts| - 1];
      SplitByPlayer(v, init) + [Slice(v, Sum(init), Sum(init) + counts[|counts| - 1])]
  }

  /** Parser.format_gambit: one list of per-player tuples for every profile. */
  method FormatGambit<V>(profiles: seq<seq<V>>, counts: seq<nat>)
      returns (r: Result<seq<seq<seq<V>>>, ParseError>)
    ensures r.Failure? <==> |profiles| > 0 && |counts| == 0
    ensures r.Failure? ==> r.error == NoPlayers
    ensures r.Success? ==> |r.value| == |profiles|
    ensures r.Success? ==> forall k :: 0 <= k < |profiles| ==>
              |counts| > 0 && r.value[k] == SplitAsWritten(profiles[k], counts)
    ensures r.Success? && |counts| <= 2 ==> forall k :: 0 <= k < |profiles| ==>
              r.value[k] == SplitByPlayer(profiles[k], counts)
  {
    var nice: seq<seq<seq<V>>> := [];
    var k := 0;
    while k < |profiles|
      invariant 0 <= k <= |profiles|
      invariant k > 0 ==> |counts| > 0
      invariant |nice| == k
      invariant forall m :: 0 <= m < k ==> |counts| > 0 && nice[m] == SplitAsWritten(profiles[m], counts)
    {
      var v := profiles[k];
      if |counts| == 0 {
        return Failure(NoPlayers);
      }
      var profile := [Slice(v, 0, counts[0])];
      var i := 1;
      while i < |counts|
        invariant 1 <= i <= |counts|
        invariant profile == SplitAsWritten(v, counts[..i])
      {
        assert counts[..i + 1][..i] == counts[..i];
        var prev := |profile[|profile| - 1]|;
        profile := profile + [Slice(v, prev, prev + counts[i])];
        i := i + 1;
      }
      assert counts[..|counts|] == counts;
      nice := nice + [profile];
      k := k + 1;
    }
    if |counts| <= 2 {
      forall m | 0 <= m < |profiles| ensures nice[m] == SplitByPlayer(profiles[m], counts) {
        SplitAsWrittenTwoPlayers(profiles[m], counts);
      }
    }
    return Success(nice);
  }

  /** Player 0's tuple is the first `counts[0]` entries of the profile. */
  lemma SplitAsWrittenFirst<V>(v: seq<V>, counts: seq<nat>)
    requires |counts| > 0 && counts[0] <= |v|
    ensures SplitAsWritten(v, counts)[0] == v[..counts[0]]
    decreases |counts|
  {
    if |counts| > 1 {
      SplitAsWrittenFirst(v, counts[..|counts| - 1]);
    }
  }

  /** With one or two players the split as written is the intended one. */
  lemma {:induction false} SplitAsWrittenTwoPlayers<V>(v: seq<V>, counts: seq<nat>)
    requires 1 <= |counts| <= 2
    ensures SplitAsWritten(v, counts) == SplitByPlayer(v, counts)
  {
    var c0 := counts[..1];
    assert Sum(c0) == counts[0] by {
      assert c0[..0] == [];
    }
    assert SplitByPlayer(v, counts[..0]) == [];
    assert SplitByPlayer(v, c0) == [Slice(v, 0, counts[0])] by {
      assert c0[..0] == counts[..0];
    }
    if |counts| == 2 {
      assert counts[..|counts| - 1] == c0;
    } else {
      assert counts == c0;
    }
  }

  /** Three players with one strategy each: the third player's tuple repeats
      the second player's entry instead of taking the last one. */
  lemma SplitAsWrittenThreePlayers()
    ensures SplitAsWritten([1, 2, 3], [1, 1, 1]) == [[1], [2], [2]]
  {
    var v := [1, 2, 3];
    var c1: seq<nat> := [1];
    var c2: seq<nat> := [1, 1];
    var c3: seq<nat> := [1, 1, 1];
    assert c3[..2] == c2 && c2[..1] == c1;
    assert Slice(v, 0, 1) == [1] && Slice(v, 1, 2) == [2];
    assert SplitAsWritten(v, c1) == [[1]];
    assert SplitAsWritten(v, c2) == [[1], [2]];
  }

  /** The same profile split as intended gives the third player the last entry. */
  lemma SplitByPlayerThreePlayers()
    ensures SplitByPlayer([1, 2, 3], [1, 1, 1]) == [[1], [2], [3]]
  {
    var v := [1, 2, 3];
    var c1: seq<nat> := [1];
    var c2: seq<nat> := [1, 1];
    var c3: seq<nat> := [1, 1, 1];
    assert c3[..2] == c2 && c2[..1] == c1 && c1[..0] == [];
    assert Slice(v, 0, 1) == [1] && Slice(v, 1, 2) == [2] && Slice(v, 2, 3) == [3];
    assert Sum(c1) == 1 && Sum(c2) == 2;
    assert SplitByPlayer(v, c1) == [[1]];
    assert SplitByPlayer(v, c2) == [[1], [2]];
  }

  /** The intended split tiles the profile: player k's tuple has exactly
      `counts[k]` entries and the tuples joined back up are the profile's first
      `Sum(counts)` entries. */
  lemma {:induction false} SplitByPlayerTiles<V>(v: seq<V>, counts: seq<nat>)
    requires Sum(counts) <= |v|
    ensures forall k :: 0 <= k < |counts| ==> |SplitByPlayer(v, counts)[k]| == counts[k]
    ensures Joined(SplitByPlayer(v, counts)) == v[..Sum(counts)]
    decreases |counts|
  {
    if counts != [] {
      var init := counts[..|counts| - 1];
      SplitByPlayerTiles(v, init);
      var last := Slice(v, Sum(init), Sum(counts));
      assert last == v[Sum(init)..Sum(counts)];
      JoinedSnoc(SplitByPlayer(v, init), last);
      assert v[..Sum(init)] + v[Sum(init)..Sum(counts)] == v[..Sum(counts)];
    }
  }

  // ---------------------------------------------------------------------------
  // format_gambit_efg_tree: one action dictionary per information set
  // ---------------------------------------------------------------------------

  /** An information set of the solver's game: its action labels in order and
      the labels of its member nodes. */
  datatype Infoset = Infoset(actions: seq<string>, members: seq<string>)

  /** Number of profile entries the information sets consume together. */
  function ActionCount(infs: seq<Infoset>): nat
  {
    if infs == [] then 0 else ActionCount(infs[..|infs| - 1]) + |infs[|infs| - 1].actions|
  }

  /** Number of profile entries all players' information sets consume together. */
  function TotalActions(players: seq<seq<Infoset>>): nat
  {
    if players == [] then 0 else TotalActions(players[..|players| - 1]) + ActionCount(players[|players| - 1])
  }

  /** `{labels[i]: vals[i] for i in range(len(labels))}`: a later repeated label
      overwrites an earlier one. */
  function ActionDict<V>(labels: seq<string>, vals: seq<V>): map<string, V>
    requires |labels| <= |vals|
  {
    if labels == [] then map[]
    else ActionDict(labels[..|labels| - 1], vals)[labels[|labels| - 1] := vals[|labels| - 1]]
  }

  /** The keys of the action dictionary are the action labels. */
  lemma {:induction false} ActionDictKeys<V>(labels: seq<string>, vals: seq<V>, a: string)
    requires |labels| <= |vals|
    ensures a in ActionDict(labels, vals) <==> a in labels
    decreases |labels|
  {
    if labels != [] {
      var init := labels[..|labels| - 1];
      ActionDictKeys(init, vals, a);
      assert labels == init + [labels[|labels| - 1]];
    }
  }

  /** `d[m] = ad` for every `m` of `ms` in turn. */
  function Assign<V>(d: map<string, V>, ms: seq<string>, ad: V): map<string, V>
  {
    if ms == [] then d else Assign(d, ms[..|ms| - 1], ad)[ms[|ms| - 1] := ad]
  }

  /** After the assignments every member maps to `ad`, and every other key keeps
      its old value. */
  lemma {:induction false} AssignAt<V>(d: map<string, V>, ms: seq<string>, ad: V, m: string)
    ensures m in Assign(d, ms, ad) <==> m in d || m in ms
    ensures m in ms ==> Assign(d, ms, ad)[m] == ad
    ensures m in d && m !in ms ==> Assign(d, ms, ad)[m] == d[m]
    decreases |ms|
  {
    if ms != [] {
      var init := ms[..|ms| - 1];
      AssignAt(d, init, ad, m);
      assert ms == init + [ms[|ms| - 1]];
    }
  }

  /** The action dictionary of information set `inf` whose slice starts at `o`. */
  function InfosetDict<V>(v: seq<V>, o: nat, inf: Infoset): map<string, V>
    requires o + |inf.actions| <= |v|
  {
    ActionDict(inf.actions, v[o..o + |inf.actions|])
  }

  /** `player_dict` after all of a player's information sets, the first of them
      starting at profile offset `off`. */
  function PlayerDict<V>(v: seq<V>, off: nat, infs: seq<Infoset>): map<string, map<string, V>>
    requires off + ActionCount(infs) <= |v|
  {
    if infs == [] then map[]
    else
      var init := infs[..|infs| - 1];
      Assign(PlayerDict(v, off, init), infs[|infs| - 1].members,
             InfosetDict(v, off + ActionCount(init), infs[|infs| - 1]))
  }

  /** The player dictionaries of one profile, in player order. */
  function ProfileDicts<V>(v: seq<V>, players: seq<seq<Infoset>>): (r: seq<map<string, map<string, V>>>)
    requires TotalActions(players) <= |v|
    ensures |r| == |players|
  {
    if players == [] then []
    else
      var init := players[..|players| - 1];
      ProfileDicts(v, init) + [PlayerDict(v, TotalActions(init), players[|players| - 1])]
  }

  /** The `for node in infoset.members` loop. */
  method AssignMembers<V>(d: map<string, V>, members: seq<string>, ad: V) returns (r: map<string, V>)
    ensures r == Assign(d, members, ad)
  {
    r := d;
    var i := 0;
    while i < |members|
      invariant 0 <= i <= |members|
      invariant r == Assign(d, members[..i], ad)
    {
      assert members[..i + 1][..i] == members[..i];
      r := r[members[i] := ad];
      i := i + 1;
    }
    assert members[..i] == members;
  }

  lemma PlayerDictSnoc<V>(v: seq<V>, off: nat, infs: seq<Infoset>, j: nat)
    requires j < |infs| && off + ActionCount(infs[..j]) + |infs[j].actions| <= |v|
    ensures ActionCount(infs[..j + 1]) == ActionCount(infs[..j]) + |infs[j].actions|
    ensures PlayerDict(v, off, infs[..j + 1])
            == Assign(PlayerDict(v, off, infs[..j]), infs[j].members, InfosetDict(v, off + ActionCount(infs[..j]), infs[j]))
  {
    assert infs[..j + 1][..j] == infs[..j];
  }

  /** The dictionaries of one player, `off` being where its first slice starts;
      fails exactly when some slice would run past the end of the profile. */
  method PlayerEntry<V>(v: seq<V>, off: nat, infs: seq<Infoset>)
      returns (r: Result<map<string, map<string, V>>, ParseError>)
    requires off <= |v|
    ensures r.Failure? <==> off + ActionCount(infs) > |v|
    ensures r.Failure? ==> r.error == ShortProfile
    ensures r.Success? ==> off + ActionCount(infs) <= |v| && r.value == PlayerDict(v, off, infs)
  {
    var playerDict: map<string, map<string, V>> := map[];
    var count := off;
    var j := 0;
    while j < |infs|
      invariant 0 <= j <= |infs|
      invariant count == off + ActionCount(infs[..j]) <= |v|
      invariant playerDict == PlayerDict(v, off, infs[..j])
    {
      var n := |infs[j].actions|;
      var slice := Slice(v, count, count + n);
      if |slice| < n {
        ActionCountPrefix(infs, j);
        return Failure(ShortProfile);
      }
      assert count + n <= |v|;
      assert slice == v[count..count + n];
      var actionDict := ActionDict(infs[j].actions, slice);
      assert actionDict == InfosetDict(v, count, infs[j]);
      PlayerDictSnoc(v, off, infs, j);
      playerDict := AssignMembers(playerDict, infs[j].members, actionDict);
      count := count + n;
      j := j + 1;
    }
    assert infs[..j] == infs;
    return Success(playerDict);
  }

  /** The per-player lists of one profile; fails exactly when the profile holds
      fewer entries than the game's information sets have actions. */
  method ProfileEntry<V>(v: seq<V>, players: seq<seq<Infoset>>)
      returns (r: Result<seq<seq<map<string, map<string, V>>>>, ParseError>)
    ensures r.Failure? <==> TotalActions(players) > |v|
    ensures r.Failure? ==> r.error == ShortProfile
    ensures r.Success? ==> TotalActions(players) <= |v| && |r.value| == |players|
    ensures r.Success? ==>
              forall p :: 0 <= p < |players| ==> r.value[p] == [ProfileDicts(v, players)[p]]
  {
    var entry: seq<seq<map<string, map<string, V>>>> := [];
    var count := 0;
    var p := 0;
    while p < |players|
      invariant 0 <= p <= |players|
      invariant count == TotalActions(players[..p]) <= |v|
      invariant |entry| == p
      invariant forall q :: 0 <= q < p ==> entry[q] == [ProfileDicts(v, players[..p])[q]]
    {
      assert players[..p + 1][..p] == players[..p];
      var d := PlayerEntry(v, count, players[p]);
      if d.Failure? {
        TotalActionsPrefix(players, p);
        return Failure(ShortProfile);
      }
      ProfileDictsSnoc(v, players[..p + 1]);
      entry := entry + [[d.value]];
      count := count + ActionCount(players[p]);
      p := p + 1;
    }
    assert players[..p] == players;
    return Success(entry);
  }

  lemma ProfileDictsSnoc<V>(v: seq<V>, players: seq<seq<Infoset>>)
    requires players != [] && TotalActions(players) <= |v|
    ensures forall q :: 0 <= q < |players| - 1 ==>
              ProfileDicts(v, players)[q] == ProfileDicts(v, players[..|players| - 1])[q]
  {
  }

  /** Parser.format_gambit_efg_tree: for every profile, one single-dictionary
      list per player mapping member node labels to action dictionaries. */
  method FormatEfgTree<V>(profiles: seq<seq<V>>, players: seq<seq<Infoset>>)
      returns (r: Result<seq<seq<seq<map<string, map<string, V>>>>>, ParseError>)
    ensures r.Failure? <==> exists k :: 0 <= k < |profiles| && TotalActions(players) > |profiles[k]|
    ensures r.Failure? ==> r.error == ShortProfile
    ensures r.Success? ==> |r.value| == |profiles|
    ensures r.Success? ==> forall k :: 0 <= k < |profiles| ==>
              TotalActions(players) <= |profiles[k]| && |r.value[k]| == |players| &&
              forall p :: 0 <= p < |players| ==> r.value[k][p] == [ProfileDicts(profiles[k], players)[p]]
  {
    var nice: seq<seq<seq<map<string, map<string, V>>>>> := [];
    var k := 0;
    while k < |profiles|
      invariant 0 <= k <= |profiles|
      invariant |nice| == k
      invariant forall m :: 0 <= m < k ==>
                  TotalActions(players) <= |profiles[m]| && |nice[m]| == |players| &&
                  forall p :: 0 <= p < |players| ==> nice[m][p] == [ProfileDicts(profiles[m], players)[p]]
    {
      var e := ProfileEntry(profiles[k], players);
      if e.Failure? {
        return Failure(ShortProfile);
      }
      nice := nice + [e.value];
      k := k + 1;
    }
    return Success(nice);
  }

  lemma {:induction false} ActionCountPrefix(infs: seq<Infoset>, j: nat)
    requires j < |infs|
    ensures ActionCount(infs[..j]) + |infs[j].actions| <= ActionCount(infs)
    decreases |infs|
  {
    var init := infs[..|infs| - 1];
    if j < |infs| - 1 {
      assert init[..j] == infs[..j];
      ActionCountPrefix(init, j);
    } else {
      assert infs[..j] == init;
    }
  }

  lemma {:induction false} TotalActionsPrefix(players: seq<seq<Infoset>>, p: nat)
    requires p < |players|
    ensures TotalActions(players[..p]) + ActionCount(players[p]) <= TotalActions(players)
    decreases |players|
  {
    var init := players[..|players| - 1];
    if p < |players| - 1 {
      assert init[..p] == players[..p];
      TotalActionsPrefix(init, p);
    } else {
      assert players[..p] == init;
    }
  }

  /** The last occurrence of a label decides its value in the action dictionary. */
  lemma {:induction false} ActionDictAt<V>(labels: seq<string>, vals: seq<V>, i: nat)
    requires i < |labels| <= |vals| && labels[i] !in labels[i + 1..]
    ensures labels[i] in ActionDict(labels, vals) && ActionDict(labels, vals)[labels[i]] == vals[i]
    decreases |labels|
  {
    var init := labels[..|labels| - 1];
    if i < |labels| - 1 {
      assert labels[|labels| - 1] in labels[i + 1..];
      assert init[i + 1..] == labels[i + 1..|labels| - 1];
      ActionDictAt(init, vals, i);
    }
  }

  /** A member node is mapped to the action dictionary of the last information
      set that lists it. */
  lemma {:induction false} PlayerDictAt<V>(v: seq<V>, off: nat, infs: seq<Infoset>, j: nat, m: string)
    requires off + ActionCount(infs) <= |v|
    requires j < |infs| && m in infs[j].members
    requires forall l :: j < l < |infs| ==> m !in infs[l].members
    ensures off + ActionCount(infs[..j]) + |infs[j].actions| <= |v|
    ensures m in PlayerDict(v, off, infs)
    ensures PlayerDict(v, off, infs)[m] == InfosetDict(v, off + ActionCount(infs[..j]), infs[j])
    decreases |infs|
  {
    ActionCountPrefix(infs, j);
    var init := infs[..|infs| - 1];
    var last := infs[|infs| - 1];
    var ad := InfosetDict(v, off + ActionCount(init), last);
    AssignAt(PlayerDict(v, off, init), last.members, ad, m);
    if j < |infs| - 1 {
      assert init[..j] == infs[..j];
      assert forall l :: j < l < |init| ==> init[l] == infs[l];
      PlayerDictAt(v, off, init, j, m);
    } else {
      assert infs[..j] == init;
    }
  }

  /** The keys of a player's dictionary are the member labels of its
      information sets. */
  lemma {:induction false} PlayerDictKeys<V>(v: seq<V>, off: nat, infs: seq<Infoset>, m: string)
    requires off + ActionCount(infs) <= |v|
    ensures m in PlayerDict(v, off, infs) <==> exists j :: 0 <= j < |infs| && m in infs[j].members
    decreases |infs|
  {
    if infs != [] {
      var init := infs[..|infs| - 1];
      PlayerDictKeys(v, off, init, m);
      ActionCountPrefix(infs, |infs| - 1);
      assert infs[..|infs| - 1] == init;
      AssignAt(PlayerDict(v, off, init), infs[|infs| - 1].members,
               InfosetDict(v, off + ActionCount(init), infs[|infs| - 1]), m);
      if m in PlayerDict(v, off, infs) && m !in infs[|infs| - 1].members {
        var j :| 0 <= j < |init| && m in init[j].members;
        assert infs[j] == init[j];
      }
      if exists j :: 0 <= j < |infs| && m in infs[j].members {
        var j :| 0 <= j < |infs| && m in infs[j].members;
        if j < |infs| - 1 {
          assert init[j] == infs[j];
        }
      }
    }
  }

  /** Player `p`'s dictionary starts at the total action count of the players
      before it. */
  lemma {:induction false} ProfileDictsAt<V>(v: seq<V>, players: seq<seq<Infoset>>, p: nat)
    requires TotalActions(players) <= |v| && p < |players|
    ensures TotalActions(players[..p]) + ActionCount(players[p]) <= TotalActions(players)
    ensures ProfileDicts(v, players)[p] == PlayerDict(v, TotalActions(players[..p]), players[p])
    decreases |players|
  {
    TotalActionsPrefix(players, p);
    var init := players[..|players| - 1];
    if p < |players| - 1 {
      assert init[..p] == players[..p];
      TotalActionsPrefix(players, |players| - 1);
      ProfileDictsAt(v, init, p);
    } else {
      assert players[..p] == init;
    }
  }

  /** The value the reshaped profile gives to action `i` at member node `m` of
      information set `j` of player `p` is the profile entry at the running
      offset plus `i`, provided neither the node label nor the action label is
      repeated later (a repeat overwrites). */
  lemma EfgTreeValue<V>(v: seq<V>, players: seq<seq<Infoset>>, p: nat, j: nat, i: nat, m: string)
    requires TotalActions(players) <= |v|
    requires p < |players| && j < |players[p]| && i < |players[p][j].actions|
    requires m in players[p][j].members
    requires forall l :: j < l < |players[p]| ==> m !in players[p][l].members
    requires players[p][j].actions[i] !in players[p][j].actions[i + 1..]
    ensures TotalActions(players[..p]) + ActionCount(players[p][..j]) + i < |v|
    ensures m in ProfileDicts(v, players)[p]
    ensures players[p][j].actions[i] in ProfileDicts(v, players)[p][m]
    ensures ProfileDicts(v, players)[p][m][players[p][j].actions[i]]
            == v[TotalActions(players[..p]) + ActionCount(players[p][..j]) + i]
  {
    ProfileDictsAt(v, players, p);
    var off := TotalActions(players[..p]);
    var d := ProfileDicts(v, players)[p];
    PlayerDictAt(v, off, players[p], j, m);
    var o := off + ActionCount(players[p][..j]);
    var inf := players[p][j];
    var vals := v[o..o + |inf.actions|];
    assert d[m] == InfosetDict(v, o, inf) == ActionDict(inf.actions, vals);
    ActionDictAt(inf.actions, vals, i);
    assert vals[i] == v[o + i];
  }

  /** Every member node of an information set (listed in no later one) is
      mapped to the same action dictionary. */
  lemma MembersShareDict<V>(v: seq<V>, off: nat, infs: seq<Infoset>, j: nat, m1: string, m2: string)
    requires off + ActionCount(infs) <= |v|
    requires j < |infs| && m1 in infs[j].members && m2 in infs[j].members
    requires forall l :: j < l < |infs| ==> m1 !in infs[l].members && m2 !in infs[l].members
    ensures m1 in PlayerDict(v, off, infs) && m2 in PlayerDict(v, off, infs)
    ensures PlayerDict(v, off, infs)[m1] == PlayerDict(v, off, infs)[m2]
  {
    PlayerDictAt(v, off, infs, j, m1);
    PlayerDictAt(v, off, infs, j, m2);
  }

  // ---------------------------------------------------------------------------
  // format_lrs: equilibria read from the text output of lrs
  // ---------------------------------------------------------------------------

  /** The grouping key: whether a line is a bare newline. */
  predicate IsBreak(line: string) { |line| == 1 && line[0] == '\n' }

  /** `line.startswith('2')`. */
  predicate StartsWithTwo(line: string) { |line| >= 1 && line[0] == '2' }

  /** `[list(g) for _, g in groupby(lines, IsBreak)]`: maximal runs of
      consecutive lines with the same key. */
  function GroupRuns(lines: seq<string>): (r: seq<seq<string>>)
    ensures lines != [] ==> r != []
  {
    if lines == [] then []
    else
      var r := GroupRuns(lines[..|lines| - 1]);
      var x := lines[|lines| - 1];
      if r != [] && r[|r| - 1] != [] && IsBreak(r[|r| - 1][0]) == IsBreak(x)
      then r[..|r| - 1] + [r[|r| - 1] + [x]]
      else r + [[x]]
  }

  /** Every run is non-empty and all of its lines share the first line's key. */
  predicate Uniform(r: seq<seq<string>>)
  {
    forall k :: 0 <= k < |r| ==> r[k] != [] && forall i :: 0 <= i < |r[k]| ==> IsBreak(r[k][i]) == IsBreak(r[k][0])
  }

  /** Consecutive runs have different keys. */
  predicate Maximal(r: seq<seq<string>>)
    requires Uniform(r)
  {
    forall k :: 0 < k < |r| ==> IsBreak(r[k - 1][0]) != IsBreak(r[k][0])
  }

  lemma JoinedExtendLast<V>(ss: seq<seq<V>>, x: V)
    requires ss != []
    ensures Joined(ss[..|ss| - 1] + [ss[|ss| - 1] + [x]]) == Joined(ss) + [x]
  {
    var n := |ss| - 1;
    JoinedSnoc(ss[..n], ss[n] + [x]);
    AppendAssoc(Joined(ss[..n]), ss[n], [x]);
  }

  lemma GroupRunsSnoc(lines: seq<string>, x: string)
    ensures GroupRuns(lines + [x])
            == var r := GroupRuns(lines);
               if r != [] && r[|r| - 1] != [] && IsBreak(r[|r| - 1][0]) == IsBreak(x)
               then r[..|r| - 1] + [r[|r| - 1] + [x]]
               else r + [[x]]
  {
    assert (lines + [x])[..|lines|] == lines;
  }

  /** A line whose key differs from the last run's key starts a new run. */
  lemma GroupRunsNewRun(lines: seq<string>, x: string)
    requires GroupRuns(lines) == [] ||
             (GroupRuns(lines)[|GroupRuns(lines)| - 1] != [] &&
              IsBreak(GroupRuns(lines)[|GroupRuns(lines)| - 1][0]) != IsBreak(x))
    ensures GroupRuns(lines + [x]) == GroupRuns(lines) + [[x]]
  {
    GroupRunsSnoc(lines, x);
  }

  /** A line with the key of the last run joins that run. */
  lemma GroupRunsExtendRun(lines: seq<string>, run: seq<string>, x: string)
    requires run != [] && IsBreak(x) == IsBreak(run[0])
    requires GroupRuns(lines + run) == GroupRuns(lines) + [run]
    ensures GroupRuns(lines + (run + [x])) == GroupRuns(lines) + [run + [x]]
  {
    assert (lines + run) + [x] == lines + (run + [x]);
    GroupRunsSnoc(lines + run, x);
    var r := GroupRuns(lines) + [run];
    assert r[..|r| - 1] == GroupRuns(lines);
  }

  /** Appending a run whose lines share a key different from the key of the
      last run so far adds exactly that run. */
  lemma {:induction false} GroupRunsAppendRun(lines: seq<string>, run: seq<string>)
    requires run != [] && forall i :: 0 <= i < |run| ==> IsBreak(run[i]) == IsBreak(run[0])
    requires GroupRuns(lines) == [] ||
             (GroupRuns(lines)[|GroupRuns(lines)| - 1] != [] &&
              IsBreak(GroupRuns(lines)[|GroupRuns(lines)| - 1][0]) != IsBreak(run[0]))
    ensures GroupRuns(lines + run) == GroupRuns(lines) + [run]
    decreases |run|
  {
    var n := |run| - 1;
    if n == 0 {
      assert run == [run[0]];
      GroupRunsNewRun(lines, run[0]);
    } else {
      var init := run[..n];
      assert init + [run[n]] == run;
      GroupRunsAppendRun(lines, init);
      GroupRunsExtendRun(lines, init, run[n]);
    }
  }

  /** The runs join back up to the lines. */
  lemma {:induction false} GroupRunsJoin(lines: seq<string>)
    ensures Joined(GroupRuns(lines)) == lines
    decreases |lines|
  {
    if lines != [] {
      var init := lines[..|lines| - 1];
      var r := GroupRuns(init);
      var x := lines[|lines| - 1];
      GroupRunsJoin(init);
      if r != [] && r[|r| - 1] != [] && IsBreak(r[|r| - 1][0]) == IsBreak(x) {
        JoinedExtendLast(r, x);
      } else {
        JoinedSnoc(r, [x]);
      }
      assert init + [x] == lines;
    }
  }

  /** Every run is non-empty and has one key. */
  lemma {:induction false} GroupRunsUniform(lines: seq<string>)
    ensures Uniform(GroupRuns(lines))
    decreases |lines|
  {
    if lines != [] {
      var init := lines[..|lines| - 1];
      var r := GroupRuns(init);
      var x := lines[|lines| - 1];
      GroupRunsUniform(init);
      if r != [] && r[|r| - 1] != [] && IsBreak(r[|r| - 1][0]) == IsBreak(x) {
        var n := |r| - 1;
        var run := r[n] + [x];
        forall i | 0 <= i < |run| ensures IsBreak(run[i]) == IsBreak(run[0]) {
          if i < |r[n]| {
            assert run[i] == r[n][i];
          }
        }
        UniformSnoc(r[..n], run);
      } else {
        UniformSnoc(r, [x]);
      }
    }
  }

  /** A run with one key added to uniform runs keeps them uniform. */
  lemma UniformSnoc(r: seq<seq<string>>, run: seq<string>)
    requires Uniform(r) && run != [] && forall i :: 0 <= i < |run| ==> IsBreak(run[i]) == IsBreak(run[0])
    ensures Uniform(r + [run])
  {
    forall k | 0 <= k < |r| ensures (r + [run])[k] == r[k] { }
  }

  /** No two neighbouring runs share a key. */
  lemma {:induction false} GroupRunsMaximal(lines: seq<string>)
    ensures Uniform(GroupRuns(lines)) && Maximal(GroupRuns(lines))
    decreases |lines|
  {
    GroupRunsUniform(lines);
    if lines != [] {
      var init := lines[..|lines| - 1];
      var r := GroupRuns(init);
      var x := lines[|lines| - 1];
      GroupRunsMaximal(init);
      if r != [] && r[|r| - 1] != [] && IsBreak(r[|r| - 1][0]) == IsBreak(x) {
        var n := |r| - 1;
        var s := r[..n] + [r[n] + [x]];
        assert forall k :: 0 <= k < n ==> s[k] == r[k];
        assert s[n][0] == r[n][0];
      } else {
        assert forall k :: 0 <= k < |r| ==> (r + [[x]])[k] == r[k];
      }
    }
  }

  /** `[sage_eval(k) for k in ts]`. */
  function EvalAll<V>(ts: seq<string>, eval: string -> V): (r: seq<V>)
    ensures |r| == |ts|
  {
    if ts == [] then [] else EvalAll(ts[..|ts| - 1], eval) + [eval(ts[|ts| - 1])]
  }

  /** `[sage_eval(k) for k in line.split()][1:-1]`: the evaluated fields of a
      line without its first and last one. */
  function Fields<V>(line: string, eval: string -> V): seq<V>
  {
    var vals := EvalAll(Strings.Split(line), eval);
    if |vals| >= 2 then vals[1..|vals| - 1] else []
  }

  lemma {:induction false} EvalAllAt<V>(ts: seq<string>, eval: string -> V, i: nat)
    requires i < |ts|
    ensures EvalAll(ts, eval)[i] == eval(ts[i])
    decreases |ts|
  {
    if i < |ts| - 1 {
      EvalAllAt(ts[..|ts| - 1], eval, i);
    }
  }

  /** A line of `n` whitespace-separated tokens gives `n - 2` values, the
      evaluations of all its tokens but the first and the last. */
  lemma FieldsAt<V>(line: string, eval: string -> V, i: nat)
    ensures var n := |Strings.Split(line)|; |Fields(line, eval)| == (if n >= 2 then n - 2 else 0)
    ensures i < |Fields(line, eval)| ==> Fields(line, eval)[i] == eval(Strings.Split(line)[i + 1])
  {
    if i < |Fields(line, eval)| {
      EvalAllAt(Strings.Split(line), eval, i + 1);
    }
  }

  /** One `[s1, s2]` pair per line of `lines`, all sharing `s1`; `read` turns a
      line into its vector. */
  function Pairs<V>(s1: seq<V>, lines: seq<string>, read: string -> seq<V>): (r: seq<(seq<V>, seq<V>)>)
    ensures |r| == |lines|
  {
    if lines == [] then []
    else Pairs(s1, lines[..|lines| - 1], read) + [(s1, read(lines[|lines| - 1]))]
  }

  /** The equilibria of one block: none unless it starts with a '2' line; then
      the last line gives `s1` and every other line one `s2`. */
  function BlockEquilibria<V>(block: seq<string>, read: string -> seq<V>): seq<(seq<V>, seq<V>)>
  {
    if block != [] && StartsWithTwo(block[0])
    then Pairs(read(block[|block| - 1]), block[..|block| - 1], read)
    else []
  }

  function BlocksEquilibria<V>(blocks: seq<seq<string>>, read: string -> seq<V>): seq<(seq<V>, seq<V>)>
  {
    if blocks == [] then []
    else BlocksEquilibria(blocks[..|blocks| - 1], read) + BlockEquilibria(blocks[|blocks| - 1], read)
  }

  /** The blocks of lrs output: runs of the lines after the first seven. */
  function LrsBlocks(lines: seq<string>): seq<seq<string>>
  {
    GroupRuns(Slice(lines, 7, |lines|))
  }

  /** What format_lrs returns when `read` is `Fields` with `sage_eval`. */
  function LrsEquilibria<V>(lines: seq<string>, read: string -> seq<V>): seq<(seq<V>, seq<V>)>
  {
    BlocksEquilibria(LrsBlocks(lines), read)
  }

  /** The line reader format_lrs uses: `Fields` with the given `sage_eval`. */
  function Reader<V>(eval: string -> V): string -> seq<V>
  {
    line => Fields(line, eval)
  }

  /** The `for s2 in collection[:-1]` loop. */
  method AppendPairs<V>(eqs: seq<(seq<V>, seq<V>)>, s1: seq<V>, rest: seq<string>, read: string -> seq<V>)
      returns (r: seq<(seq<V>, seq<V>)>)
    ensures r == eqs + Pairs(s1, rest, read)
  {
    r := eqs;
    var i := 0;
    while i < |rest|
      invariant 0 <= i <= |rest|
      invariant r == eqs + Pairs(s1, rest[..i], read)
    {
      assert rest[..i + 1][..i] == rest[..i];
      r := r + [(s1, read(rest[i]))];
      i := i + 1;
    }
    assert rest[..i] == rest;
  }

  /** Parser.format_lrs, with `sage_eval` as the parameter `eval`. */
  method FormatLrs<V>(lines: seq<string>, eval: string -> V) returns (equilibria: seq<(seq<V>, seq<V>)>)
    ensures equilibria == LrsEquilibria(lines, Reader(eval))
  {
    var blocks := LrsBlocks(lines);
    equilibria := CollectEquilibria(blocks, Reader(eval));
  }

  /** The loop over the groups of lines, with `read` reading one line. */
  method CollectEquilibria<V>(blocks: seq<seq<string>>, read: string -> seq<V>) returns (equilibria: seq<(seq<V>, seq<V>)>)
    ensures equilibria == BlocksEquilibria(blocks, read)
  {
    equilibria := [];
    var b := 0;
    while b < |blocks|
      invariant 0 <= b <= |blocks|
      invariant equilibria == BlocksEquilibria(blocks[..b], read)
    {
      BlocksEquilibriaSnoc(blocks, b, read);
      var collection := blocks[b];
      if collection != [] && StartsWithTwo(collection[0]) {
        var s1 := read(collection[|collection| - 1]);
        equilibria := AppendPairs(equilibria, s1, collection[..|collection| - 1], read);
      }
      b := b + 1;
    }
    assert blocks[..b] == blocks;
  }

  lemma BlocksEquilibriaSnoc<V>(blocks: seq<seq<string>>, b: nat, read: string -> seq<V>)
    requires b < |blocks|
    ensures BlocksEquilibria(blocks[..b + 1], read) == BlocksEquilibria(blocks[..b], read) + BlockEquilibria(blocks[b], read)
  {
    assert blocks[..b + 1][..b] == blocks[..b];
  }

  lemma {:induction false} PairsHas<V>(s1: seq<V>, lines: seq<string>, read: string -> seq<V>, i: nat)
    requires i < |lines|
    ensures (s1, read(lines[i])) in Pairs(s1, lines, read)
    decreases |lines|
  {
    var init := lines[..|lines| - 1];
    if i < |init| {
      assert init[i] == lines[i];
      PairsHas(s1, init, read, i);
    }
  }

  lemma {:induction false} PairsSource<V>(s1: seq<V>, lines: seq<string>, read: string -> seq<V>, e: (seq<V>, seq<V>))
      returns (i: nat)
    requires e in Pairs(s1, lines, read)
    ensures i < |lines| && e == (s1, read(lines[i]))
    decreases |lines|
  {
    var init := lines[..|lines| - 1];
    if e in Pairs(s1, init, read) {
      i := PairsSource(s1, init, read, e);
      assert init[i] == lines[i];
    } else {
      i := |lines| - 1;
    }
  }

  lemma {:induction false} BlocksHas<V>(blocks: seq<seq<string>>, read: string -> seq<V>, b: nat, e: (seq<V>, seq<V>))
    requires b < |blocks| && e in BlockEquilibria(blocks[b], read)
    ensures e in BlocksEquilibria(blocks, read)
    decreases |blocks|
  {
    var init := blocks[..|blocks| - 1];
    if b < |init| {
      assert init[b] == blocks[b];
      BlocksHas(init, read, b, e);
    }
  }

  lemma {:induction false} BlocksSource<V>(blocks: seq<seq<string>>, read: string -> seq<V>, e: (seq<V>, seq<V>))
      returns (b: nat)
    requires e in BlocksEquilibria(blocks, read)
    ensures b < |blocks| && e in BlockEquilibria(blocks[b], read)
    decreases |blocks|
  {
    var init := blocks[..|blocks| - 1];
    if e in BlocksEquilibria(init, read) {
      b := BlocksSource(init, read, e);
      assert init[b] == blocks[b];
    } else {
      b := |blocks| - 1;
    }
  }

  /** Line `i` of block `b`, not its last line, yields the pair (vector of the
      block's last line, vector of line `i`) when the block starts with a '2'
      line. */
  lemma LrsEquilibriaHas<V>(lines: seq<string>, read: string -> seq<V>, b: nat, i: nat)
    requires b < |LrsBlocks(lines)| && i + 1 < |LrsBlocks(lines)[b]|
    requires StartsWithTwo(LrsBlocks(lines)[b][0])
    ensures (read(LrsBlocks(lines)[b][|LrsBlocks(lines)[b]| - 1]), read(LrsBlocks(lines)[b][i]))
            in LrsEquilibria(lines, read)
  {
    var block := LrsBlocks(lines)[b];
    var rest := block[..|block| - 1];
    assert rest[i] == block[i];
    PairsHas(read(block[|block| - 1]), rest, read, i);
    BlocksHas(LrsBlocks(lines), read, b, (read(block[|block| - 1]), read(block[i])));
  }

  /** Every reported pair comes that way from a block starting with a '2' line. */
  lemma LrsEquilibriaSource<V>(lines: seq<string>, read: string -> seq<V>, e: (seq<V>, seq<V>))
      returns (b: nat, i: nat)
    requires e in LrsEquilibria(lines, read)
    ensures b < |LrsBlocks(lines)| && i + 1 < |LrsBlocks(lines)[b]|
    ensures StartsWithTwo(LrsBlocks(lines)[b][0])
    ensures e == (read(LrsBlocks(lines)[b][|LrsBlocks(lines)[b]| - 1]), read(LrsBlocks(lines)[b][i]))
  {
    b := BlocksSource(LrsBlocks(lines), read, e);
    var block := LrsBlocks(lines)[b];
    var rest := block[..|block| - 1];
    i := PairsSource(read(block[|block| - 1]), rest, read, e);
    assert rest[i] == block[i];
  }

  lemma ThreeRuns(a: string, b: string, c: string, d: string, nl: string)
    requires IsBreak(nl) && !IsBreak(a) && !IsBreak(b) && !IsBreak(c) && !IsBreak(d)
    ensures GroupRuns([a, b, nl, c, d]) == [[a, b], [nl], [c, d]]
  {
    assert GroupRuns([]) == [];
    GroupRunsAppendRun([], [a, b]);
    assert [] + [a, b] == [a, b];
    GroupRunsAppendRun([a, b], [nl]);
    GroupRunsAppendRun([a, b] + [nl], [c, d]);
    assert [a, b] + [nl] + [c, d] == [a, b, nl, c, d];
  }

  /** The runs of the documented output shape: two two-line blocks, each
      followed by a newline line, then the summary lines. */
  lemma TwoBlockRuns(a: string, b: string, c: string, d: string, nl: string, s1: string, s2: string, s3: string)
    requires IsBreak(nl) && !IsBreak(a) && !IsBreak(b) && !IsBreak(c) && !IsBreak(d)
    requires !IsBreak(s1) && !IsBreak(s2) && !IsBreak(s3)
    ensures GroupRuns([a, b, nl, c, d, nl, s1, s2, s3]) == [[a, b], [nl], [c, d], [nl], [s1, s2, s3]]
  {
    ThreeRuns(a, b, c, d, nl);
    var r := [[a, b], [nl], [c, d]];
    GroupRunsAppendRun([a, b, nl, c, d], [nl]);
    assert [a, b, nl, c, d] + [nl] == [a, b, nl, c, d, nl];
    GroupRunsAppendRun([a, b, nl, c, d, nl], [s1, s2, s3]);
    assert [a, b, nl, c, d, nl] + [s1, s2, s3] == [a, b, nl, c, d, nl, s1, s2, s3];
  }

  lemma TwoLineBlock<V>(a: string, b: string, read: string -> seq<V>)
    requires StartsWithTwo(a)
    ensures BlockEquilibria([a, b], read) == [(read(b), read(a))]
  {
    assert [a, b][..1] == [a] && [a][..0] == [];
  }

  /** The pairs of the documented blocks. */
  lemma TwoBlockPairs<V>(a: string, b: string, c: string, d: string, nl: string, s1: string, s2: string, s3: string,
                         read: string -> seq<V>)
    requires StartsWithTwo(a) && StartsWithTwo(c) && !StartsWithTwo(nl) && !StartsWithTwo(s1)
    ensures BlocksEquilibria([[a, b], [nl], [c, d], [nl], [s1, s2, s3]], read) == [(read(b), read(a)), (read(d), read(c))]
  {
    TwoLineBlock(a, b, read);
    TwoLineBlock(c, d, read);
    var g2 := [[a, b]];
    var g3 := g2 + [[nl]];
    var g5 := g3 + [[c, d]];
    var g6 := g5 + [[nl]];
    var g9 := g6 + [[s1, s2, s3]];
    assert g9 == [[a, b], [nl], [c, d], [nl], [s1, s2, s3]];
    assert g9[..4] == g6 && g6[..3] == g5 && g5[..2] == g3 && g3[..1] == g2 && g2[..0] == [];
    assert BlockEquilibria([nl], read) == [] && BlockEquilibria([s1, s2, s3], read) == [];
    assert BlocksEquilibria(g2, read) == [(read(b), read(a))];
    assert BlocksEquilibria(g3, read) == [(read(b), read(a))];
    assert BlocksEquilibria(g5, read) == [(read(b), read(a)), (read(d), read(c))];
    assert BlocksEquilibria(g6, read) == [(read(b), read(a)), (read(d), read(c))];
  }

  /** Output of the documented shape: after seven header lines, two blocks of
      two lines each, each followed by a newline line, then three summary
      lines. Each block yields one pair, the last line's vector first. */
  lemma LrsTwoBlocks<V>(header: seq<string>, a: string, b: string, c: string, d: string,
                        nl: string, s1: string, s2: string, s3: string, read: string -> seq<V>)
    requires |header| == 7 && IsBreak(nl)
    requires !IsBreak(a) && !IsBreak(b) && !IsBreak(c) && !IsBreak(d)
    requires !IsBreak(s1) && !IsBreak(s2) && !IsBreak(s3)
    requires StartsWithTwo(a) && StartsWithTwo(c) && !StartsWithTwo(s1)
    ensures LrsEquilibria(header + [a, b, nl, c, d, nl, s1, s2, s3], read)
            == [(read(b), read(a)), (read(d), read(c))]
  {
    var t := [a, b, nl, c, d, nl, s1, s2, s3];
    var lines := header + t;
    assert Slice(lines, 7, |lines|) == t;
    TwoBlockRuns(a, b, c, d, nl, s1, s2, s3);
    TwoBlockPairs(a, b, c, d, nl, s1, s2, s3, read);
  }

  /** The lrs output documented for a 2x2 game: equilibria ((1/2, 1/2), (0, 1))
      and ((0, 1), (0, 1)). */
  lemma LrsDocExample<V>(header: seq<string>, read: string -> seq<V>)
    requires |header| == 7
    ensures LrsEquilibria(header + ["2  0  1  2 \n", "1  1/2  1/2 -2 \n", "\n", "2  0  1  2 \n", "1  0  1 -2 \n", "\n",
                                     "*Number of equilibria found: 2\n", "*Player 1: vertices=3 bases=3 pivots=5\n",
                                     "*Player 2: vertices=2 bases=1 pivots=6\n"], read)
            == [(read("1  1/2  1/2 -2 \n"), read("2  0  1  2 \n")), (read("1  0  1 -2 \n"), read("2  0  1  2 \n"))]
  {
    LrsTwoBlocks(header, "2  0  1  2 \n", "1  1/2  1/2 -2 \n", "2  0  1  2 \n", "1  0  1 -2 \n", "\n",
                 "*Number of equilibria found: 2\n", "*Player 1: vertices=3 bases=3 pivots=5\n",
                 "*Player 2: vertices=2 bases=1 pivots=6\n", read);
  }
}
