/** What the registry operations guarantee together: the deletion loop under
    unique and under repeated names, the invariants each operation keeps, and
    properties of whole sequences of registry calls. */
module RegistryProperties {
  import opened Outcomes
  import opened Entities
  import opened Games
  import opened Registry

  // The deletion loop of remove_player_from_game

  /** Once no member from index i on has the name, the loop changes nothing. */
  lemma {:induction false} DeleteNoMatch(s: seq<Player>, name: string, i: nat)
    requires forall j :: i <= j < |s| ==> s[j].name != name
    ensures DeleteWhileEnumerating(s, name, i) == s
    decreases |s| - i
  {
    if i < |s| {
      DeleteNoMatch(s, name, i + 1);
    }
  }

  /** With unique names the loop, started at or before the member with the
      name, deletes exactly that member and keeps the others in order. */
  lemma {:induction false} DeleteUniqueFrom(s: seq<Player>, name: string, k: nat, i: nat)
    requires UniqueNames(s) && i <= k < |s| && s[k].name == name
    ensures DeleteWhileEnumerating(s, name, i) == s[..k] + s[k + 1..]
    decreases k - i
  {
    if i < k {
      DeleteUniqueFrom(s, name, k, i + 1);
    } else {
      var rest := s[..k] + s[k + 1..];
      forall j | k + 1 <= j < |rest|
        ensures rest[j].name != name
      {
        assert rest[j] == s[j + 1];
      }
      DeleteNoMatch(rest, name, k + 1);
    }
  }

  /** With unique names remove_player_from_game's loop deletes exactly the
      member with the name. */
  lemma DeleteUnique(s: seq<Player>, name: string, k: nat)
    requires UniqueNames(s) && k < |s| && s[k].name == name
    ensures DeleteWhileEnumerating(s, name, 0) == s[..k] + s[k + 1..]
  {
    DeleteUniqueFrom(s, name, k, 0);
  }

  /** If some member from index i on has the name, the loop deletes at least one
      entry, whatever the other names are. */
  lemma {:induction false} DeleteShrinks(s: seq<Player>, name: string, i: nat, k: nat)
    requires i <= k < |s| && s[k].name == name
    ensures |DeleteWhileEnumerating(s, name, i)| < |s|
    decreases |s| - i
  {
    if s[i].name != name {
      DeleteShrinks(s, name, i + 1, k);
    }
  }

  /** With repeated names the loop is not "delete the player": in
      [Alice, Alice, Bob, Alice] the second Alice slides into the slot of the
      first and is skipped, the third is deleted, and the counter drops by one
      while two entries went, so the counter no longer equals the member count. */
  lemma RepeatedNamesBreakTheCounter()
    ensures var a, b := NewPlayer("Alice"), NewPlayer("Bob");
            var t := map["ABCD" := GameState("ABCD", 4, [a, a, b, a], [])];
            var r := RemovePlayer(t, "ABCD", "Alice");
            && r == Ok(map["ABCD" := GameState("ABCD", 3, [a, b], [])])
            && !Consistent(r.value)
  {
    var a, b := NewPlayer("Alice"), NewPlayer("Bob");
    var s := [a, a, b, a];
    assert Names(s)[0] == "Alice";
    assert s[..0] + s[1..] == [a, b, a];
    assert [a, b, a][..2] + [a, b, a][3..] == [a, b];
    assert DeleteWhileEnumerating(s, "Alice", 0) == DeleteWhileEnumerating([a, b, a], "Alice", 1);
    assert DeleteWhileEnumerating([a, b, a], "Alice", 1) == DeleteWhileEnumerating([a, b, a], "Alice", 2);
    assert DeleteWhileEnumerating([a, b, a], "Alice", 2) == DeleteWhileEnumerating([a, b], "Alice", 3);
    var t := map["ABCD" := GameState("ABCD", 4, s, [])];
    var r := RemovePlayer(t, "ABCD", "Alice");
    assert r.value["ABCD"] == GameState("ABCD", 3, [a, b], []);
    assert r.value.Keys == {"ABCD"};
    var expected: Table := map["ABCD" := GameState("ABCD", 3, [a, b], [])];
    assert r.value == expected;
  }

  // Invariants kept by single operations

  lemma UniqueNamesAppend(s: seq<Player>, p: Player)
    requires UniqueNames(s) && p.name !in Names(s)
    ensures UniqueNames(s + [p])
  {
    InNamesIff(s, p.name);
  }

  lemma UniqueNamesDelete(s: seq<Player>, k: nat)
    requires UniqueNames(s) && k < |s|
    ensures UniqueNames(s[..k] + s[k + 1..])
  {
    var t := s[..k] + s[k + 1..];
    forall i, j | 0 <= i < j < |t|
      ensures t[i].name != t[j].name
    {
      var i', j' := if i < k then i else i + 1, if j < k then j else j + 1;
      assert t[i] == s[i'] && t[j] == s[j'];
    }
  }

  /** A freshly created game keeps the registry consistent. */
  lemma CreateKeepsConsistent(t: Table, code: string)
    requires Consistent(t) && code !in t
    ensures Consistent(t[code := NewGame(code)])
  {
  }

  /** add_player_to_game keeps the registry consistent when the name is new to
      the game (the callers do not guarantee this; see README). */
  lemma AddPlayerKeepsConsistent(t: Table, code: string, p: Player)
    requires Consistent(t) && code in t && p.name !in Names(t[code].members)
    ensures AddPlayer(t, code, p).Ok? && Consistent(AddPlayer(t, code, p).value)
  {
    UniqueNamesAppend(t[code].members, p);
  }

  /** add_message_to_game keeps the registry consistent. */
  lemma AddMessageKeepsConsistent(t: Table, code: string, m: Message)
    requires Consistent(t)
    ensures AddMessage(t, code, m).Ok? ==> Consistent(AddMessage(t, code, m).value)
  {
  }

  /** remove_player_from_game on a consistent registry deletes exactly the
      first (and only) member with the name, keeps the others in order, and
      drops the game exactly when that member was its last. */
  lemma RemovePlayerUnique(t: Table, code: string, name: string)
    requires Consistent(t) && code in t && name in Names(t[code].members)
    ensures var r := RemovePlayer(t, code, name); var g := t[code];
            var k := FirstIndexNamed(g.members, name);
            && r.Ok? && k.Some?
            && (code in r.value <==> |g.members| > 1)
            && (code in r.value ==> r.value[code].members == g.members[..k.value] + g.members[k.value + 1..])
  {
    var g := t[code];
    InNamesIff(g.members, name);
    var k := FirstIndexNamed(g.members, name).value;
    DeleteUnique(g.members, name, k);
  }

  /** remove_player_from_game keeps the registry consistent. */
  lemma RemovePlayerKeepsConsistent(t: Table, code: string, name: string)
    requires Consistent(t)
    ensures RemovePlayer(t, code, name).Ok? ==> Consistent(RemovePlayer(t, code, name).value)
  {
    if RemovePlayer(t, code, name).Ok? {
      RemovePlayerUnique(t, code, name);
      var g := t[code];
      var k := FirstIndexNamed(g.members, name).value;
      UniqueNamesDelete(g.members, k);
    }
  }

  /** update_player_info keeps the registry consistent: names do not change. */
  lemma UpdatePlayerKeepsConsistent(t: Table, code: string, name: string, ready: bool, vote: JsonValue)
    requires Consistent(t)
    ensures UpdatePlayer(t, code, name, ready, vote).Ok? ==> Consistent(UpdatePlayer(t, code, name, ready, vote).value)
  {
    var r := UpdatePlayer(t, code, name, ready, vote);
    if r.Ok? {
      var s := t[code].members;
      var s' := r.value[code].members;
      assert forall j :: 0 <= j < |s| ==> s'[j].name == s[j].name;
    }
  }

  /** Without any check on names the counter never falls below the member
      count: each removal deletes at least one entry and takes one off the counter. */
  lemma RemovePlayerKeepsCounterBound(t: Table, code: string, name: string)
    requires CounterCoversMembers(t)
    ensures RemovePlayer(t, code, name).Ok? ==> CounterCoversMembers(RemovePlayer(t, code, name).value)
  {
    if RemovePlayer(t, code, name).Ok? {
      var s := t[code].members;
      InNamesIff(s, name);
      var k :| 0 <= k < |s| && s[k].name == name;
      DeleteShrinks(s, name, 0, k);
    }
  }

  // Operations in combination

  /** The member list after a join followed by the deletion loop for the
      joined name is the list before the join. */
  lemma JoinThenDeleteMembers(members: seq<Player>, p: Player)
    requires UniqueNames(members) && p.name !in Names(members)
    ensures p.name in Names(members + [p])
    ensures DeleteWhileEnumerating(members + [p], p.name, 0) == members
  {
    var s := members + [p];
    UniqueNamesAppend(members, p);
    assert Names(s)[|members|] == p.name;
    DeleteUnique(s, p.name, |members|);
    assert s[..|members|] + s[|members| + 1..] == members;
  }

  /** A player who joins and then leaves takes the game back to where it was,
      except that a game that had no members before the join is dropped. */
  lemma AddThenRemove(t: Table, code: string, p: Player)
    requires Consistent(t) && code in t && p.name !in Names(t[code].members)
    ensures AddPlayer(t, code, p).Ok?
    ensures RemovePlayer(AddPlayer(t, code, p).value, code, p.name)
            == Ok(if t[code].members == [] then t - {code} else t)
  {
    var g := t[code];
    JoinThenDeleteMembers(g.members, p);
    var added := AddPlayer(t, code, p).value;
    var r := RemovePlayer(added, code, p.name);
    if g.members == [] {
      assert r.value == t - {code};
    } else {
      assert r.value[code] == g;
      assert r.value == t;
    }
  }

  /** Once the last member leaves, the code is no longer a game, and a later
      message, removal or update on it raises KeyError. */
  lemma LastLeaveEndsGame(t: Table, code: string, p: Player, m: Message, name: string, ready: bool, vote: JsonValue)
    requires Consistent(t) && code in t && t[code].members == [p]
    ensures var r := RemovePlayer(t, code, p.name);
            && r.Ok? && code !in r.value
            && AddMessage(r.value, code, m) == Err(MissingGame(code))
            && RemovePlayer(r.value, code, name) == Err(MissingGame(code))
            && UpdatePlayer(r.value, code, name, ready, vote) == Err(MissingGame(code))
  {
    assert Names(t[code].members)[0] == p.name;
  }

  // Sequences of registry calls

  /** One call the routes and event handlers make into the registry. Create
      carries the code the generator picked; the generator never returns a live
      code (GameManager.CreateNewGame), so a Create of a live code leaves the
      table alone. */
  datatype Call =
    | Create(code: string)
    | Join(code: string, player: Player)
    | Post(code: string, msg: Message)
    | Leave(code: string, name: string)
    | Update(code: string, name: string, ready: bool, vote: JsonValue)

  /** The table after a call; a call that raises KeyError changes nothing. */
  function Apply(t: Table, call: Call): Table {
    match call
    case Create(code) => if code in t then t else t[code := NewGame(code)]
    case Join(code, p) => var r := AddPlayer(t, code, p); if r.Ok? then r.value else t
    case Post(code, m) => var r := AddMessage(t, code, m); if r.Ok? then r.value else t
    case Leave(code, name) => var r := RemovePlayer(t, code, name); if r.Ok? then r.value else t
    case Update(code, name, ready, vote) =>
      var r := UpdatePlayer(t, code, name, ready, vote); if r.Ok? then r.value else t
  }

  function Run(t: Table, calls: seq<Call>): Table
    decreases |calls|
  {
    if calls == [] then t else Run(Apply(t, calls[0]), calls[1..])
  }

  /** Every join in the sequence uses a name that no member of the target game
      has at that moment. The callers do not guarantee this (see README). */
  predicate NamesChecked(t: Table, calls: seq<Call>)
    decreases |calls|
  {
    calls == [] ||
    ((calls[0].Join? && calls[0].code in t ==> calls[0].player.name !in Names(t[calls[0].code].members))
     && NamesChecked(Apply(t, calls[0]), calls[1..]))
  }

  /** The game under `code` is live before and after every call of the sequence. */
  predicate StaysLive(t: Table, calls: seq<Call>, code: string)
    decreases |calls|
  {
    code in t && (calls == [] || StaysLive(Apply(t, calls[0]), calls[1..], code))
  }

  /** The messages the sequence posts to `code`, in call order. */
  function PostedTo(calls: seq<Call>, code: string): seq<Message>
    decreases |calls|
  {
    if calls == [] then []
    else (if calls[0].Post? && calls[0].code == code then [calls[0].msg] else []) + PostedTo(calls[1..], code)
  }

  lemma ApplyKeepsConsistent(t: Table, call: Call)
    requires Consistent(t)
    requires call.Join? && call.code in t ==> call.player.name !in Names(t[call.code].members)
    ensures Consistent(Apply(t, call))
  {
    match call
    case Create(code) =>
      if code !in t { CreateKeepsConsistent(t, code); }
    case Join(code, p) =>
      if code in t { AddPlayerKeepsConsistent(t, code, p); }
    case Post(code, m) => AddMessageKeepsConsistent(t, code, m);
    case Leave(code, name) => RemovePlayerKeepsConsistent(t, code, name);
    case Update(code, name, ready, vote) => UpdatePlayerKeepsConsistent(t, code, name, ready, vote);
  }

  /** As long as joins use names new to their game, every game's counter equals
      its member count and names stay unique after any sequence of calls. */
  lemma {:induction false} RunKeepsConsistent(t: Table, calls: seq<Call>)
    requires Consistent(t) && NamesChecked(t, calls)
    ensures Consistent(Run(t, calls))
    decreases |calls|
  {
    if calls != [] {
      ApplyKeepsConsistent(t, calls[0]);
      RunKeepsConsistent(Apply(t, calls[0]), calls[1..]);
    }
  }

  lemma ApplyKeepsCounterBound(t: Table, call: Call)
    requires CounterCoversMembers(t)
    ensures CounterCoversMembers(Apply(t, call))
  {
    if call.Leave? {
      RemovePlayerKeepsCounterBound(t, call.code, call.name);
    }
  }

  /** Whatever names join, no counter ever drops below its game's member count. */
  lemma {:induction false} RunKeepsCounterBound(t: Table, calls: seq<Call>)
    requires CounterCoversMembers(t)
    ensures CounterCoversMembers(Run(t, calls))
    decreases |calls|
  {
    if calls != [] {
      ApplyKeepsCounterBound(t, calls[0]);
      RunKeepsCounterBound(Apply(t, calls[0]), calls[1..]);
    }
  }

  lemma ApplyMessages(t: Table, call: Call, code: string)
    requires code in t && code in Apply(t, call)
    ensures Apply(t, call)[code].messages
            == t[code].messages + (if call.Post? && call.code == code then [call.msg] else [])
  {
  }

  /** A game's message log only grows at its end: while the game stays live,
      its log is the old log followed by the messages posted to it, in order. */
  lemma {:induction false} RunAppendsMessages(t: Table, calls: seq<Call>, code: string)
    requires StaysLive(t, calls, code)
    ensures code in Run(t, calls)
    ensures Run(t, calls)[code].messages == t[code].messages + PostedTo(calls, code)
    decreases |calls|
  {
    if calls != [] {
      var t' := Apply(t, calls[0]);
      ApplyMessages(t, calls[0], code);
      RunAppendsMessages(t', calls[1..], code);
    }
  }
}
