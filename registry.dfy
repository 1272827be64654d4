/** The registry of pokerer/game_manager.py as a value: the map from game code
    to game state, and what each registry operation does to it. The class in
    game_manager.dfy is proved to act on its games exactly as these functions say. */
module Registry {
  import opened Outcomes
  import opened Entities
  import opened Games

  /** The registry's `games` dictionary, game by game. */
  type Table = map<string, GameState>

  /** The code length the registry uses unless told otherwise. */
  const DefaultCodeLength: nat := 4

  /** A code of the given length made of the letters A to Z. */
  predicate IsCode(s: string, length: nat) {
    |s| == length && forall i :: 0 <= i < |s| ==> 'A' <= s[i] <= 'Z'
  }

  /** The game create_new_game stores under a fresh code. */
  function NewGame(code: string): GameState {
    GameState(code, 0, [], [])
  }

  /** The removal loop of remove_player_from_game as written: it enumerates the
      member list by index and deletes every entry with the name as it meets it.
      After a deletion the next entry slides into the current index, and the
      enumeration moves on past it, so that entry is never looked at. */
  function DeleteWhileEnumerating(members: seq<Player>, name: string, i: nat): (r: seq<Player>)
    ensures |r| <= |members|
    decreases |members| - i
  {
    if i >= |members| then members
    else if members[i].name == name then DeleteWhileEnumerating(members[..i] + members[i + 1..], name, i + 1)
    else DeleteWhileEnumerating(members, name, i + 1)
  }

  /** add_message_to_game: KeyError for an unknown code; otherwise the message
      becomes the last entry of that game's log and nothing else changes. */
  function AddMessage(t: Table, code: string, msg: Message): (r: Result<Table>)
    ensures r.Err? <==> code !in t
    ensures r.Err? ==> r.error == MissingGame(code)
  {
    if code !in t then Err(MissingGame(code))
    else Ok(t[code := t[code].(messages := t[code].messages + [msg])])
  }

  /** The effect of add_message_to_game on a live game. */
  lemma AddMessageAppends(t: Table, code: string, msg: Message)
    requires code in t
    ensures var r := AddMessage(t, code, msg);
            && r.Ok? && r.value.Keys == t.Keys
            && r.value[code] == t[code].(messages := t[code].messages + [msg])
            && forall c :: c in t && c != code ==> r.value[c] == t[c]
  {
  }

  /** add_player_to_game: KeyError for an unknown code; otherwise the player
      becomes the last member, the counter goes up by one, nothing else changes. */
  function AddPlayer(t: Table, code: string, p: Player): (r: Result<Table>)
    ensures r.Err? <==> code !in t
    ensures r.Err? ==> r.error == MissingGame(code)
  {
    if code !in t then Err(MissingGame(code))
    else
      var g := t[code];
      Ok(t[code := g.(members := g.members + [p], numMembers := g.numMembers + 1)])
  }

  /** The effect of add_player_to_game on a live game. */
  lemma AddPlayerAppends(t: Table, code: string, p: Player)
    requires code in t
    ensures var r := AddPlayer(t, code, p);
            && r.Ok? && r.value.Keys == t.Keys
            && r.value[code] == t[code].(members := t[code].members + [p],
                                         numMembers := t[code].numMembers + 1)
            && forall c :: c in t && c != code ==> r.value[c] == t[c]
  {
  }

  /** remove_player_from_game as written: KeyError for an unknown code or a
      name no member has; otherwise the deletion loop runs, the counter goes
      down by exactly one, and the game is dropped when the counter is at most 0. */
  function RemovePlayer(t: Table, code: string, name: string): (r: Result<Table>)
    ensures r.Err? <==> code !in t || name !in Names(t[code].members)
    ensures r.Err? ==> r.error == (if code !in t then MissingGame(code) else MissingPlayer(code, name))
  {
    if code !in t then Err(MissingGame(code))
    else if name !in Names(t[code].members) then Err(MissingPlayer(code, name))
    else
      var g := t[code];
      var g' := g.(members := DeleteWhileEnumerating(g.members, name, 0), numMembers := g.numMembers - 1);
      if g'.numMembers <= 0 then Ok(t - {code}) else Ok(t[code := g'])
  }

  /** The effect of remove_player_from_game when the name is present: the game
      survives exactly when its decremented counter is positive, and then holds
      what the deletion loop left; every other game is untouched. */
  lemma RemovePlayerEffect(t: Table, code: string, name: string)
    requires code in t && name in Names(t[code].members)
    ensures var r := RemovePlayer(t, code, name); var g := t[code];
            && r.Ok?
            && (code in r.value <==> g.numMembers - 1 > 0)
            && r.value.Keys <= t.Keys
            && (code in r.value ==> r.value[code] == g.(members := DeleteWhileEnumerating(g.members, name, 0),
                                                        numMembers := g.numMembers - 1))
            && forall c :: c in t && c != code ==> c in r.value && r.value[c] == t[c]
  {
  }

  /** RemovePlayer's value, given the game the deletion loop and the
      decrement produce. */
  lemma RemovePlayerOk(t: Table, code: string, name: string, g': GameState)
    requires code in t && name in Names(t[code].members)
    requires g' == t[code].(members := DeleteWhileEnumerating(t[code].members, name, 0),
                            numMembers := t[code].numMembers - 1)
    ensures RemovePlayer(t, code, name) == Ok(if g'.numMembers <= 0 then t - {code} else t[code := g'])
  {
  }

  /** update_player_info: KeyError for an unknown code or a name no member has;
      otherwise the first member with the name gets the new ready flag and vote. */
  function UpdatePlayer(t: Table, code: string, name: string, ready: bool, vote: JsonValue): (r: Result<Table>)
    ensures r.Err? <==> code !in t || name !in Names(t[code].members)
    ensures r.Err? ==> r.error == (if code !in t then MissingGame(code) else MissingPlayer(code, name))
  {
    if code !in t then Err(MissingGame(code))
    else if name !in Names(t[code].members) then Err(MissingPlayer(code, name))
    else
      var g := t[code];
      InNamesIff(g.members, name);
      var i := FirstIndexNamed(g.members, name).value;
      Ok(t[code := g.(members := g.members[i := g.members[i].(ready := ready, vote := vote)])])
  }

  /** The effect of update_player_info when the name is present: the first
      member with the name now carries the new ready flag and vote; member
      order, names, counter, log and every other game are untouched. */
  lemma UpdatePlayerEffect(t: Table, code: string, name: string, ready: bool, vote: JsonValue)
    requires code in t && name in Names(t[code].members)
    ensures var r := UpdatePlayer(t, code, name, ready, vote); var g := t[code];
            var i := FirstIndexNamed(g.members, name);
            && r.Ok? && i.Some?
            && r.value.Keys == t.Keys
            && r.value[code] == g.(members := g.members[i.value := Player(name, ready, vote)])
            && forall c :: c in t && c != code ==> r.value[c] == t[c]
  {
    InNamesIff(t[code].members, name);
  }

  /** UpdatePlayer's value, given the index of the first member with the name. */
  lemma UpdatePlayerOk(t: Table, code: string, name: string, ready: bool, vote: JsonValue, i: nat, g': GameState)
    requires code in t && FirstIndexNamed(t[code].members, name) == Some(i)
    requires g' == t[code].(members := t[code].members[i := t[code].members[i].(ready := ready, vote := vote)])
    ensures UpdatePlayer(t, code, name, ready, vote) == Ok(t[code := g'])
  {
    InNamesIff(t[code].members, name);
  }

  /** The registry invariant, kept as long as every join uses a name new to
      its game (the callers do not guarantee this; see README): each game is filed under its own code, its counter equals the number of
      its members, and no two of its members share a name. */
  predicate Consistent(t: Table) {
    forall c :: c in t ==> t[c].code == c && t[c].numMembers == |t[c].members| && UniqueNames(t[c].members)
  }

  /** The weaker invariant that holds whatever names join: no game's counter is
      below its number of members. */
  predicate CounterCoversMembers(t: Table) {
    forall c :: c in t ==> t[c].numMembers >= |t[c].members|
  }
}
