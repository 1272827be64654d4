/** The registry class of pokerer/game_manager.py: a dictionary from game code
    to Game object, mutated in place. Every method is proved to act on the
    registry's value (Abstract) exactly as the functions of module Registry say. */
module Managers {
  import opened Outcomes
  import opened Entities
  import opened Games
  import opened Registry
  import opened RegistryProperties

  /** No two entries of the sequence are equal. */
  predicate NoDuplicates(s: seq<string>) {
    forall i, j :: 0 <= i < j < |s| ==> s[i] != s[j]
  }

  class GameManager {
    var games: map<string, Game>
    const lenOfCodes: nat

    /** Each code maps to a Game object created under that code, so no two
        codes share a Game object. */
    ghost predicate Valid()
      reads this
    {
      forall c :: c in games ==> games[c].code == c
    }

    /** The registry's current value: each live code with its game's state. */
    ghost function Abstract(): Table
      reads this, games.Values
    {
      map c | c in games :: games[c].State()
    }

    /** An empty registry whose codes have the given length, DefaultCodeLength
        unless told otherwise. */
    constructor (lenOfCodes: nat := DefaultCodeLength)
      ensures Valid() && games == map[] && Abstract() == map[] && this.lenOfCodes == lenOfCodes
    {
      games := map[];
      this.lenOfCodes := lenOfCodes;
    }

    /** create_new_game: draws a fresh code, files an empty game under it and
        returns it. `picks` stands for the letters random.choice returns, one
        entry per attempt; some attempt must be fresh for the source's retry
        loop to stop. */
    method CreateNewGame(picks: seq<seq<char>>) returns (code: string)
      requires Valid()
      requires forall k :: 0 <= k < |picks| ==> IsCode(picks[k], lenOfCodes)
      requires exists k :: 0 <= k < |picks| && picks[k] !in games
      modifies this
      ensures Valid()
      ensures IsCode(code, lenOfCodes) && code !in old(games)
      ensures Abstract() == old(Abstract())[code := NewGame(code)]
      ensures code in games && fresh(games[code])
      ensures games == old(games)[code := games[code]]
      ensures old(Consistent(Abstract())) ==> Consistent(Abstract())
    {
      ghost var before := Abstract();
      ghost var attempt;
      code, attempt := GenerateUniqueCode(lenOfCodes, picks);
      var g := new Game(code);
      games := games[code := g];
      assert Abstract() == before[code := NewGame(code)];
      if Consistent(before) {
        CreateKeepsConsistent(before, code);
      }
    }

    /** delete_game: does nothing. */
    method DeleteGame(code: string)
      requires Valid()
      ensures Valid() && Abstract() == old(Abstract())
    {
    }

    /** get_list_of_game_codes: every live code, once each. */
    method GetListOfGameCodes() returns (codes: seq<string>)
      ensures forall c :: c in codes <==> c in games
      ensures NoDuplicates(codes)
    {
      codes := [];
      var rest := games.Keys;
      while rest != {}
        invariant rest <= games.Keys
        invariant forall c :: c in codes ==> c in games && c !in rest
        invariant forall c :: c in games ==> c in codes || c in rest
        invariant NoDuplicates(codes)
        decreases rest
      {
        var c :| c in rest;
        codes := codes + [c];
        rest := rest - {c};
      }
    }

    /** valid_game: whether the code names a live game. */
    method ValidGame(code: string) returns (b: bool)
      ensures b <==> code in games
    {
      var codes := GetListOfGameCodes();
      b := code in codes;
    }

    /** get_list_of_player_names_in_game: the members' names in member order;
        KeyError for an unknown code. */
    method GetListOfPlayerNamesInGame(code: string) returns (r: Result<seq<string>>)
      ensures code !in games ==> r == Err(MissingGame(code))
      ensures code in games ==> r.Ok? && |r.value| == |games[code].members|
                                && forall i :: 0 <= i < |r.value| ==> r.value[i] == games[code].members[i].name
    {
      if code !in games {
        return Err(MissingGame(code));
      }
      r := Ok(Names(games[code].members));
    }

    /** get_list_of_players_in_game: the members in member order; KeyError
        for an unknown code. */
    method GetListOfPlayersInGame(code: string) returns (r: Result<seq<Player>>)
      ensures code !in games ==> r == Err(MissingGame(code))
      ensures code in games ==> r.Ok? && |r.value| == |games[code].members|
                                && forall i :: 0 <= i < |r.value| ==> r.value[i] == games[code].members[i]
    {
      if code !in games {
        return Err(MissingGame(code));
      }
      var members := games[code].members;
      r := Ok(seq(|members|, i requires 0 <= i < |members| => members[i]));
    }

    /** convert_game_messages_to_json: the game's log as JSON objects, oldest
        first; KeyError for an unknown code. */
    method ConvertGameMessagesToJson(code: string) returns (r: Result<seq<JsonObject>>)
      ensures code !in games ==> r == Err(MissingGame(code))
      ensures code in games ==> r.Ok? && |r.value| == |games[code].messages|
                                && forall i :: 0 <= i < |r.value| ==> r.value[i] == games[code].messages[i].ToJson()
    {
      if code !in games {
        return Err(MissingGame(code));
      }
      var json := games[code].ConvertMessagesListToJson();
      r := Ok(json);
    }

    /** convert_game_players_list_to_json: the game's members as JSON objects,
        in member order; KeyError for an unknown code. */
    method ConvertGamePlayersListToJson(code: string) returns (r: Result<seq<JsonObject>>)
      ensures code !in games ==> r == Err(MissingGame(code))
      ensures code in games ==> r.Ok? && |r.value| == |games[code].members|
                                && forall i :: 0 <= i < |r.value| ==> r.value[i] == games[code].members[i].ToJson()
    {
      if code !in games {
        return Err(MissingGame(code));
      }
      var json := games[code].ConvertPlayersListToJson();
      r := Ok(json);
    }

    /** add_message_to_game: appends the message to the game's log. */
    method AddMessageToGame(code: string, msg: Message) returns (outcome: Outcome)
      requires Valid()
      modifies games.Values
      ensures Valid() && games == old(games)
      ensures var r := AddMessage(old(Abstract()), code, msg);
              outcome == OutcomeOf(r) && Abstract() == (if r.Ok? then r.value else old(Abstract()))
      ensures old(Consistent(Abstract())) ==> Consistent(Abstract())
    {
      ghost var before := Abstract();
      if code !in games {
        return Raised(MissingGame(code));
      }
      var g := games[code];
      g.messages := g.messages + [msg];
      outcome := Done;
      assert forall c :: c in games && c != code ==> games[c].State() == before[c];
      assert Abstract() == AddMessage(before, code, msg).value;
      if Consistent(before) {
        AddMessageKeepsConsistent(before, code, msg);
      }
    }

    /** add_player_to_game: appends the player to the game's members and
        counts it. The registry stays consistent when the name is new to the
        game; the callers do not guarantee this (see README). */
    method AddPlayerToGame(code: string, player: Player) returns (outcome: Outcome)
      requires Valid()
      modifies games.Values
      ensures Valid() && games == old(games)
      ensures var r := AddPlayer(old(Abstract()), code, player);
              outcome == OutcomeOf(r) && Abstract() == (if r.Ok? then r.value else old(Abstract()))
      ensures old(Consistent(Abstract())) && (code in old(games) ==> player.name !in Names(old(games[code].members)))
              ==> Consistent(Abstract())
    {
      ghost var before := Abstract();
      if code !in games {
        return Raised(MissingGame(code));
      }
      var g := games[code];
      g.members := g.members + [player];
      g.numMembers := g.numMembers + 1;
      outcome := Done;
      assert forall c :: c in games && c != code ==> games[c].State() == before[c];
      assert Abstract() == AddPlayer(before, code, player).value;
      if Consistent(before) && player.name !in Names(before[code].members) {
        AddPlayerKeepsConsistent(before, code, player);
      }
    }

    /** remove_player_from_game as written: KeyError unless some member has the
        name; then the loop deletes matching members while enumerating the list,
        the counter drops by one, and the game is dropped once the counter is
        at most 0. */
    method RemovePlayerFromGame(code: string, name: string) returns (outcome: Outcome)
      requires Valid()
      modifies this, games.Values
      ensures Valid() && games.Keys <= old(games.Keys)
      ensures forall c :: c in games ==> games[c] == old(games[c])
      ensures var r := RemovePlayer(old(Abstract()), code, name);
              outcome == OutcomeOf(r) && Abstract() == (if r.Ok? then r.value else old(Abstract()))
      ensures old(Consistent(Abstract())) ==> Consistent(Abstract())
    {
      var names := GetListOfPlayerNamesInGame(code);
      if names.Err? {
        return Raised(names.error);
      }
      if name !in names.value {
        assert names.value == Names(old(Abstract())[code].members);
        return Raised(MissingPlayer(code, name));
      }
      assert names.value == Names(old(Abstract())[code].members);
      RemoveNamedMember(code, name);
      outcome := Done;
      if old(Consistent(Abstract())) {
        RemovePlayerKeepsConsistent(old(Abstract()), code, name);
      }
    }

    /** remove_player_from_game past its KeyError check: the loop deletes the
        members with the name, the counter drops by one, and the game is
        dropped once the counter is at most 0. */
    method RemoveNamedMember(code: string, name: string)
      requires Valid() && code in games && name in Names(games[code].members)
      modifies this, games.Values
      ensures Valid() && games.Keys <= old(games.Keys)
      ensures forall c :: c in games ==> games[c] == old(games[c])
      ensures Abstract() == RemovePlayer(old(Abstract()), code, name).value
    {
      var g: Game := games[code];
      DeleteWhileEnumeratingInPlace(g, name);
      g.numMembers := g.numMembers - 1;
      RemovePlayerOk(old(Abstract()), code, name, g.State());
      if g.numMembers <= 0 {
        games := games - {code};
      }
    }

    /** The loop of remove_player_from_game: walks the member list by index and
        deletes each member with the name on the spot, so the member that slides
        into a deleted slot is never looked at. */
    static method DeleteWhileEnumeratingInPlace(g: Game, name: string)
      modifies g`members
      ensures g.members == DeleteWhileEnumerating(old(g.members), name, 0)
    {
      var idx := 0;
      while idx < |g.members|
        invariant idx <= |g.members| + 1
        invariant DeleteWhileEnumerating(g.members, name, idx) == DeleteWhileEnumerating(old(g.members), name, 0)
        decreases |g.members| - idx
      {
        if name == g.members[idx].name {
          g.members := g.members[..idx] + g.members[idx + 1..];
        }
        idx := idx + 1;
      }
    }

    /** update_player_info: KeyError unless some member has the name; then the
        first such member gets the new ready flag and vote. */
    method UpdatePlayerInfo(code: string, name: string, readyStatus: bool, vote: JsonValue) returns (outcome: Outcome)
      requires Valid()
      modifies games.Values
      ensures Valid() && games == old(games)
      ensures var r := UpdatePlayer(old(Abstract()), code, name, readyStatus, vote);
              outcome == OutcomeOf(r) && Abstract() == (if r.Ok? then r.value else old(Abstract()))
      ensures old(Consistent(Abstract())) ==> Consistent(Abstract())
    {
      var names := GetListOfPlayerNamesInGame(code);
      if names.Err? {
        return Raised(names.error);
      }
      if name !in names.value {
        assert names.value == Names(old(Abstract())[code].members);
        return Raised(MissingPlayer(code, name));
      }
      assert names.value == Names(old(Abstract())[code].members);
      UpdateNamedMember(code, name, readyStatus, vote);
      outcome := Done;
      if old(Consistent(Abstract())) {
        UpdatePlayerKeepsConsistent(old(Abstract()), code, name, readyStatus, vote);
      }
    }

    /** update_player_info past its KeyError check: the first member with the
        name gets the new ready flag and vote. */
    method UpdateNamedMember(code: string, name: string, readyStatus: bool, vote: JsonValue)
      requires Valid() && code in games && name in Names(games[code].members)
      modifies games.Values
      ensures Valid() && games == old(games)
      ensures Abstract() == UpdatePlayer(old(Abstract()), code, name, readyStatus, vote).value
    {
      var g: Game := games[code];
      InNamesIff(g.members, name);
      var found := g.GetPlayerByName(name);
      var i := found.value;
      g.members := g.members[i := g.members[i].(ready := readyStatus, vote := vote)];
      UpdatePlayerOk(old(Abstract()), code, name, readyStatus, vote, i, g.State());
    }

    /** __generate_unique_code: tries attempt after attempt, building each code
        letter by letter, and returns the first code that is not live. */
    method GenerateUniqueCode(length: nat, picks: seq<seq<char>>) returns (code: string, ghost attempt: nat)
      requires forall k :: 0 <= k < |picks| ==> IsCode(picks[k], length)
      requires exists k :: 0 <= k < |picks| && picks[k] !in games
      ensures IsCode(code, length) && code !in games
      ensures attempt < |picks| && code == picks[attempt]
      ensures forall j :: 0 <= j < attempt ==> picks[j] in games
    {
      ghost var freshAt :| 0 <= freshAt < |picks| && picks[freshAt] !in games;
      var tries := 0;
      while true
        invariant tries <= freshAt
        invariant forall j :: 0 <= j < tries ==> picks[j] in games
        decreases freshAt - tries
      {
        code := "";
        for j := 0 to length
          invariant code == picks[tries][..j]
        {
          code := code + [picks[tries][j]];
        }
        assert code == picks[tries];
        var codes := GetListOfGameCodes();
        if code !in codes {
          break;
        }
        tries := tries + 1;
      }
      attempt := tries;
    }
  }
}
