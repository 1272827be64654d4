# quick-donkey game registry in Dafny

This project models the room registry of quick-donkey, a scrum-poker chat
server. A `GameManager` keeps a dictionary from a short upper-case game code to
a `Game`. Each `Game` has a member counter, an ordered list of players (name,
ready flag, vote) and an ordered chat log. The Flask routes and the Socket.IO
event handlers call the registry to:

- create a game under a fresh random code;
- list codes and validate them;
- add and remove players;
- append chat messages;
- set a player's ready flag and vote;
- serialise players and messages to JSON.

The model has six files:

- `outcomes.dfy`: `Option`, `Result`, and the `KeyError` the registry raises, either for an unknown code or for a name no member has.
- `entities.dfy`: players and messages as values. `to_json` becomes a map from field name to JSON value, and reading it back proves the map loses nothing.
- `game.dfy`: `Game` as a class whose fields are updated in place. Its value at one moment is a `GameState`. The JSON conversions and `get_player_by_name` are loops proved against their specifications.
- `registry.dfy`: the registry as a value (`Table`, a map from code to `GameState`). It has one pure function per mutating operation, with a `Result` for the `KeyError` paths. `DeleteWhileEnumerating` is the removal loop exactly as Python runs it. The loop deletes from the list it is enumerating, so the entry that slides into a deleted slot is skipped.
- `registry_properties.dfy`: what the operations guarantee, alone and in sequences of calls:
  - the registry invariant `Consistent`: every game is filed under its own code, its counter equals its member count, and names are unique;
  - the unconditional bound: a counter is never below its game's member count;
  - the message log only grows at its end;
  - a join with a name new to a game followed by a leave gives back the registry it started from when the game already had members; a game that was empty before the join is dropped instead;
  - once the last player leaves, the code is gone;
  - a concrete input with a repeated name on which removal deletes two entries but lowers the counter by one.
- `game_manager.dfy`: `GameManager` as a class over `map<string, Game>`. Each method is proved to act on `Abstract()` exactly as the matching function of `Registry` says. Each method also keeps `Consistent` wherever the operation does.

What the callers do and do not guarantee:

- The registry never checks that names are unique. `add_player_to_game` appends whatever player it is given.
- The join form rejects a name that is already taken (`pokerer/__init__.py:86-89`). This does not ensure unique names, for two reasons:
  - it compares the trimmed name with the stored names, but stores the name untrimmed (`pokerer/__init__.py:93`, `:135`), so a second "Bob " passes the check while "Bob " is in the game;
  - it runs when the form is submitted. The connect handler adds the player with no check (`pokerer/__init__.py:136`), so two connections from one session add the same name twice.
- So nothing in the source guarantees the assumption behind `AddPlayerKeepsConsistent` and `NamesChecked`: that each join uses a name new to its game. `RunKeepsConsistent` holds only for call sequences that satisfy it.
- With any names at all:
  - no counter falls below its game's member count (`RunKeepsCounterBound`);
  - a repeated name makes removal delete two entries but lower the counter by one (`RepeatedNamesBreakTheCounter`). After that the counter no longer matches the member list.
- With unique names, `remove_player_from_game` deletes exactly the one member with the name (`RemovePlayerUnique`).

## Model

| member | source | states |
|---|---|---|
| Entities.Player.ToJson | pokerer/game.py:33 | a player's JSON object has exactly the fields name, ready and vote |
| Entities.Message.ToJson | pokerer/game.py:40 | a message's JSON object has exactly the fields name, message and date |
| Entities.NewPlayer | pokerer/__init__.py:135 | a player created on connect carries the name, is not ready and has no vote |
| Entities.PlayerJsonRoundTrip | pokerer/game.py:30-35 | the player can be read back unchanged from the JSON object sent to clients |
| Entities.MessageJsonRoundTrip | pokerer/game.py:37-42 | the message can be read back unchanged from its JSON object |
| Entities.PlayerToJsonInjective | pokerer/game.py:30-35 | two players with the same JSON object are the same player |
| Entities.MessageToJsonInjective | pokerer/game.py:37-42 | two messages with the same JSON object are the same message |
| Games.Game.constructor | pokerer/game.py:23-28 | a new game has its code, a zero counter, no members and no messages |
| Games.Game.ConvertPlayersListToJson | pokerer/game.py:30-35 | one JSON object per member, in member order, each the member's to_json |
| Games.Game.ConvertMessagesListToJson | pokerer/game.py:37-42 | one JSON object per message, in log order, each the message's to_json |
| Games.FirstIndexNamed | pokerer/game.py:44-47 | the index of the first member with the name: in range, named so, and no earlier member has the name; None exactly when no member has it |
| Games.Game.GetPlayerByName | pokerer/game.py:44-47 | the scan returns the first member with the name, or None when there is none |
| Games.InNamesIff | pokerer/game_manager.py:45-46 | a name is in the list of member names exactly when some member has that name |
| Registry.AddMessage | pokerer/game_manager.py:68-69 | KeyError exactly when the code is not live |
| Registry.AddMessageAppends | pokerer/game_manager.py:68-69 | on a live code the message becomes the last log entry; codes, members, counter and other games are unchanged |
| Registry.AddPlayer | pokerer/game_manager.py:71-73 | KeyError exactly when the code is not live |
| Registry.AddPlayerAppends | pokerer/game_manager.py:71-73 | on a live code the player becomes the last member and the counter rises by one; the log and other games are unchanged |
| Registry.RemovePlayer | pokerer/game_manager.py:75-85 | KeyError exactly when the code is not live or no member has the name; for an unknown code it is the missing-game error |
| Registry.RemovePlayerEffect | pokerer/game_manager.py:79-85 | the game survives exactly when its decremented counter is positive; it then holds what the deletion loop left; other games survive unchanged and no code is added |
| Registry.UpdatePlayer | pokerer/game_manager.py:87-93 | KeyError exactly when the code is not live or no member has the name |
| Registry.UpdatePlayerEffect | pokerer/game_manager.py:91-93 | the first member with the name gets the new ready flag and vote; the order, the other members, the counter, the log and the other games are unchanged |
| Registry.DeleteWhileEnumerating | pokerer/game_manager.py:79-81 | the removal loop as Python's list iterator runs it: the entry that slides into a deleted slot is skipped; never longer than its input |
| RegistryProperties.DeleteNoMatch | pokerer/game_manager.py:79-81 | once no remaining member has the name, the deletion loop changes nothing |
| RegistryProperties.DeleteUnique | pokerer/game_manager.py:79-81 | with unique names the loop deletes exactly the member with the name and keeps the others in order |
| RegistryProperties.DeleteShrinks | pokerer/game_manager.py:79-81 | whatever the names, the loop deletes at least one entry when some member has the name |
| RegistryProperties.RepeatedNamesBreakTheCounter | pokerer/game_manager.py:79-83 | on [Alice, Alice, Bob, Alice] with counter 4, removing Alice leaves [Alice, Bob] with counter 3, and the registry is no longer consistent |
| RegistryProperties.CreateKeepsConsistent | pokerer/game_manager.py:34-37 | filing a new empty game under a fresh code keeps the registry consistent |
| RegistryProperties.AddPlayerKeepsConsistent | pokerer/game_manager.py:71-73 | joining with a name new to the game keeps counters equal to member counts and names unique |
| RegistryProperties.AddMessageKeepsConsistent | pokerer/game_manager.py:68-69 | appending a message keeps the registry consistent |
| RegistryProperties.RemovePlayerUnique | pokerer/game_manager.py:75-85 | on a consistent registry removal deletes exactly the first member with the name, keeps the rest in order, and drops the game exactly when that member was its last |
| RegistryProperties.RemovePlayerKeepsConsistent | pokerer/game_manager.py:75-85 | removal keeps the registry consistent |
| RegistryProperties.UpdatePlayerKeepsConsistent | pokerer/game_manager.py:87-93 | an update keeps the registry consistent; names never change |
| RegistryProperties.RemovePlayerKeepsCounterBound | pokerer/game_manager.py:79-83 | even with repeated names, no counter falls below its game's member count after a removal |
| RegistryProperties.JoinThenDeleteMembers | pokerer/game_manager.py:79-81 | after a join with a fresh name, the deletion loop for that name gives back the member list from before the join |
| RegistryProperties.AddThenRemove | pokerer/game_manager.py:71-85 | join then leave with a fresh name restores the registry; a game that was empty before the join is dropped instead |
| RegistryProperties.LastLeaveEndsGame | pokerer/game_manager.py:84-85 | after the last member leaves, the code is gone; a later message, removal or update on it raises the missing-game KeyError |
| RegistryProperties.ApplyKeepsConsistent | pokerer/game_manager.py:34-93 | any single registry call keeps the registry consistent, given a join uses a name new to its game |
| RegistryProperties.RunKeepsConsistent | pokerer/game_manager.py:68-93 | every sequence of calls whose joins use a name new to their game keeps the registry consistent |
| RegistryProperties.ApplyKeepsCounterBound | pokerer/game_manager.py:68-93 | any single call keeps every counter at or above its member count |
| RegistryProperties.RunKeepsCounterBound | pokerer/game_manager.py:68-93 | every sequence of calls, with any names, keeps every counter at or above its member count |
| RegistryProperties.ApplyMessages | pokerer/game_manager.py:68-69 | a call changes a live game's log only by appending the message posted to that game |
| RegistryProperties.RunAppendsMessages | pokerer/game_manager.py:68-69 | while a game stays live, its log is the old log followed by the messages posted to it, in call order |
| Managers.GameManager.constructor | pokerer/game_manager.py:30-32 | a new registry is empty and keeps the given code length, 4 when none is given |
| Managers.GameManager.CreateNewGame | pokerer/game_manager.py:34-37 | returns a code of the configured length made of A-Z that was not live; a new empty game object is filed under it; every other code keeps its game object and value; consistency is kept |
| Managers.GameManager.GenerateUniqueCode | pokerer/game_manager.py:96-105 | builds each attempt letter by letter; returns the first attempt that is not a live code, and every earlier attempt was live |
| Managers.GameManager.DeleteGame | pokerer/game_manager.py:39-40 | the registry is unchanged |
| Managers.GameManager.GetListOfGameCodes | pokerer/game_manager.py:42-43 | the list holds every live code and only those, each once |
| Managers.GameManager.ValidGame | pokerer/game_manager.py:51-52 | true exactly when the code is live |
| Managers.GameManager.GetListOfPlayerNamesInGame | pokerer/game_manager.py:45-46 | KeyError for an unknown code; otherwise the members' names in member order |
| Managers.GameManager.GetListOfPlayersInGame | pokerer/game_manager.py:48-49 | KeyError for an unknown code; otherwise the members in member order |
| Managers.GameManager.ConvertGameMessagesToJson | pokerer/game_manager.py:54-59 | KeyError for an unknown code; otherwise the log's JSON objects in order |
| Managers.GameManager.ConvertGamePlayersListToJson | pokerer/game_manager.py:61-66 | KeyError for an unknown code; otherwise the members' JSON objects in order |
| Managers.GameManager.AddMessageToGame | pokerer/game_manager.py:68-69 | raises exactly as AddMessage does; the registry's new value is AddMessage's result; consistency is kept |
| Managers.GameManager.AddPlayerToGame | pokerer/game_manager.py:71-73 | raises exactly as AddPlayer does; the new value is AddPlayer's result; consistency is kept when the name is new to the game |
| Managers.GameManager.RemovePlayerFromGame | pokerer/game_manager.py:75-85 | raises exactly as RemovePlayer does; the new value is RemovePlayer's result; no code is added and every surviving code keeps its game object; consistency is kept |
| Managers.GameManager.RemoveNamedMember | pokerer/game_manager.py:79-85 | past the name check, runs the loop, decrement and deletion, leaving RemovePlayer's result; surviving codes keep their game objects |
| Managers.GameManager.DeleteWhileEnumeratingInPlace | pokerer/game_manager.py:79-81 | the in-place loop leaves exactly DeleteWhileEnumerating of the old member list |
| Managers.GameManager.UpdatePlayerInfo | pokerer/game_manager.py:87-93 | raises exactly as UpdatePlayer does; the new value is UpdatePlayer's result; codes unchanged; consistency is kept |
| Managers.GameManager.UpdateNamedMember | pokerer/game_manager.py:91-93 | past the name check, sets the flag and vote of the member get_player_by_name finds, leaving UpdatePlayer's result |

## Left out

- The Flask routes, the join form and the Socket.IO handlers in `pokerer/__init__.py` are left out. They are callers of the registry, and broadcasting is I/O. Call sequences (`RegistryProperties.Run`) stand for the handlers' registry calls.
- `pokerer/player.py` and `pokerer/message.py` are not part of this model. Players and messages are records whose `to_json` gives the fields that clients receive.
- The message date comes from the clock and is formatted as text. Here it is a plain string field.
- A vote is any JSON value the client sends. The model allows null, booleans, integers and strings, but not floats, lists or objects.
- Player objects are shared between the member list, `get_list_of_players_in_game` and `get_player_by_name`. The model keeps players as values: `get_player_by_name` returns the member's index, and the update replaces the member record.
- Managers.GameManager.UpdateNamedMember: the two field assignments to the shared Player object are one record replacement in the member list.
- Managers.GameManager.CreateNewGame: `random.choice` is replaced by the caller-supplied `picks`, one code per attempt. The method requires that some attempt is not live. Without that, the source's retry loop never ends, for example when all 26^n codes are live.
- Managers.GameManager.GenerateUniqueCode: takes the same `picks` and has the same requirement as `CreateNewGame`.
- Managers.GameManager.GetListOfGameCodes: Python returns the codes in dictionary insertion order. The model promises each live code exactly once, in an unspecified order.
- Managers.GameManager.constructor: `len_of_codes` is a natural number. A negative length in Python gives the empty code, which the model does not take.
- Managers.GameManager.AddPlayerToGame: keeps `Consistent` only when the joining name is new to the game. Neither the registry nor its callers guarantee this (see above); `RunKeepsCounterBound` and `RepeatedNamesBreakTheCounter` state what holds without it.
- KeyError texts are not modelled. Only which key was missing is modelled.
- Concurrent handlers and locking are left out. Each registry call is one atomic step.
- Dictionary key order inside a JSON object is not modelled.
