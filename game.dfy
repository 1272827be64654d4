/** The game record of pokerer/game.py: a code, a member counter, the ordered
    member list and the ordered message log, updated in place by the registry. */
module Games {
  import opened Outcomes
  import opened Entities

  /** The value of a game at one moment: what the registry's contracts talk about. */
  datatype GameState = GameState(code: string, numMembers: int, members: seq<Player>, messages: seq<Message>)

  /** The names of the members, in member order. */
  function Names(members: seq<Player>): (r: seq<string>)
    ensures |r| == |members|
  {
    seq(|members|, i requires 0 <= i < |members| => members[i].name)
  }

  /** No two members share a name. */
  predicate UniqueNames(members: seq<Player>) {
    forall i, j :: 0 <= i < j < |members| ==> members[i].name != members[j].name
  }

  /** `name in Names(members)` says that some member carries that name. */
  lemma InNamesIff(members: seq<Player>, name: string)
    ensures name in Names(members) <==> exists i :: 0 <= i < |members| && members[i].name == name
  {
    if name in Names(members) {
      var i :| 0 <= i < |members| && Names(members)[i] == name;
      assert members[i].name == name;
    }
    if exists i :: 0 <= i < |members| && members[i].name == name {
      var i :| 0 <= i < |members| && members[i].name == name;
      assert Names(members)[i] == name;
    }
  }

  /** The index of the first member with the given name, if there is one. */
  function FirstIndexNamed(members: seq<Player>, name: string): (r: Option<nat>)
    ensures r.Some? ==> r.value < |members| && members[r.value].name == name
                        && forall j :: 0 <= j < r.value ==> members[j].name != name
    ensures r.None? <==> forall j :: 0 <= j < |members| ==> members[j].name != name
  {
    if |members| == 0 then None
    else if members[0].name == name then Some(0)
    else match FirstIndexNamed(members[1..], name)
      case None => None
      case Some(k) => Some(k + 1)
  }

  class Game {
    const code: string
    var numMembers: int
    var members: seq<Player>
    var messages: seq<Message>

    /** The game's current value. */
    function State(): GameState
      reads this
    {
      GameState(code, numMembers, members, messages)
    }

    /** A new game has the given code, no members, a zero counter and no messages. */
    constructor (code: string)
      ensures State() == GameState(code, 0, [], [])
    {
      this.code := code;
      numMembers := 0;
      members := [];
      messages := [];
    }

    /** The members' JSON objects, in member order. */
    method ConvertPlayersListToJson() returns (r: seq<JsonObject>)
      ensures |r| == |members|
      ensures forall i :: 0 <= i < |members| ==> r[i] == members[i].ToJson()
    {
      r := [];
      for i := 0 to |members|
        invariant |r| == i
        invariant forall k :: 0 <= k < i ==> r[k] == members[k].ToJson()
      {
        r := r + [members[i].ToJson()];
      }
    }

    /** The messages' JSON objects, in the order they were appended. */
    method ConvertMessagesListToJson() returns (r: seq<JsonObject>)
      ensures |r| == |messages|
      ensures forall i :: 0 <= i < |messages| ==> r[i] == messages[i].ToJson()
    {
      r := [];
      for i := 0 to |messages|
        invariant |r| == i
        invariant forall k :: 0 <= k < i ==> r[k] == messages[k].ToJson()
      {
        r := r + [messages[i].ToJson()];
      }
    }

    /** The member the source hands back, given as its index in `members`
        (the source returns a reference to that list entry); None when no
        member has the name. */
    method GetPlayerByName(name: string) returns (r: Option<nat>)
      ensures r == FirstIndexNamed(members, name)
    {
      for i := 0 to |members|
        invariant forall k :: 0 <= k < i ==> members[k].name != name
      {
        if name == members[i].name {
          return Some(i);
        }
      }
      return None;
    }
  }
}
