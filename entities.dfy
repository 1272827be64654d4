/** The two plain records stored in a game: players and chat messages, and
    their conversion to the JSON objects sent to clients. */
module Entities {
  import opened Outcomes

  /** A JSON value as the transport carries it. A player's vote is whatever
      value the client sent, so it is kept as a JSON value. */
  datatype JsonValue = JNull | JBool(b: bool) | JInt(i: int) | JString(s: string)

  /** A JSON object: field name to value. */
  type JsonObject = map<string, JsonValue>

  datatype Player = Player(name: string, ready: bool, vote: JsonValue) {
    /** Player.to_json: the object {name, ready, vote}. */
    function ToJson(): (o: JsonObject)
      ensures o.Keys == {"name", "ready", "vote"}
    {
      map["name" := JString(name), "ready" := JBool(ready), "vote" := vote]
    }
  }

  /** A new player: not ready and without a vote. */
  function NewPlayer(name: string): (p: Player)
    ensures p.name == name && !p.ready && p.vote == JNull
  {
    Player(name, false, JNull)
  }

  datatype Message = Message(name: string, body: string, date: string) {
    /** Message.to_json: the object {name, message, date}. */
    function ToJson(): (o: JsonObject)
      ensures o.Keys == {"name", "message", "date"}
    {
      map["name" := JString(name), "message" := JString(body), "date" := JString(date)]
    }
  }

  /** Reads a player back from its JSON object; None when a field is missing or
      has the wrong kind of value. */
  function PlayerFromJson(o: JsonObject): Option<Player> {
    if "name" in o && "ready" in o && "vote" in o && o["name"].JString? && o["ready"].JBool? then
      Some(Player(o["name"].s, o["ready"].b, o["vote"]))
    else
      None
  }

  /** Reads a message back from its JSON object. */
  function MessageFromJson(o: JsonObject): Option<Message> {
    if "name" in o && "message" in o && "date" in o
       && o["name"].JString? && o["message"].JString? && o["date"].JString? then
      Some(Message(o["name"].s, o["message"].s, o["date"].s))
    else
      None
  }

  /** Player.to_json loses nothing: the player can be read back from it. */
  lemma PlayerJsonRoundTrip(p: Player)
    ensures PlayerFromJson(p.ToJson()) == Some(p)
  {
  }

  /** Message.to_json loses nothing: the message can be read back from it. */
  lemma MessageJsonRoundTrip(m: Message)
    ensures MessageFromJson(m.ToJson()) == Some(m)
  {
  }

  /** Two players with the same JSON object are the same player. */
  lemma PlayerToJsonInjective(p: Player, q: Player)
    requires p.ToJson() == q.ToJson()
    ensures p == q
  {
    PlayerJsonRoundTrip(p);
    PlayerJsonRoundTrip(q);
  }

  /** Two messages with the same JSON object are the same message. */
  lemma MessageToJsonInjective(m: Message, n: Message)
    requires m.ToJson() == n.ToJson()
    ensures m == n
  {
    MessageJsonRoundTrip(m);
    MessageJsonRoundTrip(n);
  }
}
