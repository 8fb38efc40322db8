/** The static helpers every handler shares. */
module AbstractModule {
  import opened MucTypes
  import opened Rooms

  function SetIfPresent(attrs: map<string, string>, key: string, value: Option<string>): map<string, string>
  {
    if value.Some? then attrs[key := value.value] else attrs
  }

  /** `createResultIQ`: the empty result that answers an IQ, sent back from
      where the request was addressed to where it came from, with its id. */
  function CreateResultIQ(iq: Element): (r: Element)
    ensures r.name == "iq" && r.children == [] && Attr(r, "type") == Some("result")
    ensures Attr(r, "from") == Attr(iq, "to") && Attr(r, "to") == Attr(iq, "from")
    ensures Attr(r, "id") == Attr(iq, "id")
    ensures r.attrs.Keys <= {"type", "from", "to", "id"}
  {
    var attrs := SetIfPresent(SetIfPresent(SetIfPresent(map["type" := "result"], "from", Attr(iq, "to")),
                                           "to", Attr(iq, "from")), "id", Attr(iq, "id"));
    Element("iq", None, attrs, None, [])
  }

  /** Answering an answer addresses the original requester again. */
  lemma ResultOfResultReturnsToSender(iq: Element)
    ensures Attr(CreateResultIQ(CreateResultIQ(iq)), "to") == Attr(iq, "to")
    ensures Attr(CreateResultIQ(CreateResultIQ(iq)), "from") == Attr(iq, "from")
    ensures Attr(CreateResultIQ(CreateResultIQ(iq)), "id") == Attr(iq, "id")
  {
  }

  /** `getNicknameFromJid`: the resource of an address, null for no address. */
  function NicknameFromJid(j: Option<Jid>): (r: Option<string>)
    ensures j.None? ==> r.None?
    ensures j.Some? ==> r == j.value.resource
  {
    if j.Some? then j.value.resource else None
  }

  /** The address of an occupant, `room/nick`, yields its nickname back. */
  lemma OccupantAddressNickname(room: string, nick: string)
    ensures NicknameFromJid(Some(Jid(room, Some(nick)))) == Some(nick)
    ensures NicknameFromJid(Some(Jid(room, None))) == None
  {
  }

  /** `makeArray`: a list of its arguments, in order. */
  method MakeArray<T>(elements: seq<T>) returns (result: seq<T>)
    ensures |result| == |elements|
    ensures forall i :: 0 <= i < |elements| ==> result[i] == elements[i]
  {
    result := [];
    for i := 0 to |elements|
      invariant result == elements[..i]
    {
      result := result + [elements[i]];
    }
  }

  /** A `<body/>` with the given text. */
  function Body(text: string): Element
  {
    Element("body", None, map[], Some(text), [])
  }

  /** A groupchat message from the room's bare address whose only child is a body. */
  predicate IsRoomMessage(m: Stanza, room: string, text: string)
  {
    m.Message? && m.from == Jid(room, None) && m.msgType == Some("groupchat") &&
    m.id == None && m.children == [Body(text)]
  }

  /** Every address in `to` is sent a room message carrying `text`. */
  predicate Notified(msgs: seq<Stanza>, room: string, text: string, to: set<Jid>)
  {
    forall j :: j in to ==> exists m :: m in msgs && IsRoomMessage(m, room, text) && m.to == j
  }

  /** Room messages carrying `text` that reach `to` notify every address in it. */
  lemma NotifiedByRecipients(msgs: seq<Stanza>, room: string, text: string, to: set<Jid>)
    requires Recipients(msgs) == to
    requires forall m :: m in msgs ==> IsRoomMessage(m, room, text)
    ensures Notified(msgs, room, text, to)
  {
    forall j | j in to
      ensures exists m :: m in msgs && IsRoomMessage(m, room, text) && m.to == j
    {
      RecipientWitness(msgs, j);
      var i :| 0 <= i < |msgs| && !msgs[i].IqResult? && msgs[i].to == j;
      assert msgs[i] in msgs;
    }
  }

  /** Notices stay delivered when more messages are sent before or after them. */
  lemma NotifiedConcat(a: seq<Stanza>, b: seq<Stanza>, room: string, text: string, to: set<Jid>)
    ensures Notified(a, room, text, to) || Notified(b, room, text, to) ==> Notified(a + b, room, text, to)
  {
    forall m | m in a || m in b
      ensures m in a + b
    {
    }
  }

  /** `prepareMucMessage`: one groupchat message per session of the nickname,
      from the room's bare address, carrying the text as its body. */
  method PrepareMucMessage(room: Room, nickname: Option<string>, message: string) returns (msgs: seq<Stanza>)
    ensures |msgs| == |room.JidsOf(nickname)| && Recipients(msgs) == room.JidsOf(nickname)
    ensures forall m :: m in msgs ==> IsRoomMessage(m, room.jid, message) && m.to in room.JidsOf(nickname)
    ensures Notified(msgs, room.jid, message, room.JidsOf(nickname))
  {
    var targets := room.JidsOf(nickname);
    msgs := Fanout(targets, to => [Message(Jid(room.jid, None), to, Some("groupchat"), None, [Body(message)])], 1);
    NotifiedByRecipients(msgs, room.jid, message, targets);
  }

  /** `isProcessedByModule`: every stanza routed to a handler is processed. */
  function IsProcessedByModule(e: Element): (r: bool)
    ensures r
  {
    true
  }
}
