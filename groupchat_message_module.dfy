/** The groupchat message handler (XEP-0045 section 7.4, Sending a Message to
    All Occupants, and section 8.1, Modifying the Room Subject): the message's
    content is filtered, a subject change is authorised and stored, the
    message is stamped with its send date, recorded in the history and the
    log, and one copy goes to every session in the room. */
module GroupchatMessageModule {
  import opened MucTypes
  import opened Rooms

  // ---------------------------------------------------------------------
  // The content filter
  // ---------------------------------------------------------------------

  /** Whether a child of the message is copied: a `delay` never is, a `body`
      or `subject` always is; anything else is when the message filter is
      off, when it is a chat-state notification and chat states are
      allowed, or when an allowed criterion (`allowed`) matches it. */
  predicate Keeps(ctx: Context, allowed: Element -> bool, c: Element)
  {
    if c.name == "delay" then false
    else if c.name == "body" || c.name == "subject" then true
    else if !ctx.messageFilterEnabled then true
    else if ctx.chatStateAllowed && c.xmlns == Some(ChatStatesNs) then true
    else allowed(c)
  }

  /** The copied children, in their order. */
  function Kept(ctx: Context, allowed: Element -> bool, cs: seq<Element>): (r: seq<Element>)
    ensures |r| <= |cs|
    ensures forall c :: c in r <==> c in cs && Keeps(ctx, allowed, c)
    decreases |cs|
  {
    if cs == [] then []
    else
      var init := Kept(ctx, allowed, cs[..|cs| - 1]);
      assert forall c :: c in cs <==> c in cs[..|cs| - 1] || c == cs[|cs| - 1];
      init + (if Keeps(ctx, allowed, cs[|cs| - 1]) then [cs[|cs| - 1]] else [])
  }

  /** The filter keeps the order of the children: filtering two runs of
      children one after the other is filtering them together. */
  lemma {:induction false} KeptKeepsOrder(ctx: Context, allowed: Element -> bool, a: seq<Element>, b: seq<Element>)
    ensures Kept(ctx, allowed, a + b) == Kept(ctx, allowed, a) + Kept(ctx, allowed, b)
    decreases |b|
  {
    if b == [] {
      assert a + b == a;
    } else {
      assert (a + b)[..|a + b| - 1] == a + b[..|b| - 1];
      KeptKeepsOrder(ctx, allowed, a, b[..|b| - 1]);
    }
  }

  /** With the message filter off, everything but a delay is copied as it is. */
  lemma {:induction false} UnfilteredKeepsAll(ctx: Context, allowed: Element -> bool, cs: seq<Element>)
    requires !ctx.messageFilterEnabled
    requires forall c :: c in cs ==> c.name != "delay"
    ensures Kept(ctx, allowed, cs) == cs
    decreases |cs|
  {
    if cs != [] {
      var init, last := cs[..|cs| - 1], cs[|cs| - 1];
      assert forall c :: c in init ==> c in cs;
      UnfilteredKeepsAll(ctx, allowed, init);
      assert last in cs && Keeps(ctx, allowed, last);
      assert init + [last] == cs;
    }
  }

  /** The last child with the given name, if any: the one a loop that keeps
      overwriting its variable ends with. */
  function LastNamed(cs: seq<Element>, name: string): (r: Option<Element>)
    ensures r.Some? ==> r.value in cs && r.value.name == name
    ensures r.None? <==> forall c :: c in cs ==> c.name != name
    decreases |cs|
  {
    if cs == [] then None
    else if cs[|cs| - 1].name == name then Some(cs[|cs| - 1])
    else
      assert forall c :: c in cs <==> c in cs[..|cs| - 1] || c == cs[|cs| - 1];
      LastNamed(cs[..|cs| - 1], name)
  }

  /** Of several children with the name, the last one counts: appending one
      replaces what came before, appending another kind of child does not. */
  lemma LastOneCounts(cs: seq<Element>, c: Element, name: string)
    ensures LastNamed(cs + [c], name) == if c.name == name then Some(c) else LastNamed(cs, name)
  {
    assert (cs + [c])[..|cs + [c]| - 1] == cs;
  }

  /** The loop of `process` over the message's children: the last `delay`,
      `body` and `subject`, and the copied content. */
  method FilterContent(ctx: Context, allowed: Element -> bool, cs: seq<Element>)
      returns (body: Option<Element>, subject: Option<Element>, delay: Option<Element>, content: seq<Element>)
    ensures content == Kept(ctx, allowed, cs)
    ensures body == LastNamed(cs, "body") && subject == LastNamed(cs, "subject") && delay == LastNamed(cs, "delay")
  {
    body, subject, delay, content := None, None, None, [];
    for i := 0 to |cs|
      invariant content == Kept(ctx, allowed, cs[..i])
      invariant body == LastNamed(cs[..i], "body") && subject == LastNamed(cs[..i], "subject")
      invariant delay == LastNamed(cs[..i], "delay")
    {
      var c := cs[i];
      assert cs[..i + 1][..i] == cs[..i];
      if c.name == "delay" {
        delay := Some(c);
      } else if c.name == "body" {
        body := Some(c);
        content := content + [c];
      } else if c.name == "subject" {
        subject := Some(c);
        content := content + [c];
      } else if !ctx.messageFilterEnabled {
        content := content + [c];
      } else if ctx.chatStateAllowed && c.xmlns == Some(ChatStatesNs) {
        content := content + [c];
      } else if allowed(c) {
        content := content + [c];
      }
    }
    assert cs[..|cs|] == cs;
  }

  // ---------------------------------------------------------------------
  // Subject, send date and the outgoing message
  // ---------------------------------------------------------------------

  /** Who may change the subject: a participant when the room lets
      participants change it, or any role that may modify the subject. */
  predicate SubjectAllowed(config: RoomConfig, policy: Policy, role: Role)
  {
    (config.changeSubject && role == Role.participant) || policy.modifySubject(role)
  }

  /** The send date: the stamp of a `delay` the room's owner supplied (none
      if it has no readable stamp), otherwise the current time. */
  function SendDate(ctx: Context, delay: Option<Element>, aff: Affiliation, now: Date): Option<Date>
  {
    if delay.Some? && aff == Affiliation.owner then
      (if "stamp" in delay.value.attrs then ctx.parseDate(delay.value.attrs["stamp"]) else None)
    else Some(now)
  }

  /** Only an owner who supplies a delay can date a message other than now. */
  lemma OnlyOwnersBackdate(ctx: Context, delay: Option<Element>, aff: Affiliation, now: Date)
    ensures SendDate(ctx, delay, aff, now) != Some(now) ==> aff == Affiliation.owner && delay.Some?
    ensures delay.Some? && aff == Affiliation.owner && "stamp" in delay.value.attrs ==>
      SendDate(ctx, delay, aff, now) == ctx.parseDate(delay.value.attrs["stamp"])
  {
  }

  /** The `delay` (XEP-0203) stamped on the outgoing message. */
  function DelayElement(ctx: Context, d: Date): Element
  {
    Element("delay", Some(DelayNs), map["stamp" := ctx.formatStamp(d)], None, [])
  }

  /** `preparePacket`: a groupchat message with the id, if there is one, and
      the content in its order. */
  function PreparePacket(id: Option<string>, content: seq<Element>): (e: Element)
    ensures e.name == "message" && Attr(e, "type") == Some("groupchat") && Attr(e, "id") == id
    ensures e.children == content && e.attrs.Keys <= {"type", "id"}
  {
    var attrs := map["type" := "groupchat"];
    Element("message", Some("jabber:client"), if id.Some? then attrs["id" := id.value] else attrs, None, content)
  }

  /** The message every session of the room receives for an inbound
      groupchat from a sender of affiliation `aff`. */
  function Outgoing(ctx: Context, allowed: Element -> bool, p: Packet, aff: Affiliation, now: Date): Element
  {
    var msg := PreparePacket(p.id, Kept(ctx, allowed, p.children));
    match SendDate(ctx, LastNamed(p.children, "delay"), aff, now)
    case Some(d) => msg.(children := msg.children + [DelayElement(ctx, d)])
    case None => msg
  }

  /** The copy of a message delivered to one address. */
  function CopyTo(from: Jid, to: Jid, msg: Element): Stanza
  {
    Message(from, to, Attr(msg, "type"), Attr(msg, "id"), msg.children)
  }

  /** `sendMessagesToAllOccupantsJids`: one copy of the message from `from`
      to every session of every nickname. A role that may not receive
      messages does not hold a copy back. */
  method SendMessagesToAllOccupantsJids(room: Room, from: Jid, msg: Element) returns (out: seq<Stanza>)
    ensures |out| == |room.AllJids()| && Recipients(out) == room.AllJids()
    ensures forall o :: o in out ==> o.Message? && o == CopyTo(from, o.to, msg)
  {
    out := Fanout(room.AllJids(), to => [CopyTo(from, to, msg)], 1);
  }

  // ---------------------------------------------------------------------
  // History and log
  // ---------------------------------------------------------------------

  /** One call recording a message text or a subject change. */
  function HistoryCall(sink: Collaborator, room: string, isSubject: bool, text: Option<string>, sender: Jid,
                       nick: Option<string>, date: Option<Date>): Call
  {
    if isSubject then AddSubjectChange(sink, room, text, Some(sender), nick, date)
    else AddMessage(sink, room, text, Some(sender), nick, date)
  }

  /** The calls recording a message text (or, with `isSubject`, a subject
      change): the history provider, if there is one, then the room log, if
      there is a logger and the room is logged. */
  function HistoryCalls(ctx: Context, config: RoomConfig, room: string, isSubject: bool, text: Option<string>,
                        sender: Jid, nick: Option<string>, date: Option<Date>): (cs: seq<Call>)
    ensures |cs| == (if ctx.hasHistoryProvider then 1 else 0) + (if ctx.hasMucLogger && config.loggingEnabled then 1 else 0)
    ensures forall c :: c in cs ==>
      && (if isSubject then c.AddSubjectChange? else c.AddMessage?)
      && c.text == text && c.jid == Some(sender) && c.nick == nick && c.stamp == date
  {
    (if ctx.hasHistoryProvider then [HistoryCall(HistoryProvider, room, isSubject, text, sender, nick, date)] else []) +
    (if ctx.hasMucLogger && config.loggingEnabled then [HistoryCall(MucLogger, room, isSubject, text, sender, nick, date)]
     else [])
  }

  /** `addMessageToHistory` and `addSubjectChangeToHistory`: a failure of
      either collaborator is caught and does not stop the handler, so the
      calls are simply made. */
  method AddToHistory(env: Env, ctx: Context, config: RoomConfig, room: string, isSubject: bool, text: Option<string>,
                      sender: Jid, nick: Option<string>, date: Option<Date>)
    modifies env
    ensures env.sent == old(env.sent)
    ensures env.calls == old(env.calls) + HistoryCalls(ctx, config, room, isSubject, text, sender, nick, date)
  {
    if ctx.hasHistoryProvider {
      env.Record(HistoryCall(HistoryProvider, room, isSubject, text, sender, nick, date));
    }
    if ctx.hasMucLogger && config.loggingEnabled {
      env.Record(HistoryCall(MucLogger, room, isSubject, text, sender, nick, date));
    }
  }

  /** Every call made for a message: its body text first, then its subject. */
  function MessageCalls(ctx: Context, config: RoomConfig, room: string, cs: seq<Element>, sender: Jid,
                        nick: Option<string>, date: Option<Date>): seq<Call>
  {
    var body := LastNamed(cs, "body");
    var subject := LastNamed(cs, "subject");
    (if body.Some? then HistoryCalls(ctx, config, room, false, body.value.cdata, sender, nick, date) else []) +
    (if subject.Some? then HistoryCalls(ctx, config, room, true, subject.value.cdata, sender, nick, date) else [])
  }

  // ---------------------------------------------------------------------
  // The handler
  // ---------------------------------------------------------------------

  /** `out` is one copy of `msg` from `from` to each address of `dests`. */
  ghost predicate Sent(out: seq<Stanza>, dests: set<Jid>, from: Jid, msg: Element)
  {
    && |out| == |dests| && Recipients(out) == dests
    && forall o :: o in out ==> o.Message? && o == CopyTo(from, o.to, msg)
  }

  /** The sink after a message from `nick` (of affiliation `aff`) was
      announced: its body and subject recorded, and one copy of the
      outgoing message sent to each of `dests` after what was sent before. */
  ghost predicate Announced(sent0: seq<Stanza>, sent: seq<Stanza>, calls0: seq<Call>, calls: seq<Call>, ctx: Context,
                            allowed: Element -> bool, p: Packet, config: RoomConfig, room: string, dests: set<Jid>,
                            nick: Option<string>, aff: Affiliation, now: Date)
  {
    var date := SendDate(ctx, LastNamed(p.children, "delay"), aff, now);
    && calls == calls0 + MessageCalls(ctx, config, room, p.children, p.from, nick, date)
    && |sent0| <= |sent| && sent[..|sent0|] == sent0
    && Sent(sent[|sent0|..], dests, Jid(room, nick), Outgoing(ctx, allowed, p, aff, now))
  }

  /** The end of `process`: the message is dated, recorded and sent to every
      session from the sender's room address. */
  method Announce(room: Room, ctx: Context, allowed: Element -> bool, p: Packet, nick: Option<string>, aff: Affiliation,
                  now: Date, env: Env)
    modifies env
    ensures Announced(old(env.sent), env.sent, old(env.calls), env.calls, ctx, allowed, p, room.config, room.jid,
                      room.AllJids(), nick, aff, now)
  {
    var body, subject, delay, content := FilterContent(ctx, allowed, p.children);
    var date := SendDate(ctx, delay, aff, now);
    var msg := PreparePacket(p.id, content);
    RecordMessage(env, ctx, room.config, room.jid, p.children, p.from, nick, date);
    if date.Some? {
      msg := msg.(children := msg.children + [DelayElement(ctx, date.value)]);
    }
    assert msg == Outgoing(ctx, allowed, p, aff, now);
    var out := SendMessagesToAllOccupantsJids(room, Jid(room.jid, nick), msg);
    ghost var mark := env.sent;
    env.Write(out);
    Appended(mark, out);
  }

  /** The history and log calls for a message: its body, then its subject. */
  method RecordMessage(env: Env, ctx: Context, config: RoomConfig, room: string, cs: seq<Element>, sender: Jid,
                       nick: Option<string>, date: Option<Date>)
    modifies env
    ensures env.sent == old(env.sent)
    ensures env.calls == old(env.calls) + MessageCalls(ctx, config, room, cs, sender, nick, date)
  {
    var body := LastNamed(cs, "body");
    var subject := LastNamed(cs, "subject");
    ghost var calls0 := env.calls;
    if body.Some? {
      AddToHistory(env, ctx, config, room, false, body.value.cdata, sender, nick, date);
    }
    ghost var told := if body.Some? then HistoryCalls(ctx, config, room, false, body.value.cdata, sender, nick, date) else [];
    assert env.calls == calls0 + told;
    if subject.Some? {
      AddToHistory(env, ctx, config, room, true, subject.value.cdata, sender, nick, date);
    }
    ghost var more := if subject.Some? then HistoryCalls(ctx, config, room, true, subject.value.cdata, sender, nick, date) else [];
    assert env.calls == calls0 + told + more;
    assert told + more == MessageCalls(ctx, config, room, cs, sender, nick, date);
  }

  /** The prefix and the rest of an appended sequence. */
  lemma Appended<T>(a: seq<T>, b: seq<T>)
    ensures |a| <= |a + b| && (a + b)[..|a|] == a && (a + b)[|a|..] == b
  {
  }

  /** The subject change a message carries, if any: refused, changing
      nothing, unless the sender's role may make it, and otherwise stored
      with the sender's nickname and the time. */
  method ChangeSubject(room: Room, policy: Policy, role: Role, subject: Option<Element>, nick: Option<string>, now: Date)
      returns (permitted: bool)
    requires room.Valid()
    modifies room`subject
    ensures room.Valid()
    ensures permitted <==> subject.None? || SubjectAllowed(room.config, policy, role)
    ensures room.subject == if subject.Some? && permitted then Subject(subject.value.cdata, nick, Some(now)) else old(room.subject)
  {
    permitted := subject.None? || SubjectAllowed(room.config, policy, role);
    if subject.Some? && permitted {
      room.SetNewSubject(subject.value.cdata, nick, now);
    }
  }

  /** `process` once the room is found. The sender's nickname, role and
      affiliation are looked up; a sender who may not send to all, or a
      visitor of a moderated room, is let through. A subject change by a
      sender who may not make it is forbidden and changes nothing; otherwise
      the subject is stored, the message recorded and one copy, from the
      sender's room address, sent to every session. */
  method Deliver(room: Room, ctx: Context, policy: Policy, allowed: Element -> bool, p: Packet, now: Date, env: Env)
      returns (outcome: Outcome)
    requires room.Valid()
    modifies room`subject, env
    ensures room.Valid()
    ensures outcome == Ok || outcome == Rejected(Forbidden)
    ensures outcome == Rejected(Forbidden) <==>
      LastNamed(p.children, "subject").Some? && !SubjectAllowed(room.config, policy, old(room.RoleOf(room.NicknameOf(p.from))))
    ensures outcome != Ok ==> room.subject == old(room.subject) && env.sent == old(env.sent) && env.calls == old(env.calls)
    ensures outcome == Ok ==>
      var nick := old(room.NicknameOf(p.from));
      var subject := LastNamed(p.children, "subject");
      && room.subject == (if subject.Some? then Subject(subject.value.cdata, nick, Some(now)) else old(room.subject))
      && Announced(old(env.sent), env.sent, old(env.calls), env.calls, ctx, allowed, p, room.config, room.jid,
                   old(room.AllJids()), nick, old(room.AffiliationOf(p.from.bare)), now)
  {
    var nick := room.NicknameOf(p.from);
    var role := room.RoleOf(nick);
    var aff := room.AffiliationOf(p.from.bare);
    var subject := LastNamed(p.children, "subject");
    ghost var dests := room.AllJids();
    var permitted := ChangeSubject(room, policy, role, subject, nick, now);
    if !permitted {
      return Rejected(Forbidden);
    }
    assert room.AllJids() == dests;
    Announce(room, ctx, allowed, p, nick, aff, now, env);
    outcome := Ok;
  }

  /** `process`: a groupchat addressed to an occupant rather than to a room
      is a bad request and one to an unknown room an item-not-found, both
      changing nothing; otherwise the room handles it. No rejection stems
      from the sender's right to speak: only a subject change is refused. */
  method Process(reg: Registry, ctx: Context, policy: Policy, allowed: Element -> bool, p: Packet, now: Date, env: Env)
      returns (outcome: Outcome)
    requires reg.Valid()
    modifies reg.RoomAt(p.to.bare), env
    ensures reg.Valid() && reg.rooms == old(reg.rooms)
    ensures p.to.resource.Some? ==> outcome == Rejected(BadRequest)
    ensures p.to.resource.None? && p.to.bare !in reg.rooms ==> outcome == Rejected(ItemNotFound)
    ensures outcome.Rejected? ==> env.sent == old(env.sent) && env.calls == old(env.calls)
    ensures outcome.Rejected? ==> unchanged(reg.RoomAt(p.to.bare))
    ensures outcome == Rejected(Forbidden) ==> LastNamed(p.children, "subject").Some?
    ensures outcome.Rejected? ==> outcome.cond in {BadRequest, ItemNotFound, Forbidden}
    ensures outcome != Fault
  {
    if p.to.resource.Some? {
      return Rejected(BadRequest);
    }
    if p.to.bare !in reg.rooms {
      return Rejected(ItemNotFound);
    }
    outcome := Deliver(reg.rooms[p.to.bare], ctx, policy, allowed, p, now, env);
  }
}
