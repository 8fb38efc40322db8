/** The older presence handler: it answers with a list of stanzas instead of
    writing them, lets an occupant change its nickname and leave, and hands
    history and the subject to a delayed-delivery queue. */
module PresenceModule {
  import opened MucTypes
  import opened Rooms
  import opened AbstractModule
  import PresenceModuleImpl

  // ---------------------------------------------------------------------
  // The delayed-delivery queue (`DelayDeliveryThread`)
  // ---------------------------------------------------------------------

  /** Everything a queue will deliver, batch after batch, in order. */
  function Flatten(items: seq<seq<Stanza>>): (r: seq<Stanza>)
    ensures items == [] ==> r == []
  {
    if items == [] then [] else items[0] + Flatten(items[1..])
  }

  /** A batch pushed at the head is delivered before everything queued. */
  lemma {:induction false} FlattenPush(batch: seq<Stanza>, items: seq<seq<Stanza>>)
    ensures Flatten([batch] + items) == batch + Flatten(items)
  {
    assert ([batch] + items)[1..] == items;
  }

  /** A stanza appended at the tail is delivered after everything queued. */
  lemma {:induction false} FlattenAppend(items: seq<seq<Stanza>>, s: Stanza)
    ensures Flatten(items + [[s]]) == Flatten(items) + [s]
    decreases |items|
  {
    if items == [] {
      assert Flatten([[s]]) == [s] + Flatten([]);
    } else {
      assert (items + [[s]])[1..] == items[1..] + [[s]];
      FlattenAppend(items[1..], s);
    }
  }

  /** The queue of batches waiting for delayed delivery: `put(List)` pushes a
      non-empty batch at the head, `put(Element)` appends a single stanza at
      the tail, and each tick polls the batch at the head. */
  class DelayQueue {
    var items: seq<seq<Stanza>>

    constructor ()
      ensures items == []
    {
      items := [];
    }

    method PutBatch(batch: seq<Stanza>)
      modifies this
      ensures items == if batch == [] then old(items) else [batch] + old(items)
      ensures Flatten(items) == batch + Flatten(old(items))
    {
      if batch != [] {
        FlattenPush(batch, items);
        items := [batch] + items;
      }
    }

    method PutOne(s: Stanza)
      modifies this
      ensures items == old(items) + [[s]]
      ensures Flatten(items) == Flatten(old(items)) + [s]
    {
      FlattenAppend(items, s);
      items := items + [[s]];
    }

    method Poll() returns (batch: Option<seq<Stanza>>)
      modifies this
      ensures old(items) == [] ==> batch.None? && items == []
      ensures old(items) != [] ==> batch == Some(old(items)[0]) && items == old(items)[1..]
      ensures batch.Some? ==> Flatten(old(items)) == batch.value + Flatten(items)
    {
      if items == [] {
        batch := None;
      } else {
        batch := Some(items[0]);
        items := items[1..];
      }
    }
  }

  // ---------------------------------------------------------------------
  // Presences (`preparePresenceToAllOccupants`, the newcomer's roster)
  // ---------------------------------------------------------------------

  /** The status codes on one copy of an occupant's presence, in the order
      the handler adds them. */
  function CopyCodes(self: bool, anonymity: Anonymity, logging: bool, created: bool, nickChanged: bool): (codes: seq<int>)
    ensures StatusSelf in codes <==> self
    ensures StatusNonAnonymous in codes <==> self && anonymity == Anonymity.nonanonymous
    ensures StatusLogging in codes <==> self && logging
    ensures StatusCreated in codes <==> created
    ensures StatusNickChanged in codes <==> nickChanged
    ensures StatusBanned !in codes && StatusKicked !in codes
  {
    (if self then [StatusSelf] + (if anonymity == Anonymity.nonanonymous then [StatusNonAnonymous] else [])
                 + (if logging then [StatusLogging] else [])
     else []) +
    (if created then [StatusCreated] else []) + (if nickChanged then [StatusNickChanged] else [])
  }

  /** Whether a receiver with affiliation `viewer` sees the real address of an occupant. */
  predicate ShowsJid(anonymity: Anonymity, viewer: Affiliation, policy: Policy)
  {
    anonymity == Anonymity.nonanonymous || (anonymity == Anonymity.semianonymous && policy.viewOccupantsJid(viewer))
  }

  /** The single item of a presence about an occupant. */
  predicate DescribesOccupant(o: Stanza, aff: Affiliation, role: Role, nick: string, jid: Option<Jid>)
  {
    o.Presence? && o.items == {Item(Some(aff), Some(role), Some(nick), jid)}
  }

  /** The copy of an occupant's presence the session `dest` receives, in a
      room with these settings and affiliations. */
  function OccupantCopy(room: string, anonymity: Anonymity, logging: bool, affs: map<string, Affiliation>,
                        policy: Policy, base: Element, nick: string, aff: Affiliation, role: Role, sender: Jid,
                        created: bool, newNick: Option<string>, dest: Jid): Stanza
  {
    var viewer := if dest.bare in affs then affs[dest.bare] else Affiliation.none;
    Presence(Jid(room, Some(nick)), dest, base,
             {Item(Some(aff), Some(role), Some(if newNick.Some? then newNick.value else nick),
                   if ShowsJid(anonymity, viewer, policy) then Some(sender) else None)},
             CopyCodes(dest == sender, anonymity, logging, created, newNick.Some?), None, None)
  }

  /** The presence an occupant's change sends: unavailable for a nickname
      change or once the bare address holds no nickname, else the sender's
      cached presence. */
  function ChangeBase(room: Room, sender: Jid, newNick: Option<string>): Element
    reads room
    requires newNick.None? && room.HasBare(sender.bare) ==> sender in room.presences
  {
    if newNick.Some? || !room.HasBare(sender.bare) then UnavailablePresence else room.presences[sender]
  }

  /** What every copy of an occupant's presence satisfies: from the
      occupant's nickname with the given presence; 110, 100 (non-anonymous
      rooms) and 170 (logged rooms) only on the sender's own copy; 201 iff the
      room is new; 303 and the new nickname iff the nickname changes; the
      sender's real address iff the receiver may see it. */
  predicate IsCopy(o: Stanza, room: string, anonymity: Anonymity, logging: bool, affs: map<string, Affiliation>,
                   policy: Policy, base: Element, nick: string, aff: Affiliation, role: Role, sender: Jid,
                   created: bool, newNick: Option<string>)
  {
    && o.Presence? && o.from == Jid(room, Some(nick)) && o.base == base
    && (StatusSelf in o.codes <==> o.to == sender)
    && (StatusNonAnonymous in o.codes <==> o.to == sender && anonymity == Anonymity.nonanonymous)
    && (StatusLogging in o.codes <==> o.to == sender && logging)
    && (StatusCreated in o.codes <==> created)
    && (StatusNickChanged in o.codes <==> newNick.Some?)
    && var viewer := if o.to.bare in affs then affs[o.to.bare] else Affiliation.none;
       DescribesOccupant(o, aff, role, if newNick.Some? then newNick.value else nick,
                         if ShowsJid(anonymity, viewer, policy) then Some(sender) else None)
  }

  /** Every stanza of `out` is such a copy. */
  predicate AllCopies(out: seq<Stanza>, room: string, anonymity: Anonymity, logging: bool,
                      affs: map<string, Affiliation>, policy: Policy, base: Element, nick: string, aff: Affiliation,
                      role: Role, sender: Jid, created: bool, newNick: Option<string>)
  {
    forall o :: o in out ==>
      IsCopy(o, room, anonymity, logging, affs, policy, base, nick, aff, role, sender, created, newNick)
  }

  /** Copies are presences carrying `base`, with 201 iff the room is new
      and 303 iff the nickname changes. */
  lemma CopiesCarry(out: seq<Stanza>, room: string, anonymity: Anonymity, logging: bool,
                    affs: map<string, Affiliation>, policy: Policy, base: Element, nick: string, aff: Affiliation,
                    role: Role, sender: Jid, created: bool, newNick: Option<string>)
    requires AllCopies(out, room, anonymity, logging, affs, policy, base, nick, aff, role, sender, created, newNick)
    ensures forall o :: o in out ==>
      && o.Presence? && o.base == base && o.from == Jid(room, Some(nick))
      && (StatusCreated in o.codes <==> created) && (StatusNickChanged in o.codes <==> newNick.Some?)
  {
    forall o | o in out
      ensures o.Presence? && o.base == base && o.from == Jid(room, Some(nick))
      ensures (StatusCreated in o.codes <==> created) && (StatusNickChanged in o.codes <==> newNick.Some?)
    {
      assert IsCopy(o, room, anonymity, logging, affs, policy, base, nick, aff, role, sender, created, newNick);
    }
  }

  lemma OccupantCopyIsCopy(room: string, anonymity: Anonymity, logging: bool, affs: map<string, Affiliation>,
                           policy: Policy, base: Element, nick: string, aff: Affiliation, role: Role, sender: Jid,
                           created: bool, newNick: Option<string>, dest: Jid)
    ensures var o := OccupantCopy(room, anonymity, logging, affs, policy, base, nick, aff, role, sender, created,
                                  newNick, dest);
            o.to == dest && IsCopy(o, room, anonymity, logging, affs, policy, base, nick, aff, role, sender, created, newNick)
  {
  }

  /** One copy of an occupant's presence to each of `dests`. */
  method CopiesTo(dests: set<Jid>, room: string, anonymity: Anonymity, logging: bool, affs: map<string, Affiliation>,
                  policy: Policy, base: Element, nick: string, aff: Affiliation, role: Role, sender: Jid,
                  created: bool, newNick: Option<string>) returns (out: seq<Stanza>)
    ensures |out| == |dests| && Recipients(out) == dests
    ensures forall o :: o in out ==>
      IsCopy(o, room, anonymity, logging, affs, policy, base, nick, aff, role, sender, created, newNick)
  {
    var copy := d => [OccupantCopy(room, anonymity, logging, affs, policy, base, nick, aff, role, sender,
                                   created, newNick, d)];
    out := Fanout(dests, copy, 1);
    forall o | o in out
      ensures IsCopy(o, room, anonymity, logging, affs, policy, base, nick, aff, role, sender, created, newNick)
    {
      var d :| d in dests && o in copy(d);
      OccupantCopyIsCopy(room, anonymity, logging, affs, policy, base, nick, aff, role, sender, created, newNick, d);
    }
  }

  /** `preparePresenceToAllOccupants`: exactly one copy per session in the
      room, each as IsCopy describes, carrying the unavailable presence for
      a nickname change or a departure and the sender's cached one otherwise. */
  method PreparePresenceToAllOccupants(room: Room, policy: Policy, nick: string, aff: Affiliation, role: Role,
                                       sender: Jid, created: bool, newNick: Option<string>) returns (out: seq<Stanza>)
    requires newNick.None? && room.HasBare(sender.bare) ==> sender in room.presences
    ensures |out| == |room.AllJids()| && Recipients(out) == room.AllJids()
    ensures AllCopies(out, room.jid, room.config.anonymity, room.config.loggingEnabled, room.affiliations, policy,
                      ChangeBase(room, sender, newNick), nick, aff, role, sender, created, newNick)
  {
    out := CopiesTo(room.AllJids(), room.jid, room.config.anonymity, room.config.loggingEnabled, room.affiliations,
                    policy, ChangeBase(room, sender, newNick), nick, aff, role, sender, created, newNick);
  }


  /** What a newcomer is told about one session already in the room: that
      session's cached presence from its nickname, with its affiliation and
      role, and its real address iff the room is non-anonymous or it is
      semi-anonymous and the newcomer is an admin or owner. */
  function PresenceOfSession(room: Room, j: Jid, sender: Jid, aff: Affiliation): Stanza
    reads room
    requires j in room.nicknames && j in room.presences
  {
    var shown := room.config.anonymity == Anonymity.nonanonymous ||
                 (room.config.anonymity == Anonymity.semianonymous && (aff == Affiliation.admin || aff == Affiliation.owner));
    Presence(Jid(room.jid, Some(room.nicknames[j])), sender, room.presences[j],
             {Item(Some(room.AffiliationOf(j.bare)), Some(room.RoleOfJid(j)), Some(room.nicknames[j]),
                   if shown then Some(j) else None)},
             [], None, None)
  }

  /** The newcomer's view of a session: addressed to the newcomer, from the
      session's nickname, with its cached presence and no status codes; its
      real address is shown iff the room is non-anonymous, or semi-anonymous
      and the newcomer is an admin or owner. */
  lemma PresenceOfSessionShows(room: Room, j: Jid, sender: Jid, aff: Affiliation)
    requires j in room.nicknames && j in room.presences
    ensures var r := PresenceOfSession(room, j, sender, aff);
            && r.Presence? && r.to == sender && r.from == Jid(room.jid, Some(room.nicknames[j])) && r.codes == []
            && r.base == room.presences[j]
            && var shown := room.config.anonymity == Anonymity.nonanonymous ||
                            (room.config.anonymity == Anonymity.semianonymous &&
                             aff in {Affiliation.admin, Affiliation.owner});
               DescribesOccupant(r, room.AffiliationOf(j.bare), room.RoleOfJid(j), room.nicknames[j],
                                 if shown then Some(j) else None)
  {
  }

  /** The presences a newcomer receives before it is added: one per session
      already in the room, all addressed to the newcomer. */
  method PresencesToNewOccupant(room: Room, sender: Jid, aff: Affiliation) returns (out: seq<Stanza>)
    requires room.Valid()
    ensures |out| == |room.AllJids()|
    ensures forall j :: j in room.AllJids() ==> PresenceOfSession(room, j, sender, aff) in out
    ensures forall o :: o in out ==> exists j :: j in room.AllJids() && o == PresenceOfSession(room, j, sender, aff)
  {
    var order := SetToSeq(room.AllJids());
    out := [];
    for i := 0 to |order|
      invariant |out| == i
      invariant forall m :: 0 <= m < i ==> order[m] in room.presences && out[m] == PresenceOfSession(room, order[m], sender, aff)
    {
      assert order[i] in order;
      out := out + [PresenceOfSession(room, order[i], sender, aff)];
    }
    OneViewPerSession(room, order, out, sender, aff);
  }

  /** The newcomer's views of every session in the room. */
  function ViewsOf(room: Room, sender: Jid, aff: Affiliation): set<Stanza>
    reads room
  {
    set j | j in room.nicknames && j in room.presences :: PresenceOfSession(room, j, sender, aff)
  }

  /** The announcements of an admitted change: without an exit, every
      session hears it; an exit without a nickname change is heard by every
      remaining session once the bare address holds no nickname, and by
      nobody otherwise. Each is a presence with 201 iff the room is new and
      303 only for a nickname change. */
  predicate Announced(changes: seq<Stanza>, sessions: set<Jid>, stillThere: bool, exiting: bool, renamed: bool,
                      created: bool)
  {
    && (!exiting ==> Recipients(changes) == sessions)
    && (exiting && !renamed ==> Recipients(changes) == if stillThere then {} else sessions)
    && (renamed ==>
          exists k :: (&& 0 <= k <= |changes|
                       && (if exiting then sessions <= Recipients(changes[..k]) else Recipients(changes[..k]) == sessions)
                       && (forall o :: o in changes[..k] ==>
                             o.Presence? && StatusNickChanged in o.codes && o.base == UnavailablePresence)
                       && (forall o :: o in changes[k..] ==> o.Presence? && StatusNickChanged !in o.codes)))
    && forall o :: o in changes ==>
      o.Presence? && (StatusCreated in o.codes <==> created) && (StatusNickChanged in o.codes ==> renamed)
  }

  /** A nickname change heard by `before`, then an exit or the new
      nickname's presence: the change is announced first, to every session
      that remains. */
  lemma RenameFirst(first: seq<Stanza>, more: seq<Stanza>, before: set<Jid>, sessions: set<Jid>, stillThere: bool,
                    exiting: bool, created: bool)
    requires Recipients(first) == before && (if exiting then sessions <= before else sessions == before)
    requires !exiting ==> Recipients(more) == sessions
    requires forall o :: o in first ==>
      o.Presence? && (StatusCreated in o.codes <==> created) && StatusNickChanged in o.codes && o.base == UnavailablePresence
    requires forall o :: o in more ==> o.Presence? && (StatusCreated in o.codes <==> created) && StatusNickChanged !in o.codes
    ensures (first + more)[..|first|] == first && (first + more)[|first|..] == more
    ensures !exiting ==> Recipients(first + more) == sessions
    ensures Announced(first + more, sessions, stillThere, exiting, true, created)
  {
    RecipientsAppend(first, more);
    assert (first + more)[..|first|] == first && (first + more)[|first|..] == more;
  }

  /** What PresencesToNewOccupant sends are exactly the views of the room. */
  lemma OutAreViews(room: Room, out: seq<Stanza>, sender: Jid, aff: Affiliation)
    requires room.presences.Keys == room.nicknames.Keys
    requires forall j :: j in room.AllJids() ==> PresenceOfSession(room, j, sender, aff) in out
    requires forall o :: o in out ==> exists j :: j in room.AllJids() && o == PresenceOfSession(room, j, sender, aff)
    ensures forall o :: o in out <==> o in ViewsOf(room, sender, aff)
  {
    forall o | o in ViewsOf(room, sender, aff)
      ensures o in out
    {
      var j :| j in room.nicknames && j in room.presences && o == PresenceOfSession(room, j, sender, aff);
      assert j in room.AllJids();
    }
  }

  /** A sequence holding the view of each session of `order`, in that order,
      where `order` lists every session once, holds every session's view and
      nothing else. */
  lemma OneViewPerSession(room: Room, order: seq<Jid>, out: seq<Stanza>, sender: Jid, aff: Affiliation)
    requires room.presences.Keys == room.nicknames.Keys
    requires forall j :: j in order <==> j in room.AllJids()
    requires |out| == |order|
    requires forall m :: 0 <= m < |order| ==> out[m] == PresenceOfSession(room, order[m], sender, aff)
    ensures forall j :: j in room.AllJids() ==> PresenceOfSession(room, j, sender, aff) in out
    ensures forall o :: o in out ==> exists j :: j in room.AllJids() && o == PresenceOfSession(room, j, sender, aff)
  {
    forall j | j in room.AllJids()
      ensures PresenceOfSession(room, j, sender, aff) in out
    {
      var m :| 0 <= m < |order| && order[m] == j;
      assert out[m] == PresenceOfSession(room, j, sender, aff);
    }
    forall o | o in out
      ensures exists j :: j in room.AllJids() && o == PresenceOfSession(room, j, sender, aff)
    {
      var m :| 0 <= m < |out| && out[m] == o;
      assert order[m] in room.AllJids();
    }
  }

  // ---------------------------------------------------------------------
  // The checks of `process`
  // ---------------------------------------------------------------------

  /** The first three checks let the presence through: the password is right
      or the sender is already in, the room is unlocked or just created or
      this is an exit, and an exit comes from an occupant. */
  predicate RoomChecksPass(config: RoomConfig, locked: bool, created: bool, exiting: bool, occupant: bool,
                           supplied: Option<string>)
  {
    && (occupant || !PresenceModuleImpl.WrongPassword(config, supplied))
    && (!locked || created || exiting) && (occupant || !exiting)
  }

  /** Whether a presence is handled, ignored (the `null` answer) or refused. */
  datatype Admission = Admit | Ignore | Refuse(condition: Condition)

  /** The checks `process` runs once the room is open, in order: the
      password (for a sender not yet in the room), the lock (unless the room
      was just created or this is an exit), the exit of a non-occupant, the
      ban and the member list, and the nickname clash (computed by the caller
      for newcomers and nickname changes only). */
  function Check(config: RoomConfig, locked: bool, created: bool, exiting: bool, occupant: bool,
                     supplied: Option<string>, aff: Affiliation, policy: Policy, clash: bool): (r: Admission)
    ensures r == Refuse(NotAuthorized) <==> !occupant && PresenceModuleImpl.WrongPassword(config, supplied)
    ensures occupant ==> r != Refuse(NotAuthorized)
    ensures r == Refuse(ItemNotFound) <==>
      !(!occupant && PresenceModuleImpl.WrongPassword(config, supplied)) && locked && !created && !exiting
    ensures r == Ignore <==> exiting && !occupant && !PresenceModuleImpl.WrongPassword(config, supplied)
    ensures r == Refuse(Forbidden) <==>
      RoomChecksPass(config, locked, created, exiting, occupant, supplied) && !policy.enterOpenRoom(aff)
    ensures r == Refuse(RegistrationRequired) <==>
      && RoomChecksPass(config, locked, created, exiting, occupant, supplied) && policy.enterOpenRoom(aff)
      && config.membersOnly && !policy.enterMembersOnlyRoom(aff)
    ensures r == Refuse(Conflict) <==>
      && RoomChecksPass(config, locked, created, exiting, occupant, supplied) && policy.enterOpenRoom(aff)
      && (!config.membersOnly || policy.enterMembersOnlyRoom(aff)) && clash
    ensures r == Admit <==>
      && RoomChecksPass(config, locked, created, exiting, occupant, supplied)
      && policy.enterOpenRoom(aff) && (!config.membersOnly || policy.enterMembersOnlyRoom(aff)) && !clash
  {
    if !occupant && PresenceModuleImpl.WrongPassword(config, supplied) then Refuse(NotAuthorized)
    else if !created && locked && !exiting then Refuse(ItemNotFound)
    else if exiting && !occupant then Ignore
    else if !policy.enterOpenRoom(aff) then Refuse(Forbidden)
    else if config.membersOnly && !policy.enterMembersOnlyRoom(aff) then Refuse(RegistrationRequired)
    else if clash then Refuse(Conflict)
    else Admit
  }

  /** The chat-room logger call a handled presence makes: a join for a
      newcomer, otherwise a leave for an exit, when the room is logged. */
  function LoggerCalls(hasLogger: bool, config: RoomConfig, room: string, isNew: bool, exiting: bool, nick: string,
                       now: Date): (cs: seq<Call>)
    ensures |cs| <= 1
    ensures cs != [] <==> hasLogger && config.loggingEnabled && (isNew || exiting)
    ensures forall c :: c in cs ==>
      (c.AddJoinEvent? || c.AddLeaveEvent?) && c.room == room && c.sink == ChatRoomLogger && (c.AddJoinEvent? <==> isNew)
  {
    if hasLogger && config.loggingEnabled && isNew then [AddJoinEvent(ChatRoomLogger, room, None, Some(nick), now)]
    else if hasLogger && config.loggingEnabled && exiting then [AddLeaveEvent(ChatRoomLogger, room, None, Some(nick), now)]
    else []
  }

  /** The handler with its settings: whether new rooms start locked, whether
      a chat-room logger is attached, and its delayed-delivery queue. */
  class Module {
    var lockNewRoom: bool
    const hasChatRoomLogger: bool
    const queue: DelayQueue

    constructor (hasChatRoomLogger: bool)
      ensures lockNewRoom && this.hasChatRoomLogger == hasChatRoomLogger && fresh(queue) && queue.items == []
    {
      lockNewRoom := true;
      this.hasChatRoomLogger := hasChatRoomLogger;
      queue := new DelayQueue();
    }

    method SetLockNewRoom(b: bool)
      modifies this`lockNewRoom
      ensures lockNewRoom == b
    {
      lockNewRoom := b;
    }

    /** A newcomer is shown the sessions already present, then joins with the
        default role of its affiliation; anyone else has its cached presence
        replaced by the new one. */
    method Enter(room: Room, el: Element, sender: Jid, nick: string, aff: Affiliation, isNew: bool)
        returns (out: seq<Stanza>)
      requires room.Valid() && (isNew <==> sender !in room.nicknames)
      requires isNew ==> !room.NickHeldByOther(nick, sender.bare)
      modifies room`nicknames, room`occupants, room`presences
      ensures room.Valid() && room.presences == old(room.presences)[sender := el]
      ensures isNew ==> room.nicknames == old(room.nicknames)[sender := nick]
      ensures isNew ==>
        room.occupants == Attach(Detach(old(room.occupants), old(room.nicknames), sender), sender, nick,
                                 DefaultRole(room.config, aff))
      ensures !isNew ==> room.nicknames == old(room.nicknames) && room.occupants == old(room.occupants) && out == []
      ensures isNew ==> |out| == |old(room.AllJids())| && forall o :: o in out ==> o.Presence? && o.to == sender
      ensures isNew ==> forall o :: o in out <==> o in old(ViewsOf(room, sender, aff))
    {
      out := [];
      if isNew {
        out := PresencesToNewOccupant(room, sender, aff);
        forall o | o in out
          ensures o.Presence? && o.to == sender
        {
          var j :| j in room.AllJids() && o == PresenceOfSession(room, j, sender, aff);
        }
        OutAreViews(room, out, sender, aff);
        var added := room.AddOccupant(sender, nick, DefaultRole(room.config, aff), el);
      } else {
        room.UpdatePresence(sender, el);
      }
    }
  
    /** The occupant's change reaches every session: a nickname change first
        announces the old nickname as unavailable with 303 and the new one,
        then renames; an exit removes the session and, once the bare address
        holds no nickname, announces it as unavailable; anything else sends
        the sender's cached presence. */
    method Announce(room: Room, policy: Policy, sender: Jid, nick: string, aff: Affiliation, created: bool,
                    changeNick: bool, exiting: bool) returns (out: seq<Stanza>, ghost renamed: nat)
      requires room.Valid() && sender in room.nicknames
      requires changeNick <==> room.nicknames[sender] != nick
      requires changeNick ==> !room.NickHeldByOther(nick, sender.bare)
      modifies room`nicknames, room`occupants, room`presences
      ensures room.Valid()
      ensures exiting ==> room.nicknames == old(room.nicknames) - {sender} && room.presences == old(room.presences) - {sender}
      ensures !exiting ==> room.nicknames == old(room.nicknames)[sender := nick] && room.presences == old(room.presences)
      ensures !exiting ==> Recipients(out) == room.AllJids()
      ensures exiting && !changeNick ==> Recipients(out) == if room.HasBare(sender.bare) then {} else room.AllJids()
      ensures forall o :: o in out ==>
        o.Presence? && (StatusCreated in o.codes <==> created) && (StatusNickChanged in o.codes ==> changeNick)
      ensures renamed <= |out| && (!changeNick ==> renamed == 0)
      ensures changeNick ==> Recipients(out[..renamed]) == old(room.AllJids())
      ensures changeNick ==>
        AllCopies(out[..renamed], room.jid, room.config.anonymity, room.config.loggingEnabled, room.affiliations,
                  policy, UnavailablePresence, old(room.nicknames[sender]), aff,
                  if exiting then Role.none else old(room.RoleOfJid(sender)), sender, created, Some(nick))
      ensures forall o :: o in out[renamed..] ==> o.Presence? && StatusNickChanged !in o.codes
      ensures Announced(out, room.AllJids(), room.HasBare(sender.bare), exiting, changeNick, created)
    {
      var role := if exiting then Role.none else room.RoleOfJid(sender);
      if changeNick {
        out, renamed := RenameAndFollow(room, policy, sender, nick, aff, role, created, exiting);
      } else {
        out := Follow(room, policy, sender, nick, aff, role, created, exiting);
        renamed := 0;
        assert out[renamed..] == out;
      }
    }

    /** A nickname change, then the exit or the new nickname's presence. */
    method RenameAndFollow(room: Room, policy: Policy, sender: Jid, nick: string, aff: Affiliation, role: Role,
                           created: bool, exiting: bool) returns (out: seq<Stanza>, ghost renamed: nat)
      requires room.Valid() && sender in room.nicknames && room.nicknames[sender] != nick
      requires !room.NickHeldByOther(nick, sender.bare)
      modifies room`nicknames, room`occupants, room`presences
      ensures room.Valid()
      ensures exiting ==> room.nicknames == old(room.nicknames) - {sender} && room.presences == old(room.presences) - {sender}
      ensures !exiting ==> room.nicknames == old(room.nicknames)[sender := nick] && room.presences == old(room.presences)
      ensures !exiting ==> Recipients(out) == room.AllJids()
      ensures forall o :: o in out ==> o.Presence? && (StatusCreated in o.codes <==> created)
      ensures renamed <= |out| && Recipients(out[..renamed]) == old(room.AllJids())
      ensures AllCopies(out[..renamed], room.jid, room.config.anonymity, room.config.loggingEnabled, room.affiliations,
                        policy, UnavailablePresence, old(room.nicknames[sender]), aff, role, sender, created, Some(nick))
      ensures forall o :: o in out[renamed..] ==> o.Presence? && StatusNickChanged !in o.codes
      ensures Announced(out, room.AllJids(), room.HasBare(sender.bare), exiting, true, created)
    {
      ghost var nicknames, jids := room.nicknames, room.AllJids();
      var first := Rename(room, policy, sender, nick, aff, role, created);
      renamed := |first|;
      var more := Follow(room, policy, sender, nick, aff, role, created, exiting);
      if exiting {
        assert room.nicknames == nicknames - {sender} by {
          RenamedThenRemoved(nicknames, sender, nick);
        }
      }
      RenameFirst(first, more, jids, room.AllJids(), room.HasBare(sender.bare), exiting, created);
      out := first + more;
    }

    /** Removing a session forgets any nickname it was given just before. */
    lemma RenamedThenRemoved(nicknames: map<Jid, string>, sender: Jid, nick: string)
      ensures nicknames[sender := nick] - {sender} == nicknames - {sender}
    {
    }

    /** What follows a nickname change, or is all there is without one: the
        exit, or the sender's cached presence to every session. */
    method Follow(room: Room, policy: Policy, sender: Jid, nick: string, aff: Affiliation, role: Role, created: bool,
                  exiting: bool) returns (out: seq<Stanza>)
      requires room.Valid() && sender in room.nicknames
      modifies room`nicknames, room`occupants, room`presences
      ensures room.Valid()
      ensures exiting ==> room.nicknames == old(room.nicknames) - {sender} && room.presences == old(room.presences) - {sender}
      ensures !exiting ==> room.nicknames == old(room.nicknames) && room.presences == old(room.presences)
      ensures !exiting ==> Recipients(out) == room.AllJids()
      ensures exiting ==> Recipients(out) == if room.HasBare(sender.bare) then {} else room.AllJids()
      ensures forall o :: o in out ==> o.Presence? && (StatusCreated in o.codes <==> created) && StatusNickChanged !in o.codes
      ensures Announced(out, room.AllJids(), room.HasBare(sender.bare), exiting, false, created)
    {
      if exiting {
        out := Depart(room, policy, sender, nick, aff, created);
      } else {
        out := Stay(room, policy, sender, nick, aff, role, created);
      }
    }

    /** A status change or re-entry: every session hears the sender's cached presence. */
    method Stay(room: Room, policy: Policy, sender: Jid, nick: string, aff: Affiliation, role: Role, created: bool)
        returns (out: seq<Stanza>)
      requires room.Valid() && sender in room.nicknames
      ensures Recipients(out) == room.AllJids()
      ensures forall o :: o in out ==>
        o.Presence? && (StatusCreated in o.codes <==> created) && StatusNickChanged !in o.codes && o.base == room.presences[sender]
    {
      assert room.HasBare(sender.bare) by {
        assert room.occupants[room.nicknames[sender]].bare == sender.bare;
      }
      out := PreparePresenceToAllOccupants(room, policy, nick, aff, role, sender, created, None);
      CopiesCarry(out, room.jid, room.config.anonymity, room.config.loggingEnabled, room.affiliations, policy,
                  room.presences[sender], nick, aff, role, sender, created, None);
    }

    /** A nickname change: every session hears the old nickname leave (with
        303 and the new nickname), then the session is renamed. */
    method Rename(room: Room, policy: Policy, sender: Jid, nick: string, aff: Affiliation, role: Role, created: bool)
        returns (out: seq<Stanza>)
      requires room.Valid() && sender in room.nicknames && room.nicknames[sender] != nick
      requires !room.NickHeldByOther(nick, sender.bare)
      modifies room`nicknames, room`occupants, room`presences
      ensures room.Valid()
      ensures room.nicknames == old(room.nicknames)[sender := nick] && room.presences == old(room.presences)
      ensures room.AllJids() == old(room.AllJids())
      ensures |out| == |room.AllJids()| && Recipients(out) == room.AllJids()
      ensures AllCopies(out, room.jid, room.config.anonymity, room.config.loggingEnabled, room.affiliations, policy,
                        UnavailablePresence, old(room.nicknames[sender]), aff, role, sender, created, Some(nick))
      ensures forall o :: o in out ==>
        o.Presence? && (StatusCreated in o.codes <==> created) && StatusNickChanged in o.codes && o.base == UnavailablePresence
    {
      ghost var config, affs := room.config, room.affiliations;
      var oldNick := room.nicknames[sender];
      out := PreparePresenceToAllOccupants(room, policy, oldNick, aff, role, sender, created, Some(nick));
      CopiesCarry(out, room.jid, config.anonymity, config.loggingEnabled, affs, policy, UnavailablePresence,
                  oldNick, aff, role, sender, created, Some(nick));
      room.ChangeNickName(sender, nick);
      assert room.config == config && room.affiliations == affs;
    }

    /** An exit: the session is removed and, once its bare address holds no
        nickname, every remaining session hears it leave. */
    method Depart(room: Room, policy: Policy, sender: Jid, nick: string, aff: Affiliation, created: bool)
        returns (out: seq<Stanza>)
      requires room.Valid()
      modifies room`nicknames, room`occupants, room`presences
      ensures room.Valid()
      ensures room.nicknames == old(room.nicknames) - {sender} && room.presences == old(room.presences) - {sender}
      ensures Recipients(out) == if room.HasBare(sender.bare) then {} else room.AllJids()
      ensures forall o :: o in out ==>
        o.Presence? && (StatusCreated in o.codes <==> created) && StatusNickChanged !in o.codes && o.base == UnavailablePresence
    {
      var gone := room.RemoveOccupant(sender);
      out := [];
      if !room.HasBare(sender.bare) {
        out := PreparePresenceToAllOccupants(room, policy, nick, aff, Role.none, sender, created, None);
        CopiesCarry(out, room.jid, room.config.anonymity, room.config.loggingEnabled, room.affiliations, policy,
                    UnavailablePresence, nick, aff, Role.none, sender, created, None);
      }
    }


    /** The delayed and final parts of a handled presence: a newcomer's
        history batch goes to the head of the queue and the subject to its
        tail; a newcomer to a locked room is told so; the chat-room logger
        records the join or the leave. */
    method Greet(room: Room, ctx: Context, sender: Jid, nick: string, isNew: bool, exiting: bool, history: seq<Stanza>,
                 now: Date, env: Env) returns (notices: seq<Stanza>)
      modifies queue, env
      ensures var replay := PresenceModuleImpl.SubjectReplay(ctx, room.jid, room.subject, sender);
              Flatten(queue.items) ==
                (if isNew then history else []) + Flatten(old(queue.items)) +
                (if isNew && replay.Some? then [replay.value] else [])
      ensures env.sent == old(env.sent)
      ensures env.calls == old(env.calls) + LoggerCalls(hasChatRoomLogger, room.config, room.jid, isNew, exiting, nick, now)
      ensures !(isNew && room.locked) ==> notices == []
      ensures isNew && room.locked ==> Recipients(notices) == room.JidsOf(room.NicknameOf(sender))
      ensures forall m :: m in notices ==>
        IsRoomMessage(m, room.jid, PresenceModuleImpl.LockedNotice) && m.to in room.JidsOf(room.NicknameOf(sender))
    {
      var replay := PresenceModuleImpl.SubjectReplay(ctx, room.jid, room.subject, sender);
      if isNew {
        queue.PutBatch(history);
        if replay.Some? {
          queue.PutOne(replay.value);
        }
      }
      notices := [];
      if room.locked && isNew {
        notices := PrepareMucMessage(room, room.NicknameOf(sender), PresenceModuleImpl.LockedNotice);
      }
      var calls := LoggerCalls(hasChatRoomLogger, room.config, room.jid, isNew, exiting, nick, now);
      if calls != [] {
        env.Record(calls[0]);
      }
    }
  
    /** Whether this presence would take a nickname held by another bare
        address; asked only of newcomers and nickname changes. */
    static predicate Clash(room: Room, sender: Jid, nick: string)
      reads room
    {
      (sender !in room.nicknames || room.nicknames[sender] != nick) && room.NickHeldByOther(nick, sender.bare)
    }

    /** `process` once the room is open: the checks of Check; a refused or
        ignored presence changes nothing; a handled one answers with the
        newcomer's roster, the change announcements and the lock notice. */
    method Handle(room: Room, ctx: Context, policy: Policy, created: bool, el: Element, sender: Jid, nick: string,
                  exiting: bool, history: seq<Stanza>, now: Date, env: Env)
        returns (outcome: Outcome, result: Option<seq<Stanza>>, ghost roster: seq<Stanza>, ghost changes: seq<Stanza>,
                 ghost notices: seq<Stanza>)
      requires room.Valid()
      modifies room`nicknames, room`occupants, room`presences, queue, env
      ensures room.Valid()
      ensures var v := old(Check(room.config, room.locked, created, exiting, sender in room.nicknames,
                                 PresenceModuleImpl.SuppliedPassword(el), room.AffiliationOf(sender.bare), policy,
                                 Clash(room, sender, nick)));
              && outcome == (if v.Refuse? then Rejected(v.condition) else Ok)
              && (result.Some? <==> v == Admit)
      ensures result.None? ==> unchanged(room, queue, env)
      ensures result.Some? && exiting ==> room.nicknames == old(room.nicknames) - {sender}
      ensures result.Some? && !exiting ==>
        room.nicknames == old(room.nicknames)[sender := nick] && room.presences == old(room.presences)[sender := el]
      ensures result.Some? ==>
        env.calls == old(env.calls) + LoggerCalls(hasChatRoomLogger, room.config, room.jid, sender !in old(room.nicknames),
                                                  exiting, nick, now)
      ensures result.Some? && exiting ==> sender in old(room.nicknames)
      ensures result.None? ==> roster == [] && changes == [] && notices == []
      ensures result.Some? ==> result.value == roster + changes + notices
      ensures sender in old(room.nicknames) ==> roster == []
      ensures sender !in old(room.nicknames) && result.Some? ==>
        |roster| == |old(room.AllJids())| &&
        forall o :: o in roster <==> o in old(ViewsOf(room, sender, room.AffiliationOf(sender.bare)))
      ensures result.Some? ==>
        Announced(changes, room.AllJids(), room.HasBare(sender.bare), exiting,
                  sender in old(room.nicknames) && old(room.nicknames[sender]) != nick, created)
      ensures result.Some? && sender !in old(room.nicknames) && room.locked ==>
        Recipients(notices) == room.JidsOf(Some(nick))
      ensures !(sender !in old(room.nicknames) && room.locked) ==> notices == []
      ensures forall m :: m in notices ==>
        IsRoomMessage(m, room.jid, PresenceModuleImpl.LockedNotice) && m.to in room.JidsOf(Some(nick))
    {
      roster, changes, notices := [], [], [];
      var isNew := sender !in room.nicknames;
      var aff := room.AffiliationOf(sender.bare);
      var verdict := Check(room.config, room.locked, created, exiting, !isNew,
                           PresenceModuleImpl.SuppliedPassword(el), aff, policy, Clash(room, sender, nick));
      if verdict.Refuse? {
        outcome, result := Rejected(verdict.condition), None;
        return;
      }
      if verdict.Ignore? {
        outcome, result := Ok, None;
        return;
      }
      var out;
      out, roster, changes, notices := Accept(room, ctx, policy, created, el, sender, nick, aff, exiting, history, now, env);
      outcome, result := Ok, Some(out);
    }

    /** The admitted presence: the newcomer's roster, the announcements of
        the change and the lock notice, with the queue and logger fed. */
    method Accept(room: Room, ctx: Context, policy: Policy, created: bool, el: Element, sender: Jid, nick: string,
                  aff: Affiliation, exiting: bool, history: seq<Stanza>, now: Date, env: Env)
        returns (out: seq<Stanza>, ghost roster: seq<Stanza>, ghost changes: seq<Stanza>, ghost notices: seq<Stanza>)
      requires room.Valid() && !Clash(room, sender, nick) && (exiting ==> sender in room.nicknames)
      modifies room`nicknames, room`occupants, room`presences, queue, env
      ensures room.Valid()
      ensures exiting ==> room.nicknames == old(room.nicknames) - {sender}
      ensures !exiting ==>
        room.nicknames == old(room.nicknames)[sender := nick] && room.presences == old(room.presences)[sender := el]
      ensures env.calls == old(env.calls) + LoggerCalls(hasChatRoomLogger, room.config, room.jid,
                                                        sender !in old(room.nicknames), exiting, nick, now)
      ensures out == roster + changes + notices
      ensures sender in old(room.nicknames) ==> roster == []
      ensures sender !in old(room.nicknames) ==>
        |roster| == |old(room.AllJids())| && forall o :: o in roster <==> o in old(ViewsOf(room, sender, aff))
      ensures Announced(changes, room.AllJids(), room.HasBare(sender.bare), exiting,
                        sender in old(room.nicknames) && old(room.nicknames[sender]) != nick, created)
      ensures sender !in old(room.nicknames) && room.locked ==> Recipients(notices) == room.JidsOf(Some(nick))
      ensures !(sender !in old(room.nicknames) && room.locked) ==> notices == []
      ensures forall m :: m in notices ==>
        IsRoomMessage(m, room.jid, PresenceModuleImpl.LockedNotice) && m.to in room.JidsOf(Some(nick))
    {
      var isNew := sender !in room.nicknames;
      var seated;
      seated, roster, changes := Seat(room, policy, created, el, sender, nick, aff, exiting);
      assert !exiting ==> room.NicknameOf(sender) == Some(nick);
      var greeting := Greet(room, ctx, sender, nick, isNew, exiting, history, now, env);
      notices := greeting;
      out := seated + greeting;
    }

    /** The roster side of an admitted presence: the newcomer is seated and
        told who is there, then the change is announced. */
    method Seat(room: Room, policy: Policy, created: bool, el: Element, sender: Jid, nick: string,
                aff: Affiliation, exiting: bool) returns (out: seq<Stanza>, ghost roster: seq<Stanza>, ghost changes: seq<Stanza>)
      requires room.Valid() && !Clash(room, sender, nick) && (exiting ==> sender in room.nicknames)
      modifies room`nicknames, room`occupants, room`presences
      ensures room.Valid()
      ensures exiting ==> room.nicknames == old(room.nicknames) - {sender}
      ensures !exiting ==>
        room.nicknames == old(room.nicknames)[sender := nick] && room.presences == old(room.presences)[sender := el]
      ensures out == roster + changes
      ensures sender in old(room.nicknames) ==> roster == []
      ensures sender !in old(room.nicknames) ==>
        |roster| == |old(room.AllJids())| && forall o :: o in roster <==> o in old(ViewsOf(room, sender, aff))
      ensures Announced(changes, room.AllJids(), room.HasBare(sender.bare), exiting,
                        sender in old(room.nicknames) && old(room.nicknames[sender]) != nick, created)
    {
      var isNew := sender !in room.nicknames;
      var changeNick := !isNew && room.nicknames[sender] != nick;
      ghost var before := room.nicknames;
      var shown := Enter(room, el, sender, nick, aff, isNew);
      assert exiting ==> room.nicknames == before;
      ghost var renamed;
      var announced;
      announced, renamed := Announce(room, policy, sender, nick, aff, created, changeNick, exiting);
      roster, changes := shown, announced;
      out := shown + announced;
    }

    /** `process`: a presence without a nickname is JID_MALFORMED and
        changes nothing; any other is handled by Present. */
    method Process(reg: Registry, ctx: Context, policy: Policy, p: Packet, history: seq<Stanza>, now: Date, env: Env)
        returns (outcome: Outcome, result: Option<seq<Stanza>>)
      requires reg.Valid()
      modifies reg, reg.RoomAt(p.to.bare), queue, env
      ensures reg.Valid()
      ensures p.to.resource.None? ==> outcome == Rejected(JidMalformed) && result.None? && unchanged(reg, queue, env)
      ensures result.Some? ==> outcome == Ok
      ensures p.to.resource.Some? && p.to.bare !in reg.rooms ==> result.Some? && reg.rooms == old(reg.rooms) - {p.to.bare}
      ensures p.to.bare in reg.rooms && result.Some? ==> reg.rooms[p.to.bare].occupants != map[]
    {
      if p.to.resource.None? {
        return Rejected(JidMalformed), None;
      }
      outcome, result := Present(reg, ctx, policy, p, p.to.resource.value, history, now, env);
    }

    /** The room is opened (created, owned by the sender and locked as
        configured, if unknown) and the presence handled; a handled
        presence that leaves the room empty hands it back to the registry,
        while a refused one leaves even a room it created behind. */
    method Present(reg: Registry, ctx: Context, policy: Policy, p: Packet, nick: string, history: seq<Stanza>,
                   now: Date, env: Env) returns (outcome: Outcome, result: Option<seq<Stanza>>)
      requires reg.Valid()
      modifies reg, reg.RoomAt(p.to.bare), queue, env
      ensures reg.Valid()
      ensures result.Some? ==> outcome == Ok
      ensures p.to.bare !in reg.rooms ==> result.Some? && reg.rooms == old(reg.rooms) - {p.to.bare}
      ensures p.to.bare in reg.rooms ==> result.None? || reg.rooms[p.to.bare].occupants != map[]
      ensures p.to.bare !in old(reg.rooms) && result.None? ==> p.to.bare in reg.rooms
      ensures p.to.bare !in old(reg.rooms) && p.to.bare in reg.rooms ==>
        && reg.rooms[p.to.bare].affiliations == map[p.from.bare := Affiliation.owner]
        && reg.rooms[p.to.bare].locked == lockNewRoom
        && reg.rooms[p.to.bare].nicknames == if result.Some? then map[p.from := nick] else map[]
    {
      var room;
      room, outcome, result := Open(reg, ctx, policy, p, nick, history, now, env);
      if result.Some? && room.occupants == map[] {
        reg.LeaveRoom(room);
      }
    }

    /** The room opened and the presence handled in it, the registry's
        keys grown by at most the new room. */
    method Open(reg: Registry, ctx: Context, policy: Policy, p: Packet, nick: string, history: seq<Stanza>,
                now: Date, env: Env) returns (room: Room, outcome: Outcome, result: Option<seq<Stanza>>)
      requires reg.Valid()
      modifies reg, reg.RoomAt(p.to.bare), queue, env
      ensures reg.Valid() && p.to.bare in reg.rooms && reg.rooms[p.to.bare] == room && room.jid == p.to.bare
      ensures p.to.bare in old(reg.rooms) ==> reg.rooms == old(reg.rooms)
      ensures p.to.bare !in old(reg.rooms) ==> reg.rooms == old(reg.rooms)[p.to.bare := room]
      ensures result.Some? ==> outcome == Ok
      ensures p.to.bare !in old(reg.rooms) ==>
        && room.affiliations == map[p.from.bare := Affiliation.owner] && room.locked == lockNewRoom
        && room.nicknames == if result.Some? then map[p.from := nick] else map[]
    {
      var created;
      room, created := PresenceModuleImpl.OpenRoom(reg, ctx.(newRoomLocked := lockNewRoom), p.to.bare, p.from);
      var el := ElementOf(p, "presence");
      outcome, result := Settle(room, ctx, policy, created, el, p.from, nick, p.stanzaType == Some("unavailable"),
                                history, now, env);
      assert reg.rooms[p.to.bare] == room;
    }

    /** Handle, as seen from a room that may have just been created: a
        handled presence in an empty room leaves its sender the only
        occupant, and a refused one changes nothing. */
    method Settle(room: Room, ctx: Context, policy: Policy, created: bool, el: Element, sender: Jid, nick: string,
                  exiting: bool, history: seq<Stanza>, now: Date, env: Env)
        returns (outcome: Outcome, result: Option<seq<Stanza>>)
      requires room.Valid()
      modifies room`nicknames, room`occupants, room`presences, queue, env
      ensures room.Valid()
      ensures result.Some? ==> outcome == Ok
      ensures result.None? ==> room.nicknames == old(room.nicknames)
      ensures old(room.nicknames) == map[] && result.Some? ==> room.nicknames == map[sender := nick]
    {
      ghost var before := room.nicknames;
      ghost var roster, changes, notices;
      outcome, result, roster, changes, notices :=
        Handle(room, ctx, policy, created, el, sender, nick, exiting, history, now, env);
      if before == map[] && result.Some? {
        assert sender !in before;
        assert room.nicknames == before[sender := nick];
      }
    }
  }
}
