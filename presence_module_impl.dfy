/** The newer presence handler (XEP-0045 sections 7.2 and 10.1): a presence to
    `room/nick` creates the room if it does not exist, lets the sender enter
    after a fixed chain of checks, or rebroadcasts a changed availability. It
    writes its stanzas directly, rejects nickname changes and ignores
    `unavailable` presences; leaving goes through DoQuit. */
module PresenceModuleImpl {
  import opened MucTypes
  import opened Rooms
  import opened AbstractModule

  // ---------------------------------------------------------------------
  // Integer attributes of the history request (`toInteger`)
  // ---------------------------------------------------------------------

  const MinInt32 := -0x8000_0000
  const MaxInt32 := 0x7fff_ffff

  predicate IsDigit(c: char)
  {
    '0' <= c <= '9'
  }

  predicate AllDigits(s: string)
  {
    forall i :: 0 <= i < |s| ==> IsDigit(s[i])
  }

  /** The value of a string of decimal digits, most significant digit first. */
  function DecimalValue(ds: string): nat
    requires AllDigits(ds)
    decreases |ds|
  {
    if ds == [] then 0
    else DecimalValue(ds[..|ds| - 1]) * 10 + (ds[|ds| - 1] as int - '0' as int)
  }

  /** `Integer.parseInt`: an optional `-` or `+` and at least one decimal digit
      whose signed value fits in 32 bits; anything else is a format error. */
  function ParseInt(s: string): (r: Option<int>)
    ensures r.Some? ==> MinInt32 <= r.value <= MaxInt32
    ensures r.Some? ==> |s| > 0 && (IsDigit(s[0]) || s[0] == '-' || s[0] == '+')
  {
    var signed := |s| > 0 && (s[0] == '-' || s[0] == '+');
    var digits := if signed then s[1..] else s;
    if digits == [] || !AllDigits(digits) then None
    else
      var v := if |s| > 0 && s[0] == '-' then -(DecimalValue(digits) as int) else DecimalValue(digits);
      if MinInt32 <= v <= MaxInt32 then Some(v) else None
  }

  /** The decimal digits of a natural number (`Integer.toString` without sign). */
  function RenderNat(n: nat): (s: string)
    ensures |s| > 0 && AllDigits(s)
  {
    var d := ((n % 10) + '0' as int) as char;
    if n < 10 then [d] else RenderNat(n / 10) + [d]
  }

  /** `Integer.toString` */
  function Render(n: int): string
  {
    if n < 0 then "-" + RenderNat(-n) else RenderNat(n)
  }

  lemma {:induction false} DecimalValueOfRender(n: nat)
    ensures DecimalValue(RenderNat(n)) == n
  {
    if n >= 10 {
      var s := RenderNat(n);
      assert s[..|s| - 1] == RenderNat(n / 10);
      DecimalValueOfRender(n / 10);
    }
  }

  /** A number written in decimal parses back to itself when it fits in 32
      bits, and is a format error otherwise. */
  lemma ParseRenderRoundTrip(n: int)
    ensures ParseInt(Render(n)) == if MinInt32 <= n <= MaxInt32 then Some(n) else None
  {
    var s := Render(n);
    if n < 0 {
      DecimalValueOfRender(-n);
      assert s[0] == '-' && s[1..] == RenderNat(-n);
      assert DecimalValue(s[1..]) == -n;
    } else {
      DecimalValueOfRender(n);
      assert s == RenderNat(n) && IsDigit(s[0]);
    }
  }

  /** `toInteger`: a value that parses is returned; a missing or malformed
      value yields the default. */
  function ToInteger(v: Option<string>, dflt: Option<int>): (r: Option<int>)
    ensures v.None? ==> r == dflt
    ensures v.Some? && ParseInt(v.value).Some? ==> r == ParseInt(v.value)
    ensures v.Some? && ParseInt(v.value).None? ==> r == dflt
  {
    if v.None? then dflt
    else
      var parsed := ParseInt(v.value);
      if parsed.Some? then parsed else dflt
  }

  /** A history attribute holding a number in decimal is read as that number
      when it fits in 32 bits; a missing, empty, sign-only or out-of-range
      attribute falls back to the default. */
  lemma ToIntegerReadsRendered(n: int, dflt: Option<int>)
    ensures ToInteger(Some(Render(n)), dflt) == if MinInt32 <= n <= MaxInt32 then Some(n) else dflt
    ensures ToInteger(None, dflt) == dflt
    ensures ToInteger(Some(""), dflt) == dflt
    ensures ToInteger(Some("-"), dflt) == dflt
  {
    ParseRenderRoundTrip(n);
  }

  // ---------------------------------------------------------------------
  // Status codes (`addCodes`)
  // ---------------------------------------------------------------------

  /** What `addCodes` leaves of an occupant presence: 201 is appended iff the
      room was just created, 303 iff the occupant takes a new nickname, and in
      that case every item carries the new nickname. */
  function WithCodes(w: Stanza, created: bool, newNick: Option<string>): (r: Stanza)
    requires w.Presence?
    ensures r.Presence? && r.from == w.from && r.to == w.to && r.base == w.base
    ensures r.actor == w.actor && r.reason == w.reason
    ensures |r.codes| == |w.codes| + (if created then 1 else 0) + (if newNick.Some? then 1 else 0)
    ensures r.codes[..|w.codes|] == w.codes
    ensures StatusCreated in r.codes[|w.codes|..] <==> created
    ensures StatusNickChanged in r.codes[|w.codes|..] <==> newNick.Some?
    ensures newNick.None? ==> r.items == w.items
    ensures newNick.Some? ==> forall it :: it in r.items <==> exists i :: i in w.items && it == i.(nick := newNick)
  {
    var codes := w.codes + (if created then [StatusCreated] else []) + (if newNick.Some? then [StatusNickChanged] else []);
    assert codes[|w.codes|..] == (if created then [StatusCreated] else []) + (if newNick.Some? then [StatusNickChanged] else []);
    w.(codes := codes, items := if newNick.Some? then set i | i in w.items :: i.(nick := newNick) else w.items)
  }

  /** `addCodes`, walking the items one at a time. */
  method AddCodes(w: Stanza, created: bool, newNick: Option<string>) returns (r: Stanza)
    requires w.Presence?
    ensures r == WithCodes(w, created, newNick)
  {
    r := w;
    if created {
      r := r.(codes := r.codes + [StatusCreated]);
    }
    if newNick.Some? {
      r := r.(codes := r.codes + [StatusNickChanged]);
      var renamed: set<Item> := {};
      var todo := w.items;
      while todo != {}
        invariant todo <= w.items
        invariant forall it :: it in renamed <==> exists i :: i in w.items - todo && it == i.(nick := newNick)
        decreases todo
      {
        var i :| i in todo;
        renamed := renamed + {i.(nick := newNick)};
        todo := todo - {i};
      }
      r := r.(items := renamed);
    }
  }

  // ---------------------------------------------------------------------
  // Presence copies (`clonePresence`)
  // ---------------------------------------------------------------------

  /** The children the presence filter lets through: `show`, `status`,
      `priority` and entity capabilities. */
  predicate Allowed(c: Element)
  {
    c.name == "show" || c.name == "status" || c.name == "priority" || c.xmlns == Some(CapsNs)
  }

  function FilterAllowed(cs: seq<Element>): seq<Element>
  {
    if cs == [] then []
    else FilterAllowed(cs[..|cs| - 1]) + (if Allowed(cs[|cs| - 1]) then [cs[|cs| - 1]] else [])
  }

  /** The filter keeps exactly the allowed children. */
  lemma {:induction false} FilterAllowedKeeps(cs: seq<Element>)
    ensures forall c :: c in FilterAllowed(cs) <==> c in cs && Allowed(c)
    decreases |cs|
  {
    if cs != [] {
      FilterAllowedKeeps(cs[..|cs| - 1]);
      assert cs == cs[..|cs| - 1] + [cs[|cs| - 1]];
    }
  }

  predicate IsMucX(c: Element)
  {
    c.name == "x" && c.xmlns == Some(MucNs)
  }

  /** The children without the first muc `x` child. */
  function WithoutMucX(cs: seq<Element>): seq<Element>
  {
    if cs == [] then []
    else if IsMucX(cs[0]) then cs[1..]
    else [cs[0]] + WithoutMucX(cs[1..])
  }

  /** Removing the muc `x` child drops exactly the child `getChild` finds. */
  lemma {:induction false} WithoutMucXDropsFirst(cs: seq<Element>)
    ensures ChildNamedNs(cs, "x", MucNs).None? ==> WithoutMucX(cs) == cs
    ensures ChildNamedNs(cs, "x", MucNs).Some? ==>
      multiset(WithoutMucX(cs)) + multiset{ChildNamedNs(cs, "x", MucNs).value} == multiset(cs)
    decreases |cs|
  {
    if cs != [] && !IsMucX(cs[0]) {
      WithoutMucXDropsFirst(cs[1..]);
      assert cs == [cs[0]] + cs[1..];
    } else if cs != [] {
      assert cs == [cs[0]] + cs[1..];
    }
  }

  /** What `clonePresence` returns: a copy, filtered when the presence
      filter is on, without its muc `x` child. */
  function ClonedPresence(filter: bool, e: Element): Element
  {
    e.(children := WithoutMucX(if filter then FilterAllowed(e.children) else e.children))
  }

  /** With the presence filter on, a stored presence carries only allowed
      children, and never the muc `x` child of the join request. */
  lemma ClonedPresenceFiltered(e: Element)
    ensures forall c :: c in ClonedPresence(true, e).children ==> c in e.children && Allowed(c)
    ensures ChildNamedNs(ClonedPresence(true, e).children, "x", MucNs).None?
  {
    var kept := FilterAllowed(e.children);
    FilterAllowedKeeps(e.children);
    assert ChildNamedNs(kept, "x", MucNs).None?;
    WithoutMucXDropsFirst(kept);
  }

  /** `clonePresence` */
  method ClonePresence(ctx: Context, e: Element) returns (r: Element)
    ensures r == ClonedPresence(ctx.presenceFilterEnabled, e)
  {
    var children := e.children;
    if ctx.presenceFilterEnabled {
      children := [];
      for i := 0 to |e.children|
        invariant children == FilterAllowed(e.children[..i])
      {
        assert e.children[..i + 1][..i] == e.children[..i];
        if Allowed(e.children[i]) {
          children := children + [e.children[i]];
        }
      }
      assert e.children[..|e.children|] == e.children;
    }
    r := e.(children := WithoutMucX(children));
  }

  // ---------------------------------------------------------------------
  // Occupant presences
  // ---------------------------------------------------------------------

  /** The occupant presence the wrapper builds: from the occupant's address in
      the room to `dest`, one item per listed session, each with the
      occupant's affiliation and role. */
  function Wrapper(room: string, dest: Jid, base: Element, nick: string, aff: Affiliation, role: Role,
                   jids: set<Jid>): (r: Stanza)
    ensures r.Presence? && r.from == Jid(room, Some(nick)) && r.to == dest && r.base == base && r.codes == []
    ensures forall it :: it in r.items <==> exists j :: j in jids && it == Item(Some(aff), Some(role), None, Some(j))
  {
    Presence(Jid(room, Some(nick)), dest, base, set j | j in jids :: Item(Some(aff), Some(role), None, Some(j)),
             [], None, None)
  }

  /** The presences one destination receives about one occupant: one per
      group of its sessions, each with its status codes. */
  function Batch(room: string, dest: Jid, base: Element, nick: string, aff: Affiliation, role: Role,
                 groups: seq<set<Jid>>, created: bool, newNick: Option<string>): (b: seq<Stanza>)
    ensures |b| == |groups|
    ensures forall i :: 0 <= i < |b| ==>
      b[i] == WithCodes(Wrapper(room, dest, base, nick, aff, role, groups[i]), created, newNick)
  {
    seq(|groups|, i requires 0 <= i < |groups| =>
      WithCodes(Wrapper(room, dest, base, nick, aff, role, groups[i]), created, newNick))
  }

  /** Multi-item mode lists all sessions of an occupant in one presence;
      otherwise there is one presence per session, in some order. */
  method SessionGroups(ctx: Context, jids: set<Jid>) returns (groups: seq<set<Jid>>)
    ensures ctx.multiItemMode ==> groups == [jids]
    ensures !ctx.multiItemMode ==> |groups| == |jids|
    ensures !ctx.multiItemMode ==> forall j :: j in jids <==> exists i :: 0 <= i < |groups| && groups[i] == {j}
    ensures forall i :: 0 <= i < |groups| ==> groups[i] <= jids
  {
    if ctx.multiItemMode {
      groups := [jids];
    } else {
      var order := SetToSeq(jids);
      groups := seq(|order|, i requires 0 <= i < |order| => {order[i]});
      forall j | j in jids
        ensures exists i :: 0 <= i < |groups| && groups[i] == {j}
      {
        var i :| 0 <= i < |order| && order[i] == j;
        assert groups[i] == {j};
      }
    }
  }

  /** The nicknames in a room whose holder's affiliation passes the presence filter. */
  function FilteredNicks(room: Room): set<string>
    reads room
  {
    set n | n in room.occupants && room.AffiliationOf(room.occupants[n].bare) in room.config.presenceFilteredAffiliations
  }

  /** Who hears an occupant's presence: with the presence filter off, every
      nickname; with it on, the filtered nicknames when the occupant's
      affiliation is filtered, and otherwise the occupant alone. The occupant
      is always among them. */
  function Audience(room: Room, nick: string, aff: Affiliation): (r: set<string>)
    reads room
    ensures !room.config.presenceFilterEnabled ==> r == room.occupants.Keys
    ensures room.config.presenceFilterEnabled && aff !in room.config.presenceFilteredAffiliations ==> r == {nick}
    ensures nick in room.occupants && aff == room.AffiliationOf(room.occupants[nick].bare) ==> nick in r
  {
    if room.config.presenceFilterEnabled then
      if aff in room.config.presenceFilteredAffiliations then FilteredNicks(room) else {nick}
    else room.occupants.Keys
  }

  /** With the filter off, an occupant's presence reaches every session in the room. */
  lemma AudienceWithoutFilter(room: Room, nick: string, aff: Affiliation)
    requires room.Valid() && !room.config.presenceFilterEnabled
    ensures room.SessionsOf(Audience(room, nick, aff)) == room.AllJids()
  {
  }

  /** Every presence of a batch comes from the occupant's address, carries
      the given presence, and has 201 iff the room is new and 303 iff the
      nickname changes. */
  lemma BatchFromOccupant(room: string, dest: Jid, base: Element, nick: string, aff: Affiliation, role: Role,
                          groups: seq<set<Jid>>, created: bool, newNick: Option<string>, o: Stanza)
    requires o in Batch(room, dest, base, nick, aff, role, groups, created, newNick)
    ensures o.Presence? && o.from == Jid(room, Some(nick)) && o.to == dest && o.base == base
    ensures StatusCreated in o.codes <==> created
    ensures StatusNickChanged in o.codes <==> newNick.Some?
  {
    var b := Batch(room, dest, base, nick, aff, role, groups, created, newNick);
    var i :| 0 <= i < |b| && b[i] == o;
    assert o.codes[0..] == o.codes;
  }

  /** One batch about an occupant to each of `dests`. */
  method Broadcast(room: string, dests: set<Jid>, base: Element, nick: string, aff: Affiliation, role: Role,
                   groups: seq<set<Jid>>, created: bool, newNick: Option<string>) returns (out: seq<Stanza>)
    ensures Recipients(out) == (if |groups| == 0 then {} else dests) && |out| == |dests| * |groups|
    ensures forall o :: o in out ==>
      && o.Presence? && o.from == Jid(room, Some(nick)) && o.base == base
      && (StatusCreated in o.codes <==> created) && (StatusNickChanged in o.codes <==> newNick.Some?)
  {
    var batch := d => Batch(room, d, base, nick, aff, role, groups, created, newNick);
    out := Fanout(dests, batch, |groups|);
    forall o | o in out
      ensures o.Presence? && o.from == Jid(room, Some(nick)) && o.base == base
      ensures StatusCreated in o.codes <==> created
      ensures StatusNickChanged in o.codes <==> newNick.Some?
    {
      var d :| d in dests && o in batch(d);
      BatchFromOccupant(room, d, base, nick, aff, role, groups, created, newNick, o);
    }
  }

  /** The 6-argument `sendPresenceToAllOccupants`: the occupant's presence
      `base` (with the status codes) to every session of its audience, listing
      its sessions as multi-item mode says. */
  method SendPresenceToAllOccupants(room: Room, ctx: Context, base: Element, sender: Jid, created: bool,
                                    newNick: Option<string>) returns (out: seq<Stanza>)
    requires room.Valid() && sender in room.nicknames
    ensures var nick := room.nicknames[sender];
            var dests := room.SessionsOf(Audience(room, nick, room.AffiliationOfNick(Some(nick))));
            && Recipients(out) == dests && sender in dests
            && |out| == |dests| * (if ctx.multiItemMode then 1 else |room.JidsOf(Some(nick))|)
    ensures forall o :: o in out ==>
      && o.Presence? && o.from == Jid(room.jid, Some(room.nicknames[sender])) && o.base == base
      && (StatusCreated in o.codes <==> created) && (StatusNickChanged in o.codes <==> newNick.Some?)
  {
    var nick := room.nicknames[sender];
    var aff := room.AffiliationOfNick(Some(nick));
    var dests := room.SessionsOf(Audience(room, nick, aff));
    var groups := SessionGroups(ctx, room.JidsOf(Some(nick)));
    assert sender in room.JidsOf(Some(nick));
    out := Broadcast(room.jid, dests, base, nick, aff, room.RoleOf(Some(nick)), groups, created, newNick);
  }


  /** The nicknames whose presences a newcomer with bare address `bare` is
      sent: every other bare address's, subject to the presence filter. */
  function Peers(room: Room, bare: string): set<string>
    reads room
  {
    set n | n in room.occupants && room.occupants[n].bare != bare &&
            (!room.config.presenceFilterEnabled ||
             room.AffiliationOf(room.occupants[n].bare) in room.config.presenceFilteredAffiliations)
  }

  /** Whether the presence filter hides the room from a bare address: the
      filter is on and its affiliation is not among the filtered ones. */
  predicate Unseen(room: Room, bare: string)
    reads room
  {
    room.config.presenceFilterEnabled && room.AffiliationOf(bare) !in room.config.presenceFilteredAffiliations
  }

  /** `sendPresencesToNewOccupant`: unless its own affiliation is filtered
      out, the newcomer receives the presence of every other occupant it may
      see (one per occupant in multi-item mode, one per session otherwise),
      and never its own. */
  method SendPresencesToNewOccupant(room: Room, ctx: Context, sender: Jid) returns (out: seq<Stanza>)
    requires room.Valid()
    ensures Unseen(room, sender.bare) ==> out == []
    ensures forall o :: o in out ==>
      && o.Presence? && o.to == sender && o.from.bare == room.jid && o.from.resource.Some?
      && o.from.resource.value in Peers(room, sender.bare)
    ensures !Unseen(room, sender.bare) ==>
      forall n :: n in Peers(room, sender.bare) ==> exists o :: o in out && o.from == Jid(room.jid, Some(n))
    ensures ctx.multiItemMode ==> |out| <= |Peers(room, sender.bare)|
    ensures ctx.multiItemMode && !Unseen(room, sender.bare) ==>
      |out| == |Peers(room, sender.bare)|
  {
    out := [];
    if Unseen(room, sender.bare) {
      return;
    }
    var peers := Peers(room, sender.bare);
    var order := SetToSeq(peers);
    for i := 0 to |order|
      invariant forall o :: o in out ==>
        && o.Presence? && o.to == sender && o.from.bare == room.jid && o.from.resource.Some?
        && o.from.resource.value in peers
      invariant forall m :: 0 <= m < i ==> exists o :: o in out && o.from == Jid(room.jid, Some(order[m]))
      invariant ctx.multiItemMode ==> |out| == i
    {
      assert order[i] in peers;
      var b := PresencesOfPeer(room, ctx, sender, order[i]);
      assert b[0] in out + b;
      out := out + b;
    }
  }

  /** What a newcomer is sent about one other occupant: its last presence,
      once in multi-item mode and once per session otherwise. */
  method PresencesOfPeer(room: Room, ctx: Context, sender: Jid, nick: string) returns (b: seq<Stanza>)
    requires room.Valid() && nick in room.occupants
    ensures |b| > 0 && (ctx.multiItemMode ==> |b| == 1)
    ensures forall o :: o in b ==> o.Presence? && o.to == sender && o.from == Jid(room.jid, Some(nick))
  {
    var owner := room.occupants[nick].bare;
    var op := room.LastPresenceOfBare(owner);
    ghost var j :| j in room.occupants[nick].jids;
    assert j in room.JidsOfBare(owner);
    var groups := SessionGroups(ctx, room.JidsOf(Some(nick)));
    b := Batch(room.jid, sender, op.value, nick, room.AffiliationOf(owner), room.RoleOf(Some(nick)),
               groups, false, None);
    forall o | o in b
      ensures o.Presence? && o.to == sender && o.from == Jid(room.jid, Some(nick))
    {
      BatchFromOccupant(room.jid, sender, op.value, nick, room.AffiliationOf(owner), room.RoleOf(Some(nick)),
                        groups, false, None, o);
    }
  }

  // ---------------------------------------------------------------------
  // Entering (`processEntering`)
  // ---------------------------------------------------------------------

  /** The muc `x` child of a join request, if any. */
  function MucX(el: Element): Option<Element>
  {
    ChildNamedNs(el.children, "x", MucNs)
  }

  /** The password a join request supplies: the text of `password` in its muc `x` child. */
  function SuppliedPassword(el: Element): Option<string>
  {
    var x := MucX(el);
    if x.None? then None else CDataOf(ChildNamed(x.value.children, "password"))
  }

  predicate WrongPassword(config: RoomConfig, supplied: Option<string>)
  {
    config.passwordProtected && (supplied.None? || supplied != config.password)
  }

  /** The entering checks in the order they run; None when all pass. The
      nickname is free for the sender when nobody holds it, or, in multi-item
      mode only, when the sender's own bare address does. */
  function EnterVerdict(config: RoomConfig, locked: bool, aff: Affiliation, supplied: Option<string>,
                        holder: Option<string>, senderBare: string, multiItem: bool, policy: Policy): (r: Option<Condition>)
    ensures r == Some(NotAuthorized) <==> WrongPassword(config, supplied)
    ensures r == Some(ItemNotFound) <==> !WrongPassword(config, supplied) && locked && aff != Affiliation.owner
    ensures r == Some(Forbidden) <==>
      !WrongPassword(config, supplied) && (!locked || aff == Affiliation.owner) && !policy.enterOpenRoom(aff)
    ensures r == Some(RegistrationRequired) <==>
      && !WrongPassword(config, supplied) && (!locked || aff == Affiliation.owner) && policy.enterOpenRoom(aff)
      && config.membersOnly && !policy.enterMembersOnlyRoom(aff)
    ensures r.None? <==>
      && !WrongPassword(config, supplied) && (!locked || aff == Affiliation.owner) && policy.enterOpenRoom(aff)
      && (!config.membersOnly || policy.enterMembersOnlyRoom(aff))
      && (holder.None? || (multiItem && holder.value == senderBare))
    ensures r.Some? ==> r.value in {NotAuthorized, ItemNotFound, Forbidden, RegistrationRequired, Conflict}
  {
    if WrongPassword(config, supplied) then Some(NotAuthorized)
    else if locked && aff != Affiliation.owner then Some(ItemNotFound)
    else if !policy.enterOpenRoom(aff) then Some(Forbidden)
    else if config.membersOnly && !policy.enterMembersOnlyRoom(aff) then Some(RegistrationRequired)
    else if holder.Some? && (!multiItem || holder.value != senderBare) then Some(Conflict)
    else None
  }

  /** The history request of a join: the integer attributes of its `history`
      child, malformed ones read as absent, and its `since` date. */
  function HistoryRequest(ctx: Context, room: string, sender: Jid, el: Element): Call
  {
    var x := MucX(el);
    var hist := if x.None? then None else ChildNamed(x.value.children, "history");
    if hist.None? then GetHistoryMessages(room, Some(sender), None, None, None, None)
    else
      var h := hist.value;
      var since := Attr(h, "since");
      GetHistoryMessages(room, Some(sender), ToInteger(Attr(h, "maxchars"), None),
                         ToInteger(Attr(h, "maxstanzas"), None), ToInteger(Attr(h, "seconds"), None),
                         if since.None? then None else ctx.parseDate(since.value))
  }

  /** The subject replayed to a newcomer: present iff the room has a subject
      text, changer and date; from the changer's address, stamped with the
      change date both as a `urn:xmpp:delay` child and as a legacy `x`. */
  function SubjectReplay(ctx: Context, room: string, s: Subject, to: Jid): (r: Option<Stanza>)
    ensures r.Some? <==> s.text.Some? && s.changer.Some? && s.date.Some?
    ensures r.Some? ==>
      && r.value.Message? && r.value.to == to && r.value.from == Jid(room, s.changer)
      && r.value.msgType == Some("groupchat") && |r.value.children| == 3
      && r.value.children[0] == Element("subject", None, map[], s.text, [])
      && r.value.children[1].xmlns == Some(DelayNs) && Attr(r.value.children[1], "stamp") == Some(ctx.formatStamp(s.date.value))
  {
    if s.text.Some? && s.changer.Some? && s.date.Some? then
      var from := Jid(room, s.changer);
      var delay := Element("delay", Some(DelayNs),
                           map["stamp" := ctx.formatStamp(s.date.value), "jid" := JidToString(from)], None, []);
      var legacy := Element("x", Some("jabber:x:delay"), map["stamp" := ctx.formatLegacyStamp(s.date.value)], None, []);
      Some(Message(from, to, Some("groupchat"), None,
                   [Element("subject", None, map[], s.text, []), delay, legacy]))
    else None
  }

  /** The welcome text for the creator of a room. */
  function WelcomeText(locked: bool, newRoomLocked: bool): string
  {
    "Welcome! You created new Multi User Chat Room." +
    (if locked then " Room is locked now. Configure it please!"
     else if newRoomLocked then " Room is unlocked and ready for occupants!" else "")
  }

  /** The join or leave events recorded for a room: with the history provider
      if there is one, and with the room logger if there is one and the room
      logs. */
  function EventCalls(ctx: Context, config: RoomConfig, room: string, join: bool, when: Date, who: Jid,
                      nick: string): (cs: seq<Call>)
    ensures |cs| == (if ctx.hasHistoryProvider then 1 else 0) + (if ctx.hasMucLogger && config.loggingEnabled then 1 else 0)
    ensures forall c :: c in cs ==> c.room == room && (if join then c.AddJoinEvent? else c.AddLeaveEvent?)
  {
    var mk := (sink: Collaborator) =>
      if join then AddJoinEvent(sink, room, Some(who), Some(nick), when)
      else AddLeaveEvent(sink, room, Some(who), Some(nick), when);
    (if ctx.hasHistoryProvider then [mk(HistoryProvider)] else []) +
    (if ctx.hasMucLogger && config.loggingEnabled then [mk(MucLogger)] else [])
  }

  /** `addJoinToHistory` / `addLeaveToHistory` */
  method RecordEvent(env: Env, ctx: Context, config: RoomConfig, room: string, join: bool, when: Date, who: Jid,
                     nick: string)
    modifies env
    ensures env.sent == old(env.sent)
    ensures env.calls == old(env.calls) + EventCalls(ctx, config, room, join, when, who, nick)
  {
    if ctx.hasHistoryProvider {
      env.Record(if join then AddJoinEvent(HistoryProvider, room, Some(who), Some(nick), when)
                 else AddLeaveEvent(HistoryProvider, room, Some(who), Some(nick), when));
    }
    if ctx.hasMucLogger && config.loggingEnabled {
      env.Record(if join then AddJoinEvent(MucLogger, room, Some(who), Some(nick), when)
                 else AddLeaveEvent(MucLogger, room, Some(who), Some(nick), when));
    }
  }

  /** The calls a successful join makes: the history request (with a history
      provider), then the join event when the room logs. */
  function EnterCalls(ctx: Context, config: RoomConfig, room: string, sender: Jid, nick: string, el: Element,
                      now: Date): seq<Call>
  {
    (if ctx.hasHistoryProvider then [HistoryRequest(ctx, room, sender, el)] else []) +
    (if config.loggingEnabled then EventCalls(ctx, config, room, true, now, sender, nick) else [])
  }

  /** The presence an occupant receives about its own entry: from its room
      address, with 201 iff the room was created by this entry. */
  predicate OwnPresence(o: Stanza, room: string, sender: Jid, nick: string, created: bool)
  {
    o.Presence? && o.to == sender && o.from == Jid(room, Some(nick)) && (StatusCreated in o.codes <==> created)
  }

  /** The newcomer joins under its nickname with the given role and its
      stored presence, and its own presence (201 iff the room is new) goes to
      its audience, itself included. */
  method Join(room: Room, ctx: Context, created: bool, el: Element, sender: Jid, nick: string, role: Role)
      returns (out: seq<Stanza>, ghost self: nat)
    requires room.Valid() && !room.NickHeldByOther(nick, sender.bare)
    modifies room`nicknames, room`occupants, room`presences
    ensures room.Valid()
    ensures room.nicknames == old(room.nicknames)[sender := nick]
    ensures room.presences == old(room.presences)[sender := ClonedPresence(ctx.presenceFilterEnabled, el)]
    ensures room.occupants == Attach(Detach(old(room.occupants), old(room.nicknames), sender), sender, nick, role)
    ensures self < |out| && OwnPresence(out[self], room.jid, sender, nick, created)
    ensures Recipients(out) == room.SessionsOf(Audience(room, nick, room.AffiliationOfNick(Some(nick))))
    ensures forall o :: o in out ==>
      && o.Presence? && o.from == Jid(room.jid, Some(nick)) && o.base in room.PresencesOfBare(sender.bare)
      && (StatusCreated in o.codes <==> created) && StatusNickChanged !in o.codes
  {
    var pe := ClonePresence(ctx, el);
    var added := room.AddOccupant(sender, nick, role, pe);
    var own := room.LastPresenceOfBare(sender.bare);
    assert sender in room.JidsOfBare(sender.bare);
    out := SendPresenceToAllOccupants(room, ctx, own.value, sender, created, None);
    RecipientWitness(out, sender);
    self :| 0 <= self < |out| && !out[self].IqResult? && out[self].to == sender;
  }

  const LockedNotice := "Room is locked. Please configure."

  /** The notices a newcomer's sessions get after the subject: that the room
      is locked, and, for a creator, the welcome. */
  method OwnerNotices(room: Room, ctx: Context, created: bool, nick: string) returns (msgs: seq<Stanza>)
    ensures forall m :: m in msgs ==> m.Message? && m.from == Jid(room.jid, None) && m.to in room.JidsOf(Some(nick))
    ensures forall m :: m in msgs ==>
      || (room.locked && IsRoomMessage(m, room.jid, LockedNotice))
      || (created && IsRoomMessage(m, room.jid, WelcomeText(room.locked, ctx.newRoomLocked)))
    ensures room.locked ==> Notified(msgs, room.jid, LockedNotice, room.JidsOf(Some(nick)))
    ensures created ==> Notified(msgs, room.jid, WelcomeText(room.locked, ctx.newRoomLocked), room.JidsOf(Some(nick)))
    ensures room.locked && room.JidsOf(Some(nick)) != {} ==> exists m :: m in msgs && IsRoomMessage(m, room.jid, LockedNotice)
    ensures !room.locked && !created ==> msgs == []
  {
    msgs := [];
    if room.locked {
      msgs := PrepareMucMessage(room, Some(nick), LockedNotice);
    }
    if created {
      var welcome := PrepareMucMessage(room, Some(nick), WelcomeText(room.locked, ctx.newRoomLocked));
      NotifiedConcat(msgs, welcome, room.jid, LockedNotice, room.JidsOf(Some(nick)));
      NotifiedConcat(msgs, welcome, room.jid, WelcomeText(room.locked, ctx.newRoomLocked), room.JidsOf(Some(nick)));
      msgs := msgs + welcome;
    }
  }

  /** The calls that end a successful entry: the history request, then the join event. */
  method RecordEntry(env: Env, ctx: Context, room: Room, sender: Jid, nick: string, el: Element, now: Date)
    modifies env
    ensures env.sent == old(env.sent)
    ensures env.calls == old(env.calls) + EnterCalls(ctx, room.config, room.jid, sender, nick, el, now)
  {
    if ctx.hasHistoryProvider {
      env.Record(HistoryRequest(ctx, room.jid, sender, el));
    }
    if room.config.loggingEnabled {
      RecordEvent(env, ctx, room.config, room.jid, true, now, sender, nick);
    }
  }

  /** The end of a successful entry: the history request, the subject
      replay, the notices and the join event; what was sent before stays. */
  method Welcome(room: Room, ctx: Context, created: bool, el: Element, sender: Jid, nick: string, now: Date, env: Env)
      returns (msgs: seq<Stanza>)
    modifies env
    ensures env.calls == old(env.calls) + EnterCalls(ctx, room.config, room.jid, sender, nick, el, now)
    ensures env.sent == old(env.sent) + msgs
    ensures var replay := SubjectReplay(ctx, room.jid, room.subject, sender);
            replay.Some? ==> |msgs| > 0 && msgs[0] == replay.value
    ensures forall m :: m in msgs ==> m.Message? && (m.to == sender || m.to in room.JidsOf(Some(nick)))
    ensures room.locked ==> Notified(msgs, room.jid, LockedNotice, room.JidsOf(Some(nick)))
    ensures created ==> Notified(msgs, room.jid, WelcomeText(room.locked, ctx.newRoomLocked), room.JidsOf(Some(nick)))
    ensures room.locked && room.JidsOf(Some(nick)) != {} ==> exists m :: m in msgs && IsRoomMessage(m, room.jid, LockedNotice)
    ensures !room.locked && !created ==> |msgs| <= 1
  {
    RecordEntry(env, ctx, room, sender, nick, el, now);
    msgs := Greeting(room, ctx, created, sender, nick);
    env.Write(msgs);
  }

  /** The messages of a successful entry: the subject replay, then the notices. */
  method Greeting(room: Room, ctx: Context, created: bool, sender: Jid, nick: string) returns (msgs: seq<Stanza>)
    ensures var replay := SubjectReplay(ctx, room.jid, room.subject, sender);
            replay.Some? ==> |msgs| > 0 && msgs[0] == replay.value
    ensures forall m :: m in msgs ==> m.Message? && (m.to == sender || m.to in room.JidsOf(Some(nick)))
    ensures room.locked ==> Notified(msgs, room.jid, LockedNotice, room.JidsOf(Some(nick)))
    ensures created ==> Notified(msgs, room.jid, WelcomeText(room.locked, ctx.newRoomLocked), room.JidsOf(Some(nick)))
    ensures room.locked && room.JidsOf(Some(nick)) != {} ==> exists m :: m in msgs && IsRoomMessage(m, room.jid, LockedNotice)
    ensures !room.locked && !created ==> |msgs| <= 1
  {
    var replay := SubjectReplay(ctx, room.jid, room.subject, sender);
    var notices := OwnerNotices(room, ctx, created, nick);
    var replayPart := if replay.Some? then [replay.value] else [];
    NotifiedConcat(replayPart, notices, room.jid, LockedNotice, room.JidsOf(Some(nick)));
    NotifiedConcat(replayPart, notices, room.jid, WelcomeText(room.locked, ctx.newRoomLocked), room.JidsOf(Some(nick)));
    msgs := replayPart + notices;
  }

  /** `processEntering`: the checks of EnterVerdict run before anything
      changes, so a rejection leaves the room and the output untouched. On
      success the newcomer joins under its nickname with the default role of
      its affiliation and receives its own presence, 201 iff the room is new. */
  method ProcessEntering(room: Room, ctx: Context, policy: Policy, created: bool, el: Element,
                         sender: Jid, nick: string, now: Date, env: Env)
      returns (outcome: Outcome, ghost toNewcomer: seq<Stanza>, ghost toAll: seq<Stanza>, ghost welcome: seq<Stanza>)
    requires room.Valid()
    modifies room`nicknames, room`occupants, room`presences, env
    ensures room.Valid()
    ensures var verdict := old(EnterVerdict(room.config, room.locked, room.AffiliationOf(sender.bare), SuppliedPassword(el),
                                            room.OwnerOf(Some(nick)), sender.bare, ctx.multiItemMode, policy));
            outcome == if verdict.None? then Ok else Rejected(verdict.value)
    ensures outcome != Ok ==> unchanged(room) && unchanged(env)
    ensures outcome == Ok ==>
      && room.nicknames == old(room.nicknames)[sender := nick]
      && room.presences == old(room.presences)[sender := ClonedPresence(ctx.presenceFilterEnabled, el)]
      && room.occupants == Attach(Detach(old(room.occupants), old(room.nicknames), sender), sender, nick,
                                  DefaultRole(room.config, room.AffiliationOf(sender.bare)))
    ensures outcome == Ok ==> env.calls == old(env.calls) + EnterCalls(ctx, room.config, room.jid, sender, nick, el, now)
    ensures outcome == Ok ==>
      exists i :: |old(env.sent)| <= i < |env.sent| && OwnPresence(env.sent[i], room.jid, sender, nick, created)
    ensures outcome != Ok ==> toNewcomer == [] && toAll == [] && welcome == []
    ensures outcome == Ok ==> env.sent == old(env.sent) + toNewcomer + toAll + welcome
    ensures old(Unseen(room, sender.bare)) ==> toNewcomer == []
    ensures forall o :: o in toNewcomer ==>
      && o.Presence? && o.to == sender && o.from.bare == room.jid && o.from.resource.Some?
      && o.from.resource.value in old(Peers(room, sender.bare))
    ensures outcome == Ok && !old(Unseen(room, sender.bare)) ==>
      forall n :: n in old(Peers(room, sender.bare)) ==> exists o :: o in toNewcomer && o.from == Jid(room.jid, Some(n))
    ensures outcome == Ok ==>
      Recipients(toAll) == room.SessionsOf(Audience(room, nick, room.AffiliationOfNick(Some(nick))))
    ensures forall o :: o in toAll ==>
      && o.Presence? && o.from == Jid(room.jid, Some(nick)) && o.base in room.PresencesOfBare(sender.bare)
      && (StatusCreated in o.codes <==> created) && StatusNickChanged !in o.codes
    ensures forall m :: m in welcome ==> m.Message? && m.to in room.JidsOf(Some(nick))
    ensures outcome == Ok && room.locked ==> exists m :: m in welcome && IsRoomMessage(m, room.jid, LockedNotice)
    ensures outcome == Ok && room.locked ==> Notified(welcome, room.jid, LockedNotice, room.JidsOf(Some(nick)))
    ensures outcome == Ok && created ==>
      Notified(welcome, room.jid, WelcomeText(room.locked, ctx.newRoomLocked), room.JidsOf(Some(nick)))
  {
    toNewcomer, toAll, welcome := [], [], [];
    var aff := room.AffiliationOf(sender.bare);
    var verdict := EnterVerdict(room.config, room.locked, aff, SuppliedPassword(el), room.OwnerOf(Some(nick)),
                                sender.bare, ctx.multiItemMode, policy);
    if verdict.Some? {
      outcome := Rejected(verdict.value);
      return;
    }
    toNewcomer, toAll, welcome := Admit(room, ctx, created, el, sender, nick, DefaultRole(room.config, aff), now, env);
    outcome := Ok;
  }

  /** The admitted entry: the other occupants' presences to the newcomer,
      the join and its broadcast, then the welcome, each appended in turn. */
  method Admit(room: Room, ctx: Context, created: bool, el: Element, sender: Jid, nick: string, role: Role,
               now: Date, env: Env) returns (toNewcomer: seq<Stanza>, toAll: seq<Stanza>, welcome: seq<Stanza>)
    requires room.Valid() && !room.NickHeldByOther(nick, sender.bare)
    modifies room`nicknames, room`occupants, room`presences, env
    ensures room.Valid()
    ensures room.nicknames == old(room.nicknames)[sender := nick]
    ensures room.presences == old(room.presences)[sender := ClonedPresence(ctx.presenceFilterEnabled, el)]
    ensures room.occupants == Attach(Detach(old(room.occupants), old(room.nicknames), sender), sender, nick, role)
    ensures env.calls == old(env.calls) + EnterCalls(ctx, room.config, room.jid, sender, nick, el, now)
    ensures exists i :: |old(env.sent)| <= i < |env.sent| && OwnPresence(env.sent[i], room.jid, sender, nick, created)
    ensures env.sent == old(env.sent) + toNewcomer + toAll + welcome
    ensures old(Unseen(room, sender.bare)) ==> toNewcomer == []
    ensures forall o :: o in toNewcomer ==>
      && o.Presence? && o.to == sender && o.from.bare == room.jid && o.from.resource.Some?
      && o.from.resource.value in old(Peers(room, sender.bare))
    ensures !old(Unseen(room, sender.bare)) ==>
      forall n :: n in old(Peers(room, sender.bare)) ==> exists o :: o in toNewcomer && o.from == Jid(room.jid, Some(n))
    ensures Recipients(toAll) == room.SessionsOf(Audience(room, nick, room.AffiliationOfNick(Some(nick))))
    ensures forall o :: o in toAll ==>
      && o.Presence? && o.from == Jid(room.jid, Some(nick)) && o.base in room.PresencesOfBare(sender.bare)
      && (StatusCreated in o.codes <==> created) && StatusNickChanged !in o.codes
    ensures forall m :: m in welcome ==> m.Message? && m.to in room.JidsOf(Some(nick))
    ensures room.locked ==> exists m :: m in welcome && IsRoomMessage(m, room.jid, LockedNotice)
    ensures room.locked ==> Notified(welcome, room.jid, LockedNotice, room.JidsOf(Some(nick)))
    ensures created ==> Notified(welcome, room.jid, WelcomeText(room.locked, ctx.newRoomLocked), room.JidsOf(Some(nick)))
  {
    toNewcomer := SendPresencesToNewOccupant(room, ctx, sender);
    env.Write(toNewcomer);
    ghost var mark := |env.sent|;
    ghost var self;
    toAll, welcome, self := Enroll(room, ctx, created, el, sender, nick, role, now, env);
    assert env.sent[mark + self] == toAll[self];
  }

  /** The join and its broadcast, then the welcome; the newcomer's own
      presence is among the broadcast. */
  method Enroll(room: Room, ctx: Context, created: bool, el: Element, sender: Jid, nick: string, role: Role,
                now: Date, env: Env) returns (toAll: seq<Stanza>, welcome: seq<Stanza>, ghost self: nat)
    requires room.Valid() && !room.NickHeldByOther(nick, sender.bare)
    modifies room`nicknames, room`occupants, room`presences, env
    ensures room.Valid()
    ensures room.nicknames == old(room.nicknames)[sender := nick]
    ensures room.presences == old(room.presences)[sender := ClonedPresence(ctx.presenceFilterEnabled, el)]
    ensures room.occupants == Attach(Detach(old(room.occupants), old(room.nicknames), sender), sender, nick, role)
    ensures env.calls == old(env.calls) + EnterCalls(ctx, room.config, room.jid, sender, nick, el, now)
    ensures env.sent == old(env.sent) + toAll + welcome
    ensures self < |toAll| && OwnPresence(toAll[self], room.jid, sender, nick, created)
    ensures Recipients(toAll) == room.SessionsOf(Audience(room, nick, room.AffiliationOfNick(Some(nick))))
    ensures forall o :: o in toAll ==>
      && o.Presence? && o.from == Jid(room.jid, Some(nick)) && o.base in room.PresencesOfBare(sender.bare)
      && (StatusCreated in o.codes <==> created) && StatusNickChanged !in o.codes
    ensures forall m :: m in welcome ==> m.Message? && m.to in room.JidsOf(Some(nick))
    ensures room.locked ==> exists m :: m in welcome && IsRoomMessage(m, room.jid, LockedNotice)
    ensures room.locked ==> Notified(welcome, room.jid, LockedNotice, room.JidsOf(Some(nick)))
    ensures created ==> Notified(welcome, room.jid, WelcomeText(room.locked, ctx.newRoomLocked), room.JidsOf(Some(nick)))
  {
    toAll, self := Join(room, ctx, created, el, sender, nick, role);
    env.Write(toAll);
    assert sender in room.JidsOf(Some(nick));
    welcome := Welcome(room, ctx, created, el, sender, nick, now, env);
  }

  // ---------------------------------------------------------------------
  // Availability changes (`processChangeAvailabilityStatus`)
  // ---------------------------------------------------------------------

  /** Whether a status change of an occupant with this affiliation is stored:
      always with the presence filter off, otherwise only for a filtered
      affiliation. */
  predicate StoresPresence(config: RoomConfig, aff: Affiliation)
  {
    !config.presenceFilterEnabled ||
    (config.presenceFilteredAffiliations != {} && aff in config.presenceFilteredAffiliations)
  }

  /** `processChangeAvailabilityStatus`: the new presence replaces the cached
      presence of every session of the nickname (unless the filter keeps it
      out), and the sender's last presence goes to the sender's audience,
      without status codes. */
  method ProcessChangeAvailabilityStatus(room: Room, ctx: Context, el: Element, sender: Jid, env: Env)
      returns (out: seq<Stanza>)
    requires room.Valid() && sender in room.nicknames
    modifies room`presences, env
    ensures room.Valid()
    ensures var nick := room.nicknames[sender];
            room.presences ==
              if StoresPresence(room.config, room.AffiliationOf(sender.bare)) then
                map j | j in old(room.presences) ::
                  if room.nicknames[j] == nick then ClonedPresence(ctx.presenceFilterEnabled, el) else old(room.presences)[j]
              else old(room.presences)
    ensures env.sent == old(env.sent) + out && env.calls == old(env.calls)
    ensures var nick := room.nicknames[sender];
            Recipients(out) == room.SessionsOf(Audience(room, nick, room.AffiliationOfNick(Some(nick))))
    ensures forall o :: o in out ==>
      && o.Presence? && o.from == Jid(room.jid, Some(room.nicknames[sender]))
      && o.base in room.PresencesOfBare(sender.bare)
      && StatusCreated !in o.codes && StatusNickChanged !in o.codes
  {
    ghost var sent, calls := env.sent, env.calls;
    StoreAvailability(room, ctx, el, sender);
    assert env.sent == sent && env.calls == calls;
    ghost var stored := room.presences;
    var last := room.LastPresenceOfBare(sender.bare);
    assert sender in room.JidsOfBare(sender.bare);
    out := SendPresenceToAllOccupants(room, ctx, last.value, sender, false, None);
    env.Write(out);
    assert room.presences == stored;
  }

  /** The caching half of ProcessChangeAvailabilityStatus: when the room
      keeps presences of the sender's affiliation, every session of the
      sender's nickname gets the new presence. */
  method StoreAvailability(room: Room, ctx: Context, el: Element, sender: Jid)
    requires room.Valid() && sender in room.nicknames
    modifies room`presences
    ensures room.Valid()
    ensures var nick := room.nicknames[sender];
            room.presences ==
              if StoresPresence(room.config, room.AffiliationOf(sender.bare)) then
                map j | j in old(room.presences) ::
                  if room.nicknames[j] == nick then ClonedPresence(ctx.presenceFilterEnabled, el) else old(room.presences)[j]
              else old(room.presences)
  {
    var nick := room.nicknames[sender];
    if StoresPresence(room.config, room.AffiliationOf(sender.bare)) {
      var pe := ClonePresence(ctx, el);
      room.UpdateNickPresence(nick, pe);
    }
  }

  // ---------------------------------------------------------------------
  // Leaving (`doQuit`, `processExit`)
  // ---------------------------------------------------------------------

  /** What the remaining sessions hear when an occupant's last session
      leaves: an unavailable presence listing the departed sessions, one to
      each session. */
  method GoneBroadcast(room: Room, nick: string, aff: Affiliation, role: Role, leaving: set<Jid>)
      returns (out: seq<Stanza>)
    ensures Recipients(out) == room.AllJids() && |out| == |room.AllJids()|
    ensures forall o :: o in out ==>
      exists d :: d in room.AllJids() && o == Wrapper(room.jid, d, UnavailablePresence, nick, aff, role, leaving)
  {
    out := Fanout(room.AllJids(), d => [Wrapper(room.jid, d, UnavailablePresence, nick, aff, role, leaving)], 1);
  }

  /** What the remaining sessions hear when one of several sessions of a
      nickname leaves: the nickname's last presence listing its remaining
      sessions (all at once in multi-item mode, one per presence otherwise). */
  method StayBroadcast(room: Room, ctx: Context, nick: string, aff: Affiliation, role: Role) returns (out: seq<Stanza>)
    requires room.Valid() && nick in room.occupants
    ensures Recipients(out) == room.AllJids()
    ensures |out| == |room.AllJids()| * (if ctx.multiItemMode then 1 else |room.JidsOf(Some(nick))|)
    ensures forall o :: o in out ==>
      && o.Presence? && o.from == Jid(room.jid, Some(nick)) && o.base in room.PresencesOfNick(nick)
      && StatusCreated !in o.codes && StatusNickChanged !in o.codes
  {
    ghost var j :| j in room.occupants[nick].jids;
    var pe := room.LastPresenceOfNick(nick);
    var groups := SessionGroups(ctx, room.JidsOf(Some(nick)));
    out := Broadcast(room.jid, room.AllJids(), pe.value, nick, aff, role, groups, false, None);
  }

  /** The roster half of `doQuit`: the session is removed (with its cached
      presence), the leaver is sent its own unavailable presence, then the
      remaining sessions are told. */
  method Leave(room: Room, ctx: Context, sender: Jid) returns (out: seq<Stanza>, gone: bool)
    requires room.Valid() && sender in room.nicknames
    modifies room`nicknames, room`occupants, room`presences
    ensures room.Valid()
    ensures room.nicknames == old(room.nicknames) - {sender} && room.presences == old(room.presences) - {sender}
    ensures room.occupants == Detach(old(room.occupants), old(room.nicknames), sender)
    ensures gone <==> old(room.JidsOf(Some(room.nicknames[sender]))) == {sender}
    ensures var nick := old(room.nicknames[sender]);
            && |out| >= 1
            && out[0] == Wrapper(room.jid, sender, UnavailablePresence, nick, old(room.AffiliationOfNick(Some(nick))),
                                 old(room.RoleOf(Some(nick))),
                                 if ctx.multiItemMode then old(room.JidsOf(Some(nick))) else {sender})
            && Recipients(out[1..]) == room.AllJids()
    ensures gone ==> forall o :: o in out[1..] ==> o.Presence? && o.base == UnavailablePresence
  {
    var nick := room.nicknames[sender];
    var aff := room.AffiliationOfNick(Some(nick));
    var role := room.RoleOf(Some(nick));
    var leaving := room.JidsOf(Some(nick));
    gone := room.RemoveOccupant(sender);
    var self := Wrapper(room.jid, sender, UnavailablePresence, nick, aff, role,
                        if ctx.multiItemMode then leaving else {sender});
    var rest;
    if gone {
      rest := GoneBroadcast(room, nick, aff, role, leaving);
    } else {
      assert nick in room.occupants;
      rest := StayBroadcast(room, ctx, nick, aff, role);
    }
    out := [self] + rest;
    assert out[1..] == rest;
  }

  /** The calls of a departure: the leave event when the nickname is gone and
      the room logs, then the history removal of an emptied non-persistent room. */
  function QuitCalls(ctx: Context, config: RoomConfig, room: string, gone: bool, emptied: bool, when: Date,
                     who: Jid, nick: string): seq<Call>
  {
    (if gone && config.loggingEnabled then EventCalls(ctx, config, room, false, when, who, nick) else []) +
    (if emptied && ctx.hasHistoryProvider && !config.persistent then [RemoveHistory(room)] else [])
  }

  method RecordQuit(env: Env, ctx: Context, config: RoomConfig, room: string, gone: bool, emptied: bool, when: Date,
                    who: Jid, nick: string)
    modifies env
    ensures env.sent == old(env.sent)
    ensures env.calls == old(env.calls) + QuitCalls(ctx, config, room, gone, emptied, when, who, nick)
  {
    if gone && config.loggingEnabled {
      RecordEvent(env, ctx, config, room, false, when, who, nick);
    }
    if emptied && ctx.hasHistoryProvider && !config.persistent {
      env.Record(RemoveHistory(room));
    }
  }

  /** `doQuit`: the session leaves; the leaver and the remaining sessions are
      told; a room left without occupants loses its history (unless
      persistent) and is handed back to the registry. */
  method DoQuit(reg: Registry, room: Room, ctx: Context, sender: Jid, now: Date, env: Env) returns (out: seq<Stanza>)
    requires reg.Valid() && room.jid in reg.rooms && reg.rooms[room.jid] == room
    requires sender in room.nicknames
    modifies reg, room`nicknames, room`occupants, room`presences, env
    ensures reg.Valid() && room.Valid()
    ensures room.nicknames == old(room.nicknames) - {sender} && room.presences == old(room.presences) - {sender}
    ensures room.occupants == Detach(old(room.occupants), old(room.nicknames), sender)
    ensures reg.rooms == if room.occupants == map[] then old(reg.rooms) - {room.jid} else old(reg.rooms)
    ensures env.sent == old(env.sent) + out
    ensures var nick := old(room.nicknames[sender]);
            env.calls == old(env.calls) + QuitCalls(ctx, room.config, room.jid, old(room.JidsOf(Some(nick))) == {sender},
                                                    room.occupants == map[], now, sender, nick)
    ensures |out| >= 1 && out[0].Presence? && out[0].to == sender && out[0].base == UnavailablePresence
    ensures Recipients(out[1..]) == room.AllJids()
  {
    var nick := room.nicknames[sender];
    var gone;
    out, gone := Leave(room, ctx, sender);
    env.Write(out);
    RecordQuit(env, ctx, room.config, room.jid, gone, room.occupants == map[], now, sender, nick);
    assert reg.Valid();
    if room.occupants == map[] {
      reg.LeaveRoom(room);
    }
  }

  /** `processExit`: an exit to an unknown room is ITEM_NOT_FOUND, one from a
      non-occupant is ignored, and any other is `doQuit`. */
  method ProcessExit(reg: Registry, ctx: Context, key: string, sender: Jid, now: Date, env: Env)
      returns (outcome: Outcome)
    requires reg.Valid()
    modifies reg, reg.RoomAt(key), env
    ensures reg.Valid()
    ensures key !in old(reg.rooms) <==> outcome == Rejected(ItemNotFound)
    ensures outcome != Ok ==> unchanged(reg, env)
    ensures key in old(reg.rooms) && sender !in old(reg.rooms[key].nicknames) ==>
      outcome == Ok && unchanged(reg, env, old(reg.rooms[key]))
    ensures key in old(reg.rooms) && sender in old(reg.rooms[key].nicknames) ==>
      outcome == Ok && sender !in old(reg.rooms[key]).nicknames && |env.sent| > |old(env.sent)|
  {
    if key !in reg.rooms {
      return Rejected(ItemNotFound);
    }
    var room := reg.rooms[key];
    if sender !in room.nicknames {
      return Ok;
    }
    var out := DoQuit(reg, room, ctx, sender, now, env);
    outcome := Ok;
  }

  // ---------------------------------------------------------------------
  // Dispatch (`process`)
  // ---------------------------------------------------------------------

  /** The room a presence is addressed to; an unknown one is created with the
      default configuration, the sender's bare address as its owner and the
      configured initial lock. */
  method OpenRoom(reg: Registry, ctx: Context, key: string, sender: Jid) returns (room: Room, created: bool)
    requires reg.Valid()
    modifies reg
    ensures reg.Valid() && key in reg.rooms && reg.rooms[key] == room
    ensures created <==> key !in old(reg.rooms)
    ensures !created ==> reg.rooms == old(reg.rooms)
    ensures created ==> reg.rooms == old(reg.rooms)[key := room] && fresh(room)
    ensures created ==> room.config == ctx.defaultConfig && room.nicknames == map[] && room.occupants == map[]
    ensures created ==> room.affiliations == map[sender.bare := Affiliation.owner] && room.locked == ctx.newRoomLocked
  {
    if key in reg.rooms {
      return reg.rooms[key], false;
    }
    room := reg.CreateNewRoom(key, ctx.defaultConfig);
    room.AddAffiliation(sender.bare, Affiliation.owner);
    room.SetLocked(ctx.newRoomLocked);
    created := true;
  }

  /** The choice among the presence handlers, once the room is open. */
  method Dispatch(room: Room, ctx: Context, policy: Policy, created: bool, p: Packet, nick: string, now: Date, env: Env)
      returns (outcome: Outcome)
    requires room.Valid()
    modifies room`nicknames, room`occupants, room`presences, env
    ensures room.Valid()
    ensures p.from in old(room.nicknames) && old(room.nicknames[p.from]) != nick ==>
      outcome == Rejected(FeatureNotImplemented) && unchanged(room, env)
    ensures outcome != Ok ==> room.nicknames == old(room.nicknames)
    ensures outcome == Ok ==> room.nicknames == old(room.nicknames)[p.from := nick]
  {
    var known := room.NicknameOf(p.from);
    var el := ElementOf(p, "presence");
    var reEnter := ChildNamedNs(el.children, "x", MucNs).Some?;
    if known.Some? && known.value != nick {
      outcome := Rejected(FeatureNotImplemented);
    } else if reEnter || known.None? {
      var entered, toNewcomer, toAll, welcome := ProcessEntering(room, ctx, policy, created, el, p.from, nick, now, env);
      outcome := entered;
    } else {
      var out := ProcessChangeAvailabilityStatus(room, ctx, el, p.from, env);
      outcome := Ok;
    }
  }

  /** A presence with a nickname and a type other than error or unavailable:
      the room is opened (created if unknown); a known occupant under another
      nickname is refused with FEATURE_NOT_IMPLEMENTED (`processChangeNickname`);
      a newcomer, or one repeating the MUC `x`, is entering; anyone else
      changes availability. */
  method Present(reg: Registry, ctx: Context, policy: Policy, p: Packet, nick: string, now: Date, env: Env)
      returns (outcome: Outcome)
    requires reg.Valid()
    modifies reg, reg.RoomAt(p.to.bare), env
    ensures reg.Valid() && p.to.bare in reg.rooms
    ensures p.to.bare in old(reg.rooms) ==> reg.rooms == old(reg.rooms)
    ensures p.to.bare !in old(reg.rooms) ==>
      var room := reg.rooms[p.to.bare];
      && room.affiliations == map[p.from.bare := Affiliation.owner] && room.locked == ctx.newRoomLocked
      && (outcome == Ok ==> room.nicknames == map[p.from := nick])
      && (outcome != Ok ==> room.nicknames == map[])
    ensures p.to.bare in old(reg.rooms) && p.from in old(reg.rooms[p.to.bare].nicknames) &&
            old(reg.rooms[p.to.bare].nicknames[p.from]) != nick ==>
      outcome == Rejected(FeatureNotImplemented) && unchanged(env, old(reg.rooms[p.to.bare]))
  {
    var room, created := OpenRoom(reg, ctx, p.to.bare, p.from);
    outcome := Dispatch(room, ctx, policy, created, p, nick, now, env);
    assert reg.rooms[p.to.bare] == room;
  }

  /** `process`: an error presence is ignored; a presence without a
      nickname is JID_MALFORMED; an unavailable one is ignored before any
      room is looked up or created (so no exit happens here); any other is
      handled by Present. */
  method Process(reg: Registry, ctx: Context, policy: Policy, p: Packet, now: Date, env: Env) returns (outcome: Outcome)
    requires reg.Valid()
    modifies reg, reg.RoomAt(p.to.bare), env
    ensures reg.Valid()
    ensures p.stanzaType == Some("error") ==> outcome == Ok
    ensures p.stanzaType != Some("error") && p.to.resource.None? ==> outcome == Rejected(JidMalformed)
    ensures p.stanzaType == Some("unavailable") && p.to.resource.Some? ==> outcome == Ok
    ensures p.stanzaType in {Some("error"), Some("unavailable")} || p.to.resource.None? ==>
      unchanged(reg, env) && (p.to.bare in old(reg.rooms) ==> unchanged(old(reg.rooms[p.to.bare])))
    ensures p.stanzaType !in {Some("error"), Some("unavailable")} && p.to.resource.Some? ==>
      p.to.bare in reg.rooms && (p.to.bare in old(reg.rooms) ==> reg.rooms == old(reg.rooms))
    ensures p.stanzaType !in {Some("error"), Some("unavailable")} && p.to.resource.Some? &&
            p.to.bare !in old(reg.rooms) ==>
      var room := reg.rooms[p.to.bare];
      && room.affiliations == map[p.from.bare := Affiliation.owner] && room.locked == ctx.newRoomLocked
      && (outcome == Ok ==> room.nicknames == map[p.from := p.to.resource.value])
      && (outcome != Ok ==> room.nicknames == map[])
    ensures p.stanzaType !in {Some("error"), Some("unavailable")} && p.to.bare in old(reg.rooms) &&
            p.to.resource.Some? && p.from in old(reg.rooms[p.to.bare].nicknames) &&
            old(reg.rooms[p.to.bare].nicknames[p.from]) != p.to.resource.value ==>
      outcome == Rejected(FeatureNotImplemented) && unchanged(env, old(reg.rooms[p.to.bare]))
  {
    if p.stanzaType == Some("error") {
      return Ok;
    }
    if p.to.resource.None? {
      return Rejected(JidMalformed);
    }
    if p.stanzaType == Some("unavailable") {
      return Ok;
    }
    outcome := Present(reg, ctx, policy, p, p.to.resource.value, now, env);
  }
}
