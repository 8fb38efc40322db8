/** The mediated invitation handler (XEP-0045 section 7.8.2, Mediated
    Invitation): an occupant sends the room a message whose muc#user `x`
    holds `invite` or `decline` children; the room relays each invitation to
    its invitee (adding the invitee to the member list of a members-only
    room), relays each decline to the inviter, and turns an invitation that
    came back as an error into a decline addressed to the original inviter. */
module MediatedInvitationModule {
  import opened MucTypes
  import opened Rooms

  /** The text of the reason in a decline made from a returned invitation. */
  const ReturnedText := "Your invitation is returned with error"

  /** The presence cached for the session an invitation binds. */
  const Placeholder := Element("presence", None, map[], None, [])

  // ---------------------------------------------------------------------
  // What one child of the muc#user `x` asks for
  // ---------------------------------------------------------------------

  /** How a child of the `x` is handled: an `invite` in an error stanza is a
      returned invitation, an `invite` or `decline` in any other stanza is
      relayed, anything else is skipped. */
  datatype Kind = Returned | Invite | Decline | Skipped

  function KindOf(p: Packet, child: Element): Kind
  {
    if p.stanzaType == Some("error") && child.name == "invite" then Returned
    else if child.name == "invite" then Invite
    else if child.name == "decline" && p.stanzaType != Some("error") then Decline
    else Skipped
  }

  /** The outcome of handling one child, from the sender's role and
      affiliation before the loop: an invitation needs a role that may
      invite and, in a members-only room, an affiliation that may edit the
      member list; a relayed element without the address it is relayed to
      dereferences a missing address. */
  function Verdict(p: Packet, child: Element, role: Role, aff: Affiliation, config: RoomConfig, policy: Policy)
    : (r: Outcome)
    ensures r.Rejected? ==> KindOf(p, child) == Invite && r.cond in {NotAllowed, Forbidden}
    ensures r == Rejected(NotAllowed) <==> KindOf(p, child) == Invite && !policy.inviteOtherUsers(role)
    ensures r == Rejected(Forbidden) <==>
      KindOf(p, child) == Invite && policy.inviteOtherUsers(role) && config.membersOnly && !policy.editMemberList(aff)
    ensures r == Fault <==>
      && KindOf(p, child) != Skipped && !Addressed(p, child)
      && (KindOf(p, child) != Invite || (policy.inviteOtherUsers(role) && (!config.membersOnly || policy.editMemberList(aff))))
    ensures KindOf(p, child) == Skipped ==> r == Ok
  {
    match KindOf(p, child)
    case Skipped => Ok
    case Returned => if Addressed(p, child) then Ok else Fault
    case Decline => if Addressed(p, child) then Ok else Fault
    case Invite =>
      if !policy.inviteOtherUsers(role) then Rejected(NotAllowed)
      else if config.membersOnly && !policy.editMemberList(aff) then Rejected(Forbidden)
      else if Addressed(p, child) then Ok
      else Fault
  }

  /** Whether the child carries the address its relay goes to: `from` for a
      returned invitation, `to` otherwise. */
  predicate Addressed(p: Packet, child: Element)
  {
    if KindOf(p, child) == Returned then "from" in child.attrs else "to" in child.attrs
  }

  // ---------------------------------------------------------------------
  // The relayed messages
  // ---------------------------------------------------------------------

  function Optional(e: Option<Element>): seq<Element>
  {
    if e.Some? then [e.value] else []
  }

  function MucUserX(children: seq<Element>): Element
  {
    Element("x", Some(MucUserNs), map[], None, children)
  }

  /** The reason of a decline made from a returned invitation, naming the
      error condition when the stanza has one. */
  function ReturnedReason(condition: Option<string>): string
  {
    ReturnedText + (if condition.None? then "." else ": " + condition.value)
  }

  /** The condition a reader of such a reason recovers from it. */
  function ConditionOfReason(reason: string): Option<string>
  {
    if |reason| >= |ReturnedText| + 2 && reason[|ReturnedText|] == ':' then Some(reason[|ReturnedText| + 2..])
    else None
  }

  /** `processInvitationErrorResponse`: a decline from the invitee's side,
      sent from the room to the original inviter (`from` of the returned
      invitation), with a reason naming the error. */
  function ReturnMessage(p: Packet, invite: Element, room: string): Stanza
    requires "from" in invite.attrs
  {
    var reason := Element("reason", None, map[], Some(ReturnedReason(p.errorCondition)), []);
    var decline := Element("decline", None, map["from" := JidToString(p.from)], None, [reason]);
    Message(Jid(room, None), ParseJid(invite.attrs["from"]), None, None, [MucUserX([decline])])
  }

  /** `doDecline`: the decline relayed from the room to its `to`, naming the
      decliner and keeping its reason. */
  function DeclineMessage(p: Packet, decline: Element, room: string): Stanza
    requires "to" in decline.attrs
  {
    var relayed := Element("decline", None, map["from" := JidToString(p.from)], None,
                           Optional(ChildNamed(decline.children, "reason")));
    Message(Jid(room, None), ParseJid(decline.attrs["to"]), None, None, [MucUserX([relayed])])
  }

  /** The message of `doInvite`: the invitation relayed from the room to
      its `to`, naming the inviter, keeping its reason and continuation,
      with the room password beside it when the room has one and the body
      of the inviting message after it. */
  function InviteMessage(p: Packet, invite: Element, room: string, config: RoomConfig): Stanza
    requires "to" in invite.attrs
  {
    var relayed := Element("invite", None, map["from" := JidToString(p.from)], None,
                           Optional(ChildNamed(invite.children, "reason"))
                           + Optional(ChildNamed(invite.children, "continue")));
    var password := if config.passwordProtected then [Element("password", None, map[], config.password, [])] else [];
    Message(Jid(room, None), ParseJid(invite.attrs["to"]), None, None,
            [MucUserX([relayed] + password)] + Optional(ChildNamed(p.children, "body")))
  }

  /** The messages handling one child writes: one for a returned
      invitation, an invitation or a decline that carries its address,
      none otherwise. */
  function Reply(p: Packet, child: Element, room: string, config: RoomConfig): seq<Stanza>
  {
    if !Addressed(p, child) then []
    else
      match KindOf(p, child)
      case Returned => [ReturnMessage(p, child, room)]
      case Invite => [InviteMessage(p, child, room, config)]
      case Decline => [DeclineMessage(p, child, room)]
      case Skipped => []
  }

  /** The messages handling a sequence of children writes, in order. */
  function Replies(p: Packet, cs: seq<Element>, room: string, config: RoomConfig): seq<Stanza>
  {
    if cs == [] then []
    else Replies(p, cs[..|cs| - 1], room, config) + Reply(p, cs[|cs| - 1], room, config)
  }

  /** How many of the children are returned invitations, invitations or declines. */
  function Handled(p: Packet, cs: seq<Element>): nat
  {
    if cs == [] then 0
    else Handled(p, cs[..|cs| - 1]) + (if KindOf(p, cs[|cs| - 1]) == Skipped then 0 else 1)
  }

  // ---------------------------------------------------------------------
  // The member list
  // ---------------------------------------------------------------------

  /** The affiliations after one child: a relayed invitation makes its
      invitee's bare address a member when `store` (the room is members-only
      and the sender may edit the member list). */
  function StoreInvitee(affs: map<string, Affiliation>, p: Packet, child: Element, store: bool): map<string, Affiliation>
  {
    if store && KindOf(p, child) == Invite && "to" in child.attrs
    then affs[ParseJid(child.attrs["to"]).bare := Affiliation.member]
    else affs
  }

  /** The affiliations after a sequence of children, in order. */
  function Invited(affs: map<string, Affiliation>, p: Packet, cs: seq<Element>, store: bool): map<string, Affiliation>
  {
    if cs == [] then affs
    else StoreInvitee(Invited(affs, p, cs[..|cs| - 1], store), p, cs[|cs| - 1], store)
  }

  /** How many children are handled before the first that does not end
      normally. */
  function FirstRefusal(p: Packet, cs: seq<Element>, role: Role, aff: Affiliation, config: RoomConfig, policy: Policy)
    : (n: nat)
    ensures n <= |cs|
    ensures forall k :: 0 <= k < n ==> Verdict(p, cs[k], role, aff, config, policy) == Ok
    ensures n < |cs| ==> Verdict(p, cs[n], role, aff, config, policy) != Ok
  {
    if cs == [] || Verdict(p, cs[0], role, aff, config, policy) != Ok then 0
    else 1 + FirstRefusal(p, cs[1..], role, aff, config, policy)
  }

  // ---------------------------------------------------------------------
  // Properties of the relays
  // ---------------------------------------------------------------------

  /** The reason of a returned invitation names its condition: a reader
      recovers the condition, or its absence, from the text. */
  lemma ReasonRoundTrip(condition: Option<string>)
    ensures ConditionOfReason(ReturnedReason(condition)) == condition
  {
    var r := ReturnedReason(condition);
    var n := |ReturnedText|;
    if condition.Some? {
      assert r == ReturnedText + ": " + condition.value;
      assert r[n] == ':';
      assert r[n + 2..] == condition.value;
    } else {
      assert r == ReturnedText + ".";
      assert r[n] == '.';
    }
  }

  /** What the invitee reads in a relayed invitation: it comes from the
      room, its muc#user `x` names the inviter and keeps the reason and the
      continuation, carries the password exactly when the room is password
      protected, and the inviting message's body follows. */
  lemma InviteReadBack(p: Packet, invite: Element, room: string, config: RoomConfig)
    requires "to" in invite.attrs
    ensures var m := InviteMessage(p, invite, room, config);
      && m.from == Jid(room, None) && m.to == ParseJid(invite.attrs["to"])
      && var x := ChildNamedNs(m.children, "x", MucUserNs);
      && x.Some?
      && var relayed := ChildNamed(x.value.children, "invite");
      && relayed.Some?
      && Attr(relayed.value, "from") == Some(JidToString(p.from))
      && ChildNamed(relayed.value.children, "reason") == ChildNamed(invite.children, "reason")
      && ChildNamed(relayed.value.children, "continue") == ChildNamed(invite.children, "continue")
      && (ChildNamed(x.value.children, "password").Some? <==> config.passwordProtected)
      && (config.passwordProtected ==> CDataOf(ChildNamed(x.value.children, "password")) == config.password)
      && ChildNamed(m.children, "body") == ChildNamed(p.children, "body")
  {
    var m := InviteMessage(p, invite, room, config);
    var x := m.children[0];
    var relayed := x.children[0];
    var reason := ChildNamed(invite.children, "reason");
    var cont := ChildNamed(invite.children, "continue");
    assert ChildNamedNs(m.children, "x", MucUserNs) == Some(x);
    assert ChildNamed(x.children, "invite") == Some(relayed);
    assert ChildNamed(m.children, "body") == ChildNamed(m.children[1..], "body");
    assert m.children[1..] == Optional(ChildNamed(p.children, "body"));
    assert ChildNamed(x.children, "password") == ChildNamed(x.children[1..], "password");
    if reason.Some? {
      assert ChildNamed(relayed.children, "reason") == reason;
    }
    if cont.Some? {
      assert relayed.children[|relayed.children| - 1] == cont.value;
      if reason.Some? {
        assert ChildNamed(relayed.children, "continue") == ChildNamed(relayed.children[1..], "continue");
        assert relayed.children[1..] == [cont.value];
      }
    }
  }

  /** What the inviter reads in a relayed decline: it comes from the room,
      names the decliner and keeps the decliner's reason. */
  lemma DeclineReadBack(p: Packet, decline: Element, room: string)
    requires "to" in decline.attrs
    ensures var m := DeclineMessage(p, decline, room);
      && m.from == Jid(room, None) && m.to == ParseJid(decline.attrs["to"])
      && var x := ChildNamedNs(m.children, "x", MucUserNs);
      && x.Some?
      && var relayed := ChildNamed(x.value.children, "decline");
      && relayed.Some?
      && Attr(relayed.value, "from") == Some(JidToString(p.from))
      && ChildNamed(relayed.value.children, "reason") == ChildNamed(decline.children, "reason")
  {
    var m := DeclineMessage(p, decline, room);
    assert ChildNamedNs(m.children, "x", MucUserNs) == Some(m.children[0]);
    assert ChildNamed(m.children[0].children, "decline") == Some(m.children[0].children[0]);
  }

  /** What the original inviter reads when its invitation comes back with
      an error: a decline from the room, sent to the invitation's `from`,
      whose reason names the stanza's error condition. */
  lemma ReturnReadBack(p: Packet, invite: Element, room: string)
    requires "from" in invite.attrs
    ensures var m := ReturnMessage(p, invite, room);
      && m.from == Jid(room, None) && m.to == ParseJid(invite.attrs["from"])
      && var x := ChildNamedNs(m.children, "x", MucUserNs);
      && x.Some?
      && var relayed := ChildNamed(x.value.children, "decline");
      && relayed.Some?
      && Attr(relayed.value, "from") == Some(JidToString(p.from))
      && var reason := CDataOf(ChildNamed(relayed.value.children, "reason"));
      && reason.Some? && ConditionOfReason(reason.value) == p.errorCondition
  {
    var m := ReturnMessage(p, invite, room);
    assert ChildNamedNs(m.children, "x", MucUserNs) == Some(m.children[0]);
    assert ChildNamed(m.children[0].children, "decline") == Some(m.children[0].children[0]);
    assert ChildNamed(m.children[0].children[0].children, "reason") == Some(m.children[0].children[0].children[0]);
    ReasonRoundTrip(p.errorCondition);
  }

  /** When every child ends normally, one message is written per returned
      invitation, invitation and decline. */
  lemma {:induction false} OneReplyPerHandled(p: Packet, cs: seq<Element>, room: string, config: RoomConfig,
                                              role: Role, aff: Affiliation, policy: Policy)
    requires forall k :: 0 <= k < |cs| ==> Verdict(p, cs[k], role, aff, config, policy) == Ok
    ensures |Replies(p, cs, room, config)| == Handled(p, cs)
  {
    if cs != [] {
      var init := cs[..|cs| - 1];
      assert forall k :: 0 <= k < |init| ==> init[k] == cs[k];
      OneReplyPerHandled(p, init, room, config, role, aff, policy);
      assert Verdict(p, cs[|cs| - 1], role, aff, config, policy) == Ok;
    }
  }

  /** An error stanza, or a sender whose invitations are not stored, leaves
      the member list as it was. */
  lemma {:induction false} NothingStored(affs: map<string, Affiliation>, p: Packet, cs: seq<Element>, store: bool)
    requires p.stanzaType == Some("error") || !store
    ensures Invited(affs, p, cs, store) == affs
  {
    if cs != [] {
      NothingStored(affs, p, cs[..|cs| - 1], store);
    }
  }

  /** In a members-only room every relayed invitee ends up a member, and no
      other address changes affiliation. */
  lemma {:induction false} InviteesBecomeMembers(affs: map<string, Affiliation>, p: Packet, cs: seq<Element>)
    ensures forall c :: c in cs && KindOf(p, c) == Invite && "to" in c.attrs ==>
      var b := ParseJid(c.attrs["to"]).bare;
      b in Invited(affs, p, cs, true) && Invited(affs, p, cs, true)[b] == Affiliation.member
    ensures forall b :: b in affs && b !in Invitees(p, cs) ==>
      b in Invited(affs, p, cs, true) && Invited(affs, p, cs, true)[b] == affs[b]
    ensures Invited(affs, p, cs, true).Keys == affs.Keys + Invitees(p, cs)
  {
    if cs != [] {
      var init := cs[..|cs| - 1];
      InviteesBecomeMembers(affs, p, init);
      forall c | c in cs
        ensures c in init || c == cs[|cs| - 1]
      {
        var i :| 0 <= i < |cs| && cs[i] == c;
        if i < |cs| - 1 {
          assert init[i] == c;
        }
      }
    }
  }

  /** The bare addresses of the relayed invitees. */
  function Invitees(p: Packet, cs: seq<Element>): set<string>
  {
    if cs == [] then {}
    else
      var c := cs[|cs| - 1];
      Invitees(p, cs[..|cs| - 1])
        + (if KindOf(p, c) == Invite && "to" in c.attrs then {ParseJid(c.attrs["to"]).bare} else {})
  }

  // ---------------------------------------------------------------------
  // The sender's session
  // ---------------------------------------------------------------------

  /** The nickname an invitation binds the sender to: the invitee's
      address, written out. */
  function InviteNick(invite: Element): string
    requires "to" in invite.attrs
  {
    JidToString(ParseJid(invite.attrs["to"]))
  }

  /** The roster after one child that ended normally: an invitation binds
      the sender's session to its nickname with the default role of a
      member and the placeholder presence, unless another bare address
      holds that nickname; any other child leaves the roster alone. */
  function Bind(r: Roster, p: Packet, child: Element, config: RoomConfig): Roster
  {
    if KindOf(p, child) == Invite && "to" in child.attrs then
      var nick := InviteNick(child);
      if nick in r.occupants && r.occupants[nick].bare != p.from.bare then r
      else Roster(r.nicknames[p.from := nick],
                  Attach(Detach(r.occupants, r.nicknames, p.from), p.from, nick, DefaultRole(config, Affiliation.member)),
                  r.presences[p.from := Placeholder])
    else r
  }

  /** The roster after a sequence of children, in order. */
  function Bound(r: Roster, p: Packet, cs: seq<Element>, config: RoomConfig): Roster
  {
    if cs == [] then r
    else Bind(Bound(r, p, cs[..|cs| - 1], config), p, cs[|cs| - 1], config)
  }

  /** Only the sender's session is touched: no session leaves, the only
      one that may join is the sender's, and every other session keeps its
      nickname and cached presence. */
  lemma {:induction false} OnlyTheSenderMoves(r: Roster, p: Packet, cs: seq<Element>, config: RoomConfig)
    ensures var b := Bound(r, p, cs, config);
      && r.nicknames.Keys <= b.nicknames.Keys <= r.nicknames.Keys + {p.from}
      && r.presences.Keys <= b.presences.Keys <= r.presences.Keys + {p.from}
      && (forall j :: j in r.nicknames && j != p.from ==> b.nicknames[j] == r.nicknames[j])
      && (forall j :: j in r.presences && j != p.from ==> b.presences[j] == r.presences[j])
  {
    if cs != [] {
      OnlyTheSenderMoves(r, p, cs[..|cs| - 1], config);
    }
  }

  /** The sender ends either as it was or under the nickname of one of the
      invitations. */
  lemma {:induction false} SenderUnderSomeInvite(r: Roster, p: Packet, cs: seq<Element>, config: RoomConfig)
    ensures var b := Bound(r, p, cs, config);
      p.from in b.nicknames ==>
        || (p.from in r.nicknames && b.nicknames[p.from] == r.nicknames[p.from])
        || exists c :: c in cs && KindOf(p, c) == Invite && "to" in c.attrs && b.nicknames[p.from] == InviteNick(c)
  {
    if cs != [] {
      var init := cs[..|cs| - 1];
      SenderUnderSomeInvite(r, p, init, config);
      var b := Bound(r, p, cs, config);
      var a := Bound(r, p, init, config);
      var c := cs[|cs| - 1];
      if p.from in b.nicknames && b != a {
        assert c in cs && KindOf(p, c) == Invite && "to" in c.attrs && b.nicknames[p.from] == InviteNick(c);
      } else if p.from in b.nicknames && !(p.from in r.nicknames && b.nicknames[p.from] == r.nicknames[p.from]) {
        var c' :| c' in init && KindOf(p, c') == Invite && "to" in c'.attrs && a.nicknames[p.from] == InviteNick(c');
        assert c' in cs;
      }
    }
  }

  /** Without an invitation among the children (an error stanza has none)
      the roster is as it was. */
  lemma {:induction false} NoInviteNoBinding(r: Roster, p: Packet, cs: seq<Element>, config: RoomConfig)
    requires forall k :: 0 <= k < |cs| ==> KindOf(p, cs[k]) != Invite
    ensures Bound(r, p, cs, config) == r
  {
    if cs != [] {
      NoInviteNoBinding(r, p, cs[..|cs| - 1], config);
      assert KindOf(p, cs[|cs| - 1]) != Invite;
    }
  }

  /** The sender ends bound under the nickname of the last invitation whose
      nickname was free when it was handled: the session is there, under
      that nickname, with the placeholder presence. */
  lemma {:induction false} BoundUnderLastFree(r: Roster, p: Packet, cs: seq<Element>, config: RoomConfig, k: nat)
    requires k < |cs| && KindOf(p, cs[k]) == Invite && "to" in cs[k].attrs
    requires !NickTaken(Bound(r, p, cs[..k], config), p, cs[k])
    requires forall m :: k < m < |cs| && KindOf(p, cs[m]) == Invite && "to" in cs[m].attrs ==>
      NickTaken(Bound(r, p, cs[..m], config), p, cs[m])
    ensures var b := Bound(r, p, cs, config);
      p.from in b.nicknames && b.nicknames[p.from] == InviteNick(cs[k])
      && p.from in b.presences && b.presences[p.from] == Placeholder
    decreases |cs|
  {
    var init := cs[..|cs| - 1];
    if k == |cs| - 1 {
      assert init == cs[..k];
    } else {
      assert init[..k] == cs[..k];
      forall m | k < m < |init| && KindOf(p, init[m]) == Invite && "to" in init[m].attrs
        ensures NickTaken(Bound(r, p, init[..m], config), p, init[m])
      {
        assert init[..m] == cs[..m] && init[m] == cs[m];
      }
      BoundUnderLastFree(r, p, init, config, k);
      var m := |cs| - 1;
      assert init == cs[..m];
      if KindOf(p, cs[m]) == Invite && "to" in cs[m].attrs {
        assert NickTaken(Bound(r, p, cs[..m], config), p, cs[m]);
      }
    }
  }

  /** Another bare address holds the nickname of the invitation. */
  predicate NickTaken(r: Roster, p: Packet, invite: Element)
    requires "to" in invite.attrs
  {
    InviteNick(invite) in r.occupants && r.occupants[InviteNick(invite)].bare != p.from.bare
  }

  // ---------------------------------------------------------------------
  // The handler
  // ---------------------------------------------------------------------

  /** `doInvite` after its checks pass: the inviter's session is bound to a
      nickname spelled as the invitee's address, with the default role of a
      member (a conflict is swallowed, changing nothing); in a members-only
      room whose sender may edit the member list the invitee becomes a
      member; the relayed invitation is returned for writing. */
  method DoInvite(room: Room, p: Packet, invite: Element, role: Role, aff: Affiliation, policy: Policy)
      returns (outcome: Outcome, reply: seq<Stanza>)
    requires room.Valid() && KindOf(p, invite) == Invite
    modifies room`nicknames, room`occupants, room`presences, room`affiliations
    ensures room.Valid()
    ensures outcome == Verdict(p, invite, role, aff, room.config, policy)
    ensures reply == (if outcome == Ok then Reply(p, invite, room.jid, room.config) else [])
    ensures outcome != Ok ==> unchanged(room)
    ensures outcome == Ok ==>
      room.affiliations == StoreInvitee(old(room.affiliations), p, invite, room.config.membersOnly && policy.editMemberList(aff))
    ensures outcome == Ok ==>
      var nick := JidToString(ParseJid(invite.attrs["to"]));
      if old(room.NickHeldByOther(nick, p.from.bare)) then
        room.nicknames == old(room.nicknames) && room.occupants == old(room.occupants)
        && room.presences == old(room.presences)
      else
        room.nicknames == old(room.nicknames)[p.from := nick] && room.presences == old(room.presences)[p.from := Placeholder]
        && room.occupants == Attach(Detach(old(room.occupants), old(room.nicknames), p.from), p.from, nick,
                                    DefaultRole(room.config, Affiliation.member))
  {
    if !policy.inviteOtherUsers(role) {
      return Rejected(NotAllowed), [];
    }
    if room.config.membersOnly && !policy.editMemberList(aff) {
      return Rejected(Forbidden), [];
    }
    if "to" !in invite.attrs {
      return Fault, [];
    }
    var recipient := ParseJid(invite.attrs["to"]);
    var _ := room.AddOccupant(p.from, JidToString(recipient), DefaultRole(room.config, Affiliation.member), Placeholder);
    if room.config.membersOnly && policy.editMemberList(aff) {
      room.AddAffiliation(recipient.bare, Affiliation.member);
    }
    outcome := Ok;
    reply := [InviteMessage(p, invite, room.jid, room.config)];
  }

  /** The children the handler walks: those of the stanza's muc#user `x`.
      A stanza without that `x`, or whose `x` is empty, makes the handler
      dereference a missing list. */
  function Payload(p: Packet): Option<seq<Element>>
  {
    var x := ChildNamedNs(p.children, "x", MucUserNs);
    if x.Some? && x.value.children != [] then Some(x.value.children) else None
  }

  /** The first child that does not end normally is the one `FirstRefusal` names. */
  lemma {:induction false} FirstRefusalIs(p: Packet, cs: seq<Element>, role: Role, aff: Affiliation, config: RoomConfig,
                                          policy: Policy, n: nat)
    requires n <= |cs|
    requires forall k :: 0 <= k < n ==> Verdict(p, cs[k], role, aff, config, policy) == Ok
    requires n < |cs| ==> Verdict(p, cs[n], role, aff, config, policy) != Ok
    ensures FirstRefusal(p, cs, role, aff, config, policy) == n
  {
    if n > 0 {
      assert Verdict(p, cs[0], role, aff, config, policy) == Ok;
      assert forall k :: 0 <= k < n - 1 ==> cs[1..][k] == cs[k + 1];
      FirstRefusalIs(p, cs[1..], role, aff, config, policy, n - 1);
    }
  }

  /** One more child handled extends the messages and the member list by
      that child's. */
  lemma Step(p: Packet, ch: seq<Element>, i: nat, room: string, config: RoomConfig,
             sent: seq<Stanza>, affs: map<string, Affiliation>, store: bool, roster: Roster)
    requires i < |ch|
    ensures sent + Replies(p, ch[..i + 1], room, config) ==
            (sent + Replies(p, ch[..i], room, config)) + Reply(p, ch[i], room, config)
    ensures Invited(affs, p, ch[..i + 1], store) == StoreInvitee(Invited(affs, p, ch[..i], store), p, ch[i], store)
    ensures Bound(roster, p, ch[..i + 1], config) == Bind(Bound(roster, p, ch[..i], config), p, ch[i], config)
  {
    assert ch[..i + 1][..i] == ch[..i];
    assert ch[..i + 1][i] == ch[i];
  }

  /** The start of `process` once the room is found: the sender's role and
      affiliation are read once, then the children of the muc#user `x` are
      walked. */
  method HandleAll(room: Room, policy: Policy, p: Packet, env: Env) returns (outcome: Outcome)
    requires room.Valid()
    modifies room`nicknames, room`occupants, room`presences, room`affiliations, env
    ensures room.Valid() && env.calls == old(env.calls)
    ensures Payload(p).None? ==> outcome == Fault && env.sent == old(env.sent) && unchanged(room)
    ensures Payload(p).Some? ==>
      var ch := Payload(p).value;
      var role := old(room.RoleOf(room.NicknameOf(p.from)));
      var aff := old(room.AffiliationOf(p.from.bare));
      var n := FirstRefusal(p, ch, role, aff, room.config, policy);
      && outcome == (if n < |ch| then Verdict(p, ch[n], role, aff, room.config, policy) else Ok)
      && env.sent == old(env.sent) + Replies(p, ch[..n], room.jid, room.config)
      && room.affiliations ==
         Invited(old(room.affiliations), p, ch[..n], room.config.membersOnly && policy.editMemberList(aff))
      && room.RosterOf() == Bound(old(room.RosterOf()), p, ch[..n], room.config)
    ensures room.nicknames.Keys <= old(room.nicknames).Keys + {p.from}
    ensures forall j :: j in old(room.nicknames) && j != p.from ==>
      j in room.nicknames && room.nicknames[j] == old(room.nicknames)[j] && room.presences[j] == old(room.presences)[j]
    ensures p.stanzaType == Some("error") ==> room.RosterOf() == old(room.RosterOf())
  {
    var role := room.RoleOf(room.NicknameOf(p.from));
    var aff := room.AffiliationOf(p.from.bare);
    var payload := Payload(p);
    if payload.None? {
      return Fault;
    }
    ghost var before := room.RosterOf();
    outcome := Walk(room, policy, p, payload.value, role, aff, env);
    ghost var walked := payload.value[..FirstRefusal(p, payload.value, role, aff, room.config, policy)];
    OnlyTheSenderMoves(before, p, walked, room.config);
    if p.stanzaType == Some("error") {
      NoInviteNoBinding(before, p, walked, room.config);
    }
  }

  /** The loop of `process`: each child, in order, is handled with the
      sender's role and affiliation as they were before the loop; the first
      child that does not end normally ends the handler, and the messages
      written and the members stored before it stay. */
  method Walk(room: Room, policy: Policy, p: Packet, ch: seq<Element>, role: Role, aff: Affiliation, env: Env)
      returns (outcome: Outcome)
    requires room.Valid()
    modifies room`nicknames, room`occupants, room`presences, room`affiliations, env
    ensures room.Valid() && env.calls == old(env.calls)
    ensures var n := FirstRefusal(p, ch, role, aff, room.config, policy);
      && outcome == (if n < |ch| then Verdict(p, ch[n], role, aff, room.config, policy) else Ok)
      && env.sent == old(env.sent) + Replies(p, ch[..n], room.jid, room.config)
      && room.affiliations ==
         Invited(old(room.affiliations), p, ch[..n], room.config.membersOnly && policy.editMemberList(aff))
      && room.RosterOf() == Bound(old(room.RosterOf()), p, ch[..n], room.config)
  {
    ghost var n;
    outcome, n := Loop(room, policy, p, ch, role, aff, env);
  }

  /** The loop itself: it stops at the first child that does not end
      normally, and everything before it is walked. */
  method Loop(room: Room, policy: Policy, p: Packet, ch: seq<Element>, role: Role, aff: Affiliation, env: Env)
      returns (outcome: Outcome, ghost n: nat)
    requires room.Valid()
    modifies room`nicknames, room`occupants, room`presences, room`affiliations, env
    ensures room.Valid() && env.calls == old(env.calls)
    ensures n == FirstRefusal(p, ch, role, aff, room.config, policy)
    ensures outcome == (if n < |ch| then Verdict(p, ch[n], role, aff, room.config, policy) else Ok)
    ensures Walked(p, ch, n, role, aff, room.config, policy, room.jid,
                   room.config.membersOnly && policy.editMemberList(aff), old(env.sent), env.sent,
                   old(room.affiliations), room.affiliations, old(room.RosterOf()), room.RosterOf())
  {
    ghost var jid, config := room.jid, room.config;
    ghost var sent0 := env.sent;
    ghost var affs0 := room.affiliations;
    ghost var store := config.membersOnly && policy.editMemberList(aff);
    ghost var roster0 := room.RosterOf();
    var i := 0;
    while i < |ch|
      invariant room.Valid() && room.jid == jid && room.config == config
      invariant Walked(p, ch, i, role, aff, config, policy, jid, store, sent0, env.sent, affs0, room.affiliations,
                       roster0, room.RosterOf())
      invariant env.calls == old(env.calls)
    {
      var verdict := Turn(room, policy, p, ch, i, role, aff, env, jid, config, store, sent0, affs0, roster0);
      if verdict != Ok {
        FirstRefusalIs(p, ch, role, aff, config, policy, i);
        return verdict, i;
      }
      i := i + 1;
    }
    FirstRefusalIs(p, ch, role, aff, config, policy, |ch|);
    outcome, n := Ok, |ch|;
  }

  /** The first `i` children ended normally, and the messages written and
      the affiliations stored are theirs. */
  ghost predicate Walked(p: Packet, ch: seq<Element>, i: nat, role: Role, aff: Affiliation, config: RoomConfig,
                         policy: Policy, jid: string, store: bool, sent0: seq<Stanza>, sent: seq<Stanza>,
                         affs0: map<string, Affiliation>, affs: map<string, Affiliation>, roster0: Roster, roster: Roster)
  {
    && i <= |ch|
    && (forall k :: 0 <= k < i ==> Verdict(p, ch[k], role, aff, config, policy) == Ok)
    && sent == sent0 + Replies(p, ch[..i], jid, config)
    && affs == Invited(affs0, p, ch[..i], store)
    && roster == Bound(roster0, p, ch[..i], config)
  }

  /** One turn of the loop: the `i`th child is handled and, when that ends
      normally, its message written. */
  method Turn(room: Room, policy: Policy, p: Packet, ch: seq<Element>, i: nat, role: Role, aff: Affiliation, env: Env,
              ghost jid: string, ghost config: RoomConfig, ghost store: bool, ghost sent0: seq<Stanza>,
              ghost affs0: map<string, Affiliation>, ghost roster0: Roster)
      returns (verdict: Outcome)
    requires i < |ch| && room.Valid() && jid == room.jid && config == room.config
    requires store == (config.membersOnly && policy.editMemberList(aff))
    requires Walked(p, ch, i, role, aff, config, policy, jid, store, sent0, env.sent, affs0, room.affiliations,
                    roster0, room.RosterOf())
    modifies room`nicknames, room`occupants, room`presences, room`affiliations, env
    ensures room.Valid() && env.calls == old(env.calls)
    ensures verdict == Verdict(p, ch[i], role, aff, room.config, policy)
    ensures verdict != Ok ==>
      env.sent == old(env.sent) && room.affiliations == old(room.affiliations) && room.RosterOf() == old(room.RosterOf())
    ensures verdict == Ok ==>
      Walked(p, ch, i + 1, role, aff, config, policy, jid, store, sent0, env.sent, affs0, room.affiliations,
             roster0, room.RosterOf())
  {
    var reply;
    verdict, reply := HandleChild(room, policy, p, ch[i], role, aff);
    if verdict == Ok {
      Step(p, ch, i, room.jid, room.config, sent0, affs0, store, roster0);
      env.Write(reply);
    }
  }

  /** Handling one child: a returned invitation, an invitation or a
      decline is handled, anything else skipped. */
  method HandleChild(room: Room, policy: Policy, p: Packet, child: Element, role: Role, aff: Affiliation)
      returns (verdict: Outcome, reply: seq<Stanza>)
    requires room.Valid()
    modifies room`nicknames, room`occupants, room`presences, room`affiliations
    ensures room.Valid()
    ensures verdict == Verdict(p, child, role, aff, room.config, policy)
    ensures verdict == Ok ==> reply == Reply(p, child, room.jid, room.config)
    ensures verdict != Ok ==> room.affiliations == old(room.affiliations)
    ensures verdict == Ok ==>
      room.affiliations == StoreInvitee(old(room.affiliations), p, child, room.config.membersOnly && policy.editMemberList(aff))
    ensures verdict == Ok ==> room.RosterOf() == Bind(old(room.RosterOf()), p, child, room.config)
    ensures verdict != Ok ==> room.RosterOf() == old(room.RosterOf())
  {
    match KindOf(p, child)
    case Invite =>
      ghost var before := room.RosterOf();
      verdict, reply := DoInvite(room, p, child, role, aff, policy);
      if verdict == Ok {
        assert NickTaken(before, p, child) == old(room.NickHeldByOther(InviteNick(child), p.from.bare));
      }
    case Returned =>
      verdict := Verdict(p, child, role, aff, room.config, policy);
      reply := Reply(p, child, room.jid, room.config);
    case Decline =>
      verdict := Verdict(p, child, role, aff, room.config, policy);
      reply := Reply(p, child, room.jid, room.config);
    case Skipped =>
      verdict := Ok;
      reply := Reply(p, child, room.jid, room.config);
  }

  /** `process`: an address with a resource is refused; an absent room is
      dereferenced (the null check in `doInvite` comes too late); otherwise
      the children of the muc#user `x` are handled in order. */
  method Process(reg: Registry, policy: Policy, p: Packet, env: Env) returns (outcome: Outcome)
    requires reg.Valid()
    modifies reg.RoomAt(p.to.bare), env
    ensures reg.Valid() && reg.rooms == old(reg.rooms)
    ensures env.calls == old(env.calls)
    ensures p.to.resource.Some? ==> outcome == Rejected(BadRequest) && env.sent == old(env.sent)
    ensures p.to.resource.None? && p.to.bare !in reg.rooms ==> outcome == Fault && env.sent == old(env.sent)
    ensures outcome.Rejected? ==> outcome.cond in {BadRequest, NotAllowed, Forbidden}
    ensures outcome.Rejected? && outcome.cond != BadRequest ==> p.to.resource.None? && p.to.bare in reg.rooms
  {
    if p.to.resource.Some? {
      return Rejected(BadRequest);
    }
    if p.to.bare !in reg.rooms {
      return Fault;
    }
    outcome := HandleAll(reg.rooms[p.to.bare], policy, p, env);
  }
}
