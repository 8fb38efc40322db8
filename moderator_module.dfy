/** The muc#admin handler (XEP-0045 sections 8.2, 9.1 and 9.5): moderators
    and admins change roles and affiliations with an IQ `set`, and admins and
    owners ask for the occupants with a given role or affiliation with a
    `get`. */
module ModeratorModule {
  import opened MucTypes
  import opened Rooms
  import opened AbstractModule

  const AdminNs := "http://jabber.org/protocol/muc#admin"

  /** An attribute that names a constant of an enumeration: absent, one of
      the constants, or a name `valueOf` refuses with an exception that
      escapes the handler. */
  datatype Named<T> = Absent | Known(value: T) | Unknown

  function OptionOf<T>(n: Named<T>): Option<T>
  {
    if n.Known? then Some(n.value) else None
  }

  /** `Role.name()` */
  function RoleName(r: Role): string
  {
    match r
    case moderator => "moderator"
    case participant => "participant"
    case visitor => "visitor"
    case none => "none"
  }

  /** `Affiliation.name()` */
  function AffiliationName(a: Affiliation): string
  {
    match a
    case owner => "owner"
    case admin => "admin"
    case member => "member"
    case none => "none"
    case outcast => "outcast"
  }

  /** `getRole`: the item's `role` attribute read as a role. */
  function RoleAttr(item: Element): (r: Named<Role>)
    ensures r.Absent? <==> "role" !in item.attrs
    ensures r.Known? ==> item.attrs["role"] == RoleName(r.value)
    ensures r.Unknown? <==> "role" in item.attrs && forall x :: RoleName(x) != item.attrs["role"]
  {
    if "role" !in item.attrs then Absent
    else
      var s := item.attrs["role"];
      if s == "moderator" then Known(Role.moderator)
      else if s == "participant" then Known(Role.participant)
      else if s == "visitor" then Known(Role.visitor)
      else if s == "none" then Known(Role.none)
      else Unknown
  }

  /** `getAffiliation`: the item's `affiliation` attribute read as an affiliation. */
  function AffiliationAttr(item: Element): (r: Named<Affiliation>)
    ensures r.Absent? <==> "affiliation" !in item.attrs
    ensures r.Known? ==> item.attrs["affiliation"] == AffiliationName(r.value)
    ensures r.Unknown? <==> "affiliation" in item.attrs && forall x :: AffiliationName(x) != item.attrs["affiliation"]
  {
    if "affiliation" !in item.attrs then Absent
    else
      var s := item.attrs["affiliation"];
      if s == "owner" then Known(Affiliation.owner)
      else if s == "admin" then Known(Affiliation.admin)
      else if s == "member" then Known(Affiliation.member)
      else if s == "none" then Known(Affiliation.none)
      else if s == "outcast" then Known(Affiliation.outcast)
      else Unknown
  }

  /** An item naming a role or an affiliation by its constant's name reads
      back as that constant. */
  lemma NamesReadBack(item: Element, r: Role, a: Affiliation)
    ensures Attr(item, "role") == Some(RoleName(r)) ==> RoleAttr(item) == Known(r)
    ensures Attr(item, "affiliation") == Some(AffiliationName(a)) ==> AffiliationAttr(item) == Known(a)
  {
  }

  /** `getReason`: the text of the item's `reason` child. */
  function Reason(item: Element): Option<string>
  {
    CDataOf(ChildNamed(item.children, "reason"))
  }

  /** The permission matrix of `checkItem` for one occupant the item
      addresses, whose affiliation is `target`. A role change needs the
      sender's role to kick, grant or revoke voice, or the sender's
      affiliation to edit the moderator list; kicking, revoking voice,
      banning and removing an affiliation also need the sender to outrank
      the target. An affiliation change needs a `jid`, and the matching
      edit-list or ban capability. Exactly one of role and affiliation must
      be given. */
  function Denial(newRole: Option<Role>, newAff: Option<Affiliation>, hasJid: bool, target: Affiliation,
                  senderAff: Affiliation, senderRole: Role, policy: Policy): (r: Option<Condition>)
    ensures r == Some(BadRequest) <==> newRole.Some? == newAff.Some? || (newAff.Some? && !hasJid)
    ensures r.Some? ==> r.value == BadRequest || r.value == NotAllowed
    ensures newRole.Some? && newAff.None? ==>
      var outranks := policy.weight(target) < policy.weight(senderAff);
      (r.None? <==>
        && (newRole.value == Role.none ==> policy.kickParticipantsAndVisitors(senderRole) && outranks)
        && (newRole.value == Role.participant ==> policy.grantVoice(senderRole))
        && (newRole.value == Role.visitor ==> policy.revokeVoice(senderRole) && outranks)
        && (newRole.value == Role.moderator ==> policy.editModeratorList(senderAff)))
    ensures newRole.None? && newAff.Some? && hasJid ==>
      var outranks := policy.weight(target) < policy.weight(senderAff);
      (r.None? <==>
        && (newAff.value == Affiliation.outcast ==> policy.banMembersAndUnaffiliated(senderAff) && outranks)
        && (newAff.value == Affiliation.member ==> policy.editMemberList(senderAff))
        && (newAff.value == Affiliation.admin ==> policy.editAdminList(senderAff))
        && (newAff.value == Affiliation.owner ==> policy.editOwnerList(senderAff))
        && (newAff.value == Affiliation.none ==> outranks))
  {
    var outranks := policy.weight(target) < policy.weight(senderAff);
    if newRole.Some? && newAff.None? then
      if newRole.value == Role.none && !policy.kickParticipantsAndVisitors(senderRole) then Some(NotAllowed)
      else if newRole.value == Role.none && !outranks then Some(NotAllowed)
      else if newRole.value == Role.participant && !policy.grantVoice(senderRole) then Some(NotAllowed)
      else if newRole.value == Role.visitor && !policy.revokeVoice(senderRole) then Some(NotAllowed)
      else if newRole.value == Role.visitor && !outranks then Some(NotAllowed)
      else if newRole.value == Role.moderator && !policy.editModeratorList(senderAff) then Some(NotAllowed)
      else None
    else if newRole.None? && newAff.Some? then
      if !hasJid then Some(BadRequest)
      else if newAff.value == Affiliation.outcast && !policy.banMembersAndUnaffiliated(senderAff) then Some(NotAllowed)
      else if newAff.value == Affiliation.outcast && !outranks then Some(NotAllowed)
      else if newAff.value == Affiliation.member && !policy.editMemberList(senderAff) then Some(NotAllowed)
      else if newAff.value == Affiliation.admin && !policy.editAdminList(senderAff) then Some(NotAllowed)
      else if newAff.value == Affiliation.owner && !policy.editOwnerList(senderAff) then Some(NotAllowed)
      else if newAff.value == Affiliation.none && !outranks then Some(NotAllowed)
      else None
    else Some(BadRequest)
  }

  /** The bare address of the occupant an item addresses, if one is present:
      the holder of the item's `nick`, or, without a `nick`, the bare part of
      its `jid` if that address holds a nickname. */
  function TargetBare(room: Room, item: Element): Option<string>
    reads room
  {
    TargetIn(room.occupants, item)
  }

  /** TargetBare, read from a roster's nicknames. */
  function TargetIn(occupants: map<string, Occupant>, item: Element): Option<string>
  {
    if "nick" in item.attrs then
      (if item.attrs["nick"] in occupants then Some(occupants[item.attrs["nick"]].bare) else None)
    else if "jid" in item.attrs && exists n :: n in occupants && occupants[n].bare == ParseJid(item.attrs["jid"]).bare then
      Some(ParseJid(item.attrs["jid"]).bare)
    else None
  }

  /** `getOccupantJidsFromItem`: the sessions under the item's `nick`, or,
      without one, under a nickname the bare part of its `jid` holds; none
      for an item with neither. */
  method OccupantJidsFromItem(room: Room, item: Element) returns (jids: set<Jid>)
    requires room.Valid()
    ensures jids <= room.AllJids()
    ensures "nick" in item.attrs ==> jids == room.JidsOf(Some(item.attrs["nick"]))
    ensures jids == {} <==> TargetBare(room, item).None?
    ensures forall j :: j in jids ==> TargetBare(room, item) == Some(j.bare)
    ensures "nick" !in item.attrs && "jid" in item.attrs && jids != {} ==>
      exists n :: n in room.occupants && room.occupants[n].bare == ParseJid(item.attrs["jid"]).bare &&
                  jids == room.occupants[n].jids
  {
    if "nick" in item.attrs {
      jids := room.JidsOf(Some(item.attrs["nick"]));
      if item.attrs["nick"] in room.occupants {
        ghost var j :| j in room.occupants[item.attrs["nick"]].jids;
      }
    } else if "jid" in item.attrs {
      var n := room.NicknameOfBare(ParseJid(item.attrs["jid"]).bare);
      jids := room.JidsOf(n);
      if n.Some? {
        ghost var j :| j in room.occupants[n.value].jids;
      }
    } else {
      jids := {};
    }
  }

  /** What `checkItem` does with one item: an unreadable role or affiliation
      escapes as an exception; an item that addresses no present occupant
      passes whatever it asks; otherwise the permission matrix decides for
      the addressed occupant's affiliation. */
  function ItemVerdict(room: Room, item: Element, senderAff: Affiliation, senderRole: Role, policy: Policy): (r: Outcome)
    reads room
    ensures r == Fault <==> RoleAttr(item).Unknown? || AffiliationAttr(item).Unknown?
    ensures r.Rejected? ==> TargetBare(room, item).Some?
    ensures r.Rejected? ==> r.cond == BadRequest || r.cond == NotAllowed
  {
    var newRole := RoleAttr(item);
    var newAff := AffiliationAttr(item);
    if newRole.Unknown? || newAff.Unknown? then Fault
    else
      var target := TargetBare(room, item);
      if target.None? then Ok
      else
        var d := Denial(OptionOf(newRole), OptionOf(newAff), "jid" in item.attrs, room.AffiliationOf(target.value),
                        senderAff, senderRole, policy);
        if d.Some? then Rejected(d.value) else Ok
  }

  /** `checkItem`: the checks run once per session the item addresses, the
      first failing one ending the handler. */
  method CheckItem(room: Room, item: Element, senderAff: Affiliation, senderRole: Role, policy: Policy)
      returns (outcome: Outcome)
    requires room.Valid()
    ensures outcome == ItemVerdict(room, item, senderAff, senderRole, policy)
  {
    var newRole := RoleAttr(item);
    if newRole.Unknown? {
      return Fault;
    }
    var newAff := AffiliationAttr(item);
    if newAff.Unknown? {
      return Fault;
    }
    var d := CheckSessions(room, item, OptionOf(newRole), OptionOf(newAff), senderAff, senderRole, policy);
    outcome := if d.Some? then Rejected(d.value) else Ok;
  }

  /** The loop of `checkItem` over the sessions the item addresses: the
      first denial, if any session is denied. */
  method CheckSessions(room: Room, item: Element, newRole: Option<Role>, newAff: Option<Affiliation>,
                       senderAff: Affiliation, senderRole: Role, policy: Policy) returns (d: Option<Condition>)
    requires room.Valid()
    ensures var target := TargetBare(room, item);
      d == if target.None? then None
           else Denial(newRole, newAff, "jid" in item.attrs, room.AffiliationOf(target.value), senderAff, senderRole, policy)
  {
    var jids := OccupantJidsFromItem(room, item);
    var order := SetToSeq(jids);
    for i := 0 to |order|
      invariant forall k :: 0 <= k < i ==>
        Denial(newRole, newAff, "jid" in item.attrs, room.AffiliationOf(order[k].bare), senderAff, senderRole, policy).None?
    {
      d := Denial(newRole, newAff, "jid" in item.attrs, room.AffiliationOf(order[i].bare), senderAff, senderRole, policy);
      if d.Some? {
        assert order[i] in jids;
        return;
      }
    }
    if jids != {} {
      ghost var j :| j in jids;
      assert j in order;
    }
    d := None;
  }

  /** The check as the handler evidently means it: the apply pass stores an
      affiliation for the bare part of the item's `jid`, so an affiliation
      item is checked against that address's affiliation, whether or not it
      is present, and without a `jid` it is a BAD_REQUEST; a role item, which
      acts only on the occupant it addresses, is checked as written. */
  function IntendedVerdict(room: Room, item: Element, senderAff: Affiliation, senderRole: Role, policy: Policy)
      : (r: Outcome)
    reads room
    ensures r == Fault <==> RoleAttr(item).Unknown? || AffiliationAttr(item).Unknown?
    ensures r.Rejected? ==> r.cond == BadRequest || r.cond == NotAllowed
    ensures AffiliationAttr(item).Known? && !RoleAttr(item).Unknown? ==>
      (r == Rejected(BadRequest) <==> RoleAttr(item).Known? || "jid" !in item.attrs)
    ensures AffiliationAttr(item).Known? && r == Ok ==>
      && "jid" in item.attrs && RoleAttr(item).Absent?
      && Denial(None, Some(AffiliationAttr(item).value), true, room.AffiliationOf(ParseJid(item.attrs["jid"]).bare),
                senderAff, senderRole, policy).None?
    ensures AffiliationAttr(item).Absent? ==> r == ItemVerdict(room, item, senderAff, senderRole, policy)
  {
    var newRole := RoleAttr(item);
    var newAff := AffiliationAttr(item);
    if newRole.Unknown? || newAff.Unknown? then Fault
    else if newAff.Known? then
      var target := if "jid" in item.attrs then room.AffiliationOf(ParseJid(item.attrs["jid"]).bare) else Affiliation.none;
      var d := Denial(OptionOf(newRole), Some(newAff.value), "jid" in item.attrs, target, senderAff, senderRole, policy);
      if d.Some? then Rejected(d.value) else Ok
    else ItemVerdict(room, item, senderAff, senderRole, policy)
  }

  /** The corrected `checkItem`: an affiliation item is checked once, against
      the address it names; any other item as written. */
  method CheckIntended(room: Room, item: Element, senderAff: Affiliation, senderRole: Role, policy: Policy)
      returns (outcome: Outcome)
    requires room.Valid()
    ensures outcome == IntendedVerdict(room, item, senderAff, senderRole, policy)
  {
    var newRole := RoleAttr(item);
    var newAff := AffiliationAttr(item);
    if newRole.Unknown? || newAff.Unknown? {
      return Fault;
    }
    if newAff.Known? {
      var hasJid := "jid" in item.attrs;
      var target := if hasJid then room.AffiliationOf(ParseJid(item.attrs["jid"]).bare) else Affiliation.none;
      var d := Denial(OptionOf(newRole), Some(newAff.value), hasJid, target, senderAff, senderRole, policy);
      return if d.Some? then Rejected(d.value) else Ok;
    }
    outcome := CheckItem(room, item, senderAff, senderRole, policy);
  }

  /** An `outcast` item addressed by a nickname and a `jid`. */
  function BanItem(nick: string, jid: string): Element
  {
    Element("item", None, map["nick" := nick, "jid" := jid, "affiliation" := "outcast"], None, [])
  }

  /** As written, an `outcast` item whose `nick` no occupant holds passes
      the checks under every policy and whatever the sender's standing,
      while the apply pass bans the item's `jid` all the same: an occupant
      without affiliation can ban the room's owner. The corrected check
      refuses it unless the sender may ban and outranks that address. */
  lemma UnheldNickBanPasses(room: Room, policy: Policy, nick: string, victim: string, senderAff: Affiliation,
                            senderRole: Role)
    requires nick !in room.occupants
    ensures ItemVerdict(room, BanItem(nick, victim), senderAff, senderRole, policy) == Ok
    ensures StoredAffiliations(room.affiliations, [BanItem(nick, victim)])[ParseJid(victim).bare] == Affiliation.outcast
    ensures IntendedVerdict(room, BanItem(nick, victim), senderAff, senderRole, policy) == Ok <==>
      policy.banMembersAndUnaffiliated(senderAff) &&
      policy.weight(room.AffiliationOf(ParseJid(victim).bare)) < policy.weight(senderAff)
  {
    var item := BanItem(nick, victim);
    assert AffiliationAttr(item) == Known(Affiliation.outcast) && RoleAttr(item) == Absent;
    assert TargetBare(room, item).None?;
    assert StoredAffiliations(room.affiliations, [item]) == StoreItem(StoredAffiliations(room.affiliations, []), item);
  }

  /** Under the corrected check, a set that passes stores `outcast` for an
      address that was not banned only if the sender may ban and outranked
      that address before the set. */
  lemma {:induction false} IntendedBansAreAuthorised(room: Room, items: seq<Element>, senderAff: Affiliation,
                                                     senderRole: Role, policy: Policy, bare: string)
    requires forall i :: 0 <= i < |items| ==> IntendedVerdict(room, items[i], senderAff, senderRole, policy) == Ok
    requires bare in StoredAffiliations(room.affiliations, items)
    requires StoredAffiliations(room.affiliations, items)[bare] == Affiliation.outcast
    requires room.AffiliationOf(bare) != Affiliation.outcast
    ensures policy.banMembersAndUnaffiliated(senderAff) && policy.weight(room.AffiliationOf(bare)) < policy.weight(senderAff)
    decreases |items|
  {
    if items != [] {
      var last := items[|items| - 1];
      var init := items[..|items| - 1];
      if Addresses(last, bare) {
        assert IntendedVerdict(room, last, senderAff, senderRole, policy) == Ok;
        assert AffiliationAttr(last).value == Affiliation.outcast;
      } else {
        assert forall i :: 0 <= i < |init| ==> init[i] == items[i];
        IntendedBansAreAuthorised(room, init, senderAff, senderRole, policy, bare);
      }
    }
  }

  /** The outcome of the check pass over `items`: the verdict of the first
      item that does not pass, or Ok. */
  function FirstFailure(room: Room, items: seq<Element>, senderAff: Affiliation, senderRole: Role, policy: Policy)
      : (r: Outcome)
    reads room
    ensures r == Ok <==> forall i :: 0 <= i < |items| ==> IntendedVerdict(room, items[i], senderAff, senderRole, policy) == Ok
    decreases |items|
  {
    if items == [] then Ok
    else
      var v := IntendedVerdict(room, items[0], senderAff, senderRole, policy);
      if v != Ok then v
      else
        assert forall i :: 1 <= i < |items| ==> items[i] == items[1..][i - 1];
        FirstFailure(room, items[1..], senderAff, senderRole, policy)
  }

  /** The first `i` items all pass the check. */
  predicate PassUpTo(room: Room, items: seq<Element>, i: int, senderAff: Affiliation, senderRole: Role, policy: Policy)
    reads room
    requires i <= |items|
  {
    forall k :: 0 <= k < i ==> IntendedVerdict(room, items[k], senderAff, senderRole, policy) == Ok
  }

  /** The check pass ends with the verdict of the first failing item. */
  lemma {:induction false} FirstFailureAt(room: Room, items: seq<Element>, i: nat, senderAff: Affiliation, senderRole: Role,
                                          policy: Policy)
    requires i < |items| && IntendedVerdict(room, items[i], senderAff, senderRole, policy) != Ok
    requires PassUpTo(room, items, i, senderAff, senderRole, policy)
    ensures FirstFailure(room, items, senderAff, senderRole, policy) == IntendedVerdict(room, items[i], senderAff, senderRole, policy)
    decreases i
  {
    if i > 0 {
      assert IntendedVerdict(room, items[0], senderAff, senderRole, policy) == Ok;
      assert forall k :: 0 <= k < i - 1 ==> items[1..][k] == items[k + 1];
      FirstFailureAt(room, items[1..], i - 1, senderAff, senderRole, policy);
    }
  }

  /** The first loop of `processSet`: every item is checked before any is applied. */
  method CheckAll(room: Room, items: seq<Element>, senderAff: Affiliation, senderRole: Role, policy: Policy)
      returns (outcome: Outcome)
    requires room.Valid()
    ensures outcome == FirstFailure(room, items, senderAff, senderRole, policy)
  {
    for i := 0 to |items|
      invariant PassUpTo(room, items, i, senderAff, senderRole, policy)
    {
      var verdict := CheckIntended(room, items[i], senderAff, senderRole, policy);
      if verdict != Ok {
        FirstFailureAt(room, items, i, senderAff, senderRole, policy);
        return verdict;
      }
    }
    assert PassUpTo(room, items, |items|, senderAff, senderRole, policy);
    outcome := Ok;
  }

  /** `makePresence`: a presence to `dest` from the occupant's address in
      the room, built on `base` (the occupant's cached presence, or a new
      unavailable presence), whose one muc#user item gives the occupant's
      affiliation, role and nickname but never its full address. */
  function MakePresence(dest: Jid, room: string, base: Element, nick: Option<string>, aff: Affiliation, role: Option<Role>,
                        reason: Option<string>, actor: Option<Jid>, codes: seq<int>): (p: Stanza)
    ensures p.Presence? && p.to == dest && p.from == Jid(room, nick) && p.items != {} && p.codes == codes
    ensures forall it :: it in p.items ==> it.jid.None? && it.nick == nick && it.affiliation == Some(aff) && it.role == role
  {
    Presence(Jid(room, nick), dest, base, {Item(Some(aff), role, nick, None)}, codes, actor, reason)
  }

  /** Every stanza of `out` is the presence makePresence builds, without an
      actor, for its own address. */
  predicate Notices(out: seq<Stanza>, room: string, base: Element, nick: Option<string>, aff: Affiliation, role: Option<Role>,
                    reason: Option<string>, codes: seq<int>)
  {
    forall o :: o in out ==> o.Presence? && o == MakePresence(o.to, room, base, nick, aff, role, reason, None, codes)
  }

  /** The "sending presence to all occupants" loop: one presence per session
      in `dests`, alike but for the address. */
  method Notify(dests: set<Jid>, room: string, base: Element, nick: Option<string>, aff: Affiliation, role: Option<Role>,
                reason: Option<string>, codes: seq<int>) returns (out: seq<Stanza>)
    ensures |out| == |dests| && Recipients(out) == dests
    ensures Notices(out, room, base, nick, aff, role, reason, codes)
  {
    out := Fanout(dests, d => [MakePresence(d, room, base, nick, aff, role, reason, None, codes)], 1);
  }

  /** `r` is the roster `r0` after every session of `bare` is removed. */
  ghost predicate Evicted(r: Roster, r0: Roster, bare: string)
  {
    && r.nicknames == WithoutBare(r0.nicknames, bare) && r.presences == WithoutBare(r0.presences, bare)
    && r.occupants == WithoutHolder(r0.occupants, bare)
  }

  /** The roster `r` without every session of `bare`. */
  function Evict(r: Roster, bare: string): Roster
  {
    Roster(WithoutBare(r.nicknames, bare), WithoutHolder(r.occupants, bare), WithoutBare(r.presences, bare))
  }

  /** The roster after the affiliation part of an item: an `outcast` with an
      address evicts that address; anything else leaves the roster alone. */
  function AfterAffiliation(r: Roster, item: Element): Roster
  {
    var aff := AffiliationAttr(item);
    if aff.Known? && aff.value == Affiliation.outcast && "jid" in item.attrs then Evict(r, ParseJid(item.attrs["jid"]).bare)
    else r
  }

  /** The roster after the role part of an item: role `none` evicts the
      addressed occupant, another role goes to its nicknames, and an item
      addressing nobody present changes nothing. */
  function AfterRole(r: Roster, item: Element): Roster
  {
    var role := RoleAttr(item);
    var target := TargetIn(r.occupants, item);
    if !role.Known? || target.None? then r
    else if role.value == Role.none then Evict(r, target.value)
    else r.(occupants := WithRole(r.occupants, target.value, role.value))
  }

  /** The roster after one item of a `set`: nothing for an affiliation item
      without an address, which fails; otherwise its affiliation part, then
      its role part. */
  function AfterItem(r: Roster, item: Element): Roster
  {
    if Unaddressed(item) then r else AfterRole(AfterAffiliation(r, item), item)
  }

  /** The roster after `items`, in order. */
  function AfterItems(r: Roster, items: seq<Element>): Roster
    decreases |items|
  {
    if items == [] then r
    else AfterItem(AfterItems(r, items[..|items| - 1]), items[|items| - 1])
  }

  /** A presence a `set` writes: a notice without codes, a ban (301) or a kick (307). */
  predicate SetNotice(o: Stanza)
  {
    o.Presence? && (o.codes == [] || o.codes == [StatusBanned] || o.codes == [StatusKicked])
  }

  /** Every session of `s` is a session of `r`, under the same nickname and
      with the same cached presence. */
  ghost predicate Within(s: Roster, r: Roster)
  {
    && (forall j :: j in s.nicknames ==> j in r.nicknames && s.nicknames[j] == r.nicknames[j])
    && (forall j :: j in s.presences ==> j in r.presences && s.presences[j] == r.presences[j])
  }

  lemma WithinTrans(t: Roster, s: Roster, r: Roster)
    requires Within(t, s) && Within(s, r)
    ensures Within(t, r)
  {
  }

  /** Evicting removes sessions and changes no other. */
  lemma EvictShrinks(r: Roster, bare: string)
    ensures Within(Evict(r, bare), r)
  {
  }

  /** One item never adds a session and never changes a remaining
      session's nickname or cached presence. */
  lemma AfterItemShrinks(r: Roster, item: Element)
    ensures Within(AfterItem(r, item), r)
  {
    if !Unaddressed(item) {
      var a := AfterAffiliation(r, item);
      if a != r {
        EvictShrinks(r, ParseJid(item.attrs["jid"]).bare);
      }
      var s := AfterRole(a, item);
      if s.nicknames != a.nicknames {
        EvictShrinks(a, TargetIn(a.occupants, item).value);
      }
      WithinTrans(s, a, r);
    }
  }

  /** A `set` never adds a session and never changes a remaining session's
      nickname or cached presence. */
  lemma {:induction false} AfterItemsShrinks(r: Roster, items: seq<Element>)
    ensures Within(AfterItems(r, items), r)
    decreases |items|
  {
    if items != [] {
      var init := items[..|items| - 1];
      AfterItemsShrinks(r, init);
      AfterItemShrinks(AfterItems(r, init), items[|items| - 1]);
      WithinTrans(AfterItems(r, items), AfterItems(r, init), r);
    }
  }

  /** The sessions left after `items` were all there after any prefix of them. */
  lemma {:induction false} AfterPrefixShrinks(r: Roster, items: seq<Element>, m: nat)
    requires m <= |items|
    ensures AfterItems(r, items).nicknames.Keys <= AfterItems(r, items[..m]).nicknames.Keys
    decreases |items|
  {
    if m < |items| {
      var init := items[..|items| - 1];
      assert init[..m] == items[..m];
      AfterPrefixShrinks(r, init, m);
      AfterItemShrinks(AfterItems(r, init), items[|items| - 1]);
    } else {
      assert items[..m] == items;
    }
  }

  /** After a `set`, no session remains of an address an `outcast` item
      named, whatever came after it. */
  lemma BannedStayOut(r: Roster, items: seq<Element>, k: nat)
    requires k < |items| && AffiliationAttr(items[k]) == Known(Affiliation.outcast) && "jid" in items[k].attrs
    ensures forall j :: j in AfterItems(r, items).nicknames ==> j.bare != ParseJid(items[k].attrs["jid"]).bare
  {
    var bare := ParseJid(items[k].attrs["jid"]).bare;
    var before := AfterItems(r, items[..k]);
    assert items[..k + 1][..k] == items[..k];
    AfterItemShrinks(AfterAffiliation(before, items[k]), items[k]);
    assert forall j :: j in AfterItems(r, items[..k + 1]).nicknames ==> j.bare != bare;
    AfterPrefixShrinks(r, items, k + 1);
  }

  /** After a `set`, no session remains of the occupant a role-`none` item
      addressed when its turn came. */
  lemma KickedStayOut(r: Roster, items: seq<Element>, k: nat, bare: string)
    requires k < |items| && !Unaddressed(items[k]) && RoleAttr(items[k]) == Known(Role.none)
    requires TargetIn(AfterAffiliation(AfterItems(r, items[..k]), items[k]).occupants, items[k]) == Some(bare)
    ensures forall j :: j in AfterItems(r, items).nicknames ==> j.bare != bare
  {
    assert items[..k + 1][..k] == items[..k];
    assert forall j :: j in AfterItems(r, items[..k + 1]).nicknames ==> j.bare != bare;
    AfterPrefixShrinks(r, items, k + 1);
  }

  /** Removing the sessions of an address that has none left changes nothing. */
  lemma EvictedAgain(r: Roster, r0: Roster, bare: string)
    requires Evicted(r, r0, bare)
    ensures Evicted(r, r, bare)
  {
    assert WithoutBare(r.nicknames, bare) == r.nicknames;
    assert WithoutBare(r.presences, bare) == r.presences;
    assert WithoutHolder(r.occupants, bare) == r.occupants;
  }

  /** A ban (301) or a kick (307) of one session: the session is sent an
      unavailable presence with the code and the actor, every session of its
      bare address is removed, and every session left hears of it with the
      code. */
  method Expel(room: Room, session: Jid, nick: Option<string>, aff: Affiliation, kickRole: Option<Role>,
               noticeRole: Option<Role>, reason: Option<string>, actor: Jid, code: int) returns (out: seq<Stanza>)
    requires room.Valid()
    modifies room`nicknames, room`occupants, room`presences
    ensures room.Valid() && Evicted(room.RosterOf(), old(room.RosterOf()), session.bare)
    ensures |out| == |room.AllJids()| + 1 && Recipients(out) == {session} + room.AllJids()
    ensures out[0] == MakePresence(session, room.jid, UnavailablePresence, nick, aff, kickRole, reason, Some(actor), [code])
    ensures Notices(out[1..], room.jid, UnavailablePresence, nick, aff, noticeRole, reason, [code])
    ensures forall o :: o in out ==> o.Presence? && o.codes == [code]
  {
    var kick := MakePresence(session, room.jid, UnavailablePresence, nick, aff, kickRole, reason, Some(actor), [code]);
    room.RemoveAllOccupantsByBare(session.bare);
    var rest := Notify(room.AllJids(), room.jid, UnavailablePresence, nick, aff, noticeRole, reason, [code]);
    out := [kick] + rest;
    KickThenNotices(kick, rest, room.AllJids(), code);
  }

  /** The kick followed by the notices: one presence for the kicked session
      and one per session in `dests`, all with the same code. */
  lemma KickThenNotices(kick: Stanza, rest: seq<Stanza>, dests: set<Jid>, code: int)
    requires kick.Presence? && kick.codes == [code]
    requires |rest| == |dests| && Recipients(rest) == dests
    requires forall o :: o in rest ==> o.Presence? && o.codes == [code]
    ensures Recipients([kick] + rest) == {kick.to} + dests && ([kick] + rest)[1..] == rest
    ensures forall o :: o in [kick] + rest ==> o.Presence? && o.codes == [code]
  {
    RecipientsOfBatch([kick], kick.to);
    RecipientsAppend([kick], rest);
    assert ([kick] + rest)[1..] == rest;
    assert forall o :: o in [kick] + rest ==> o == kick || o in rest;
  }

  /** A bare address without sessions holds no nickname, so removing its
      sessions changes nothing. */
  lemma NothingToEvict(room: Room, bare: string)
    requires room.Valid() && room.JidsOfBare(bare) == {}
    ensures Evicted(room.RosterOf(), room.RosterOf(), bare)
  {
    forall n | n in room.occupants
      ensures room.occupants[n].bare != bare
    {
      var j :| j in room.occupants[n].jids;
      assert j in room.nicknames;
    }
    assert WithoutBare(room.nicknames, bare) == room.nicknames;
    assert WithoutBare(room.presences, bare) == room.presences;
    assert WithoutHolder(room.occupants, bare) == room.occupants;
  }

  /** Where a loop that expels the sessions of `bare` stands, measured from
      the roster `r0` it started on: `told` are the sessions expelled so far,
      `started` says whether there was one, and every presence sent carries
      `code`. */
  ghost predicate ExpelProgress(r: Roster, r0: Roster, bare: string, code: int, told: set<Jid>, started: bool,
                                out: seq<Stanza>)
  {
    && r.Valid()
    && (!started ==> r == r0)
    && (started ==> Evicted(r, r0, bare))
    && Recipients(out) == told + (if started then r.nicknames.Keys else {})
    && forall o :: o in out ==> o.Presence? && o.codes == [code]
  }

  /** Where a loop that announces a change to every session stands: the
      roster is as it started, and once there was a session every session
      has heard, without a code. */
  ghost predicate NoticeProgress(r: Roster, r0: Roster, started: bool, out: seq<Stanza>)
  {
    && r.Valid() && r == r0
    && Recipients(out) == (if started then r.nicknames.Keys else {})
    && forall o :: o in out ==> o.Presence? && o.codes == []
  }

  /** One expelling turn of a sessions loop. */
  method ExpelStep(room: Room, session: Jid, nick: Option<string>, aff: Affiliation, kickRole: Option<Role>,
                   noticeRole: Option<Role>, reason: Option<string>, actor: Jid, code: int, ghost r0: Roster,
                   ghost told: set<Jid>, ghost started: bool, out: seq<Stanza>)
      returns (out': seq<Stanza>)
    requires ExpelProgress(room.RosterOf(), r0, session.bare, code, told, started, out)
    modifies room`nicknames, room`occupants, room`presences
    ensures ExpelProgress(room.RosterOf(), r0, session.bare, code, told + {session}, true, out')
  {
    if started {
      EvictedAgain(room.RosterOf(), r0, session.bare);
    }
    ghost var earlier := if started then room.AllJids() else {};
    var more := Expel(room, session, nick, aff, kickRole, noticeRole, reason, actor, code);
    if started {
      assert room.RosterOf() == old(room.RosterOf());
    }
    out' := out + more;
    ExpelTurn(out, more, told, session, earlier, room.AllJids(), code);
  }

  /** The recipients and codes of an expelling turn added to those before it:
      `earlier` are the sessions that heard of an earlier turn, all still
      among the sessions `left`. */
  lemma ExpelTurn(out: seq<Stanza>, more: seq<Stanza>, told: set<Jid>, session: Jid, earlier: set<Jid>,
                  left: set<Jid>, code: int)
    requires Recipients(out) == told + earlier && earlier <= left
    requires Recipients(more) == {session} + left
    requires forall o :: o in out ==> o.Presence? && o.codes == [code]
    requires forall o :: o in more ==> o.Presence? && o.codes == [code]
    ensures Recipients(out + more) == (told + {session}) + left
    ensures forall o :: o in out + more ==> o.Presence? && o.codes == [code]
  {
    RecipientsAppend(out, more);
  }

  /** One announcing turn of a sessions loop: every session hears of the
      change on `session`'s cached presence. */
  method NoticeStep(room: Room, session: Jid, nick: Option<string>, aff: Affiliation, role: Option<Role>,
                    reason: Option<string>, ghost r0: Roster, ghost started: bool, out: seq<Stanza>)
      returns (out': seq<Stanza>)
    requires NoticeProgress(room.RosterOf(), r0, started, out) && session in room.presences
    ensures NoticeProgress(room.RosterOf(), r0, true, out')
    ensures |out| <= |out'| && out'[..|out|] == out
    ensures Notices(out'[|out|..], room.jid, room.presences[session], nick, aff, role, reason, [])
  {
    var more := Notify(room.AllJids(), room.jid, room.presences[session], nick, aff, role, reason, []);
    out' := out + more;
    NoticeTurn(out, more, if started then room.AllJids() else {}, room.AllJids());
  }

  /** The recipients and codes of an announcing turn added to those before
      it: `earlier` are the sessions that heard of an earlier turn, all among
      the sessions `all` this turn reaches. */
  lemma NoticeTurn(out: seq<Stanza>, more: seq<Stanza>, earlier: set<Jid>, all: set<Jid>)
    requires Recipients(out) == earlier && earlier <= all && Recipients(more) == all
    requires forall o :: o in out ==> o.Presence? && o.codes == []
    requires forall o :: o in more ==> o.Presence? && o.codes == []
    ensures Recipients(out + more) == all && (out + more)[..|out|] == out && (out + more)[|out|..] == more
    ensures forall o :: o in out + more ==> o.Presence? && o.codes == []
  {
    RecipientsAppend(out, more);
    assert (out + more)[..|out|] == out && (out + more)[|out|..] == more;
  }

  /** The loop of an affiliation item over the sessions the address had
      when its affiliation was stored. After a ban no session of the address
      is left, and every expelled session and every session left has heard
      of it; otherwise the roster is unchanged and, if the address had a
      session, every session has heard of the change. */
  method ApplyAffiliation(room: Room, bare: string, aff: Affiliation, newRole: Option<Role>, reason: Option<string>,
                          actor: Jid) returns (out: seq<Stanza>)
    requires room.Valid()
    modifies room`nicknames, room`occupants, room`presences
    ensures room.Valid()
    ensures aff == Affiliation.outcast ==>
      && Evicted(room.RosterOf(), old(room.RosterOf()), bare)
      && Recipients(out) == old(room.JidsOfBare(bare)) + (if old(room.JidsOfBare(bare)) == {} then {} else room.AllJids())
    ensures aff != Affiliation.outcast ==>
      && room.RosterOf() == old(room.RosterOf())
      && Recipients(out) == if room.JidsOfBare(bare) == {} then {} else room.AllJids()
    ensures forall o :: o in out ==> o.Presence? && o.codes == if aff == Affiliation.outcast then [StatusBanned] else []
  {
    if aff == Affiliation.outcast {
      out := BanSessions(room, bare, newRole, reason, actor);
    } else {
      out := NoticeSessions(room, bare, aff, reason);
    }
  }

  /** The loop of an `outcast` item: every session of `bare` is expelled with 301. */
  method BanSessions(room: Room, bare: string, newRole: Option<Role>, reason: Option<string>, actor: Jid)
      returns (out: seq<Stanza>)
    requires room.Valid()
    modifies room`nicknames, room`occupants, room`presences
    ensures room.Valid()
    ensures Evicted(room.RosterOf(), old(room.RosterOf()), bare)
    ensures Recipients(out) == old(room.JidsOfBare(bare)) + (if old(room.JidsOfBare(bare)) == {} then {} else room.AllJids())
    ensures forall o :: o in out ==> o.Presence? && o.codes == [StatusBanned]
  {
    ghost var r0 := room.RosterOf();
    ghost var targets := room.JidsOfBare(bare);
    var sessions := SetToSeq(room.JidsOfBare(bare));
    if sessions == [] {
      NothingToEvict(room, bare);
    }
    ghost var told: set<Jid> := {};
    out := [];
    for i := 0 to |sessions|
      invariant told <= targets && forall k :: 0 <= k < i ==> sessions[k] in told
      invariant ExpelProgress(room.RosterOf(), r0, bare, StatusBanned, told, i > 0, out)
    {
      var session := sessions[i];
      assert session in targets;
      var nick := room.NicknameOf(session);
      var currentRole := room.RoleOfJid(session);
      out := ExpelStep(room, session, nick, Affiliation.outcast, newRole, Some(currentRole), reason, actor,
                       StatusBanned, r0, told, i > 0, out);
      told := told + {session};
    }
    assert told == targets by {
      forall x | x in targets
        ensures x in told
      {
        var k :| 0 <= k < |sessions| && sessions[k] == x;
      }
    }
  }

  /** The loop of any other affiliation item: every session hears of the
      new affiliation, and nobody leaves. */
  method NoticeSessions(room: Room, bare: string, aff: Affiliation, reason: Option<string>) returns (out: seq<Stanza>)
    requires room.Valid()
    modifies room`nicknames, room`occupants, room`presences
    ensures room.Valid()
    ensures room.RosterOf() == old(room.RosterOf())
    ensures Recipients(out) == if room.JidsOfBare(bare) == {} then {} else room.AllJids()
    ensures forall o :: o in out ==> o.Presence? && o.codes == []
  {
    ghost var r0 := room.RosterOf();
    ghost var targets := room.JidsOfBare(bare);
    var sessions := SetToSeq(room.JidsOfBare(bare));
    out := [];
    for i := 0 to |sessions|
      invariant NoticeProgress(room.RosterOf(), r0, i > 0, out)
    {
      var session := sessions[i];
      assert session in targets;
      var nick := room.NicknameOf(session);
      var currentRole := room.RoleOfJid(session);
      assert session in r0.nicknames && room.presences.Keys == room.nicknames.Keys;
      out := NoticeStep(room, session, nick, aff, Some(currentRole), reason, r0, i > 0, out);
    }
  }

  /** Where the loop of a role item that does not kick stands: only the
      roles have changed, every nickname of `bare` having `role` once there
      was a session, and every session has heard of it, without a code. */
  ghost predicate RoleProgress(r: Roster, r0: Roster, bare: string, role: Role, started: bool, out: seq<Stanza>)
  {
    && r.Valid()
    && r.nicknames == r0.nicknames && r.presences == r0.presences
    && r.occupants == (if started then WithRole(r0.occupants, bare, role) else r0.occupants)
    && Recipients(out) == (if started then r.nicknames.Keys else {})
    && forall o :: o in out ==> o.Presence? && o.codes == []
  }

  /** Giving a role twice is giving it once. */
  lemma WithRoleAgain(occupants: map<string, Occupant>, bare: string, role: Role)
    ensures WithRole(WithRole(occupants, bare, role), bare, role) == WithRole(occupants, bare, role)
  {
    var once := WithRole(occupants, bare, role);
    var twice := WithRole(once, bare, role);
    forall n | n in twice
      ensures twice[n] == once[n]
    {
      assert twice[n].role == once[n].role;
    }
  }

  /** One turn of the loop of a role item that does not kick: the nicknames
      of the session's bare address get the role, and every session hears of
      it on the session's cached presence. */
  method RoleStep(room: Room, session: Jid, nick: Option<string>, aff: Affiliation, role: Role, reason: Option<string>,
                  ghost r0: Roster, ghost started: bool, out: seq<Stanza>)
      returns (out': seq<Stanza>)
    requires RoleProgress(room.RosterOf(), r0, session.bare, role, started, out)
    requires session in room.nicknames
    modifies room`occupants
    ensures RoleProgress(room.RosterOf(), r0, session.bare, role, true, out')
    ensures |out| <= |out'| && out'[..|out|] == out
    ensures Notices(out'[|out|..], room.jid, room.presences[session], nick, aff, Some(role), reason, [])
  {
    if started {
      WithRoleAgain(r0.occupants, session.bare, role);
    }
    room.SetNewRole(session.bare, role);
    assert session in room.presences;
    var more := Notify(room.AllJids(), room.jid, room.presences[session], nick, aff, Some(role), reason, []);
    out' := out + more;
    NoticeTurn(out, more, if started then room.AllJids() else {}, room.AllJids());
  }

  /** The body of the loop of a role item, for one addressed session: a kick
      (role none) expels it, any other role is given to its address. */
  method RoleTurn(room: Room, session: Jid, role: Role, reason: Option<string>, actor: Jid, ghost r0: Roster,
                  ghost bare: string, ghost told: set<Jid>, ghost started: bool, out: seq<Stanza>)
      returns (out': seq<Stanza>)
    requires session.bare == bare && session in r0.nicknames
    requires if role == Role.none then ExpelProgress(room.RosterOf(), r0, bare, StatusKicked, told, started, out)
             else RoleProgress(room.RosterOf(), r0, bare, role, started, out)
    modifies room`nicknames, room`occupants, room`presences
    ensures if role == Role.none then ExpelProgress(room.RosterOf(), r0, bare, StatusKicked, told + {session}, true, out')
            else RoleProgress(room.RosterOf(), r0, bare, role, true, out')
  {
    var nick := room.NicknameOf(session);
    var occupantAff := room.AffiliationOf(session.bare);
    if role == Role.none {
      out' := ExpelStep(room, session, nick, occupantAff, Some(Role.none), Some(Role.none), reason, actor, StatusKicked,
                        r0, told, started, out);
    } else {
      out' := RoleStep(room, session, nick, occupantAff, role, reason, r0, started, out);
    }
  }

  /** The loop of a role item over the sessions it addresses, all of bare
      address `bare`. A kick (role none) removes every session of the
      address, and every kicked session and every session left hears of it
      with code 307; any other role goes to the address's nicknames and every
      session hears of it. Nothing changes when no session is addressed. */
  method ApplyRole(room: Room, jids: set<Jid>, ghost bare: string, role: Role, reason: Option<string>, actor: Jid)
      returns (out: seq<Stanza>)
    requires room.Valid() && jids <= room.AllJids() && forall j :: j in jids ==> j.bare == bare
    modifies room`nicknames, room`occupants, room`presences
    ensures room.Valid()
    ensures jids == {} ==> out == [] && room.RosterOf() == old(room.RosterOf())
    ensures jids != {} && role == Role.none ==>
      && Evicted(room.RosterOf(), old(room.RosterOf()), bare)
      && Recipients(out) == jids + room.AllJids()
    ensures jids != {} && role != Role.none ==>
      && room.nicknames == old(room.nicknames) && room.presences == old(room.presences)
      && room.occupants == WithRole(old(room.occupants), bare, role)
      && Recipients(out) == room.AllJids()
    ensures forall o :: o in out ==> o.Presence? && o.codes == if role == Role.none then [StatusKicked] else []
  {
    if role == Role.none {
      out := KickSessions(room, jids, bare, reason, actor);
    } else {
      out := RoleSessions(room, jids, bare, role, reason, actor);
    }
  }

  /** The kick half of `ApplyRole`: every addressed session is removed. */
  method KickSessions(room: Room, jids: set<Jid>, ghost bare: string, reason: Option<string>, actor: Jid)
      returns (out: seq<Stanza>)
    requires room.Valid() && jids <= room.AllJids() && forall j :: j in jids ==> j.bare == bare
    modifies room`nicknames, room`occupants, room`presences
    ensures room.Valid()
    ensures jids == {} ==> out == [] && room.RosterOf() == old(room.RosterOf())
    ensures jids != {} ==>
      && Evicted(room.RosterOf(), old(room.RosterOf()), bare)
      && Recipients(out) == jids + room.AllJids()
    ensures forall o :: o in out ==> o.Presence? && o.codes == [StatusKicked]
  {
    ghost var r0 := room.RosterOf();
    var todo := jids;
    ghost var told: set<Jid> := {};
    out := [];
    while todo != {}
      invariant told + todo == jids && told !! todo && jids <= r0.nicknames.Keys
      invariant ExpelProgress(room.RosterOf(), r0, bare, StatusKicked, told, told != {}, out)
      invariant told == {} ==> out == []
      decreases todo
    {
      var session :| session in todo;
      out := RoleTurn(room, session, Role.none, reason, actor, r0, bare, told, told != {}, out);
      told, todo := told + {session}, todo - {session};
    }
  }

  /** The role half of `ApplyRole`: the address's nicknames take `role`. */
  method RoleSessions(room: Room, jids: set<Jid>, ghost bare: string, role: Role, reason: Option<string>, actor: Jid)
      returns (out: seq<Stanza>)
    requires room.Valid() && jids <= room.AllJids() && forall j :: j in jids ==> j.bare == bare
    requires role != Role.none
    modifies room`nicknames, room`occupants, room`presences
    ensures room.Valid()
    ensures jids == {} ==> out == [] && room.RosterOf() == old(room.RosterOf())
    ensures jids != {} ==>
      && room.nicknames == old(room.nicknames) && room.presences == old(room.presences)
      && room.occupants == WithRole(old(room.occupants), bare, role)
      && Recipients(out) == room.AllJids()
    ensures forall o :: o in out ==> o.Presence? && o.codes == []
  {
    ghost var r0 := room.RosterOf();
    var todo := jids;
    ghost var told: set<Jid> := {};
    out := [];
    while todo != {}
      invariant told + todo == jids && told !! todo && jids <= r0.nicknames.Keys
      invariant RoleProgress(room.RosterOf(), r0, bare, role, told != {}, out)
      invariant told == {} ==> out == []
      decreases todo
    {
      var session :| session in todo;
      out := RoleTurn(room, session, role, reason, actor, r0, bare, told, told != {}, out);
      told, todo := told + {session}, todo - {session};
    }
  }

  // ---------------------------------------------------------------------
  // The affiliation list after a `set`
  // ---------------------------------------------------------------------

  /** An item that names an affiliation but no address: applying it
      dereferences the missing `jid` and fails. */
  predicate Unaddressed(item: Element)
  {
    AffiliationAttr(item).Known? && "jid" !in item.attrs
  }

  /** An item that stores an affiliation for `bare`. */
  predicate Addresses(item: Element, bare: string)
  {
    AffiliationAttr(item).Known? && "jid" in item.attrs && ParseJid(item.attrs["jid"]).bare == bare
  }

  /** The affiliation list after one item: an item naming an affiliation
      and an address stores it for the address's bare part. */
  function StoreItem(affs: map<string, Affiliation>, item: Element): map<string, Affiliation>
  {
    if AffiliationAttr(item).Known? && "jid" in item.attrs
    then affs[ParseJid(item.attrs["jid"]).bare := AffiliationAttr(item).value]
    else affs
  }

  /** The affiliation list after `items`, in order. */
  function StoredAffiliations(affs: map<string, Affiliation>, items: seq<Element>): map<string, Affiliation>
    decreases |items|
  {
    if items == [] then affs
    else StoreItem(StoredAffiliations(affs, items[..|items| - 1]), items[|items| - 1])
  }

  /** The last item that addresses `bare` decides its affiliation. */
  lemma {:induction false} LastWordStands(affs: map<string, Affiliation>, items: seq<Element>, bare: string, k: nat)
    requires k < |items| && Addresses(items[k], bare)
    requires forall m :: k < m < |items| ==> !Addresses(items[m], bare)
    ensures bare in StoredAffiliations(affs, items)
    ensures StoredAffiliations(affs, items)[bare] == AffiliationAttr(items[k]).value
    decreases |items|
  {
    var init := items[..|items| - 1];
    if k < |items| - 1 {
      assert forall m :: k < m < |init| ==> init[m] == items[m];
      LastWordStands(affs, init, bare, k);
      assert !Addresses(items[|items| - 1], bare);
    }
  }

  /** An address no item addresses keeps its affiliation, or its absence. */
  lemma {:induction false} UnaddressedStays(affs: map<string, Affiliation>, items: seq<Element>, bare: string)
    requires forall m :: 0 <= m < |items| ==> !Addresses(items[m], bare)
    ensures bare in StoredAffiliations(affs, items) <==> bare in affs
    ensures bare in affs ==> StoredAffiliations(affs, items)[bare] == affs[bare]
    decreases |items|
  {
    if items != [] {
      var init := items[..|items| - 1];
      assert forall m :: 0 <= m < |init| ==> init[m] == items[m];
      UnaddressedStays(affs, init, bare);
      assert !Addresses(items[|items| - 1], bare);
    }
  }

  /** How many items are applied before the first unaddressed affiliation
      item, at which the apply pass fails. */
  function Applied(items: seq<Element>): (n: nat)
    ensures n <= |items|
    ensures forall k :: 0 <= k < n ==> !Unaddressed(items[k])
    ensures n < |items| ==> Unaddressed(items[n])
    decreases |items|
  {
    if items == [] || Unaddressed(items[0]) then 0
    else
      var n := Applied(items[1..]);
      assert forall k :: 1 <= k < n + 1 ==> items[k] == items[1..][k - 1];
      n + 1
  }

  // ---------------------------------------------------------------------
  // Applying the items of a `set`
  // ---------------------------------------------------------------------

  /** One pass of the second loop of `processSet`: an affiliation is stored
      for the item's address and its sessions are told (a ban expels them),
      then a role goes to the occupant the item addresses (a kick expels
      it). An affiliation item without an address fails, having changed
      nothing. */
  method ApplyItem(room: Room, item: Element, actor: Jid) returns (outcome: Outcome, out: seq<Stanza>)
    requires room.Valid() && !RoleAttr(item).Unknown? && !AffiliationAttr(item).Unknown?
    modifies room`nicknames, room`occupants, room`presences, room`affiliations
    ensures room.Valid()
    ensures outcome == (if Unaddressed(item) then Fault else Ok)
    ensures room.affiliations == StoreItem(old(room.affiliations), item)
    ensures outcome == Fault || (RoleAttr(item).Absent? && AffiliationAttr(item).Absent?) ==>
      out == [] && room.RosterOf() == old(room.RosterOf())
    ensures AffiliationAttr(item).Known? && "jid" in item.attrs && RoleAttr(item).Absent? ==>
      var bare := ParseJid(item.attrs["jid"]).bare;
      if AffiliationAttr(item).value == Affiliation.outcast then Evicted(room.RosterOf(), old(room.RosterOf()), bare)
      else room.RosterOf() == old(room.RosterOf())
    ensures AffiliationAttr(item).Absent? && RoleAttr(item).Known? ==>
      var target := old(TargetBare(room, item));
      if target.None? then out == [] && room.RosterOf() == old(room.RosterOf())
      else if RoleAttr(item).value == Role.none then Evicted(room.RosterOf(), old(room.RosterOf()), target.value)
      else room.RosterOf() == old(room.RosterOf()).(occupants := WithRole(old(room.occupants), target.value, RoleAttr(item).value))
    ensures room.RosterOf() == AfterItem(old(room.RosterOf()), item)
    ensures forall o :: o in out ==> SetNotice(o)
  {
    if Unaddressed(item) {
      return Fault, [];
    }
    var first := AffiliationPart(room, item, actor);
    var more := RolePart(room, item, actor);
    out := first + more;
    outcome := Ok;
  }

  /** The affiliation half of an item: the affiliation is stored for the
      item's address and the address's sessions are told (a ban expels
      them). */
  method AffiliationPart(room: Room, item: Element, actor: Jid) returns (out: seq<Stanza>)
    requires room.Valid() && !Unaddressed(item) && !AffiliationAttr(item).Unknown?
    modifies room`nicknames, room`occupants, room`presences, room`affiliations
    ensures room.Valid()
    ensures room.affiliations == StoreItem(old(room.affiliations), item)
    ensures room.RosterOf() == AfterAffiliation(old(room.RosterOf()), item)
    ensures AffiliationAttr(item).Absent? ==> out == []
    ensures forall o :: o in out ==> SetNotice(o)
  {
    var newAff := AffiliationAttr(item);
    out := [];
    if newAff.Known? {
      var bare := ParseJid(item.attrs["jid"]).bare;
      room.AddAffiliation(bare, newAff.value);
      out := ApplyAffiliation(room, bare, newAff.value, OptionOf(RoleAttr(item)), Reason(item), actor);
    }
  }

  /** The role half of an item: the role goes to the occupant the item
      addresses (a kick expels it). */
  method RolePart(room: Room, item: Element, actor: Jid) returns (out: seq<Stanza>)
    requires room.Valid() && !RoleAttr(item).Unknown?
    modifies room`nicknames, room`occupants, room`presences
    ensures room.Valid()
    ensures room.RosterOf() == AfterRole(old(room.RosterOf()), item)
    ensures RoleAttr(item).Absent? || old(TargetBare(room, item)).None? ==> out == []
    ensures forall o :: o in out ==> SetNotice(o)
  {
    var newRole := RoleAttr(item);
    out := [];
    if newRole.Known? {
      var jids := OccupantJidsFromItem(room, item);
      ghost var target := TargetBare(room, item);
      out := ApplyRole(room, jids, if target.Some? then target.value else "", newRole.value, Reason(item), actor);
    }
  }

  /** The second loop of `processSet`: the items are applied in order until
      one names an affiliation without an address, which fails. The
      affiliation list is then the items' stored affiliations, up to the
      failing one. */
  method ApplyAll(room: Room, items: seq<Element>, actor: Jid) returns (outcome: Outcome, out: seq<Stanza>)
    requires room.Valid()
    requires forall k :: 0 <= k < |items| ==> !RoleAttr(items[k]).Unknown? && !AffiliationAttr(items[k]).Unknown?
    modifies room`nicknames, room`occupants, room`presences, room`affiliations
    ensures room.Valid()
    ensures outcome == (if Applied(items) == |items| then Ok else Fault)
    ensures room.affiliations == StoredAffiliations(old(room.affiliations), items[..Applied(items)])
    ensures room.RosterOf() == AfterItems(old(room.RosterOf()), items[..Applied(items)])
    ensures forall o :: o in out ==> SetNotice(o)
  {
    ghost var affs0 := room.affiliations;
    ghost var r0 := room.RosterOf();
    out := [];
    ghost var n := Applied(items);
    var i := 0;
    while i < |items|
      invariant i <= n && room.Valid()
      invariant room.affiliations == StoredAffiliations(affs0, items[..i])
      invariant room.RosterOf() == AfterItems(r0, items[..i])
      invariant forall o :: o in out ==> SetNotice(o)
    {
      var verdict, more := ApplyItem(room, items[i], actor);
      assert items[..i + 1][..i] == items[..i];
      if verdict == Fault {
        return Fault, out;
      }
      assert !Unaddressed(items[i]) && i != n;
      out := out + more;
      i := i + 1;
    }
    assert items[..|items|] == items;
    outcome := Ok;
  }

  /** `processSet`: every item is checked against the sender's affiliation
      and role before any is applied, so a refused item changes nothing;
      otherwise the items are applied and the result IQ is followed by the
      presences they caused. An IQ without a query fails. */
  method ProcessSet(room: Room, p: Packet, policy: Policy) returns (outcome: Outcome, result: Option<seq<Stanza>>)
    requires room.Valid()
    modifies room`nicknames, room`occupants, room`presences, room`affiliations
    ensures room.Valid()
    ensures result.Some? <==> outcome == Ok
    ensures result.Some? ==> |result.value| >= 1 && result.value[0] == IqResult(CreateResultIQ(ElementOf(p, "iq")), None)
    ensures ChildNamed(p.children, "query").None? ==> outcome == Fault && unchanged(room)
    ensures ChildNamed(p.children, "query").Some? ==>
      var items := ChildNamed(p.children, "query").value.children;
      var verdict := old(FirstFailure(room, items, room.AffiliationOf(p.from.bare), room.RoleOfJid(p.from), policy));
      if verdict != Ok then outcome == verdict && unchanged(room)
      else
        && outcome == Ok && Applied(items) == |items|
        && room.affiliations == StoredAffiliations(old(room.affiliations), items[..Applied(items)])
        && room.RosterOf() == AfterItems(old(room.RosterOf()), items)
        && forall o :: o in result.value[1..] ==> SetNotice(o)
    ensures forall j :: j in room.nicknames ==>
      && j in old(room.nicknames) && room.nicknames[j] == old(room.nicknames)[j]
      && j in room.presences && room.presences[j] == old(room.presences)[j]
    ensures outcome == Ok ==>
      var items := ChildNamed(p.children, "query").value.children;
      forall k :: 0 <= k < |items| && AffiliationAttr(items[k]) == Known(Affiliation.outcast) && "jid" in items[k].attrs ==>
        room.JidsOfBare(ParseJid(items[k].attrs["jid"]).bare) == {}
  {
    var query := ChildNamed(p.children, "query");
    if query.None? {
      return Fault, None;
    }
    var items := query.value.children;
    var senderAff := room.AffiliationOf(p.from.bare);
    var senderRole := room.RoleOfJid(p.from);
    var verdict := CheckAll(room, items, senderAff, senderRole, policy);
    if verdict != Ok {
      return verdict, None;
    }
    forall k | 0 <= k < |items|
      ensures !RoleAttr(items[k]).Unknown? && !AffiliationAttr(items[k]).Unknown? && !Unaddressed(items[k])
    {
      assert IntendedVerdict(room, items[k], senderAff, senderRole, policy) == Ok;
    }
    assert Applied(items) == |items|;
    ghost var before := room.RosterOf();
    var applied, out := ApplyAll(room, items, p.from);
    assert items[..Applied(items)] == items;
    AfterItemsShrinks(before, items);
    forall k | 0 <= k < |items| && AffiliationAttr(items[k]) == Known(Affiliation.outcast) && "jid" in items[k].attrs
      ensures room.JidsOfBare(ParseJid(items[k].attrs["jid"]).bare) == {}
    {
      BannedStayOut(before, items, k);
    }
    outcome := Ok;
    result := Some([IqResult(CreateResultIQ(ElementOf(p, "iq")), None)] + out);
    assert result.value[1..] == out;
  }

  /** After an accepted `set`, an address that an item stores an
      affiliation for has the affiliation of the last such item, and any
      other address keeps the affiliation it had, or its absence. */
  lemma SetOutcome(affs: map<string, Affiliation>, items: seq<Element>, bare: string)
    requires Applied(items) == |items|
    ensures var stored := StoredAffiliations(affs, items[..Applied(items)]);
      match LastAddressing(items, bare, |items|)
      case Some(k) => bare in stored && stored[bare] == AffiliationAttr(items[k]).value
      case None => (bare in stored <==> bare in affs) && (bare in affs ==> stored[bare] == affs[bare])
  {
    assert items[..Applied(items)] == items;
    match LastAddressing(items, bare, |items|)
    case Some(k) => LastWordStands(affs, items, bare, k);
    case None => UnaddressedStays(affs, items, bare);
  }

  /** The index of the last of the first `n` items that addresses `bare`. */
  function LastAddressing(items: seq<Element>, bare: string, n: nat): (k: Option<nat>)
    requires n <= |items|
    ensures k.Some? ==> k.value < n && Addresses(items[k.value], bare)
    ensures k.Some? ==> forall m :: k.value < m < n ==> !Addresses(items[m], bare)
    ensures k.None? ==> forall m :: 0 <= m < n ==> !Addresses(items[m], bare)
  {
    if n == 0 then None
    else if Addresses(items[n - 1], bare) then Some(n - 1)
    else LastAddressing(items, bare, n - 1)
  }

  // ---------------------------------------------------------------------
  // Listings answered to a `get`
  // ---------------------------------------------------------------------

  /** A listed affiliate: its affiliation and bare address, and, while it is
      present, one of its nicknames with that nickname's role. */
  predicate AffiliateItem(room: Room, it: Item, aff: Affiliation)
    reads room
  {
    && it.affiliation == Some(aff) && it.jid.Some? && it.jid.value.resource.None?
    && (it.nick.Some? <==> room.HasBare(it.jid.value.bare))
    && (it.nick.Some? ==>
          && it.nick.value in room.occupants && room.occupants[it.nick.value].bare == it.jid.value.bare
          && it.role == Some(room.occupants[it.nick.value].role))
    && (it.nick.None? ==> it.role.None?)
  }

  /** Whether some item lists the bare address `bare`. */
  predicate Lists(items: seq<Item>, bare: string)
  {
    exists m :: 0 <= m < |items| && items[m].jid == Some(Jid(bare, None))
  }

  /** The items the affiliation listing of `processGet` writes for one
      affiliate, as written: one per session under the nickname it holds,
      so an affiliate that is not present is not listed at all, and the
      branch that would list it without a nickname is never reached. */
  method AffiliateItemsAsWritten(room: Room, bare: string, aff: Affiliation) returns (its: seq<Item>)
    requires room.Valid()
    ensures !room.HasBare(bare) ==> its == []
    ensures room.HasBare(bare) ==> its != [] && Lists(its, bare)
    ensures forall it :: it in its ==> AffiliateItem(room, it, aff) && it.jid == Some(Jid(bare, None))
  {
    var nick := room.NicknameOfBare(bare);
    var fullJids := SetToSeq(room.JidsOf(nick));
    if nick.Some? {
      ghost var j :| j in room.occupants[nick.value].jids;
      assert j in fullJids;
    }
    its := [];
    for i := 0 to |fullJids|
      invariant |its| == i
      invariant forall it :: it in its ==> AffiliateItem(room, it, aff) && it.jid == Some(Jid(bare, None))
    {
      var role := room.RoleOfJid(fullJids[i]);
      var ir := Item(Some(aff), None, None, Some(Jid(bare, None)));
      if nick.Some? {
        ir := ir.(nick := nick, role := Some(role));
      }
      its := its + [ir];
    }
    if room.HasBare(bare) {
      assert its[0] in its;
    }
  }

  /** The items the affiliation listing should write for one affiliate: an
      absent one is listed by its affiliation and address alone. */
  method AffiliateItems(room: Room, bare: string, aff: Affiliation) returns (its: seq<Item>)
    requires room.Valid()
    ensures its != [] && Lists(its, bare)
    ensures forall it :: it in its ==> AffiliateItem(room, it, aff) && it.jid == Some(Jid(bare, None))
  {
    if room.HasBare(bare) {
      its := AffiliateItemsAsWritten(room, bare, aff);
    } else {
      its := [Item(Some(aff), None, None, Some(Jid(bare, None)))];
      assert its[0].jid == Some(Jid(bare, None));
    }
  }

  /** A room with one member who is not present: the items written for
      that member as written (`asWritten`, by the contract of
      `AffiliateItemsAsWritten`) are none, so the member list leaves the
      member out, while the corrected items (`fixed`, by the contract of
      `AffiliateItems`) name it. */
  lemma AbsentMemberUnlisted(room: Room, asWritten: seq<Item>, fixed: seq<Item>)
    requires room.affiliations == map["a@example.org" := Affiliation.member] && room.occupants == map[]
    requires !room.HasBare("a@example.org") ==> asWritten == []
    requires fixed != [] && Lists(fixed, "a@example.org")
    ensures !Lists(asWritten, "a@example.org") && asWritten != fixed
  {
    assert !room.HasBare("a@example.org");
  }

  /** The affiliation listing of `processGet`: every affiliate of the
      filtered affiliation is listed, by the corrected per-affiliate items. */
  method AffiliationList(room: Room, filter: Affiliation) returns (items: seq<Item>)
    requires room.Valid()
    ensures forall it :: it in items ==>
      AffiliateItem(room, it, filter) && it.jid.value.bare in room.affiliations && room.affiliations[it.jid.value.bare] == filter
    ensures forall b :: b in room.affiliations && room.affiliations[b] == filter ==> Lists(items, b)
  {
    var order := SetToSeq(room.affiliations.Keys);
    items := [];
    for i := 0 to |order|
      invariant forall it :: it in items ==>
        AffiliateItem(room, it, filter) && it.jid.value.bare in room.affiliations && room.affiliations[it.jid.value.bare] == filter
      invariant forall m :: 0 <= m < i && room.affiliations[order[m]] == filter ==> Lists(items, order[m])
    {
      var bare := order[i];
      if room.affiliations[bare] == filter {
        var more := AffiliateItems(room, bare, filter);
        ListsGrow(items, more);
        items := items + more;
      }
    }
    forall b | b in room.affiliations && room.affiliations[b] == filter
      ensures Lists(items, b)
    {
      var m :| 0 <= m < |order| && order[m] == b;
    }
  }

  /** Every item names an affiliate holding `filter` who is present. */
  predicate PresentAffiliates(room: Room, items: seq<Item>, filter: Affiliation)
    reads room
  {
    forall it :: it in items ==>
      && AffiliateItem(room, it, filter) && room.HasBare(it.jid.value.bare)
      && it.jid.value.bare in room.affiliations && room.affiliations[it.jid.value.bare] == filter
  }

  /** The affiliation listing as `processGet` writes it, through
      AffiliateItemsAsWritten: an affiliate is listed iff it is present. */
  method AffiliationListAsWritten(room: Room, filter: Affiliation) returns (items: seq<Item>)
    requires room.Valid()
    ensures forall it :: it in items ==>
      && AffiliateItem(room, it, filter) && room.HasBare(it.jid.value.bare)
      && it.jid.value.bare in room.affiliations && room.affiliations[it.jid.value.bare] == filter
    ensures forall b :: b in room.affiliations && room.affiliations[b] == filter ==> (Lists(items, b) <==> room.HasBare(b))
  {
    var order := SetToSeq(room.affiliations.Keys);
    items := [];
    for i := 0 to |order|
      invariant PresentAffiliates(room, items, filter)
      invariant forall m :: 0 <= m < i && room.affiliations[order[m]] == filter && room.HasBare(order[m]) ==>
        Lists(items, order[m])
    {
      ghost var before := items;
      items := ListAffiliateAsWritten(room, filter, order[i], items);
      forall m | 0 <= m < i + 1 && room.affiliations[order[m]] == filter && room.HasBare(order[m])
        ensures Lists(items, order[m])
      {
        if m < i {
          assert Lists(before, order[m]);
        }
      }
    }
    ListedIffPresent(room, items, order, filter);
  }

  /** The listing loop's end: every present affiliate holding `filter` was
      listed, and only present ones were. */
  lemma ListedIffPresent(room: Room, items: seq<Item>, order: seq<string>, filter: Affiliation)
    requires PresentAffiliates(room, items, filter)
    requires forall b :: b in room.affiliations ==> b in order
    requires forall m :: 0 <= m < |order| && order[m] in room.affiliations && room.affiliations[order[m]] == filter && room.HasBare(order[m]) ==>
      Lists(items, order[m])
    ensures forall b :: b in room.affiliations && room.affiliations[b] == filter ==> (Lists(items, b) <==> room.HasBare(b))
  {
    forall b | b in room.affiliations && room.affiliations[b] == filter
      ensures Lists(items, b) <==> room.HasBare(b)
    {
      if Lists(items, b) {
        var m :| 0 <= m < |items| && items[m].jid == Some(Jid(b, None));
        assert items[m] in items;
      } else {
        var m :| 0 <= m < |order| && order[m] == b;
      }
    }
  }

  /** One affiliate's turn in AffiliationListAsWritten: its items are
      appended when it holds `filter`. */
  method ListAffiliateAsWritten(room: Room, filter: Affiliation, bare: string, items: seq<Item>)
      returns (grown: seq<Item>)
    requires room.Valid() && bare in room.affiliations && PresentAffiliates(room, items, filter)
    ensures PresentAffiliates(room, grown, filter)
    ensures forall b :: Lists(items, b) ==> Lists(grown, b)
    ensures room.affiliations[bare] == filter && room.HasBare(bare) ==> Lists(grown, bare)
  {
    grown := items;
    if room.affiliations[bare] == filter {
      var more := AffiliateItemsAsWritten(room, bare, filter);
      ListsGrow(items, more);
      grown := items + more;
    }
  }

  /** Appending items keeps the addresses listed so far and adds those of
      the new items. */
  lemma ListsGrow(items: seq<Item>, more: seq<Item>)
    ensures forall b :: Lists(items, b) || Lists(more, b) ==> Lists(items + more, b)
  {
    forall b | Lists(items, b) || Lists(more, b)
      ensures Lists(items + more, b)
    {
      if Lists(items, b) {
        var m :| 0 <= m < |items| && items[m].jid == Some(Jid(b, None));
        assert (items + more)[m] == items[m];
      } else {
        var m :| 0 <= m < |more| && more[m].jid == Some(Jid(b, None));
        assert (items + more)[|items| + m] == more[m];
      }
    }
  }

  /** An item of the role listing for one session: the affiliation of its
      bare address, its nickname and role, and its full address unless the
      room is fully anonymous. */
  function RoleItem(room: Room, j: Jid): (it: Item)
    reads room
    requires j in room.nicknames
    ensures it.nick == Some(room.nicknames[j]) && it.role == Some(room.RoleOfJid(j))
    ensures it.affiliation == Some(room.AffiliationOf(j.bare))
    ensures it.jid.Some? <==> room.config.anonymity != Anonymity.fullanonymous
    ensures it.jid.Some? ==> it.jid.value == j
  {
    Item(Some(room.AffiliationOf(j.bare)), Some(room.RoleOfJid(j)), Some(room.nicknames[j]),
         if room.config.anonymity != Anonymity.fullanonymous then Some(j) else None)
  }

  /** The sessions whose role is `role`. */
  function HoldersOf(room: Room, role: Role): set<Jid>
    reads room
  {
    set j | j in room.nicknames && room.RoleOfJid(j) == role
  }

  /** The role listing of `processGet`: one item per session whose role is
      the filtered one, and no other. `shown` are those sessions, each once,
      in the order of the items. */
  method RoleList(room: Room, filter: Role) returns (items: seq<Item>, ghost shown: seq<Jid>)
    requires room.Valid()
    ensures |shown| == |items| == |HoldersOf(room, filter)|
    ensures forall j :: j in shown <==> j in HoldersOf(room, filter)
    ensures forall m :: 0 <= m < |shown| ==>
      shown[m] in room.nicknames && room.RoleOfJid(shown[m]) == filter && items[m] == RoleItem(room, shown[m])
    ensures forall it :: it in items <==> exists j :: j in HoldersOf(room, filter) && it == RoleItem(room, j)
  {
    var order := SetToSeq(HoldersOf(room, filter));
    items := [];
    for i := 0 to |order|
      invariant |items| == i
      invariant forall m :: 0 <= m < i ==>
        order[m] in room.nicknames && room.RoleOfJid(order[m]) == filter && items[m] == RoleItem(room, order[m])
    {
      assert order[i] in HoldersOf(room, filter);
      items := items + [RoleItem(room, order[i])];
    }
    shown := order;
    forall j | j in HoldersOf(room, filter)
      ensures RoleItem(room, j) in items
    {
      var m :| 0 <= m < |order| && order[m] == j;
      assert items[m] == RoleItem(room, j);
    }
  }

  /** `processGet`: only an owner or admin may list; an item naming just an
      affiliation lists its affiliates, one naming just a role lists the
      sessions with it, anything else is a bad request. An IQ without a
      query, or a query without an item, fails; so does an unknown name. */
  method ProcessGet(room: Room, p: Packet) returns (outcome: Outcome, result: Option<seq<Stanza>>)
    requires room.Valid()
    ensures result.Some? <==> outcome == Ok
    ensures result.Some? ==>
      && |result.value| == 1 && result.value[0].IqResult?
      && result.value[0].head == CreateResultIQ(ElementOf(p, "iq")) && result.value[0].query.Some?
    ensures ChildNamed(p.children, "query").None? ==> outcome == Fault
    ensures ChildNamed(p.children, "query").Some? ==>
      var item := ChildNamed(ChildNamed(p.children, "query").value.children, "item");
      var senderAff := room.AffiliationOf(p.from.bare);
      if senderAff != Affiliation.admin && senderAff != Affiliation.owner then outcome == Rejected(Forbidden)
      else if item.None? || RoleAttr(item.value).Unknown? || AffiliationAttr(item.value).Unknown? then outcome == Fault
      else if AffiliationAttr(item.value).Known? && RoleAttr(item.value).Absent? then
        var filter := AffiliationAttr(item.value).value;
        && outcome == Ok
        && (forall b :: b in room.affiliations && room.affiliations[b] == filter ==> Lists(result.value[0].query.value, b))
        && (forall it :: it in result.value[0].query.value ==>
              && AffiliateItem(room, it, filter)
              && it.jid.value.bare in room.affiliations && room.affiliations[it.jid.value.bare] == filter)
      else if AffiliationAttr(item.value).Absent? && RoleAttr(item.value).Known? then
        var filter := RoleAttr(item.value).value;
        && outcome == Ok && |result.value[0].query.value| == |HoldersOf(room, filter)|
        && (forall it :: it in result.value[0].query.value <==>
              exists j :: j in HoldersOf(room, filter) && it == RoleItem(room, j))
      else outcome == Rejected(BadRequest)
  {
    var query := ChildNamed(p.children, "query");
    if query.None? {
      return Fault, None;
    }
    var item := ChildNamed(query.value.children, "item");
    var senderAff := room.AffiliationOf(p.from.bare);
    if senderAff != Affiliation.admin && senderAff != Affiliation.owner {
      return Rejected(Forbidden), None;
    }
    if item.None? {
      return Fault, None;
    }
    var filterRole := RoleAttr(item.value);
    var filterAff := AffiliationAttr(item.value);
    if filterRole.Unknown? || filterAff.Unknown? {
      return Fault, None;
    }
    var items;
    if filterAff.Known? && filterRole.Absent? {
      items := AffiliationList(room, filterAff.value);
    } else if filterAff.Absent? && filterRole.Known? {
      ghost var shown;
      items, shown := RoleList(room, filterRole.value);
    } else {
      return Rejected(BadRequest), None;
    }
    outcome := Ok;
    result := Some([IqResult(CreateResultIQ(ElementOf(p, "iq")), Some(items))]);
  }

  // ---------------------------------------------------------------------
  // The handler
  // ---------------------------------------------------------------------

  /** `process`: an IQ addressed to an occupant rather than to a room is a
      bad request; a `set` or a `get` goes to its room, an unknown room
      being an item-not-found; any other type is a bad request. */
  method Process(reg: Registry, policy: Policy, p: Packet) returns (outcome: Outcome, result: Option<seq<Stanza>>)
    requires reg.Valid()
    modifies reg.RoomAt(p.to.bare)
    ensures reg.Valid() && reg.rooms == old(reg.rooms)
    ensures result.Some? <==> outcome == Ok
    ensures p.to.resource.Some? ==> outcome == Rejected(BadRequest) && unchanged(reg.RoomAt(p.to.bare))
    ensures p.to.resource.None? && p.stanzaType != Some("set") && p.stanzaType != Some("get") ==>
      outcome == Rejected(BadRequest) && unchanged(reg.RoomAt(p.to.bare))
    ensures p.to.resource.None? && (p.stanzaType == Some("set") || p.stanzaType == Some("get")) && p.to.bare !in reg.rooms ==>
      outcome == Rejected(ItemNotFound)
    ensures p.stanzaType != Some("set") ==> unchanged(reg.RoomAt(p.to.bare))
  {
    if p.to.resource.Some? {
      return Rejected(BadRequest), None;
    }
    if p.stanzaType != Some("set") && p.stanzaType != Some("get") {
      return Rejected(BadRequest), None;
    }
    if p.to.bare !in reg.rooms {
      return Rejected(ItemNotFound), None;
    }
    var room := reg.rooms[p.to.bare];
    if p.stanzaType == Some("set") {
      outcome, result := ProcessSet(room, p, policy);
    } else {
      outcome, result := ProcessGet(room, p);
    }
  }
}
