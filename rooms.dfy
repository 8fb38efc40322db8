/** The room aggregate the handlers read and mutate, and the registry of rooms.
    The room's own source is not part of this model: each operation below does
    what its call sites in the handlers rely on. */
module Rooms {
  import opened MucTypes

  /** The occupant bound to a nickname: the one bare address that holds it,
      the full addresses (sessions) under it, and its role. */
  datatype Occupant = Occupant(bare: string, jids: set<Jid>, role: Role)

  /** The subject triple: text, nickname of the changer, date of the change. */
  datatype Subject = Subject(text: Option<string>, changer: Option<string>, date: Option<Date>)

  /** The roster after session `j` leaves: `j` is dropped from its nickname,
      and a nickname left without sessions disappears with its role. */
  function Detach(occupants: map<string, Occupant>, nicknames: map<Jid, string>, j: Jid): map<string, Occupant>
  {
    if j in nicknames && nicknames[j] in occupants then
      var n := nicknames[j];
      if occupants[n].jids == {j} then occupants - {n}
      else occupants[n := occupants[n].(jids := occupants[n].jids - {j})]
    else occupants
  }

  /** The roster after session `j` is bound to `nick` with `role`. */
  function Attach(occupants: map<string, Occupant>, j: Jid, nick: string, role: Role): map<string, Occupant>
  {
    occupants[nick :=
      if nick in occupants then occupants[nick].(jids := occupants[nick].jids + {j}, role := role)
      else Occupant(j.bare, {j}, role)]
  }

  /** A map keyed by full addresses without the sessions of `bare`. */
  function WithoutBare<V>(m: map<Jid, V>, bare: string): (r: map<Jid, V>)
    ensures forall j :: j in r <==> j in m && j.bare != bare
  {
    map j | j in m && j.bare != bare :: m[j]
  }

  /** The roster without the nicknames `bare` holds. */
  function WithoutHolder(occupants: map<string, Occupant>, bare: string): (r: map<string, Occupant>)
    ensures forall n :: n in r <==> n in occupants && occupants[n].bare != bare
  {
    map n | n in occupants && occupants[n].bare != bare :: occupants[n]
  }

  /** The roster with `role` on every nickname `bare` holds. */
  function WithRole(occupants: map<string, Occupant>, bare: string, role: Role): (r: map<string, Occupant>)
    ensures r.Keys == occupants.Keys
    ensures forall n :: n in r ==> r[n].bare == occupants[n].bare && r[n].jids == occupants[n].jids
    ensures forall n :: n in r ==> r[n].role == if occupants[n].bare == bare then role else occupants[n].role
  {
    map n | n in occupants :: if occupants[n].bare == bare then occupants[n].(role := role) else occupants[n]
  }

  /** A snapshot of a room's roster: its sessions' nicknames, its nicknames'
      occupants and its sessions' cached presences. */
  datatype Roster = Roster(nicknames: map<Jid, string>, occupants: map<string, Occupant>, presences: map<Jid, Element>)
  {
    ghost predicate Valid()
    {
      Consistent(nicknames, occupants, presences)
    }
  }

  /** The two roster maps agree, every nickname has a session, one bare
      address holds each nickname, and every session has a cached presence. */
  ghost predicate Consistent(nicknames: map<Jid, string>, occupants: map<string, Occupant>, presences: map<Jid, Element>)
  {
    && (forall j :: j in nicknames ==> nicknames[j] in occupants && j in occupants[nicknames[j]].jids)
    && (forall n :: n in occupants ==> occupants[n].jids != {})
    && (forall n, j :: n in occupants && j in occupants[n].jids ==>
          j in nicknames && nicknames[j] == n && j.bare == occupants[n].bare)
    && presences.Keys == nicknames.Keys
  }

  /** Binding a session that is not in the room to a nickname no other bare
      address holds keeps the roster consistent. */
  lemma AttachConsistent(nicknames: map<Jid, string>, occupants: map<string, Occupant>, presences: map<Jid, Element>,
                         j: Jid, nick: string, role: Role, pe: Element)
    requires Consistent(nicknames, occupants, presences) && j !in nicknames
    requires nick in occupants ==> occupants[nick].bare == j.bare
    ensures Consistent(nicknames[j := nick], Attach(occupants, j, nick, role), presences[j := pe])
  {
    var nk, occ := nicknames[j := nick], Attach(occupants, j, nick, role);
    forall n, k | n in occ && k in occ[n].jids
      ensures k in nk && nk[k] == n && k.bare == occ[n].bare
    {
      if n != nick {
        assert k in occupants[n].jids;
      }
    }
  }

  /** Dropping a session keeps the roster consistent. */
  lemma DetachConsistent(nicknames: map<Jid, string>, occupants: map<string, Occupant>, presences: map<Jid, Element>,
                         j: Jid)
    requires Consistent(nicknames, occupants, presences)
    ensures Consistent(nicknames - {j}, Detach(occupants, nicknames, j), presences - {j})
  {
    if j in nicknames {
      var n := nicknames[j];
      if occupants[n].jids != {j} {
        assert exists k :: k in occupants[n].jids && k != j;
      }
    }
  }

  /** Moving a session to a nickname that no other bare address holds keeps
      the roster consistent. */
  lemma RebindConsistent(nicknames: map<Jid, string>, occupants: map<string, Occupant>, presences: map<Jid, Element>,
                         j: Jid, nick: string, role: Role, pe: Element)
    requires Consistent(nicknames, occupants, presences)
    requires nick in occupants ==> occupants[nick].bare == j.bare
    ensures Consistent(nicknames[j := nick], Attach(Detach(occupants, nicknames, j), j, nick, role), presences[j := pe])
  {
    DetachConsistent(nicknames, occupants, presences, j);
    var occ := Detach(occupants, nicknames, j);
    assert nick in occ ==> occ[nick].bare == occupants[nick].bare;
    AttachConsistent(nicknames - {j}, occ, presences - {j}, j, nick, role, pe);
    assert (nicknames - {j})[j := nick] == nicknames[j := nick];
    assert (presences - {j})[j := pe] == presences[j := pe];
  }

  class Room {
    /** The room's bare address. */
    const jid: string
    var config: RoomConfig
    /** full address -> nickname */
    var nicknames: map<Jid, string>
    /** nickname -> occupant (bare address, full addresses, role) */
    var occupants: map<string, Occupant>
    /** bare address -> affiliation; survives departure */
    var affiliations: map<string, Affiliation>
    /** full address -> last accepted presence */
    var presences: map<Jid, Element>
    var subject: Subject
    var locked: bool

    /** The room's roster is consistent (see Consistent). */
    ghost predicate Valid()
      reads this
    {
      Consistent(nicknames, occupants, presences)
    }

    constructor (jid: string, config: RoomConfig)
      ensures Valid() && this.jid == jid && this.config == config
      ensures nicknames == map[] && occupants == map[] && affiliations == map[] && presences == map[]
      ensures subject == Subject(None, None, None) && !locked
    {
      this.jid := jid;
      this.config := config;
      nicknames := map[];
      occupants := map[];
      affiliations := map[];
      presences := map[];
      subject := Subject(None, None, None);
      locked := false;
    }

    /** The room's roster as a value. */
    function RosterOf(): (r: Roster)
      reads this
      ensures r.nicknames == nicknames && r.occupants == occupants && r.presences == presences
      ensures r.Valid() <==> Valid()
    {
      Roster(nicknames, occupants, presences)
    }

    /** The sessions of every nickname in `ns`. */
    function SessionsOf(ns: set<string>): (r: set<Jid>)
      reads this
      ensures forall j :: j in r <==> j in nicknames && nicknames[j] in ns
    {
      set j | j in nicknames && nicknames[j] in ns
    }

    /** `getAffiliation`: none for an address without an entry. */
    function AffiliationOf(bare: string): Affiliation
      reads this
    {
      if bare in affiliations then affiliations[bare] else Affiliation.none
    }

    /** `getOccupantsNickname` */
    function NicknameOf(j: Jid): Option<string>
      reads this
    {
      if j in nicknames then Some(nicknames[j]) else None
    }

    /** `getOccupantsJidsByNickname`: empty for an unknown nickname. */
    function JidsOf(nick: Option<string>): set<Jid>
      reads this
    {
      if nick.Some? && nick.value in occupants then occupants[nick.value].jids else {}
    }

    /** `getRole`: none for an unknown nickname. */
    function RoleOf(nick: Option<string>): Role
      reads this
    {
      if nick.Some? && nick.value in occupants then occupants[nick.value].role else Role.none
    }

    /** `getRoleByJid` */
    function RoleOfJid(j: Jid): Role
      reads this
    {
      RoleOf(NicknameOf(j))
    }

    /** `getOccupantsJidByNickname`: the bare address holding a nickname. */
    function OwnerOf(nick: Option<string>): Option<string>
      reads this
    {
      if nick.Some? && nick.value in occupants then Some(occupants[nick.value].bare) else None
    }

    /** The affiliation of whoever holds a nickname. */
    function AffiliationOfNick(nick: Option<string>): Affiliation
      reads this
    {
      var b := OwnerOf(nick);
      if b.Some? then AffiliationOf(b.value) else Affiliation.none
    }

    function OccupantsCount(): nat
      reads this
    {
      |occupants|
    }

    /** `getOccupantsJids`: every session in the room. */
    function AllJids(): set<Jid>
      reads this
    {
      nicknames.Keys
    }

    /** `getRealJidsByBareJid` */
    function JidsOfBare(bare: string): set<Jid>
      reads this
    {
      set j | j in nicknames && j.bare == bare
    }

    /** `getOccupantsNicknameByBareJid(bare) != null` */
    predicate HasBare(bare: string)
      reads this
    {
      exists n :: n in occupants && occupants[n].bare == bare
    }

    /** `isNickNameExistsForDifferentJid` */
    predicate NickHeldByOther(nick: string, bare: string)
      reads this
    {
      nick in occupants && occupants[nick].bare != bare
    }

    /** The cached presences of the sessions of a bare address. */
    function PresencesOfBare(bare: string): set<Element>
      reads this
    {
      set j | j in presences && j.bare == bare :: presences[j]
    }

    /** The cached presences of the sessions under a nickname. */
    function PresencesOfNick(nick: string): set<Element>
      reads this
    {
      set j | j in presences && j in nicknames && nicknames[j] == nick :: presences[j]
    }

    method AddAffiliation(bare: string, a: Affiliation)
      requires Valid()
      modifies this`affiliations
      ensures Valid() && affiliations == old(affiliations)[bare := a]
    {
      affiliations := affiliations[bare := a];
    }

    method SetLocked(b: bool)
      requires Valid()
      modifies this`locked
      ensures Valid() && locked == b
    {
      locked := b;
    }

    /** `setNewSubject`: the three parts change together. */
    method SetNewSubject(text: Option<string>, changer: Option<string>, now: Date)
      requires Valid()
      modifies this`subject
      ensures Valid() && subject == Subject(text, changer, Some(now))
    {
      subject := Subject(text, changer, Some(now));
    }

    /** `removeOccupant`: drops one session and its cached presence; the result
        says whether its nickname went with it. */
    method RemoveOccupant(j: Jid) returns (nicknameGone: bool)
      requires Valid()
      modifies this`nicknames, this`occupants, this`presences
      ensures Valid()
      ensures nicknames == old(nicknames) - {j} && presences == old(presences) - {j}
      ensures occupants == Detach(old(occupants), old(nicknames), j)
      ensures nicknameGone <==> j in old(nicknames) && old(occupants)[old(nicknames)[j]].jids == {j}
    {
      nicknameGone := j in nicknames && occupants[nicknames[j]].jids == {j};
      DetachConsistent(nicknames, occupants, presences, j);
      occupants := Detach(occupants, nicknames, j);
      nicknames := nicknames - {j};
      presences := presences - {j};
    }

    /** `addOccupantByJid`: binds session `j` to `nick` with `role` and caches
        its presence; a session bound elsewhere moves. It fails, changing
        nothing, when another bare address holds `nick`. */
    method AddOccupant(j: Jid, nick: string, role: Role, pe: Element) returns (added: bool)
      requires Valid()
      modifies this`nicknames, this`occupants, this`presences
      ensures Valid()
      ensures added <==> !old(NickHeldByOther(nick, j.bare))
      ensures !added ==> nicknames == old(nicknames) && occupants == old(occupants) && presences == old(presences)
      ensures added ==> nicknames == old(nicknames)[j := nick] && presences == old(presences)[j := pe]
      ensures added ==> occupants == Attach(Detach(old(occupants), old(nicknames), j), j, nick, role)
    {
      if NickHeldByOther(nick, j.bare) {
        return false;
      }
      RebindConsistent(nicknames, occupants, presences, j, nick, role, pe);
      occupants := Attach(Detach(occupants, nicknames, j), j, nick, role);
      nicknames := nicknames[j := nick];
      presences := presences[j := pe];
      added := true;
    }

    /** `removeAllOccupantsByBareJid`: every session of a bare address leaves. */
    method RemoveAllOccupantsByBare(bare: string)
      requires Valid()
      modifies this`nicknames, this`occupants, this`presences
      ensures Valid()
      ensures nicknames == WithoutBare(old(nicknames), bare) && presences == WithoutBare(old(presences), bare)
      ensures occupants == WithoutHolder(old(occupants), bare)
      ensures JidsOfBare(bare) == {} && !HasBare(bare)
    {
      nicknames := WithoutBare(nicknames, bare);
      occupants := WithoutHolder(occupants, bare);
      presences := WithoutBare(presences, bare);
    }

    /** `setNewRole`: the nicknames held by a bare address get `role`. */
    method SetNewRole(bare: string, role: Role)
      requires Valid()
      modifies this`occupants
      ensures Valid() && occupants == WithRole(old(occupants), bare, role)
    {
      occupants := WithRole(occupants, bare, role);
    }

    /** `changeNickName`: session `j` moves to `newNick`, keeping its role and
        its cached presence. */
    method ChangeNickName(j: Jid, newNick: string)
      requires Valid() && j in nicknames && !NickHeldByOther(newNick, j.bare)
      modifies this`nicknames, this`occupants, this`presences
      ensures Valid()
      ensures nicknames == old(nicknames)[j := newNick] && presences == old(presences)
      ensures occupants == Attach(Detach(old(occupants), old(nicknames), j), j, newNick, old(RoleOfJid(j)))
    {
      var role := RoleOfJid(j);
      var pe := presences[j];
      RebindConsistent(nicknames, occupants, presences, j, newNick, role, pe);
      occupants := Attach(Detach(occupants, nicknames, j), j, newNick, role);
      nicknames := nicknames[j := newNick];
      presences := presences[j := pe];
    }

    /** `updatePresenceByJid(jid, presence)` for a present session. */
    method UpdatePresence(j: Jid, pe: Element)
      requires Valid() && j in nicknames
      modifies this`presences
      ensures Valid() && presences == old(presences)[j := pe]
    {
      presences := presences[j := pe];
    }

    /** `updatePresenceByJid(null, nick, presence)`: every session under the nickname. */
    method UpdateNickPresence(nick: string, pe: Element)
      requires Valid()
      modifies this`presences
      ensures Valid()
      ensures presences == map j | j in old(presences) :: if nicknames[j] == nick then pe else old(presences)[j]
    {
      presences := map j | j in presences :: if nicknames[j] == nick then pe else presences[j];
    }

    /** `getOccupantsNicknameByBareJid`: one nickname the bare address holds, if any. */
    method NicknameOfBare(bare: string) returns (n: Option<string>)
      requires Valid()
      ensures n.None? <==> !HasBare(bare)
      ensures n.Some? ==> n.value in occupants && occupants[n.value].bare == bare
    {
      if exists m :: m in occupants && occupants[m].bare == bare {
        var m :| m in occupants && occupants[m].bare == bare;
        n := Some(m);
      } else {
        n := None;
      }
    }

    /** `getLastPresenceCopyByJid(bare)`: the cached presence of one session of
        the bare address, if it has any. */
    method LastPresenceOfBare(bare: string) returns (pe: Option<Element>)
      requires Valid()
      ensures pe.None? <==> JidsOfBare(bare) == {}
      ensures pe.Some? ==> pe.value in PresencesOfBare(bare)
    {
      if exists j :: j in presences && j.bare == bare {
        var j :| j in presences && j.bare == bare;
        pe := Some(presences[j]);
      } else {
        pe := None;
      }
    }

    /** `getLastPresenceCopy(bare, nick)`: the cached presence of one session
        under the nickname, if it has any. */
    method LastPresenceOfNick(nick: string) returns (pe: Option<Element>)
      requires Valid()
      ensures pe.None? <==> JidsOf(Some(nick)) == {}
      ensures pe.Some? ==> pe.value in PresencesOfNick(nick)
    {
      if nick in occupants {
        var j :| j in occupants[nick].jids;
        pe := Some(presences[j]);
      } else {
        pe := None;
      }
    }
  }

  /** A nickname is never held by two bare addresses: two sessions under the
      same nickname share their bare address. */
  lemma NicknameHasOneBare(r: Room, j1: Jid, j2: Jid)
    requires r.Valid() && j1 in r.nicknames && j2 in r.nicknames
    requires r.nicknames[j1] == r.nicknames[j2]
    ensures j1.bare == j2.bare
  {
  }

  /** The room registry: room bare address -> room. */
  class Registry {
    var rooms: map<string, Room>

    ghost predicate Valid()
      reads this, rooms.Values
    {
      forall k :: k in rooms ==> rooms[k].jid == k && rooms[k].Valid()
    }

    constructor ()
      ensures Valid() && rooms == map[]
    {
      rooms := map[];
    }

    /** The room a handler addressed to `k` may change. */
    function RoomAt(k: string): set<Room>
      reads this
    {
      if k in rooms then {rooms[k]} else {}
    }

    /** `createNewRoom`: an empty room under a fresh key. */
    method CreateNewRoom(k: string, config: RoomConfig) returns (r: Room)
      requires Valid() && k !in rooms
      modifies this
      ensures Valid() && fresh(r) && rooms == old(rooms)[k := r]
      ensures r.jid == k && r.config == config && r.Valid()
      ensures r.nicknames == map[] && r.occupants == map[] && r.affiliations == map[]
      ensures r.subject == Subject(None, None, None)
    {
      r := new Room(k, config);
      rooms := rooms[k := r];
    }

    /** `leaveRoom`: the room is evicted. */
    method LeaveRoom(r: Room)
      requires Valid()
      modifies this
      ensures Valid() && rooms == old(rooms) - {r.jid}
    {
      rooms := rooms - {r.jid};
    }
  }
}
