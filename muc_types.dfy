/** Shared vocabulary of the multi-user chat handlers (XEP-0045): addresses,
    affiliations and roles, error conditions, room configuration, the capability
    parameters, the XML elements the handlers inspect, the stanzas they emit and
    the sink they write to. */
module MucTypes {

  datatype Option<+T> = None | Some(value: T)

  /** An XMPP address: `local@domain` (the bare part) and an optional resource. */
  datatype Jid = Jid(bare: string, resource: Option<string>)

  /** Long-lived membership of a bare address in a room. */
  datatype Affiliation = owner | admin | member | none | outcast

  /** Session privilege of an occupant while present. */
  datatype Role = moderator | participant | visitor | none

  datatype Anonymity = nonanonymous | semianonymous | fullanonymous

  /** The error conditions the handlers reject a stanza with. */
  datatype Condition =
    | BadRequest
    | Conflict
    | FeatureNotImplemented
    | Forbidden
    | ItemNotFound
    | JidMalformed
    | NotAllowed
    | NotAuthorized
    | RegistrationRequired

  /** How one handler call ends: normally, with an error reply carrying a
      condition, or with a runtime exception escaping the handler. */
  datatype Outcome = Ok | Rejected(cond: Condition) | Fault

  /** The affiliation weight and the capability predicates that Affiliation and
      Role carry. Their tables are not part of this model, so every handler
      takes them as this parameter. */
  datatype Policy = Policy(
    weight: Affiliation -> int,
    enterOpenRoom: Affiliation -> bool,
    enterMembersOnlyRoom: Affiliation -> bool,
    viewOccupantsJid: Affiliation -> bool,
    editMemberList: Affiliation -> bool,
    editAdminList: Affiliation -> bool,
    editOwnerList: Affiliation -> bool,
    editModeratorList: Affiliation -> bool,
    banMembersAndUnaffiliated: Affiliation -> bool,
    sendMessagesToAll: Role -> bool,
    receiveMessages: Role -> bool,
    modifySubject: Role -> bool,
    kickParticipantsAndVisitors: Role -> bool,
    grantVoice: Role -> bool,
    revokeVoice: Role -> bool,
    inviteOtherUsers: Role -> bool)

  /** The per-room configuration the handlers consult. */
  datatype RoomConfig = RoomConfig(
    anonymity: Anonymity,
    membersOnly: bool,
    moderated: bool,
    passwordProtected: bool,
    password: Option<string>,
    persistent: bool,
    loggingEnabled: bool,
    changeSubject: bool,
    presenceFilterEnabled: bool,
    presenceFilteredAffiliations: set<Affiliation>)

  /** An instant; dates are opaque to the handlers. */
  datatype Date = Date(millis: int)

  /** The settings every handler reads from its module context. */
  datatype Context = Context(
    multiItemMode: bool,
    newRoomLocked: bool,
    presenceFilterEnabled: bool,
    messageFilterEnabled: bool,
    chatStateAllowed: bool,
    hasHistoryProvider: bool,
    hasMucLogger: bool,
    defaultConfig: RoomConfig,
    parseDate: string -> Option<Date>,
    formatStamp: Date -> string,
    formatLegacyStamp: Date -> string)

  /** An XML element: name, namespace, attributes, character data, children. */
  datatype Element = Element(
    name: string,
    xmlns: Option<string>,
    attrs: map<string, string>,
    cdata: Option<string>,
    children: seq<Element>)

  const MucNs := "http://jabber.org/protocol/muc"
  const MucUserNs := "http://jabber.org/protocol/muc#user"
  const CapsNs := "http://jabber.org/protocol/caps"
  const ChatStatesNs := "http://jabber.org/protocol/chatstates"
  const DelayNs := "urn:xmpp:delay"

  /** Status codes of muc#user presences. */
  const StatusNonAnonymous := 100
  const StatusSelf := 110
  const StatusLogging := 170
  const StatusCreated := 201
  const StatusBanned := 301
  const StatusNickChanged := 303
  const StatusKicked := 307

  /** A new `<presence type="unavailable"/>`. */
  const UnavailablePresence := Element("presence", None, map["type" := "unavailable"], None, [])

  function Attr(e: Element, key: string): Option<string>
  {
    if key in e.attrs then Some(e.attrs[key]) else None
  }

  /** `getChild(name)`: the first child with that name. */
  function ChildNamed(cs: seq<Element>, name: string): (r: Option<Element>)
    ensures r.Some? ==> r.value in cs && r.value.name == name
    ensures r.None? <==> forall c :: c in cs ==> c.name != name
  {
    if cs == [] then None
    else if cs[0].name == name then Some(cs[0])
    else ChildNamed(cs[1..], name)
  }

  /** `getChild(name, xmlns)`: the first child with that name and namespace. */
  function ChildNamedNs(cs: seq<Element>, name: string, ns: string): (r: Option<Element>)
    ensures r.Some? ==> r.value in cs && r.value.name == name && r.value.xmlns == Some(ns)
    ensures r.None? <==> forall c :: c in cs ==> c.name != name || c.xmlns != Some(ns)
  {
    if cs == [] then None
    else if cs[0].name == name && cs[0].xmlns == Some(ns) then Some(cs[0])
    else ChildNamedNs(cs[1..], name, ns)
  }

  /** `e == null ? null : e.getCData()`. */
  function CDataOf(e: Option<Element>): Option<string>
  {
    if e.Some? then e.value.cdata else None
  }

  /** One `<item/>` of an `x` element (muc#user or muc#admin). */
  datatype Item = Item(
    affiliation: Option<Affiliation>,
    role: Option<Role>,
    nick: Option<string>,
    jid: Option<Jid>)

  /** An outbound stanza. A presence keeps the element it was built from in
      `base` (its type and payload) and holds the `item`s and `status` codes of
      its muc#user `x` child; a message keeps its children in order; an IQ result
      keeps its head and, for a query answer, the items of its query. */
  datatype Stanza =
    | Presence(from: Jid, to: Jid, base: Element, items: set<Item>, codes: seq<int>,
               actor: Option<Jid>, reason: Option<string>)
    | Message(from: Jid, to: Jid, msgType: Option<string>, id: Option<string>, children: seq<Element>)
    | IqResult(head: Element, query: Option<seq<Item>>)

  /** The addresses a sequence of presences and messages is sent to. */
  function Recipients(out: seq<Stanza>): set<Jid>
  {
    if out == [] then {}
    else Recipients(out[..|out| - 1]) + (if out[|out| - 1].IqResult? then {} else {out[|out| - 1].to})
  }

  lemma {:induction false} RecipientsAppend(out: seq<Stanza>, more: seq<Stanza>)
    ensures Recipients(out + more) == Recipients(out) + Recipients(more)
    decreases |more|
  {
    if more != [] {
      var last := more[|more| - 1];
      assert (out + more)[..|out + more| - 1] == out + more[..|more| - 1];
      RecipientsAppend(out, more[..|more| - 1]);
    } else {
      assert out + more == out;
    }
  }

  /** Every recipient is the address of some presence or message of the sequence. */
  lemma {:induction false} RecipientWitness(out: seq<Stanza>, d: Jid)
    requires d in Recipients(out)
    ensures exists i :: 0 <= i < |out| && !out[i].IqResult? && out[i].to == d
    decreases |out|
  {
    var last := out[|out| - 1];
    if !(!last.IqResult? && last.to == d) {
      RecipientWitness(out[..|out| - 1], d);
      var i :| 0 <= i < |out| - 1 && !out[..|out| - 1][i].IqResult? && out[..|out| - 1][i].to == d;
      assert out[i] == out[..|out| - 1][i];
    }
  }

  /** A batch addressed entirely to `d` reaches exactly `d`, if it is not empty. */
  lemma {:induction false} RecipientsOfBatch(b: seq<Stanza>, d: Jid)
    requires forall i :: 0 <= i < |b| ==> !b[i].IqResult? && b[i].to == d
    ensures Recipients(b) == if b == [] then {} else {d}
    decreases |b|
  {
    if b != [] {
      RecipientsOfBatch(b[..|b| - 1], d);
    }
  }

  /** The nested "for every destination, write its batch" loop of the
      broadcasts: each destination of the set gets its own batch of `k`
      stanzas, in an unspecified order of destinations. */
  method Fanout(dests: set<Jid>, batch: Jid -> seq<Stanza>, k: nat) returns (out: seq<Stanza>)
    requires forall d :: d in dests ==> |batch(d)| == k
    requires forall d, i :: d in dests && 0 <= i < |batch(d)| ==> !batch(d)[i].IqResult? && batch(d)[i].to == d
    ensures |out| == |dests| * k
    ensures forall o :: o in out ==> exists d :: d in dests && o in batch(d)
    ensures forall d, o :: d in dests && o in batch(d) ==> o in out
    ensures Recipients(out) == if k == 0 then {} else dests
  {
    var order := SetToSeq(dests);
    out := [];
    for i := 0 to |order|
      invariant |out| == Times(i, k)
      invariant FannedOut(out, order[..i], batch, k)
    {
      FanoutStep(out, order[..i], batch, k, order[i]);
      assert order[..i + 1] == order[..i] + [order[i]];
      out := out + batch(order[i]);
    }
    assert order[..|order|] == order;
    TimesIsProduct(|dests|, k);
  }

  /** `out` holds the batches of the destinations in `ds` and nothing else. */
  ghost predicate FannedOut(out: seq<Stanza>, ds: seq<Jid>, batch: Jid -> seq<Stanza>, k: nat)
  {
    && (forall o :: o in out ==> exists d :: d in ds && o in batch(d))
    && (forall d, o :: d in ds && o in batch(d) ==> o in out)
    && Recipients(out) == if k == 0 then {} else (set d | d in ds)
  }

  lemma FanoutStep(out: seq<Stanza>, ds: seq<Jid>, batch: Jid -> seq<Stanza>, k: nat, d: Jid)
    requires FannedOut(out, ds, batch, k) && |batch(d)| == k
    requires forall i :: 0 <= i < |batch(d)| ==> !batch(d)[i].IqResult? && batch(d)[i].to == d
    ensures FannedOut(out + batch(d), ds + [d], batch, k)
  {
    RecipientsOfBatch(batch(d), d);
    RecipientsAppend(out, batch(d));
  }

  /** `a * k`, counted out by repeated addition. */
  function Times(a: nat, k: nat): nat
  {
    if a == 0 then 0 else Times(a - 1, k) + k
  }

  lemma {:induction false} TimesIsProduct(a: nat, k: nat)
    ensures Times(a, k) == a * k
  {
    if a > 0 {
      TimesIsProduct(a - 1, k);
    }
  }

  /** An inbound stanza with its addresses parsed. */
  datatype Packet = Packet(
    from: Jid,
    to: Jid,
    stanzaType: Option<string>,
    id: Option<string>,
    children: seq<Element>,
    errorCondition: Option<string>)

  /** The textual form of an address, `bare` or `bare/resource`. */
  function JidToString(j: Jid): string
  {
    if j.resource.Some? then j.bare + "/" + j.resource.value else j.bare
  }

  /** The position of the first '/' in `s`, if any. */
  function SlashIndex(s: string): (r: Option<nat>)
    ensures r.Some? ==> r.value < |s| && s[r.value] == '/' && '/' !in s[..r.value]
    ensures r.None? ==> '/' !in s
  {
    if s == [] then None
    else if s[0] == '/' then Some(0)
    else
      var t := SlashIndex(s[1..]);
      if t.Some? then (assert s[..t.value + 1] == [s[0]] + s[1..][..t.value]; Some(t.value + 1)) else None
  }

  /** `JID.jidInstance(s)`: the text up to the first '/' is the bare part,
      the rest, if there is a '/', the resource. */
  function ParseJid(s: string): Jid
  {
    var i := SlashIndex(s);
    if i.Some? then Jid(s[..i.value], Some(s[i.value + 1..])) else Jid(s, None)
  }

  /** Parsing the textual form of an address gives the address back, when
      its bare part holds no '/'. */
  lemma ParseJidToString(j: Jid)
    requires '/' !in j.bare
    ensures ParseJid(JidToString(j)) == j
  {
    var s := JidToString(j);
    if j.resource.Some? {
      assert s == j.bare + ['/'] + j.resource.value;
      assert s[|j.bare|] == '/' && s[..|j.bare|] == j.bare;
      var i := SlashIndex(s);
      assert i == Some(|j.bare|);
      assert s[|j.bare| + 1..] == j.resource.value;
    }
  }

  /** The element of an inbound stanza: its addressing attributes and its children. */
  function ElementOf(p: Packet, name: string): (e: Element)
    ensures e.name == name && e.children == p.children && Attr(e, "type") == p.stanzaType
  {
    var a := map["from" := JidToString(p.from), "to" := JidToString(p.to)];
    var a := if p.stanzaType.Some? then a["type" := p.stanzaType.value] else a;
    var a := if p.id.Some? then a["id" := p.id.value] else a;
    Element(name, None, a, None, p.children)
  }

  /** The collaborators that record room events. */
  datatype Collaborator = HistoryProvider | MucLogger | ChatRoomLogger

  /** One call into a collaborator. */
  datatype Call =
    | AddJoinEvent(sink: Collaborator, room: string, jid: Option<Jid>, nick: Option<string>, date: Date)
    | AddLeaveEvent(sink: Collaborator, room: string, jid: Option<Jid>, nick: Option<string>, date: Date)
    | AddMessage(sink: Collaborator, room: string, text: Option<string>, jid: Option<Jid>, nick: Option<string>,
                 stamp: Option<Date>)
    | AddSubjectChange(sink: Collaborator, room: string, text: Option<string>, jid: Option<Jid>, nick: Option<string>,
                       stamp: Option<Date>)
    | GetHistoryMessages(room: string, jid: Option<Jid>, maxchars: Option<int>, maxstanzas: Option<int>,
                         seconds: Option<int>, since: Option<Date>)
    | RemoveHistory(room: string)

  /** The outbound side of a handler: stanzas written, in order, and calls made
      into the history provider and the loggers, in order. */
  class Env {
    var sent: seq<Stanza>
    var calls: seq<Call>

    constructor ()
      ensures sent == [] && calls == []
    {
      sent := [];
      calls := [];
    }

    method Write(batch: seq<Stanza>)
      modifies this
      ensures sent == old(sent) + batch && calls == old(calls)
    {
      sent := sent + batch;
    }

    method Record(c: Call)
      modifies this
      ensures calls == old(calls) + [c] && sent == old(sent)
    {
      calls := calls + [c];
    }
  }

  /** The role an entering occupant gets from its affiliation: visitor for an
      unaffiliated user of a moderated room, otherwise moderator for owners and
      admins, participant for members and unaffiliated users, none for outcasts. */
  function DefaultRole(config: RoomConfig, affiliation: Affiliation): (r: Role)
    ensures r == Role.visitor <==> config.moderated && affiliation == Affiliation.none
    ensures r == Role.moderator <==> affiliation == Affiliation.owner || affiliation == Affiliation.admin
    ensures r == Role.none <==> affiliation == Affiliation.outcast
    ensures r == Role.participant <==>
      affiliation == Affiliation.member || (affiliation == Affiliation.none && !config.moderated)
  {
    if config.moderated && affiliation == Affiliation.none then Role.visitor
    else
      match affiliation
      case admin => Role.moderator
      case member => Role.participant
      case none => Role.participant
      case outcast => Role.none
      case owner => Role.moderator
  }

  /** Iteration over a set: its elements, each once, in some order. */
  method SetToSeq<T(==)>(s: set<T>) returns (xs: seq<T>)
    ensures |xs| == |s|
    ensures forall x :: x in xs <==> x in s
    ensures forall i, k :: 0 <= i < k < |xs| ==> xs[i] != xs[k]
  {
    xs := [];
    var todo := s;
    while todo != {}
      invariant todo <= s
      invariant forall x :: x in xs <==> x in s && x !in todo
      invariant forall i, k :: 0 <= i < k < |xs| ==> xs[i] != xs[k]
      invariant |xs| + |todo| == |s|
      decreases todo
    {
      var x :| x in todo;
      xs := xs + [x];
      todo := todo - {x};
    }
  }
}
