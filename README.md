# tigase-muc handlers in Dafny

This project models the protocol handlers of the tigase-muc component. The
component implements XEP-0045 (Multi-User Chat), covering:

- section 7.2, Entering a Room;
- section 7.8.2, Mediated Invitation;
- section 8.2, Kicking an Occupant;
- section 9.1, Banning a User;
- section 10.1, Creating a Room.

Each handler takes one inbound stanza and runs an ordered chain of checks. A
check can reject the stanza with an XMPP error condition. If every check
passes, the handler changes one room and writes outbound stanzas.

The project has one Dafny file per Java handler:

| file | models |
|---|---|
| `muc_types.dfy` | Shared values: addresses, affiliations, roles, room configuration, XML elements, outbound stanzas, the `Policy` of capability predicates, the default-role table, the output sink `Env`, and the `Fanout` broadcast loop. |
| `rooms.dfy` | The room (`Room`) and the registry of rooms (`Registry`), as classes whose methods update their maps in place. Their invariant ties a full address to its nickname and the nickname to its sessions, and gives every session a cached presence. |
| `abstract_module.dfy` | `AbstractModule` |
| `presence_module_impl.dfy` | `PresenceModuleImpl`, the newer presence handler. It writes directly, rejects a nickname change and ignores `unavailable`. |
| `presence_module.dfy` | `PresenceModule`, the older presence handler. It returns a list, supports a nickname change and an exit, and has a delay queue. |
| `moderator_module.dfy` | `ModeratorModule` (muc#admin `get` and `set`) |
| `groupchat_message_module.dfy` | `GroupchatMessageModule` |
| `mediated_invitation_module.dfy` | `MediatedInvitationModule` |

Some things are not part of this model: `Room.java`, `PresenceWrapper`, the
room repository, and the capability tables of `Affiliation` and `Role`. They
are handled as follows:

- The room's behaviour is inferred from the handlers' calls into it.
- The affiliation weight and every capability predicate (`isEnterOpenRoom`,
  `isEditMemberList`, …) are fields of `MucTypes.Policy`. Every statement
  about permissions holds for any such table.
- The outcome of a handler call is `Ok`, `Rejected(condition)` for a thrown
  `MUCException`, or `Fault` for a runtime exception escaping the handler (a
  null dereference, say).
- Written stanzas are appended to `Env.sent`. Calls into the history provider
  and the loggers are appended to `Env.calls`.
- The current time is a parameter.

## Model

| member | source | states |
|---|---|---|
| MucTypes.DefaultRole | src/main/java/tigase/muc/modules/PresenceModuleImpl.java:171-211 | The new occupant's role. A moderated room gives `visitor` iff the affiliation is `none`. Owner and admin give `moderator`. Member, and `none` in an unmoderated room, give `participant`. Outcast gives `none`. Each direction of each case is stated. The same table appears in PresenceModule.java:114-141 and MediatedInvitationModule.java:156-196. |
| MucTypes.Fanout | src/main/java/tigase/muc/modules/GroupchatMessageModule.java:336-358 | A nested loop over nicknames and their sessions writes exactly `k` stanzas per destination. Every destination receives its batch and nothing else is written. |
| MucTypes.RecipientsAppend | src/main/java/tigase/muc/modules/PresenceModuleImpl.java:856-880 | The recipients of two written sequences are the union of their recipients. |
| MucTypes.RecipientWitness | src/main/java/tigase/muc/modules/GroupchatMessageModule.java:346-357 | Every recipient of a written sequence is the `to` of some stanza in it. |
| MucTypes.RecipientsOfBatch | src/main/java/tigase/muc/modules/PresenceModuleImpl.java:869-877 | A non-empty batch of copies all addressed to one session has exactly that session as its recipient. |
| MucTypes.TimesIsProduct | src/main/java/tigase/muc/modules/PresenceModuleImpl.java:861-879 | The count of stanzas in a nested broadcast is the number of destinations times the size of each batch. |
| MucTypes.ChildNamed | src/main/java/tigase/muc/modules/ModeratorModule.java:256-257 | `getChild(name)` finds a child with that name iff one exists. |
| MucTypes.ChildNamedNs | src/main/java/tigase/muc/modules/PresenceModuleImpl.java:583 | `getChild(name, xmlns)` finds a child with that name and namespace iff one exists. |
| MucTypes.SlashIndex | src/main/java/tigase/muc/modules/MediatedInvitationModule.java:110 | The first `/` of an address string, which separates the bare part from the resource. |
| MucTypes.ParseJidToString | src/main/java/tigase/muc/modules/MediatedInvitationModule.java:110-116 | Parsing the textual form of an address gives the address back. This holds whenever the bare part has no `/`. |
| MucTypes.ElementOf | src/main/java/tigase/muc/modules/ModeratorModule.java:246 | The element of a packet has the given name, the packet's children and the packet's `type`. |
| MucTypes.SetToSeq | src/main/java/tigase/muc/modules/PresenceModule.java:293 | Iterating a set visits each member exactly once. |
| Rooms.AttachConsistent | src/main/java/tigase/muc/modules/PresenceModuleImpl.java:645 | Binding a new session to a nickname keeps the roster invariant. The nickname must be free or held by the same bare address. |
| Rooms.DetachConsistent | src/main/java/tigase/muc/modules/PresenceModuleImpl.java:335 | Removing a session keeps the roster invariant. |
| Rooms.RebindConsistent | src/main/java/tigase/muc/modules/PresenceModule.java:335 | Moving a session to another nickname keeps the roster invariant. |
| Rooms.WithoutBare | src/main/java/tigase/muc/modules/ModeratorModule.java:366 | What is left after removing every session of a bare address: exactly the other sessions. |
| Rooms.WithoutHolder | src/main/java/tigase/muc/modules/ModeratorModule.java:366 | What is left after removing every nickname a bare address holds: exactly the other nicknames. |
| Rooms.WithRole | src/main/java/tigase/muc/modules/ModeratorModule.java:404 | `setNewRole` changes the role of exactly the nicknames held by the bare address. Their sessions stay the same and every other nickname is unchanged. |
| Rooms.NicknameHasOneBare | src/main/java/tigase/muc/modules/PresenceModule.java:285 | Two sessions under one nickname belong to the same bare address. This is what `isNickNameExistsForDifferentJid` relies on. |
| Rooms.Room.RosterOf | src/main/java/tigase/muc/modules/ModeratorModule.java:366 | A snapshot of the roster is valid iff the room is. |
| Rooms.Room.SessionsOf | src/main/java/tigase/muc/modules/PresenceModuleImpl.java:861-862 | The sessions of a set of nicknames are exactly the bound addresses whose nickname is in the set. |
| Rooms.Room.AddAffiliation | src/main/java/tigase/muc/modules/PresenceModuleImpl.java:477 | `addAffiliationByJid` stores the affiliation of one bare address and keeps the room valid. |
| Rooms.Room.SetLocked | src/main/java/tigase/muc/modules/PresenceModuleImpl.java:478 | `setRoomLocked` sets the lock flag. |
| Rooms.Room.SetNewSubject | src/main/java/tigase/muc/modules/GroupchatMessageModule.java:266 | `setNewSubject` stores the text, the changer and the time. |
| Rooms.Room.RemoveOccupant | src/main/java/tigase/muc/modules/PresenceModuleImpl.java:335-338 | Removes one session and its cached presence. The result says whether the nickname lost its last session. |
| Rooms.Room.AddOccupant | src/main/java/tigase/muc/modules/PresenceModuleImpl.java:645 | Binds a session to a nickname with a role and a presence. Nothing changes when another bare address holds the nickname. |
| Rooms.Room.RemoveAllOccupantsByBare | src/main/java/tigase/muc/modules/ModeratorModule.java:366 | Removes every session of a bare address, so none is left. |
| Rooms.Room.SetNewRole | src/main/java/tigase/muc/modules/ModeratorModule.java:404 | Changes the role of the address's nicknames and nothing else. |
| Rooms.Room.ChangeNickName | src/main/java/tigase/muc/modules/PresenceModule.java:335 | Moves a session to a new nickname, keeping its role and presence. |
| Rooms.Room.UpdatePresence | src/main/java/tigase/muc/modules/PresenceModule.java:326 | Replaces the cached presence of one session. |
| Rooms.Room.UpdateNickPresence | src/main/java/tigase/muc/modules/PresenceModuleImpl.java:529 | Replaces the cached presence of every session of a nickname and nothing else. |
| Rooms.Room.NicknameOfBare | src/main/java/tigase/muc/modules/PresenceModule.java:341 | A nickname held by the bare address, or none iff it holds none. |
| Rooms.Room.LastPresenceOfBare | src/main/java/tigase/muc/modules/PresenceModuleImpl.java:532 | A presence cached for one of the bare address's sessions, or none iff it has none. |
| Rooms.Room.LastPresenceOfNick | src/main/java/tigase/muc/modules/PresenceModuleImpl.java:373 | A presence cached for one of the nickname's sessions, or none iff it has none. |
| Rooms.Registry.CreateNewRoom | src/main/java/tigase/muc/modules/PresenceModuleImpl.java:476 | Registers a fresh empty room under its address. |
| Rooms.Registry.LeaveRoom | src/main/java/tigase/muc/modules/PresenceModuleImpl.java:398 | Removes exactly that room from the registry. |
| AbstractModule.CreateResultIQ | src/main/java/tigase/muc/modules/AbstractModule.java:41-44 | The reply is an `iq` of type `result`, with `from` equal to the request's `to`, `to` equal to its `from`, and the same `id`. It has no other attribute. |
| AbstractModule.ResultOfResultReturnsToSender | src/main/java/tigase/muc/modules/AbstractModule.java:41-44 | Answering an answer restores the original addresses and id. |
| AbstractModule.NicknameFromJid | src/main/java/tigase/muc/modules/AbstractModule.java:46-51 | The nickname is the address's resource, or none for a missing address. |
| AbstractModule.OccupantAddressNickname | src/main/java/tigase/muc/modules/AbstractModule.java:46-51 | An occupant address yields its nickname. A bare room address yields none. |
| AbstractModule.MakeArray | src/main/java/tigase/muc/modules/AbstractModule.java:53-60 | The list has the arguments' length and order. |
| AbstractModule.PrepareMucMessage | src/main/java/tigase/muc/modules/AbstractModule.java:62-75 | Exactly one `groupchat` message per session of the nickname, each from the room address with the given body, so every session of the nickname is sent the text. |
| AbstractModule.NotifiedByRecipients | src/main/java/tigase/muc/modules/AbstractModule.java:62-75 | Messages that all carry the text and reach exactly a set of sessions tell every one of those sessions. |
| AbstractModule.NotifiedConcat | src/main/java/tigase/muc/modules/PresenceModuleImpl.java:698-712 | Sessions told by one part of the output are still told once more messages are put before or after it. |
| AbstractModule.IsProcessedByModule | src/main/java/tigase/muc/modules/AbstractModule.java:88-91 | Always true. |
| PresenceModuleImpl.ParseInt | src/main/java/tigase/muc/modules/PresenceModuleImpl.java:217-218 | `Integer.parseInt` on a decimal string: a result exists only for a sign or digit first and a value in the 32-bit range (ASCII digits only, see Left out). |
| PresenceModuleImpl.DecimalValueOfRender | src/main/java/tigase/muc/modules/PresenceModuleImpl.java:218 | Reading back the decimal digits of a natural number gives the number. |
| PresenceModuleImpl.ParseRenderRoundTrip | src/main/java/tigase/muc/modules/PresenceModuleImpl.java:218 | Parsing the decimal form of an integer gives it back iff it fits in 32 bits. |
| PresenceModuleImpl.ToInteger | src/main/java/tigase/muc/modules/PresenceModuleImpl.java:213-222 | A missing value gives the default, a value that parses gives its parse, and a value that does not parse gives the default. |
| PresenceModuleImpl.ToIntegerReadsRendered | src/main/java/tigase/muc/modules/PresenceModuleImpl.java:213-222 | A rendered 32-bit integer is read back. A missing, empty or malformed value gives the default. |
| PresenceModuleImpl.WithCodes | src/main/java/tigase/muc/modules/PresenceModuleImpl.java:158-169 | `addCodes` appends 201 iff the room was created and 303 iff a new nickname is given. With a new nickname, every item carries it. Existing codes and the rest of the presence are kept. |
| PresenceModuleImpl.AddCodes | src/main/java/tigase/muc/modules/PresenceModuleImpl.java:158-169 | The method computes `WithCodes`. |
| PresenceModuleImpl.FilterAllowedKeeps | src/main/java/tigase/muc/modules/PresenceModuleImpl.java:289-306 | The presence filter keeps exactly the `show`, `status` and `priority` children and the caps children. |
| PresenceModuleImpl.WithoutMucXDropsFirst | src/main/java/tigase/muc/modules/PresenceModuleImpl.java:309-313 | Removing the muc `x` child drops exactly that one child, and drops nothing when there is none. |
| PresenceModuleImpl.ClonedPresenceFiltered | src/main/java/tigase/muc/modules/PresenceModuleImpl.java:286-316 | A filtered clone has only allowed children and no muc `x` child. |
| PresenceModuleImpl.ClonePresence | src/main/java/tigase/muc/modules/PresenceModuleImpl.java:286-316 | The copy loop computes `ClonedPresence` for the context's filter setting. |
| PresenceModuleImpl.Wrapper | src/main/java/tigase/muc/modules/PresenceModuleImpl.java:424-431 | The presence goes from the occupant's room address to the destination, with one item per listed session carrying the affiliation and role. |
| PresenceModuleImpl.Batch | src/main/java/tigase/muc/modules/PresenceModuleImpl.java:864-877 | One presence per session group, each with `addCodes` applied. |
| PresenceModuleImpl.SessionGroups | src/main/java/tigase/muc/modules/PresenceModuleImpl.java:864-877 | In multi-item mode, one group holding all sessions. Otherwise one singleton group per session. |
| PresenceModuleImpl.Audience | src/main/java/tigase/muc/modules/PresenceModuleImpl.java:841-852 | Without the presence filter, every nickname hears the presence. Under the filter, a sender whose affiliation is not listed reaches only itself. The sender is always included. |
| PresenceModuleImpl.AudienceWithoutFilter | src/main/java/tigase/muc/modules/PresenceModuleImpl.java:849-852 | Without the filter, the audience's sessions are all sessions of the room. |
| PresenceModuleImpl.BatchFromOccupant | src/main/java/tigase/muc/modules/PresenceModuleImpl.java:861-880 | Every presence of a batch comes from the occupant, goes to the destination, and carries 201 iff the room is new and 303 iff the nickname changed. |
| PresenceModuleImpl.Broadcast | src/main/java/tigase/muc/modules/PresenceModuleImpl.java:861-880 | Every destination receives exactly one presence per session group, each carrying the occupant's presence and the creation and nickname codes. |
| PresenceModuleImpl.SendPresenceToAllOccupants | src/main/java/tigase/muc/modules/PresenceModuleImpl.java:831-881 | Exactly the audience's sessions receive the presence, the sender among them. The count is one per session in multi-item mode, otherwise one per session of the sender's nickname. |
| PresenceModuleImpl.SendPresencesToNewOccupant | src/main/java/tigase/muc/modules/PresenceModuleImpl.java:776-829 | A newcomer whose affiliation the filter excludes receives nothing. Otherwise the newcomer receives the presence of every other occupant, from that occupant's nickname, and in multi-item mode exactly one per occupant. |
| PresenceModuleImpl.PresencesOfPeer | src/main/java/tigase/muc/modules/PresenceModuleImpl.java:808-827 | The presences of one occupant for the newcomer: exactly one in multi-item mode. |
| PresenceModuleImpl.EnterVerdict | src/main/java/tigase/muc/modules/PresenceModuleImpl.java:586-632 | The entering checks in their order. NOT_AUTHORIZED iff the password is missing or wrong. ITEM_NOT_FOUND iff the room is locked and the sender is not the owner. FORBIDDEN iff the affiliation cannot enter an open room. REGISTRATION_REQUIRED iff the room is members-only and the affiliation cannot enter it. Admission iff the nickname is free, or in multi-item mode is held by the same bare address. Each condition is stated both ways and assumes the earlier checks passed. |
| PresenceModuleImpl.SubjectReplay | src/main/java/tigase/muc/modules/PresenceModuleImpl.java:671-695 | The subject is replayed iff text, changer and date are all set. It comes from the changer's nickname, to the newcomer, with a `urn:xmpp:delay` stamp of the change date. |
| PresenceModuleImpl.EventCalls | src/main/java/tigase/muc/modules/PresenceModuleImpl.java:250-276 | A join or leave event goes to the history provider when there is one, and to the logger when there is one and logging is enabled. |
| PresenceModuleImpl.RecordEvent | src/main/java/tigase/muc/modules/PresenceModuleImpl.java:250-276 | Records exactly those calls and writes nothing. |
| PresenceModuleImpl.Join | src/main/java/tigase/muc/modules/PresenceModuleImpl.java:643-653 | The newcomer is bound to its nickname with the given role and the filtered clone of its presence. Its stored presence then goes to every session of its audience, from its room address, with 201 iff the room is new and never 303. The newcomer's own copy is among the output. |
| PresenceModuleImpl.Enroll | src/main/java/tigase/muc/modules/PresenceModuleImpl.java:643-715 | After the join, the output grows by the newcomer's broadcast to its audience, which holds its own presence, then by the welcome messages to its sessions. Every one of those sessions is sent the lock notice when the room is locked, and the creator's welcome when the room is new. |
| PresenceModuleImpl.OwnerNotices | src/main/java/tigase/muc/modules/PresenceModuleImpl.java:698-712 | Every notice is a room message to a session of the newcomer: the lock notice (only when locked) or the welcome (only for a creator). When the room is locked, every such session is sent the lock notice. When it is new, every such session is sent the welcome, whose text says the room is locked, or ready when new rooms start locked. Nothing is sent in an unlocked room that was not just created. |
| PresenceModuleImpl.RecordEntry | src/main/java/tigase/muc/modules/PresenceModuleImpl.java:656-715 | The history request and the join event are recorded in order. |
| PresenceModuleImpl.Welcome | src/main/java/tigase/muc/modules/PresenceModuleImpl.java:656-715 | The entry calls are recorded. The messages appended to the output are the subject replay first (when the room has a subject), then the notices: every session of the newcomer is sent the lock notice when the room is locked and the creator's welcome when it is new. |
| PresenceModuleImpl.Greeting | src/main/java/tigase/muc/modules/PresenceModuleImpl.java:671-712 | The subject replay comes first when there is one; every message goes to the sender or a session of its nickname; the lock notice and the creator's welcome reach every session of the nickname when the room is locked or new. |
| PresenceModuleImpl.ProcessEntering | src/main/java/tigase/muc/modules/PresenceModuleImpl.java:575-721 | The outcome is the entering verdict. A rejection leaves the room and the output untouched. An admission binds the sender to the nickname with the default role for its affiliation, caches the cloned presence and records the entry calls. The output grows by three parts in order: the other occupants' presences to the newcomer (every visible peer, nothing when the filter hides the room from it), the newcomer's presence to every session of its audience (201 iff the room is new), and the welcome messages (every session of the newcomer gets the lock notice when locked and the creator's welcome when the room is new). |
| PresenceModuleImpl.Admit | src/main/java/tigase/muc/modules/PresenceModuleImpl.java:636-721 | An admitted entry appends, in order, the peers' presences to the newcomer, the newcomer's broadcast and the welcome, and updates the roster and the entry calls. The welcome reaches every session of the newcomer with the lock notice when locked and the creator's welcome when new. |
| PresenceModuleImpl.ProcessChangeAvailabilityStatus | src/main/java/tigase/muc/modules/PresenceModuleImpl.java:517-535 | The nickname's cached presence is replaced iff the filter is off or the sender's affiliation is listed. The sender's last presence then goes to exactly the audience, without creation or nickname codes. |
| PresenceModuleImpl.StoreAvailability | src/main/java/tigase/muc/modules/PresenceModuleImpl.java:524-530 | Every session of the sender's nickname caches the new presence iff the room keeps presences of the sender's affiliation; nothing else changes. |
| PresenceModuleImpl.GoneBroadcast | src/main/java/tigase/muc/modules/PresenceModuleImpl.java:355-366 | When the nickname is gone, every remaining session gets one unavailable presence listing the leaving sessions. |
| PresenceModuleImpl.StayBroadcast | src/main/java/tigase/muc/modules/PresenceModuleImpl.java:370-391 | When the nickname keeps sessions, every remaining session gets the nickname's last presence, once per group. |
| PresenceModuleImpl.Leave | src/main/java/tigase/muc/modules/PresenceModuleImpl.java:324-392 | Removes the session and its presence. The leaver first gets its own unavailable presence, then every remaining session is told. The result is "gone" iff this was the nickname's last session. |
| PresenceModuleImpl.RecordQuit | src/main/java/tigase/muc/modules/PresenceModuleImpl.java:367-369 | Records the leave event when the nickname is gone and logging is on, then removes history for an emptied room. |
| PresenceModuleImpl.DoQuit | src/main/java/tigase/muc/modules/PresenceModuleImpl.java:323-400 | After the session is removed, an empty room is handed to `leaveRoom`. History is removed iff the room is not persistent and a provider exists. The leaver gets an unavailable presence, and all remaining sessions are told. |
| PresenceModuleImpl.ProcessExit | src/main/java/tigase/muc/modules/PresenceModuleImpl.java:734-752 | A missing room is ITEM_NOT_FOUND. A non-occupant exits quietly with nothing changed. An occupant is removed and told. |
| PresenceModuleImpl.OpenRoom | src/main/java/tigase/muc/modules/PresenceModuleImpl.java:471-485 | A missing room is created with the sender's bare address as owner and the lock flag from the new-room-locked setting. An existing room is looked up unchanged. |
| PresenceModuleImpl.Dispatch | src/main/java/tigase/muc/modules/PresenceModuleImpl.java:488-496 | A known occupant under a different nickname is FEATURE_NOT_IMPLEMENTED, with nothing changed. |
| PresenceModuleImpl.Present | src/main/java/tigase/muc/modules/PresenceModuleImpl.java:460-496 | Room creation as above, followed by the dispatch. A rejected newcomer leaves a new room empty. |
| PresenceModuleImpl.Process | src/main/java/tigase/muc/modules/PresenceModuleImpl.java:442-504 | `error` is ignored. A target without a nickname is JID_MALFORMED. `unavailable` returns with nothing changed and no room created. Anything else creates the room if missing and is dispatched. |
| PresenceModule.Flatten | src/main/java/tigase/muc/modules/PresenceModule.java:62 | The queue of batches read as the stanzas it will deliver, in order. |
| PresenceModule.FlattenPush | src/main/java/tigase/muc/modules/PresenceModule.java:77-82 | A batch pushed at the head is delivered before everything queued. |
| PresenceModule.FlattenAppend | src/main/java/tigase/muc/modules/PresenceModule.java:70-72 | A stanza added at the tail is delivered after everything queued. |
| PresenceModule.DelayQueue.PutBatch | src/main/java/tigase/muc/modules/PresenceModule.java:77-82 | An empty batch is ignored. Otherwise it is pushed at the head and delivered first. |
| PresenceModule.DelayQueue.PutOne | src/main/java/tigase/muc/modules/PresenceModule.java:70-72 | A one-element batch is appended at the tail and delivered last. |
| PresenceModule.DelayQueue.Poll | src/main/java/tigase/muc/modules/PresenceModule.java:89-90 | Takes the head batch, or nothing from an empty queue. The delivery order is kept. |
| PresenceModule.CopyCodes | src/main/java/tigase/muc/modules/PresenceModule.java:170-226 | 110 iff the copy is the sender's own. 100 iff it is the sender's own and the room is non-anonymous. 170 iff it is the sender's own and logging is on. 201 iff the room is new. 303 iff the nickname changed. Never 301 or 307. |
| PresenceModule.OccupantCopyIsCopy | src/main/java/tigase/muc/modules/PresenceModule.java:170-226 | Each prepared copy is addressed to its destination and has the prescribed codes, item and base. |
| PresenceModule.CopiesTo | src/main/java/tigase/muc/modules/PresenceModule.java:170-226 | Exactly one copy per destination. |
| PresenceModule.PreparePresenceToAllOccupants | src/main/java/tigase/muc/modules/PresenceModule.java:170-226 | Exactly one presence per session of the room, each a copy as above. |
| PresenceModule.PresenceOfSessionShows | src/main/java/tigase/muc/modules/PresenceModule.java:293-316 | The newcomer's view of an occupant comes from that occupant's nickname with its cached presence, affiliation and role. The `jid` is shown iff the room is non-anonymous, or semi-anonymous and the newcomer is admin or owner. |
| PresenceModule.PresencesToNewOccupant | src/main/java/tigase/muc/modules/PresenceModule.java:293-317 | One view per session of the room, and nothing else. |
| PresenceModule.OneViewPerSession | src/main/java/tigase/muc/modules/PresenceModule.java:293-317 | Views built in any enumeration order of the sessions cover exactly the sessions. |
| PresenceModule.OutAreViews | src/main/java/tigase/muc/modules/PresenceModule.java:293-317 | What the newcomer is sent is exactly the set of views of the sessions present. |
| PresenceModule.Check | src/main/java/tigase/muc/modules/PresenceModule.java:255-287 | Each verdict holds iff its own check fails and every earlier check passes: NOT_AUTHORIZED for a wrong password from a non-occupant, ITEM_NOT_FOUND for a locked room unless just created or exiting, an ignored exit of a non-occupant, then FORBIDDEN, REGISTRATION_REQUIRED in a members-only room, and CONFLICT. Admission holds iff every check passes. |
| PresenceModule.LoggerCalls | src/main/java/tigase/muc/modules/PresenceModule.java:379-383 | One chat-room-logger call iff there is a logger, logging is on, and the sender is new or exiting. It is a join iff the sender is new. |
| PresenceModule.Module.SetLockNewRoom | src/main/java/tigase/muc/modules/PresenceModule.java:398-400 | Sets the new-room lock setting. |
| PresenceModule.Module.Enter | src/main/java/tigase/muc/modules/PresenceModule.java:289-326 | A newcomer receives exactly the views of the sessions present before it, one per session, and is then bound with its default role. Any sender's presence is cached. |
| PresenceModule.Module.Announce | src/main/java/tigase/muc/modules/PresenceModule.java:327-350 | A nickname change first sends every session of the room, as it was, the unavailable presence of the OLD nickname carrying 303 and the new nickname, then renames; nothing else in the output carries 303. An exit removes the session and announces only when the bare address has no session left. Otherwise the presence is announced. |
| PresenceModule.Module.Stay | src/main/java/tigase/muc/modules/PresenceModule.java:346-350 | Every session gets the sender's cached presence. |
| PresenceModule.Module.Rename | src/main/java/tigase/muc/modules/PresenceModule.java:329-336 | One unavailable presence per session, from the old nickname, each the copy `preparePresenceToAllOccupants` builds with the new nickname (so with 303); then the session is moved to the new nickname and the room's sessions stay the same. |
| PresenceModule.CopiesCarry | src/main/java/tigase/muc/modules/PresenceModule.java:170-226 | Every copy `preparePresenceToAllOccupants` builds is a presence on the given base, from the nickname's room address, with 201 iff the room is new and 303 iff there is a new nickname. |
| PresenceModule.RenameFirst | src/main/java/tigase/muc/modules/PresenceModule.java:329-350 | The 303 copies to every session followed by the rest of the announcement make up an announcement whose 303 prefix reaches all the sessions. |
| PresenceModule.Module.RenameAndFollow | src/main/java/tigase/muc/modules/PresenceModule.java:329-350 | A nickname change: the first part of the output is the 303 copies of the old nickname to every session the room had, and the rest (exit or presence) carries no 303. |
| PresenceModule.Module.Follow | src/main/java/tigase/muc/modules/PresenceModule.java:337-350 | Without a nickname change: the exit removes the session and announces it only when the bare address has no session left; otherwise every session gets the cached presence. Nothing carries 303. |
| PresenceModule.Module.Depart | src/main/java/tigase/muc/modules/PresenceModule.java:338-345 | The session is removed. Its unavailable presence goes out iff the bare address has no session left. |
| PresenceModule.Module.Greet | src/main/java/tigase/muc/modules/PresenceModule.java:352-383 | For a newcomer: the history is pushed at the head of the queue, and the subject replay is appended at the tail. A newcomer in a locked room gets the lock notice. The logger call is recorded. |
| PresenceModule.Module.Handle | src/main/java/tigase/muc/modules/PresenceModule.java:255-389 | The outcome is `Check`'s verdict. A refusal or ignored exit changes nothing. An admission binds or removes the session and records the logger call. Its answer is the newcomer's views of the earlier sessions, then the change announcements (a nickname change opens with 303 copies to every session; then to every session, or on an exit to the remaining ones once the bare address is gone; 201 iff the room is new), then the lock notice to the newcomer's sessions when the room is locked. |
| PresenceModule.Module.Accept | src/main/java/tigase/muc/modules/PresenceModule.java:289-383 | The admitted path: roster update and logger call. Its answer is the roster views, then the announcements, then the lock notices, as Handle states. |
| PresenceModule.Module.Seat | src/main/java/tigase/muc/modules/PresenceModule.java:289-350 | The roster part of the admitted path: the newcomer's views of the earlier sessions (none for an occupant), then the announcements of the change to their recipients, led for a nickname change by the 303 copies to every session. |
| PresenceModule.Module.Process | src/main/java/tigase/muc/modules/PresenceModule.java:229-396 | A target without a nickname is JID_MALFORMED with nothing changed. A room left with no occupant is removed from the registry. |
| PresenceModule.Module.Present | src/main/java/tigase/muc/modules/PresenceModule.java:246-389 | A missing room is created with the sender as its only owner and the module's lock setting, and it stays that way whatever the verdict. It holds the sender alone after an admission and nobody after a refusal. An admitted presence that leaves the room empty removes it. |
| PresenceModule.Module.Open | src/main/java/tigase/muc/modules/PresenceModule.java:246-253 | Room lookup or creation. A created room has the sender as its only owner and the module's lock setting, and it holds the sender alone after an admission and nobody otherwise. |
| PresenceModule.Module.Settle | src/main/java/tigase/muc/modules/PresenceModule.java:246-253 | A handled presence in a room that was empty leaves the sender its only occupant; a refused one leaves the roster as it was. |
| ModeratorModule.RoleAttr | src/main/java/tigase/muc/modules/ModeratorModule.java:81-84 | `getRole`: absent iff there is no `role` attribute, and unknown iff the attribute names no role (`Role.valueOf` throws). |
| ModeratorModule.AffiliationAttr | src/main/java/tigase/muc/modules/ModeratorModule.java:53-56 | `getAffiliation`, with the same three cases. |
| ModeratorModule.NamesReadBack | src/main/java/tigase/muc/modules/ModeratorModule.java:53-56 | Every role and affiliation name reads back as itself. |
| ModeratorModule.Denial | src/main/java/tigase/muc/modules/ModeratorModule.java:90-154 | BAD_REQUEST iff both or neither of role and affiliation are given, or an affiliation item has no `jid`. Otherwise NOT_ALLOWED unless the permission matrix allows it. Role `none` needs kick and outranking. `participant` needs grant-voice. `visitor` needs revoke-voice and outranking. `moderator` needs edit-moderator-list. `outcast` needs ban and outranking. `member`, `admin` and `owner` need their edit-list permission. `none` needs outranking. |
| ModeratorModule.OccupantJidsFromItem | src/main/java/tigase/muc/modules/ModeratorModule.java:58-74 | The sessions an item targets: by `nick`, that nickname's sessions. Without `nick`, the sessions of one nickname held by the bare part of `jid`. All of them share the target's bare address, and there are none iff the target is not present. |
| ModeratorModule.ItemVerdict | src/main/java/tigase/muc/modules/ModeratorModule.java:90-154 | As written: a fault iff a role or affiliation name is unknown. A rejection only when the target is present, since the checks run inside the loop over the sessions `getOccupantJidsFromItem` finds (by `nick` first). See Findings. |
| ModeratorModule.IntendedVerdict | src/main/java/tigase/muc/modules/ModeratorModule.java:90-154 | The corrected check: a fault iff a name is unknown; an affiliation item is rejected with BAD_REQUEST iff it also names a role or has no `jid`, and passes only if the denial rules allow it against the affiliation of the address in `jid`. Other items are checked as written. |
| ModeratorModule.UnheldNickBanPasses | src/main/java/tigase/muc/modules/ModeratorModule.java:97-99 | As written, an `outcast` item whose `nick` nobody holds passes the check whoever sends it, and its `jid` becomes `outcast` when applied; the corrected check passes it iff the sender may ban and outranks the address in `jid`. |
| ModeratorModule.IntendedBansAreAuthorised | src/main/java/tigase/muc/modules/ModeratorModule.java:128-131 | Under the corrected check, an address that a `set` makes `outcast` was banned by a sender who may ban and outranks it. |
| ModeratorModule.CheckItem | src/main/java/tigase/muc/modules/ModeratorModule.java:90-154 | `checkItem` computes `ItemVerdict`. |
| ModeratorModule.CheckSessions | src/main/java/tigase/muc/modules/ModeratorModule.java:95-152 | The loop over the target's sessions yields the denial iff there is a session. |
| ModeratorModule.CheckIntended | src/main/java/tigase/muc/modules/ModeratorModule.java:90-154 | The corrected check computes `IntendedVerdict`. |
| ModeratorModule.FirstFailure | src/main/java/tigase/muc/modules/ModeratorModule.java:338-340 | Ok iff every item passes the corrected check `IntendedVerdict`. |
| ModeratorModule.FirstFailureAt | src/main/java/tigase/muc/modules/ModeratorModule.java:338-340 | The outcome is the verdict of the first failing item. |
| ModeratorModule.CheckAll | src/main/java/tigase/muc/modules/ModeratorModule.java:338-340 | The check loop computes `FirstFailure`, item by item with `CheckIntended`. |
| ModeratorModule.MakePresence | src/main/java/tigase/muc/modules/ModeratorModule.java:166-218 | A presence to the destination from the occupant's nickname, whose items carry the affiliation, role and nickname, with the given codes. |
| ModeratorModule.Notify | src/main/java/tigase/muc/modules/ModeratorModule.java:375-379 | One notice per remaining session. |
| ModeratorModule.EvictedAgain | src/main/java/tigase/muc/modules/ModeratorModule.java:366 | Eviction is idempotent. |
| ModeratorModule.Expel | src/main/java/tigase/muc/modules/ModeratorModule.java:361-379 | Ban or kick of one session. The session gets the unavailable presence with the code, all its bare address's sessions are removed, and every remaining session is told with the same code. |
| ModeratorModule.KickThenNotices | src/main/java/tigase/muc/modules/ModeratorModule.java:364-379 | The kicked session and the remaining sessions are exactly the recipients. |
| ModeratorModule.NothingToEvict | src/main/java/tigase/muc/modules/ModeratorModule.java:354-356 | An absent bare address is already evicted. |
| ModeratorModule.ExpelTurn | src/main/java/tigase/muc/modules/ModeratorModule.java:356-381 | The recipients after one more session of the loop. |
| ModeratorModule.NoticeTurn | src/main/java/tigase/muc/modules/ModeratorModule.java:374-379 | Appending a full round of notices keeps the earlier ones. |
| ModeratorModule.ApplyAffiliation | src/main/java/tigase/muc/modules/ModeratorModule.java:349-383 | `outcast` evicts the bare address: its sessions get 301 and the rest are told. Any other affiliation leaves the roster unchanged and tells every session when the address is present. |
| ModeratorModule.BanSessions | src/main/java/tigase/muc/modules/ModeratorModule.java:356-381 | The `outcast` loop: the address is evicted, its sessions get 301 and the rest are told. |
| ModeratorModule.NoticeSessions | src/main/java/tigase/muc/modules/ModeratorModule.java:356-381 | The loop for any other affiliation: the roster is unchanged and, when the address is present, every session is told. |
| ModeratorModule.WithRoleAgain | src/main/java/tigase/muc/modules/ModeratorModule.java:404 | Setting the same role twice equals setting it once. |
| ModeratorModule.RoleTurn | src/main/java/tigase/muc/modules/ModeratorModule.java:387-412 | One session of the role loop: a kick for `none`, otherwise a role change followed by notices. |
| ModeratorModule.ApplyRole | src/main/java/tigase/muc/modules/ModeratorModule.java:385-414 | Role `none` evicts the target with 307 to it and notices to the rest. Another role changes only the target's role and tells every session. An absent target changes nothing. |
| ModeratorModule.KickSessions | src/main/java/tigase/muc/modules/ModeratorModule.java:387-412 | The kick loop: every addressed session is removed, it gets 307 and every remaining session is told. |
| ModeratorModule.RoleSessions | src/main/java/tigase/muc/modules/ModeratorModule.java:387-412 | The role loop: only the target's role changes, and every session is told, without codes. |
| ModeratorModule.LastWordStands | src/main/java/tigase/muc/modules/ModeratorModule.java:349-353 | After the apply loop, an address holds the affiliation of the last item naming it. |
| ModeratorModule.UnaddressedStays | src/main/java/tigase/muc/modules/ModeratorModule.java:349-353 | An address no item names keeps its affiliation. |
| ModeratorModule.Applied | src/main/java/tigase/muc/modules/ModeratorModule.java:342-350 | How many items are applied before one without `jid` faults. |
| ModeratorModule.ApplyItem | src/main/java/tigase/muc/modules/ModeratorModule.java:342-414 | An affiliation item stores the affiliation and applies it. A role item applies the role to its target. An affiliation item without `jid` faults. The new roster is `AfterItem` of the old one. Every presence written is a notice with no code, 301 or 307. |
| ModeratorModule.AffiliationPart | src/main/java/tigase/muc/modules/ModeratorModule.java:349-383 | The affiliation part of an item stores its affiliation. The roster becomes `AfterAffiliation` of the old one: an `outcast` evicts every session of its address, and anything else keeps the roster. An item without an affiliation writes nothing. |
| ModeratorModule.RolePart | src/main/java/tigase/muc/modules/ModeratorModule.java:385-414 | The role part of an item changes the roster as `AfterRole` says. Role `none` evicts the target's bare address, and another role changes only the target's role. Nothing is written without a role or without a present target. |
| ModeratorModule.ApplyAll | src/main/java/tigase/muc/modules/ModeratorModule.java:342-415 | The stored affiliations are those of the applied items, in order. The roster is the fold `AfterItems` of the applied items over the old roster. Every presence written is a notice with no code, 301 or 307. |
| ModeratorModule.ProcessSet | src/main/java/tigase/muc/modules/ModeratorModule.java:318-421 | Every item is checked before any is applied, so the first failing check leaves the room unchanged. Otherwise every item is applied and the affiliations are stored in order. The roster is `AfterItems` of all the items, and no session is added or renamed. No session remains of an address an `outcast` item named. The result IQ comes first, then only notices with no code, 301 or 307. |
| ModeratorModule.EvictShrinks | src/main/java/tigase/muc/modules/ModeratorModule.java:366 | Evicting a bare address only removes sessions. Every remaining session keeps its nickname and cached presence. |
| ModeratorModule.AfterItemShrinks | src/main/java/tigase/muc/modules/ModeratorModule.java:342-414 | One applied item adds no session and changes no remaining session's nickname or cached presence. |
| ModeratorModule.AfterItemsShrinks | src/main/java/tigase/muc/modules/ModeratorModule.java:342-415 | The same holds for a whole `set`. |
| ModeratorModule.AfterPrefixShrinks | src/main/java/tigase/muc/modules/ModeratorModule.java:342-415 | Every session left after the items was already present after any prefix of them. |
| ModeratorModule.BannedStayOut | src/main/java/tigase/muc/modules/ModeratorModule.java:361-366 | After a `set`, no session remains of an address that any `outcast` item named, whatever items came after it. |
| ModeratorModule.KickedStayOut | src/main/java/tigase/muc/modules/ModeratorModule.java:395-401 | After a `set`, no session remains of the bare address a role-`none` item addressed when it was applied. |
| ModeratorModule.SetOutcome | src/main/java/tigase/muc/modules/ModeratorModule.java:342-415 | After a successful set, each address holds the affiliation of the last item naming it, or keeps its own. |
| ModeratorModule.LastAddressing | src/main/java/tigase/muc/modules/ModeratorModule.java:342-353 | The last item naming an address. |
| ModeratorModule.AffiliateItemsAsWritten | src/main/java/tigase/muc/modules/ModeratorModule.java:276-290 | The affiliation listing as written: an affiliate that is not present gets no item. |
| ModeratorModule.AffiliateItems | src/main/java/tigase/muc/modules/ModeratorModule.java:276-290 | The corrected listing: every affiliate is listed. |
| ModeratorModule.AbsentMemberUnlisted | src/main/java/tigase/muc/modules/ModeratorModule.java:276-290 | A member with no session is missing from the listing as written but present in the corrected one. |
| ModeratorModule.AffiliationList | src/main/java/tigase/muc/modules/ModeratorModule.java:275-291 | The corrected listing: only items of the filtered affiliation, and every holder of it is listed. |
| ModeratorModule.AffiliationListAsWritten | src/main/java/tigase/muc/modules/ModeratorModule.java:275-291 | The listing as written: only items of the filtered affiliation, and a holder is listed iff it is present. |
| ModeratorModule.ListAffiliateAsWritten | src/main/java/tigase/muc/modules/ModeratorModule.java:276-290 | One affiliate's turn of the listing keeps what was listed and lists the affiliate when it holds the filter and is present. |
| ModeratorModule.ListsGrow | src/main/java/tigase/muc/modules/ModeratorModule.java:288 | Appending items never unlists an address. |
| ModeratorModule.RoleItem | src/main/java/tigase/muc/modules/ModeratorModule.java:296-303 | The role listing's item carries affiliation, nickname and role. It carries `jid` iff the room is not fully anonymous. |
| ModeratorModule.RoleList | src/main/java/tigase/muc/modules/ModeratorModule.java:292-305 | Exactly one item per session holding the role, and the items are exactly those sessions' role items. |
| ModeratorModule.ProcessGet | src/main/java/tigase/muc/modules/ModeratorModule.java:244-316 | FORBIDDEN unless the sender is admin or owner. An affiliation filter lists every holder and only items of that affiliation. A role filter lists exactly the role items of the sessions holding it, one per session. Both or neither filter is BAD_REQUEST. A missing `query` or `item` faults. |
| ModeratorModule.Process | src/main/java/tigase/muc/modules/ModeratorModule.java:221-242 | BAD_REQUEST if addressed to a nickname or if the type is neither `set` nor `get`. ITEM_NOT_FOUND for a missing room. Only `set` changes the room. |
| GroupchatMessageModule.Kept | src/main/java/tigase/muc/modules/GroupchatMessageModule.java:227-251 | The content is exactly the children the filter keeps, and is no longer than the message. |
| GroupchatMessageModule.KeptKeepsOrder | src/main/java/tigase/muc/modules/GroupchatMessageModule.java:227-251 | Filtering keeps the children's order. |
| GroupchatMessageModule.UnfilteredKeepsAll | src/main/java/tigase/muc/modules/GroupchatMessageModule.java:237-238 | With the message filter off, every child except `delay` is copied. |
| GroupchatMessageModule.LastNamed | src/main/java/tigase/muc/modules/GroupchatMessageModule.java:229-236 | The `body`, `subject` or `delay` the loop remembers is the last of that name. |
| GroupchatMessageModule.LastOneCounts | src/main/java/tigase/muc/modules/GroupchatMessageModule.java:229-236 | A later child of the same name replaces the remembered one. |
| GroupchatMessageModule.FilterContent | src/main/java/tigase/muc/modules/GroupchatMessageModule.java:220-251 | The loop computes the content and the last `body`, `subject` and `delay`. |
| GroupchatMessageModule.OnlyOwnersBackdate | src/main/java/tigase/muc/modules/GroupchatMessageModule.java:269-275 | The send date differs from now only for an owner's message with `delay`, and then it is the parsed stamp. |
| GroupchatMessageModule.PreparePacket | src/main/java/tigase/muc/modules/GroupchatMessageModule.java:306-316 | A `message` of type `groupchat`, with `id` iff given, and the content in order. |
| GroupchatMessageModule.SendMessagesToAllOccupantsJids | src/main/java/tigase/muc/modules/GroupchatMessageModule.java:331-359 | Exactly one copy to every session of every nickname, whatever its role. |
| GroupchatMessageModule.HistoryCalls | src/main/java/tigase/muc/modules/GroupchatMessageModule.java:72-125 | A message or subject change goes to the history provider when there is one, and to the logger when logging is on. |
| GroupchatMessageModule.AddToHistory | src/main/java/tigase/muc/modules/GroupchatMessageModule.java:72-125 | Records exactly those calls, and never aborts the handler. |
| GroupchatMessageModule.Announce | src/main/java/tigase/muc/modules/GroupchatMessageModule.java:277-293 | History calls for `body` and `subject`, then the stamped message to every session. |
| GroupchatMessageModule.RecordMessage | src/main/java/tigase/muc/modules/GroupchatMessageModule.java:279-284 | The body call precedes the subject call. |
| GroupchatMessageModule.ChangeSubject | src/main/java/tigase/muc/modules/GroupchatMessageModule.java:255-267 | Permitted iff there is no subject, or subject change is on and the role is `participant`, or the role may modify the subject. The subject is stored only when permitted. |
| GroupchatMessageModule.Deliver | src/main/java/tigase/muc/modules/GroupchatMessageModule.java:202-293 | FORBIDDEN iff a subject is present and not permitted, with nothing changed. Otherwise the message is announced. The send privilege is not enforced. |
| GroupchatMessageModule.Process | src/main/java/tigase/muc/modules/GroupchatMessageModule.java:186-304 | BAD_REQUEST when addressed to an occupant. ITEM_NOT_FOUND for a missing room. The only other rejection is FORBIDDEN for a subject, and a rejection changes nothing. |
| MediatedInvitationModule.Verdict | src/main/java/tigase/muc/modules/MediatedInvitationModule.java:96-110 | An invite is NOT_ALLOWED iff the role cannot invite, and FORBIDDEN iff the room is members-only and the sender cannot edit the member list. A relayed child without its address faults. Other children pass. |
| MediatedInvitationModule.FirstRefusal | src/main/java/tigase/muc/modules/MediatedInvitationModule.java:248-256 | The children handled before the first refused one. |
| MediatedInvitationModule.FirstRefusalIs | src/main/java/tigase/muc/modules/MediatedInvitationModule.java:248-256 | That position is the first refused child. |
| MediatedInvitationModule.ReasonRoundTrip | src/main/java/tigase/muc/modules/MediatedInvitationModule.java:281-282 | The returned-invitation reason names the error condition, which can be read back. |
| MediatedInvitationModule.InviteReadBack | src/main/java/tigase/muc/modules/MediatedInvitationModule.java:122-153 | The invite goes from the room to the invitee with `invite from=sender`. It carries `password` iff the room is password-protected, and copies `reason`, `continue` and `body`. |
| MediatedInvitationModule.DeclineReadBack | src/main/java/tigase/muc/modules/MediatedInvitationModule.java:63-81 | The decline goes from the room to its `to`, with `decline from=sender` and the reason copied. |
| MediatedInvitationModule.ReturnReadBack | src/main/java/tigase/muc/modules/MediatedInvitationModule.java:266-286 | A returned invitation becomes a decline to the invite's `from`, whose reason gives back the error condition. |
| MediatedInvitationModule.OneReplyPerHandled | src/main/java/tigase/muc/modules/MediatedInvitationModule.java:248-256 | One relayed message per invite, decline or returned invite. |
| MediatedInvitationModule.NothingStored | src/main/java/tigase/muc/modules/MediatedInvitationModule.java:130-132 | No affiliation changes outside a members-only room or for an error stanza. |
| MediatedInvitationModule.InviteesBecomeMembers | src/main/java/tigase/muc/modules/MediatedInvitationModule.java:130-132 | In a members-only room, every invitee's bare address becomes `member`, and every other affiliation is kept. |
| MediatedInvitationModule.DoInvite | src/main/java/tigase/muc/modules/MediatedInvitationModule.java:96-154 | A refusal changes nothing. Otherwise the sender is bound under the invitee's address as nickname with the default role for `member` (skipped when the nickname is taken), the invitee may become a member, and the invite is relayed. |
| MediatedInvitationModule.Step | src/main/java/tigase/muc/modules/MediatedInvitationModule.java:248-256 | One more child appends its reply, its affiliation change and its binding. |
| MediatedInvitationModule.HandleAll | src/main/java/tigase/muc/modules/MediatedInvitationModule.java:244-256 | A missing muc#user `x` faults. Otherwise the children before the first refusal are handled in order, and the outcome is that refusal's. The roster is the fold `Bound` of those children over the old roster. Only the sender's session can be added, every other session keeps its nickname and cached presence, and an error stanza leaves the roster unchanged. |
| MediatedInvitationModule.Walk | src/main/java/tigase/muc/modules/MediatedInvitationModule.java:247-256 | The loop over the children. It writes their replies, stores their invitees, and binds the sender as `Bound` says, up to the first refusal. |
| MediatedInvitationModule.Loop | src/main/java/tigase/muc/modules/MediatedInvitationModule.java:247-256 | The loop itself stops at the first refusal, with every earlier child walked. |
| MediatedInvitationModule.Turn | src/main/java/tigase/muc/modules/MediatedInvitationModule.java:248-255 | One turn adds that child's reply, affiliation change and binding. A refusal changes nothing. |
| MediatedInvitationModule.HandleChild | src/main/java/tigase/muc/modules/MediatedInvitationModule.java:249-255 | One child is dispatched by kind. An accepted child changes the roster as `Bind` says, and a refused one leaves it unchanged. |
| MediatedInvitationModule.OnlyTheSenderMoves | src/main/java/tigase/muc/modules/MediatedInvitationModule.java:114-120 | Handling invitations removes no session and adds at most the sender's. Every other session keeps its nickname and cached presence. |
| MediatedInvitationModule.SenderUnderSomeInvite | src/main/java/tigase/muc/modules/MediatedInvitationModule.java:110-116 | The sender ends either as it was or under the address of one of the invitations. |
| MediatedInvitationModule.NoInviteNoBinding | src/main/java/tigase/muc/modules/MediatedInvitationModule.java:249-255 | Without an invitation, including every child of an error stanza, the roster is unchanged. |
| MediatedInvitationModule.BoundUnderLastFree | src/main/java/tigase/muc/modules/MediatedInvitationModule.java:110-120 | The sender ends under the address of the last invitation whose nickname was free when it was handled, with the placeholder presence. |
| MediatedInvitationModule.Process | src/main/java/tigase/muc/modules/MediatedInvitationModule.java:229-264 | BAD_REQUEST when addressed to an occupant. A missing room faults, because the room is dereferenced before `doInvite`'s null check. Other rejections are NOT_ALLOWED or FORBIDDEN for a present room. |

## Left out

- `Room.java`, `PresenceWrapper` and the room repository are not part of this model. Their behaviour is inferred from the handlers' calls, and the registry is an in-memory map.
- The delay thread (`sleep(553)`, the endless loop, interruption) is not modelled. Only the queue's put and poll order is.
- Concurrency and per-room serialisation are not modelled: each handler call is atomic.
- Date parsing and formatting are not modelled: dates are opaque, and the parser and formatters are parameters of `Context`. `new Date()` is a `now` parameter.
- Stringprep and `TigaseStringprepException` paths are not modelled: addresses are always well formed.
- The history provider and the loggers are not modelled beyond the calls made to them, which are recorded in order. The history they replay is a parameter.
- `PresenceWrapper`'s hiding of `jid` by room anonymity is not modelled: items carry the session address.
- The iteration order of Java's hash sets is not modelled: broadcasts are stated per recipient, not per position.
- Logging calls and the commented-out ghostbuster code are not modelled.
- `PresenceModule.Module.Process`: states the malformed-address path and the empty-room removal only. The admission behaviour is stated by `PresenceModule.Module.Handle`.
- `PresenceModuleImpl.Process`: states the routing. What entering, staying and the nickname change do is stated by `ProcessEntering`, `ProcessChangeAvailabilityStatus` and `Dispatch`.
- `GroupchatMessageModule.Process`: states the rejections only. Delivery is stated by `GroupchatMessageModule.Deliver`.
- `MediatedInvitationModule.Process`: states the rejections only. The handling of the children is stated by `MediatedInvitationModule.HandleAll`.
- `PresenceModuleImpl.SendPresencesToNewOccupant`: outside multi-item mode, the count is stated as at least one per occupant, not as exactly one per session.
- `ModeratorModule.ProcessGet`: lists affiliates through the corrected `AffiliateItems`, so an affiliate with nobody present is listed, where ModeratorModule.java:276-290 leaves it out (see Findings). `AffiliationListAsWritten` states the listing as written.
- `PresenceModuleImpl.ParseInt`: reads only the ASCII digits 0 to 9. `Integer.parseInt` also accepts the other Unicode decimal digits that `Character.digit` knows, and that table depends on the Java runtime's Unicode version.
- `ModeratorModule.ProcessSet`: checks every item with the corrected `IntendedVerdict`, which checks an affiliation item against the address its `jid` names, where ModeratorModule.java:97-99 checks only the sessions `getOccupantJidsFromItem` finds (see Findings). `ItemVerdict` and `CheckItem` state the check as written.
- `GroupchatMessageModule.Announce`: the room's message listeners (`room.fireOnMessageToOccupants`, GroupchatMessageModule.java:328) are not modelled. Their effects lie outside the handler.

## Findings

| source | as written | input that shows it | evidently intended | confidence | as-written member | corrected member |
|---|---|---|---|---|---|---|
| src/main/java/tigase/muc/modules/ModeratorModule.java:276-290 | The affiliation listing loops over the sessions of the affiliate's nickname. An affiliate with no session has no nickname, so the loop body never runs, and the `nickName != null` test inside it is always true. | A room whose only affiliation is `a@example.org` → `member`, with nobody present. A `get` filtering on `member` returns an empty list. | Every holder of the affiliation is listed, with `nick` and `role` only when present. | not executed | ModeratorModule.AffiliateItemsAsWritten | ModeratorModule.AffiliateItems |
| src/main/java/tigase/muc/modules/ModeratorModule.java:97-99 | `checkItem` runs its permission checks once per session of `getOccupantJidsFromItem`, which prefers the `nick` attribute. The apply loop (lines 350-353) then stores the affiliation for the address in `jid`. An item whose `nick` nobody holds is therefore never checked, yet still changes the affiliation of `jid`. | A `set` from a sender with affiliation `none`, holding `<item nick="nobody" jid="owner@example.org" affiliation="outcast"/>`, in a room owned by `owner@example.org` where no occupant is called `nobody`. The check passes and the owner becomes `outcast`. | An affiliation item is checked against the affiliation of the address it changes: a ban needs the ban capability and a higher affiliation than that address. | not executed | ModeratorModule.UnheldNickBanPasses | ModeratorModule.IntendedBansAreAuthorised |
