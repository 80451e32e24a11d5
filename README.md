# netlink-notify: event decoding and interface tracking

netlink-notify listens on a rtnetlink socket and shows a desktop notification whenever
a network interface changes. It reports a new link state ("up" or "down"), a new
address, or an interface that has gone away. This project models the core of
`netlink-notify.c` in Dafny and proves properties of it.

The project has six modules:

- `Bytes` reads little-endian 16- and 32-bit fields from the received bytes.
  It also holds `NLMSG_ALIGN` / `RTA_ALIGN` (`Align4`).
- `Framing` holds the two framing walks. The first is the walk over the netlink messages
  of one receive (`NLMSG_OK` / `NLMSG_NEXT`). The second is the walk over the routing
  attributes of an address message (`RTA_OK` / `RTA_NEXT`). Both are pure functions
  over the received bytes. `Framing.Decode` extracts the fields `msg_handler` reads.
  `Framing.FindAddress` is the attribute loop itself.
- `AddressList` models the per-interface list of addresses already reported
  (`struct addresses_seen`). `AddressList.AddressChain` is a class whose `slots`
  field is updated in place by `Add`, `Remove` and `Free`, and read by `Match`.
- `Text` renders the notification templates (`newstr_link`, `newstr_addr`,
  `newstr_away`). Each text is proved to be exactly the expected sentence, and the
  text plus its terminating NUL is proved to fit the buffer the C code allocates.
- `Registry` models the globals of `msg_handler` (`maxinterface`, `ifnames`,
  `addresses_seen`):
  - `Registry.Step` is the specification. It is a pure function from the registry
    state and one decoded message to the new state and the notification decision.
  - The class `Registry.Registry` is the imperative code: the growth loop, the name
    refresh and the in-place list updates. It is proved against `Step` through a
    ghost `Model`.
- `Events` models `read_event`:
  - `Events.Drain` specifies the walk over the messages of one datagram.
  - `Events.ReadEvent` / `Events.Walk` are the loop that drives a `Registry`,
    proved against `Drain`.

## Model

| member | source | states |
|---|---|---|
| AddressList.AddressChain.constructor | netlink-notify.c:92-97 | A fresh list is the bare sentinel: no address is recorded. |
| AddressList.AddressChain.Add | netlink-notify.c:99-109 | The pair goes into the last node, after every earlier node including holes. It is listed afterwards. |
| AddressList.AddressChain.Remove | netlink-notify.c:111-122 | Every live node holding the pair becomes a hole, and the node count is unchanged. The pair is no longer listed. |
| AddressList.AddressChain.Match | netlink-notify.c:124-138 | Returns 1 exactly when some live node holds the pair, and 0 exactly when none does. Holes never match. |
| AddressList.AddressChain.Free | netlink-notify.c:68-90 | The list is reset to the initial state, so no pair remains listed. |
| AddressList.BlankedRemovesOnly | netlink-notify.c:111-122 | Removal deletes exactly the given pair. Every other pair stays listed or unlisted as before, and an absent pair changes nothing. |
| AddressList.AppendKeepsUnique | netlink-notify.c:314-320 | Adding a pair only after a failed match keeps the list free of duplicates. |
| AddressList.BlankKeepsUnique | netlink-notify.c:111-122 | Removing a pair keeps the list free of duplicates. |
| Bytes.Align4 | netlink-notify.c:213 | NLMSG_ALIGN rounds up to the next multiple of 4 and adds less than 4. |
| Framing.RecordsInside | netlink-notify.c:213 | With the signed length guard, every visited message lies inside the received bytes, header included. Messages are visited in buffer order, each at the previous one's aligned end. |
| Framing.UnsignedGuardReadsPastData | netlink-notify.c:213 | For example, an 18-byte receive holding one message of nlmsg_len 18: the as-written unsigned guard accepts the header at offset 20, past the received bytes, when the stale bytes there hold a valid header; the signed guard rejects it. |
| Framing.FirstAddressIsFirst | netlink-notify.c:308-329 | The address found is the payload of the first IFA_LOCAL or IFA_ADDRESS attribute. One is found exactly when such an attribute exists. |
| Framing.FindAddress | netlink-notify.c:305-329 | The attribute loop returns the first address attribute's payload, or nothing when the scope is not RT_SCOPE_UNIVERSE. |
| Framing.Decode | netlink-notify.c:253-254 | Definition: the fields msg_handler reads through `ifi` and `ifa`, and the first address attribute. Bounds of the attribute walk are in Framing.AttrsInside. |
| Framing.AttrAt | netlink-notify.c:309-312 | Definition: the rta_type and the RTA_DATA payload of the attribute at a position. Properties in Framing.AttrsAtStarts. |
| Framing.Attrs | netlink-notify.c:305-329 | Definition: the attributes the `while (rtl && RTA_OK(rth, rtl))` walk visits. Properties in Framing.AttrsInside and Framing.AttrsAtStarts. |
| Framing.AttrStarts | netlink-notify.c:305-329 | Definition: the positions that walk visits. Properties in Framing.AttrsInside. |
| Framing.AttrsInside | netlink-notify.c:305-329 | Every visited attribute, header and rta_len bytes included, lies inside the IFA_PAYLOAD bytes after the ifaddrmsg. Attributes are visited in order, each at the previous one's RTA_ALIGNed end. |
| Framing.AttrsAtStarts | netlink-notify.c:309-312 | The walk yields one attribute per visited position, whose payload is the bytes after its header up to its rta_len. |
| Framing.FirstAddress | netlink-notify.c:308-329 | Definition: the payload of the first IFA_LOCAL or IFA_ADDRESS attribute. Properties in Framing.FirstAddressIsFirst. |
| Framing.NlmsgOk | netlink-notify.c:213 | Definition: NLMSG_OK with a signed remaining length. Properties in Framing.GuardsAgreeInside. |
| Framing.RtaOk | netlink-notify.c:308 | Definition: RTA_OK. Used by Framing.Attrs; properties in Framing.AttrsInside. |
| Framing.AttrsLen | netlink-notify.c:306 | Definition: IFA_PAYLOAD, nlmsg_len less the header and the ifaddrmsg. |
| Framing.IfIndex | netlink-notify.c:254-257 | Definition: ifi_index, the 32-bit field at payload offset 4. |
| Framing.Connected | netlink-notify.c:374 | Definition: `flags & CHECK_CONNECTED`. Used by Text.LinkText and Registry.NewLinkDecision. |
| Text.Decimal | netlink-notify.c:155 | The %d rendering is never empty; its inverse is in Text.DecimalRoundTrip. |
| Framing.Records | netlink-notify.c:213 | Definition: the positions the NLMSG_OK / NLMSG_NEXT loop visits with a signed remaining length. Properties in Framing.RecordsInside. |
| Framing.NlmsgOkAsWritten | netlink-notify.c:213 | Definition: the loop guard with the `(unsigned int)` cast. Properties in Framing.UnsignedGuardReadsPastData and Framing.GuardsAgreeInside. |
| Framing.GuardsAgreeInside | netlink-notify.c:213 | While the remaining length is the distance to the end of the received bytes, the unsigned and the signed guard accept the same positions. Events.Walk uses the unsigned guard and this lemma. |
| Text.Format | netlink-notify.c:145 | Definition: sprintf restricted to %s and %d. Properties in Text.FormatLiteral and Text.FormatFour. |
| Text.NewStrLink | netlink-notify.c:140-148 | Definition: newstr_link's sprintf. Properties in Text.LinkText. |
| Text.NewStrAddr | netlink-notify.c:150-158 | Definition: newstr_addr's sprintf. Properties in Text.AddrText. |
| Text.NewStrAway | netlink-notify.c:160-168 | Definition: newstr_away's sprintf. Properties in Text.AwayText. |
| Text.DecimalRoundTrip | netlink-notify.c:155 | The %d rendering of a number reads back as the same number. |
| Text.DecimalOfByte | netlink-notify.c:151-155 | An unsigned char prefix renders in at most three digits. |
| Text.FormatLiteral | netlink-notify.c:145 | sprintf copies template text without conversions unchanged. |
| Text.FormatFour | netlink-notify.c:155 | A template with %s %s %s %d renders as its text with the four arguments in place. |
| Text.LinkText | netlink-notify.c:140-148 | The link text names the interface and says "up" exactly when IFF_LOWER_UP is set. It fits the strlen(text)+strlen(interface)+4 bytes allocated. |
| Text.AddrText | netlink-notify.c:150-158 | The address text names the interface, "IPv6" or "IP", the address and the prefix. It fits the strlen(text)+strlen(interface)+strlen(ipaddr) bytes allocated. |
| Text.AwayText | netlink-notify.c:160-168 | The removal text names the interface. It fits the strlen(text)+strlen(interface) bytes allocated. |
| Registry.RefreshName | netlink-notify.c:289-294 | Definition: the stored name or "(unknown)", overwritten by a successful if_indextoname. Properties in Registry.Registry.StoreName. |
| Registry.Selected | netlink-notify.c:308-311 | Definition: the address attribute counts only for universe scope. Used by Registry.NewAddrDecision and Registry.DelAddrDecision. |
| Registry.Dispatch | netlink-notify.c:301-396 | Definition: the switch on nlmsg_type for a live interface. Properties in Registry.DispatchShape and the per-type decision lemmas. |
| Registry.Body | netlink-notify.c:322-323 | Definition: the notifystr of a decision (also built at 372 and 382). Its texts are pinned down by Text.LinkText, Text.AddrText and Text.AwayText. |
| Registry.Icon | netlink-notify.c:374 | Definition: the icon of a decision (also chosen at 346 and 384). |
| Registry.Grow | netlink-notify.c:257-277 | Growth raises maxinterface to the message's index when it is below it, and leaves one slot per index. |
| Registry.GrowInitialises | netlink-notify.c:262-276 | Growth keeps every old slot and initialises each new slot to name NULL, not deleted, empty list. |
| Registry.Step | netlink-notify.c:241-397 | One message keeps the registry well formed, with one slot per index up to maxinterface. |
| Registry.StepFrame | netlink-notify.c:257-283 | A message changes no slot other than its own interface's. It grows the table to its index, and new slots in between are initialised. |
| Registry.StepIgnoresDeleted | netlink-notify.c:278-283 | A message for a tracked interface marked deleted changes nothing and notifies nothing. |
| Registry.StepAtIndex | netlink-notify.c:285-392 | For a live interface, the slot after the message is the type switch applied to the prior slot under the refreshed name. |
| Registry.DispatchShape | netlink-notify.c:301-392 | The type switch changes only the address list, except that RTM_DELLINK clears the name and sets the deleted flag. |
| Registry.NewAddrDecision | netlink-notify.c:304-348 | RTM_NEWADDR reports and appends a universe-scope address only if it is not listed yet. Otherwise nothing changes and nothing is reported. |
| Registry.DelAddrDecision | netlink-notify.c:349-366 | RTM_DELADDR removes the selected address and never reports. |
| Registry.OtherTypesIgnored | netlink-notify.c:367-370 | Route messages and unknown types report nothing and keep the list; only the name is refreshed. |
| Registry.NewLinkDecision | netlink-notify.c:371-380 | RTM_NEWLINK always reports "up" or "down" from IFF_LOWER_UP. It clears the address list exactly when the carrier is down. |
| Registry.DelLinkDecision | netlink-notify.c:381-392 | RTM_DELLINK reports the removal, clears the list and marks the interface deleted. |
| Registry.NewAddrIdempotent | netlink-notify.c:314-316 | The same RTM_NEWADDR twice: the second changes nothing and reports nothing. |
| Registry.ReAddAfterDown | netlink-notify.c:376-378 | After a carrier-down RTM_NEWLINK, a universe-scope address is reported again. |
| Registry.StepKeepsUnique | netlink-notify.c:314-320 | No address list ever holds the same address and prefix twice. |
| Registry.StepKeepsTombstones | netlink-notify.c:278-283 | maxinterface never decreases, and a deleted slot never changes again. |
| Registry.Registry.constructor | netlink-notify.c:63-66 | The globals start at maxinterface 0 with nothing tracked. |
| Registry.Registry.Extend | netlink-notify.c:257-277 | The growth loop leaves the registry equal to Grow of the old one. |
| Registry.Registry.StoreName | netlink-notify.c:285-294 | A NULL name becomes "(unknown)", and a successful if_indextoname replaces it. No other slot or list changes. |
| Registry.Registry.Handle | netlink-notify.c:241-397 | msg_handler returns 0, and the new registry and the decision are exactly those of Step on the decoded message. |
| Registry.Registry.Commit | netlink-notify.c:301-392 | The in-place type switch on slot n yields the new slot and decision of Dispatch. |
| Registry.Apply | netlink-notify.c:301-392 | The in-place updates to one interface's list match Dispatch's new list and decision. |
| Events.Drain | netlink-notify.c:213-237 | Definition: the read_event loop over the visited positions. Properties in Events.DrainResult, Events.DrainKeepsUnique and Events.DrainKeepsTombstones. |
| Events.DrainNext | netlink-notify.c:224-234 | Definition: one non-terminal message through msg_handler, then the rest of the walk. Properties in Events.DrainStep. |
| Events.FirstTerminal | netlink-notify.c:215-222 | Counts the messages before the first NLMSG_DONE or NLMSG_ERROR, which is terminal if it exists. |
| Events.DrainResult | netlink-notify.c:213-238 | read_event returns -1 exactly when the first terminal message is NLMSG_ERROR, and 0 otherwise. Every message before it gets one decision. |
| Events.DrainKeepsUnique | netlink-notify.c:213-234 | Over a whole datagram, no address list ever holds a duplicate. |
| Events.DrainKeepsTombstones | netlink-notify.c:213-234 | Over a whole datagram, deleted interfaces stay unchanged, and messages for them produce no notification. |
| Events.DrainStep | netlink-notify.c:213-234 | A non-terminal message is handled, and the walk continues at NLMSG_NEXT. |
| Events.DrainStops | netlink-notify.c:215-222 | NLMSG_DONE ends the walk with 0 and NLMSG_ERROR with -1; the registry is unchanged. |
| Events.Turn | netlink-notify.c:224-234 | One loop pass hands the message to msg_handler and steps by NLMSG_NEXT. The whole walk's outcome is kept as an invariant. |
| Events.Walk | netlink-notify.c:213-237 | The message loop, guarded by NLMSG_OK on the length cast to unsigned as written, leaves the registry, return value and decisions specified by Drain. |
| Events.ReadEvent | netlink-notify.c:188-238 | EWOULDBLOCK returns 0 and another recvmsg failure returns its status, both with nothing handled. Received data is walked as Drain specifies. |

## Left out

- The libnotify calls are not modelled: creating, updating and showing notifications, the `notifications` array, categories and urgency. The model records each notification as a `Decision` value. `Registry.Body` and `Registry.Icon` give its text and icon.
- `main`, `open_netlink`, the reconnect loop and the exit paths are not modelled (netlink-notify.c:170-185 and 399-461). They are socket and process plumbing.
- `recvmsg` is an input: `Events.Received` is the byte sequence received, `EWOULDBLOCK`/`EAGAIN`, or a negative status. errno is not modelled separately.
- `if_indextoname` and `inet_ntop` are parameters: `ifname` maps an index to an optional name, and `ntop` maps a family and payload to a string. `ifname` is fixed for one datagram. `ntop` receives the attribute's payload up to its rta_len (`Framing.AttrAt`). `inet_ntop` instead reads a fixed 4 bytes (AF_INET) or 16 bytes (AF_INET6) at RTA_DATA (netlink-notify.c:312 and 357), so a short or padded attribute gives `ntop` other bytes than C reads. For any other family `inet_ntop` returns NULL and leaves `char buf[64]` (line 249) as it was; lines 315, 319 and 358 then use whatever it held, while `ntop` is a fixed function of family and payload. Neither case arises for the well-formed AF_INET and AF_INET6 address messages of the subscribed groups, and 64 bytes always hold their text.
- Events.ReadEvent: the `msg_handler == NULL` branch and the negative-handler-result branch of `read_event` are not modelled. The handler is always `msg_handler`, which always returns 0 (`Registry.Registry.Handle` proves `r == 0`).
- The DEBUG `printf`s and the `fprintf(stderr, ...)` diagnostics are not modelled, including the EOF message for a zero-length receive.
- Registry.Registry.Handle: requires an interface index of at least 1. For index 0 the C code reads the never-initialised slot 0 (or `ifnames == NULL` before the first growth). The model does not describe that slot.
- Registry.Step: for RTM_DELLINK, the freed name pointer is modelled as `None`. The C code leaves it dangling, but never reads it again because the slot is marked deleted.
- Allocation failure of `malloc`/`realloc`/`strdup`, memory ownership and frees are not modelled. The address lists are sequences of slots, not linked nodes, and the trailing sentinel node is implicit.
- Bytes.ByteAt: a read past the received bytes yields 0. In C it yields whatever the 4096-byte buffer held. This decides the unsigned-guard finding below. `Framing.GuardsAgreeInside` shows that, under this rule, the walk's signed guard accepts exactly what the as-written guard accepts. It also decides the fields of a last message too short to hold its `ifinfomsg`/`ifaddrmsg` (see the next line).
- Events.ReadEvent: requires every message before the first NLMSG_DONE/NLMSG_ERROR to carry an interface index of at least 1. A last message too short for its payload, such as a 16-byte datagram holding a header-only RTM_NEWLINK, reads `ifi_index` past the received bytes. C reads stale buffer contents (netlink-notify.c:254-257). The model reads 0, so such a datagram is outside the precondition and its handling is not described.
- Bytes.U16 and Bytes.U32 read fields little-endian. Netlink uses the host's byte order, so the model describes a little-endian host only.
- `maxinterface`, `ifi_index` and `ifi_flags` are unbounded naturals read from 32-bit fields, so no wrap-around can occur in the model. `ifi_index` is a signed `int` in `struct ifinfomsg`. C compares it against the unsigned `maxinterface` as unsigned (line 257), but indexes the arrays with the signed value. The model reads every index as unsigned, so indices of 2^31 and above are treated as large positive indices.
- The `realloc` of the per-interface arrays is modelled as appending to sequences; `ifi_index + 1` overflow is not considered.
- The C code has no link-state debounce: every RTM_NEWLINK is reported, even when the state did not change. The model follows the code.

## Findings

| source | as written | input that shows it | evidently intended | confidence | as-written member | corrected member |
|---|---|---|---|---|---|---|
| netlink-notify.c:213 | `NLMSG_OK(h, (unsigned int) status)`: after the last message, `NLMSG_NEXT` subtracts the aligned length, and a negative remainder cast to unsigned passes the length test | 18 bytes received holding one message with nlmsg_len 18: the remainder becomes -2, and the guard accepts whatever header lies at offset 20, past the received bytes | the loop stops at the end of the received bytes (signed `NLMSG_OK(h, status)`) | low; not executed (the kernel normally pads messages to 4 bytes) | Framing.UnsignedGuardReadsPastData | Framing.RecordsInside |
