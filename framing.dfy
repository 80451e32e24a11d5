/**
 * The two framing walks of netlink-notify: the walk over the netlink messages that
 * one receive returns (NLMSG_OK / NLMSG_NEXT, the message header framing of section
 * 2.2 of RFC 3549), and the walk over the routing attributes inside an address
 * message (RTA_OK / RTA_NEXT). Both are pure functions over the received bytes,
 * terminating because the remaining length strictly decreases.
 */
module Framing {
  import opened Wrappers
  import opened Bytes

  // Netlink and rtnetlink constants from the Linux headers.
  const NLMSG_HDRLEN: nat := 16      // NLMSG_ALIGN(sizeof(struct nlmsghdr))
  const NLMSG_ERROR: nat := 2
  const NLMSG_DONE: nat := 3
  const RTM_NEWLINK: nat := 16
  const RTM_DELLINK: nat := 17
  const RTM_NEWADDR: nat := 20
  const RTM_DELADDR: nat := 21
  const RTM_NEWROUTE: nat := 24
  const RTM_DELROUTE: nat := 25
  const IFADDRMSG_LEN: nat := 8      // NLMSG_ALIGN(sizeof(struct ifaddrmsg))
  const RTA_HDRLEN: nat := 4         // RTA_LENGTH(0)
  const IFA_ADDRESS: nat := 1
  const IFA_LOCAL: nat := 2
  const RT_SCOPE_UNIVERSE: byte := 0
  const AF_INET6: byte := 10
  const IFF_LOWER_UP: nat := 0x1_0000 // CHECK_CONNECTED

  /** flags & CHECK_CONNECTED: the carrier bit of an interface's flags. */
  predicate Connected(flags: nat) {
    (flags / IFF_LOWER_UP) % 2 == 1
  }

  // ---------------------------------------------------------------------------
  // Message header framing

  /** nlmsg_len of the header at position h. */
  function MsgLen(buf: seq<byte>, h: int): nat {
    U32(buf, h)
  }

  /** nlmsg_type of the header at position h. */
  function MsgType(buf: seq<byte>, h: int): nat {
    U16(buf, h + 4)
  }

  /** NLMSG_OK(h, len) with a signed remaining length. */
  predicate NlmsgOk(buf: seq<byte>, h: int, len: int) {
    len >= NLMSG_HDRLEN && MsgLen(buf, h) >= NLMSG_HDRLEN && MsgLen(buf, h) <= len
  }

  /**
   * The positions of the messages visited by the read_event loop: starting at h with
   * len bytes remaining, while NLMSG_OK holds, stepping by NLMSG_NEXT.
   */
  function Records(buf: seq<byte>, h: int, len: int): seq<int>
    decreases len
  {
    if NlmsgOk(buf, h, len) then
      var step := Align4(MsgLen(buf, h));
      [h] + Records(buf, h + step, len - step)
    else
      []
  }

  /**
   * The walk visits the messages in buffer order, each starting where the previous one
   * ended after alignment, and every visited message, header included, lies inside the
   * received bytes.
   */
  lemma {:induction false} RecordsInside(buf: seq<byte>, h: int, len: int)
    requires 0 <= h && h + len == |buf|
    decreases len
    ensures var r := Records(buf, h, len);
      && (|r| > 0 ==> r[0] == h)
      && (forall k :: 0 <= k < |r| ==>
            h <= r[k] && NLMSG_HDRLEN <= MsgLen(buf, r[k]) && r[k] + MsgLen(buf, r[k]) <= |buf|)
      && (forall k :: 0 < k < |r| ==> r[k] == r[k - 1] + Align4(MsgLen(buf, r[k - 1])))
  {
    if NlmsgOk(buf, h, len) {
      var step := Align4(MsgLen(buf, h));
      RecordsInside(buf, h + step, len - step);
      var tail := Records(buf, h + step, len - step);
      var r := Records(buf, h, len);
      assert r == [h] + tail;
      forall k | 0 < k < |r|
        ensures r[k] == r[k - 1] + Align4(MsgLen(buf, r[k - 1]))
      {
        assert r[k] == tail[k - 1];
        if k > 1 {
          assert r[k - 1] == tail[k - 2];
        }
      }
    }
  }

  // ---------------------------------------------------------------------------
  // Unsigned guard, as read_event writes it

  /**
   * The loop guard of read_event as written: NLMSG_OK applied to the remaining length
   * cast to unsigned int. A negative remainder becomes a value near 2^32.
   */
  predicate NlmsgOkAsWritten(buf: seq<byte>, h: int, status: int) {
    var len := if status < 0 then status + 0x1_0000_0000 else status;
    len >= NLMSG_HDRLEN && MsgLen(buf, h) >= NLMSG_HDRLEN && MsgLen(buf, h) <= len
  }

  /**
   * 24 bytes of buffer: a received 18-byte message (nlmsg_len 18, nlmsg_type 16)
   * followed by stale bytes that happen to hold nlmsg_len 16 at position 20.
   */
  function StaleTail(): (mem: seq<byte>)
    ensures |mem| == 24
  {
    seq(24, i => if i == 0 then 18 else if i == 4 || i == 20 then 16 else 0)
  }

  /**
   * A receive of 18 bytes holding one message of nlmsg_len 18: NLMSG_NEXT subtracts
   * the aligned length 20 and leaves -2 remaining. With the unsigned cast the guard then
   * accepts whatever header lies at position 20, past the received bytes (here the
   * stale bytes 16, 0, 0, 0 of an earlier receive); the signed guard stops.
   */
  lemma UnsignedGuardReadsPastData()
    ensures var mem := StaleTail();
            var status := 18;
            var next := Align4(MsgLen(mem, 0));
            && NlmsgOkAsWritten(mem, 0, status) && NlmsgOk(mem, 0, status)
            && next == 20 && next > status
            && NlmsgOkAsWritten(mem, next, status - next)
            && !NlmsgOk(mem, next, status - next)
  {
    var mem := StaleTail();
    assert U16(mem, 0) == 18 && U16(mem, 2) == 0;
    assert MsgLen(mem, 0) == 18;
    assert U16(mem, 20) == 16 && U16(mem, 22) == 0;
    assert MsgLen(mem, 20) == 16;
  }

  /**
   * Over the received bytes, where the remaining length is the distance to their end,
   * the unsigned guard and the signed one agree: a position past the end reads as a
   * zero nlmsg_len, which both reject. So the walk of the model, which reads nothing
   * past the received bytes, does not depend on which of the two guards it uses.
   */
  lemma GuardsAgreeInside(buf: seq<byte>, h: int, status: int)
    requires 0 <= h && h + status == |buf|
    ensures NlmsgOk(buf, h, status) <==> NlmsgOkAsWritten(buf, h, status)
  {
    if status < 0 {
      assert U16(buf, h) == 0 && U16(buf, h + 2) == 0;
    }
  }

  // ---------------------------------------------------------------------------
  // Routing attribute framing

  /** A routing attribute: its rta_type and its payload. */
  datatype Attr = Attr(typ: nat, data: seq<byte>)

  /** RTA_OK(rta, len). */
  predicate RtaOk(buf: seq<byte>, a: int, len: int) {
    len >= RTA_HDRLEN && U16(buf, a) >= RTA_HDRLEN && U16(buf, a) <= len
  }

  /** The attribute whose header is at position p: its rta_type and the payload up to rta_len. */
  function AttrAt(buf: seq<byte>, p: int): Attr
    requires RTA_HDRLEN <= U16(buf, p)
  {
    Attr(U16(buf, p + 2), Slice(buf, p + RTA_HDRLEN, p + U16(buf, p)))
  }

  /** The attributes visited by the `while (rtl && RTA_OK(rth, rtl))` walk. */
  function Attrs(buf: seq<byte>, a: int, len: int): seq<Attr>
    decreases len
  {
    if len != 0 && RtaOk(buf, a, len) then
      var step := Align4(U16(buf, a));
      [AttrAt(buf, a)] + Attrs(buf, a + step, len - step)
    else
      []
  }

  /** The positions of the attributes the walk visits, in the order Attrs visits them. */
  function AttrStarts(buf: seq<byte>, a: int, len: int): seq<int>
    decreases len
  {
    if len != 0 && RtaOk(buf, a, len) then
      var step := Align4(U16(buf, a));
      [a] + AttrStarts(buf, a + step, len - step)
    else
      []
  }

  /**
   * Every attribute the walk visits over the len bytes from a lies inside those bytes,
   * its header and its rta_len bytes included; attributes are visited in order, each at
   * the previous one's aligned end. For an address message the walk starts at h + 24
   * with IFA_PAYLOAD bytes, so every attribute lies inside the message's nlmsg_len bytes.
   */
  lemma {:induction false} AttrsInside(buf: seq<byte>, a: int, len: int)
    decreases len
    ensures var r := AttrStarts(buf, a, len);
      && (|r| > 0 ==> r[0] == a)
      && (forall k :: 0 <= k < |r| ==>
            a <= r[k] && RTA_HDRLEN <= U16(buf, r[k]) && r[k] + U16(buf, r[k]) <= a + len)
      && (forall k :: 0 < k < |r| ==> r[k] == r[k - 1] + Align4(U16(buf, r[k - 1])))
  {
    if len != 0 && RtaOk(buf, a, len) {
      var step := Align4(U16(buf, a));
      AttrsInside(buf, a + step, len - step);
      var tail := AttrStarts(buf, a + step, len - step);
      var r := AttrStarts(buf, a, len);
      assert r == [a] + tail;
      forall k | 0 < k < |r|
        ensures r[k] == r[k - 1] + Align4(U16(buf, r[k - 1]))
      {
        assert r[k] == tail[k - 1];
        if k > 1 {
          assert r[k - 1] == tail[k - 2];
        }
      }
    }
  }

  /**
   * The walk yields one attribute per visited position, and each one is the attribute
   * whose header is at that position: its payload is the bytes after the header up to
   * its rta_len.
   */
  lemma {:induction false} AttrsAtStarts(buf: seq<byte>, a: int, len: int)
    decreases len
    ensures var r := AttrStarts(buf, a, len);
      var attrs := Attrs(buf, a, len);
      |r| == |attrs| &&
      forall k :: 0 <= k < |r| ==> RTA_HDRLEN <= U16(buf, r[k]) && attrs[k] == AttrAt(buf, r[k])
  {
    if len != 0 && RtaOk(buf, a, len) {
      var step := Align4(U16(buf, a));
      AttrsAtStarts(buf, a + step, len - step);
      var r := AttrStarts(buf, a, len);
      var attrs := Attrs(buf, a, len);
      assert r == [a] + AttrStarts(buf, a + step, len - step);
      assert attrs == [AttrAt(buf, a)] + Attrs(buf, a + step, len - step);
    }
  }

  /** IFA_LOCAL (IPv4) or IFA_ADDRESS (IPv6). */
  predicate IsAddressAttr(x: Attr) {
    x.typ == IFA_LOCAL || x.typ == IFA_ADDRESS
  }

  /** The payload of the first address attribute, if there is one. */
  function FirstAddress(attrs: seq<Attr>): Option<seq<byte>> {
    if attrs == [] then None
    else if IsAddressAttr(attrs[0]) then Some(attrs[0].data)
    else FirstAddress(attrs[1..])
  }

  /**
   * FirstAddress finds an attribute exactly when one is an address attribute, and then
   * returns the payload of an address attribute preceded only by other attributes.
   */
  lemma {:induction false} FirstAddressIsFirst(attrs: seq<Attr>)
    ensures FirstAddress(attrs).Some? <==> exists i :: 0 <= i < |attrs| && IsAddressAttr(attrs[i])
    ensures FirstAddress(attrs).Some? ==>
      exists i :: 0 <= i < |attrs| && IsAddressAttr(attrs[i]) && attrs[i].data == FirstAddress(attrs).value &&
        forall j :: 0 <= j < i ==> !IsAddressAttr(attrs[j])
  {
    if attrs != [] && !IsAddressAttr(attrs[0]) {
      FirstAddressIsFirst(attrs[1..]);
      if FirstAddress(attrs).Some? {
        var i :| 0 <= i < |attrs[1..]| && IsAddressAttr(attrs[1..][i]) &&
          attrs[1..][i].data == FirstAddress(attrs[1..]).value &&
          forall j :: 0 <= j < i ==> !IsAddressAttr(attrs[1..][j]);
        assert IsAddressAttr(attrs[i + 1]) && attrs[i + 1].data == FirstAddress(attrs).value;
        assert forall j :: 0 <= j < i + 1 ==> !IsAddressAttr(attrs[j]) by {
          forall j | 0 <= j < i + 1 ensures !IsAddressAttr(attrs[j]) {
            if j > 0 { assert attrs[j] == attrs[1..][j - 1]; }
          }
        }
      } else {
        forall i | 0 <= i < |attrs| ensures !IsAddressAttr(attrs[i]) {
          if i > 0 { assert attrs[i] == attrs[1..][i - 1]; }
        }
      }
    } else if attrs != [] {
      assert IsAddressAttr(attrs[0]);
    }
  }

  /**
   * The attribute loop of msg_handler for address messages (RTM_NEWADDR and
   * RTM_DELADDR): walk the attributes and stop at the first IFA_LOCAL or IFA_ADDRESS one,
   * provided the address has universe scope; a scope-limited address finds nothing.
   */
  method FindAddress(buf: seq<byte>, a0: int, len0: int, scope: byte) returns (found: Option<seq<byte>>)
    ensures found == if scope == RT_SCOPE_UNIVERSE then FirstAddress(Attrs(buf, a0, len0)) else None
  {
    var a, len := a0, len0;
    while len != 0 && RtaOk(buf, a, len)
      invariant scope == RT_SCOPE_UNIVERSE ==> FirstAddress(Attrs(buf, a, len)) == FirstAddress(Attrs(buf, a0, len0))
      decreases len
    {
      var attr := AttrAt(buf, a);
      if IsAddressAttr(attr) && scope == RT_SCOPE_UNIVERSE {
        return Some(attr.data);
      }
      var step := Align4(U16(buf, a));
      a, len := a + step, len - step;
    }
    return None;
  }

  // ---------------------------------------------------------------------------
  // The fields msg_handler reads from one message

  /**
   * What msg_handler reads from the message at position h. The payload is read both as
   * struct ifinfomsg and as struct ifaddrmsg; in both layouts the interface index is the
   * 32-bit field at payload offset 4. The address attributes start after the ifaddrmsg,
   * and IFA_PAYLOAD gives their total length.
   */
  datatype Message = Message(
    typ: nat,                       // nlmsg_type
    index: nat,                     // ifi_index (same position as ifa_index)
    flags: nat,                     // ifi_flags
    family: byte,                   // ifa_family
    prefixlen: byte,                // ifa_prefixlen
    scope: byte,                    // ifa_scope
    address: Option<seq<byte>>)     // payload of the first IFA_LOCAL / IFA_ADDRESS attribute

  /** ifi_index of the message at position h. */
  function IfIndex(buf: seq<byte>, h: int): nat {
    U32(buf, h + NLMSG_HDRLEN + 4)
  }

  /** IFA_PAYLOAD: nlmsg_len less NLMSG_SPACE(sizeof(struct ifaddrmsg)), as a signed int. */
  function AttrsLen(buf: seq<byte>, h: int): int {
    MsgLen(buf, h) - (NLMSG_HDRLEN + IFADDRMSG_LEN)
  }

  function Decode(buf: seq<byte>, h: int): Message {
    var data := h + NLMSG_HDRLEN;
    Message(
      MsgType(buf, h),
      IfIndex(buf, h),
      U32(buf, data + 8),
      ByteAt(buf, data),
      ByteAt(buf, data + 1),
      ByteAt(buf, data + 3),
      FirstAddress(Attrs(buf, data + IFADDRMSG_LEN, AttrsLen(buf, h))))
  }
}
