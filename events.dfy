/**
 * read_event: one recvmsg on the netlink socket, then the walk over the messages the
 * datagram holds, handing each to msg_handler until NLMSG_DONE, NLMSG_ERROR or the end
 * of the received bytes.
 *
 * Drain is the specification of the walk over the message positions Records yields;
 * ReadEvent is the loop itself, driving a Registry, proved against Drain.
 */
module Events {
  import opened Wrappers
  import opened Bytes
  import opened Framing
  import opened Registry

  /** The size of the receive buffer. */
  const BUFSIZE: nat := 4096

  /**
   * What recvmsg produced: nothing yet on the non-blocking socket (EWOULDBLOCK or
   * EAGAIN), another failure with its negative status, or the received bytes.
   */
  datatype Received = WouldBlock | RecvError(status: int) | Data(buf: seq<byte>)

  /** What a call to read_event leaves behind: the registry, the return value, the notifications. */
  datatype Outcome = Outcome(state: RegState, ret: int, decisions: seq<Decision>)

  /** A message that ends the walk: NLMSG_DONE, or NLMSG_ERROR. */
  predicate Terminal(buf: seq<byte>, h: int) {
    MsgType(buf, h) == NLMSG_DONE || MsgType(buf, h) == NLMSG_ERROR
  }

  /** The number of messages handed to msg_handler: those before the first terminal one. */
  function FirstTerminal(buf: seq<byte>, offs: seq<int>): (k: nat)
    ensures k <= |offs|
    ensures forall j :: 0 <= j < k ==> !Terminal(buf, offs[j])
    ensures k < |offs| ==> Terminal(buf, offs[k])
    decreases |offs|
  {
    if offs == [] || Terminal(buf, offs[0]) then 0 else 1 + FirstTerminal(buf, offs[1..])
  }

  /** Every message msg_handler would see names an interface index of at least 1. */
  predicate Handleable(buf: seq<byte>, offs: seq<int>)
    decreases |offs|
  {
    offs == [] || Terminal(buf, offs[0]) || (IfIndex(buf, offs[0]) >= 1 && Handleable(buf, offs[1..]))
  }

  /**
   * The walk over the messages at offs: NLMSG_DONE ends it with 0, NLMSG_ERROR with -1,
   * any other message is handled by DrainNext.
   */
  function Drain(s: RegState, buf: seq<byte>, offs: seq<int>, ifname: nat -> Option<string>,
                 ntop: (byte, seq<byte>) -> string): (o: Outcome)
    requires WellFormed(s) && Handleable(buf, offs)
    ensures WellFormed(o.state) && |o.decisions| <= |offs|
    decreases |offs|, 1
  {
    if offs == [] || MsgType(buf, offs[0]) == NLMSG_DONE then
      Outcome(s, 0, [])
    else if MsgType(buf, offs[0]) == NLMSG_ERROR then
      Outcome(s, -1, [])
    else
      DrainNext(s, buf, offs, ifname, ntop)
  }

  /**
   * The first message goes through msg_handler (Step), whose decision is taken and
   * whose result 0 is overwritten by the rest of the walk.
   */
  function DrainNext(s: RegState, buf: seq<byte>, offs: seq<int>, ifname: nat -> Option<string>,
                     ntop: (byte, seq<byte>) -> string): (o: Outcome)
    requires WellFormed(s) && offs != [] && !Terminal(buf, offs[0]) && Handleable(buf, offs)
    ensures WellFormed(o.state) && |o.decisions| <= |offs|
    decreases |offs|, 0
  {
    var r := Step(s, Decode(buf, offs[0]), ifname(IfIndex(buf, offs[0])), ntop);
    var rest := Drain(r.state, buf, offs[1..], ifname, ntop);
    Outcome(rest.state, rest.ret, [r.decision] + rest.decisions)
  }

  /**
   * read_event returns -1 exactly when the first terminal message is NLMSG_ERROR and 0
   * otherwise, and every message before the first terminal one gets one decision.
   */
  lemma {:induction false} DrainResult(s: RegState, buf: seq<byte>, offs: seq<int>,
                                       ifname: nat -> Option<string>, ntop: (byte, seq<byte>) -> string)
    requires WellFormed(s) && Handleable(buf, offs)
    ensures var o := Drain(s, buf, offs, ifname, ntop);
      var k := FirstTerminal(buf, offs);
      && |o.decisions| == k
      && (o.ret == -1 <==> k < |offs| && MsgType(buf, offs[k]) == NLMSG_ERROR)
      && (o.ret == 0 || o.ret == -1)
    decreases |offs|
  {
    if offs != [] && !Terminal(buf, offs[0]) {
      var r := Step(s, Decode(buf, offs[0]), ifname(IfIndex(buf, offs[0])), ntop);
      DrainResult(r.state, buf, offs[1..], ifname, ntop);
      assert offs[1..][FirstTerminal(buf, offs) - 1..] == offs[FirstTerminal(buf, offs)..];
    }
  }

  /** No address list ever holds the same address and prefix twice. */
  lemma {:induction false} DrainKeepsUnique(s: RegState, buf: seq<byte>, offs: seq<int>,
                                            ifname: nat -> Option<string>, ntop: (byte, seq<byte>) -> string)
    requires WellFormed(s) && Handleable(buf, offs) && AllUnique(s)
    ensures AllUnique(Drain(s, buf, offs, ifname, ntop).state)
    decreases |offs|
  {
    if offs != [] && !Terminal(buf, offs[0]) {
      var m := Decode(buf, offs[0]);
      var lookup := ifname(IfIndex(buf, offs[0]));
      StepKeepsUnique(s, m, lookup, ntop);
      DrainKeepsUnique(Step(s, m, lookup, ntop).state, buf, offs[1..], ifname, ntop);
    }
  }

  /**
   * maxinterface never decreases, a deleted interface stays deleted and unchanged, and
   * no message for an interface that was already deleted produces a notification.
   */
  lemma {:induction false} DrainKeepsTombstones(s: RegState, buf: seq<byte>, offs: seq<int>,
                                                ifname: nat -> Option<string>, ntop: (byte, seq<byte>) -> string)
    requires WellFormed(s) && Handleable(buf, offs)
    ensures var o := Drain(s, buf, offs, ifname, ntop);
      && s.maxinterface <= o.state.maxinterface
      && (forall i :: 0 <= i <= s.maxinterface && s.ifaces[i].deleted ==> o.state.ifaces[i] == s.ifaces[i])
      && (forall k :: (0 <= k < |o.decisions| && IfIndex(buf, offs[k]) <= s.maxinterface &&
                       s.ifaces[IfIndex(buf, offs[k])].deleted) ==> o.decisions[k] == NoNotify)
    decreases |offs|
  {
    var o := Drain(s, buf, offs, ifname, ntop);
    DrainResult(s, buf, offs, ifname, ntop);
    if offs != [] && !Terminal(buf, offs[0]) {
      var m := Decode(buf, offs[0]);
      var lookup := ifname(IfIndex(buf, offs[0]));
      var r := Step(s, m, lookup, ntop);
      StepKeepsTombstones(s, m, lookup, ntop);
      DrainKeepsTombstones(r.state, buf, offs[1..], ifname, ntop);
      forall k | 0 <= k < |o.decisions| && IfIndex(buf, offs[k]) <= s.maxinterface &&
                 s.ifaces[IfIndex(buf, offs[k])].deleted
        ensures o.decisions[k] == NoNotify
      {
        if k == 0 {
          StepIgnoresDeleted(s, m, lookup, ntop);
        } else {
          assert offs[1..][k - 1] == offs[k];
        }
      }
    }
  }

  /** One turn of the walk: a message that is not terminal goes through Step, then the walk goes on after it. */
  lemma DrainStep(s: RegState, buf: seq<byte>, h: int, status: int,
                  ifname: nat -> Option<string>, ntop: (byte, seq<byte>) -> string)
    requires WellFormed(s) && NlmsgOk(buf, h, status) && !Terminal(buf, h)
    requires Handleable(buf, Records(buf, h, status))
    ensures var step := Align4(MsgLen(buf, h));
      var r := Step(s, Decode(buf, h), ifname(IfIndex(buf, h)), ntop);
      && Records(buf, h, status) == [h] + Records(buf, h + step, status - step)
      && Records(buf, h, status)[1..] == Records(buf, h + step, status - step)
      && Handleable(buf, Records(buf, h + step, status - step))
      && var rest := Drain(r.state, buf, Records(buf, h + step, status - step), ifname, ntop);
      Drain(s, buf, Records(buf, h, status), ifname, ntop) == Outcome(rest.state, rest.ret, [r.decision] + rest.decisions)
  {
    var step := Align4(MsgLen(buf, h));
    var offs := Records(buf, h, status);
    var tail := Records(buf, h + step, status - step);
    assert offs == [h] + tail;
    assert offs[0] == h && offs[1..] == tail;
  }

  /** The decisions taken so far followed by those of the walk still to come. */
  function Joined(ds: seq<Decision>, o: Outcome): Outcome {
    Outcome(o.state, o.ret, ds + o.decisions)
  }

  /**
   * One pass of the loop body for a message that is not terminal: msg_handler on the
   * message at h, then NLMSG_NEXT. `offs` are the positions still to visit and `total`
   * the outcome of the whole walk, `ds` the decisions taken before this message.
   */
  method Turn(reg: Registry, buf: seq<byte>, h: int, status: int,
              ifname: nat -> Option<string>, ntop: (byte, seq<byte>) -> string,
              ghost offs: seq<int>, ghost total: Outcome, ghost ds: seq<Decision>)
    returns (ret: int, d: Decision, h': int, status': int, ghost offs': seq<int>)
    requires reg.Valid() && NlmsgOk(buf, h, status) && !Terminal(buf, h)
    requires offs == Records(buf, h, status) && Handleable(buf, offs)
    requires total == Joined(ds, Drain(reg.Model, buf, offs, ifname, ntop))
    modifies reg.Repr
    ensures reg.Valid() && fresh(reg.Repr - old(reg.Repr)) && ret == 0
    ensures h' == h + Align4(MsgLen(buf, h)) && status' == status - Align4(MsgLen(buf, h))
    ensures offs' == Records(buf, h', status') && Handleable(buf, offs')
    ensures total == Joined(ds + [d], Drain(reg.Model, buf, offs', ifname, ntop))
  {
    ghost var s := reg.Model;
    ghost var r := Step(s, Decode(buf, h), ifname(IfIndex(buf, h)), ntop);
    DrainStep(s, buf, h, status, ifname, ntop);
    ret, d := reg.Handle(buf, h, ifname, ntop);
    assert reg.Model == r.state && d == r.decision;
    var step := Align4(MsgLen(buf, h));
    h', status' := h + step, status - step;
    offs' := offs[1..];
    assert offs' == Records(buf, h', status') && Handleable(buf, offs');
    ghost var o := Drain(reg.Model, buf, offs', ifname, ntop);
    assert ds + ([d] + o.decisions) == (ds + [d]) + o.decisions;
  }

  /** A terminal message ends the walk at once: 0 for NLMSG_DONE, -1 for NLMSG_ERROR. */
  lemma DrainStops(s: RegState, buf: seq<byte>, offs: seq<int>,
                   ifname: nat -> Option<string>, ntop: (byte, seq<byte>) -> string)
    requires WellFormed(s) && Handleable(buf, offs)
    requires offs == [] || Terminal(buf, offs[0])
    ensures Drain(s, buf, offs, ifname, ntop) ==
      Outcome(s, if offs != [] && MsgType(buf, offs[0]) == NLMSG_ERROR then -1 else 0, [])
  {
  }

  /**
   * The loop of read_event over the received bytes buf: from the start of buf with all
   * of it left, while NLMSG_OK holds on the remaining length cast to unsigned, as the
   * code writes it, stepping by NLMSG_NEXT, driving reg.
   */
  method Walk(reg: Registry, buf: seq<byte>, ifname: nat -> Option<string>, ntop: (byte, seq<byte>) -> string)
    returns (ret: int, ds: seq<Decision>)
    requires reg.Valid() && Handleable(buf, Records(buf, 0, |buf|))
    modifies reg.Repr
    ensures reg.Valid() && fresh(reg.Repr - old(reg.Repr))
    ensures Outcome(reg.Model, ret, ds) == Drain(old(reg.Model), buf, Records(buf, 0, |buf|), ifname, ntop)
  {
    ret := 0;
    ds := [];
    var h: int := 0;
    var status: int := |buf|;
    ghost var offs := Records(buf, h, status);
    ghost var total := Drain(reg.Model, buf, offs, ifname, ntop);
    assert total == Joined(ds, total);
    while NlmsgOkAsWritten(buf, h, status)
      invariant 0 <= h && h + status == |buf|
      invariant reg.Valid() && fresh(reg.Repr - old(reg.Repr))
      invariant ret == 0
      invariant offs == Records(buf, h, status) && Handleable(buf, offs)
      invariant total == Joined(ds, Drain(reg.Model, buf, offs, ifname, ntop))
      decreases status
    {
      // inside the received bytes the unsigned guard is the signed NLMSG_OK
      GuardsAgreeInside(buf, h, status);
      var typ := MsgType(buf, h);
      if typ == NLMSG_DONE || typ == NLMSG_ERROR {
        DrainStops(reg.Model, buf, offs, ifname, ntop);
        ret := if typ == NLMSG_ERROR then -1 else 0;
        return;
      }
      var d;
      ret, d, h, status, offs := Turn(reg, buf, h, status, ifname, ntop, offs, total, ds);
      ds := ds + [d];
    }
    GuardsAgreeInside(buf, h, status);
    DrainStops(reg.Model, buf, offs, ifname, ntop);
  }

  /**
   * read_event on what recvmsg produced, with reg holding the globals of msg_handler:
   * returns the value read_event returns and the decisions msg_handler took, in order.
   */
  method ReadEvent(reg: Registry, recv: Received, ifname: nat -> Option<string>,
                   ntop: (byte, seq<byte>) -> string)
    returns (ret: int, ds: seq<Decision>)
    requires reg.Valid()
    requires recv.RecvError? ==> recv.status < 0
    requires recv.Data? ==> |recv.buf| <= BUFSIZE && Handleable(recv.buf, Records(recv.buf, 0, |recv.buf|))
    modifies reg.Repr
    ensures reg.Valid() && fresh(reg.Repr - old(reg.Repr))
    ensures !recv.Data? ==>
      (ret == (if recv.WouldBlock? then 0 else recv.status) && ds == [] && reg.Model == old(reg.Model))
    ensures recv.Data? ==>
      Outcome(reg.Model, ret, ds) == Drain(old(reg.Model), recv.buf, Records(recv.buf, 0, |recv.buf|), ifname, ntop)
  {
    match recv {
      case WouldBlock =>
        // non-blocking socket: everything has been read
        ret, ds := 0, [];
      case RecvError(status) =>
        ret, ds := status, [];
      case Data(buf) =>
        ret, ds := Walk(reg, buf, ifname, ntop);
    }
  }
}
