/**
 * The per-interface registry of msg_handler: the globals maxinterface, ifnames and
 * addresses_seen, grown on demand, and the decision taken for each netlink message.
 *
 * Step is the specification: a pure function from the registry state and one decoded
 * message to the new state and the notification decision. The class Registry is the
 * imperative code (growth loop, list updates in place), proved against Step.
 */
module Registry {
  import opened Wrappers
  import opened Bytes
  import opened AddressList
  import opened Framing
  import opened Text

  const UNKNOWN_NAME: string := "(unknown)"

  const ICON_NETWORK_ADDRESS: string := "netlink-notify-address"
  const ICON_NETWORK_UP: string := "netlink-notify-up"
  const ICON_NETWORK_DOWN: string := "netlink-notify-down"
  const ICON_NETWORK_AWAY: string := "netlink-notify-away"

  /** What is kept for one interface index: ifnames[i] and the list addresses_seen[i]. */
  datatype Iface = Iface(name: Option<string>, deleted: bool, chain: Chain)

  /** A slot as the growth loop initialises it: name NULL, not deleted, empty list. */
  const NewIface := Iface(None, false, [])

  /** maxinterface and the slots 0..maxinterface; slot 0 is never addressed. */
  datatype RegState = RegState(maxinterface: nat, ifaces: seq<Iface>)

  predicate WellFormed(s: RegState) {
    |s.ifaces| == s.maxinterface + 1
  }

  /** What msg_handler hands to the notification daemon for one message, if anything. */
  datatype Decision =
    | NoNotify
    | NotifyLink(name: string, flags: nat)
    | NotifyAddr(name: string, family: byte, address: string, prefix: byte)
    | NotifyAway(name: string)

  datatype StepResult = StepResult(state: RegState, decision: Decision)

  /** The message body (notifystr) of a decision. */
  function Body(d: Decision): string
    requires !d.NoNotify?
  {
    match d
    case NotifyLink(name, flags) => NewStrLink(TEXT_NEWLINK, name, flags)
    case NotifyAddr(name, family, address, prefix) => NewStrAddr(TEXT_NEWADDR, name, family, address, prefix)
    case NotifyAway(name) => NewStrAway(TEXT_DELLINK, name)
  }

  /** The icon of a decision. */
  function Icon(d: Decision): string
    requires !d.NoNotify?
  {
    match d
    case NotifyLink(_, flags) => if Connected(flags) then ICON_NETWORK_UP else ICON_NETWORK_DOWN
    case NotifyAddr(_, _, _, _) => ICON_NETWORK_ADDRESS
    case NotifyAway(_) => ICON_NETWORK_AWAY
  }

  /** The growth loop: slots maxinterface+1 .. n are appended one at a time. */
  function Grow(s: RegState, n: nat): (r: RegState)
    requires WellFormed(s)
    ensures WellFormed(r)
    ensures r.maxinterface == if s.maxinterface < n then n else s.maxinterface
    decreases n - s.maxinterface
  {
    if s.maxinterface < n then Grow(RegState(s.maxinterface + 1, s.ifaces + [NewIface]), n) else s
  }

  /**
   * Growth keeps every slot up to the old maximum and initialises every slot from the
   * old maximum + 1 up to n.
   */
  lemma {:induction false} GrowInitialises(s: RegState, n: nat)
    requires WellFormed(s)
    ensures forall i :: 0 <= i <= s.maxinterface ==> Grow(s, n).ifaces[i] == s.ifaces[i]
    ensures forall i :: s.maxinterface < i <= n ==> Grow(s, n).ifaces[i] == NewIface
    decreases n - s.maxinterface
  {
    if s.maxinterface < n {
      var t := RegState(s.maxinterface + 1, s.ifaces + [NewIface]);
      GrowInitialises(t, n);
      forall i | 0 <= i <= s.maxinterface ensures Grow(s, n).ifaces[i] == s.ifaces[i] {
        assert t.ifaces[i] == s.ifaces[i];
      }
      assert t.ifaces[s.maxinterface + 1] == NewIface;
    }
  }

  /** The stored name, or "(unknown)" for none, replaced by the looked-up name if any. */
  function RefreshName(stored: Option<string>, lookup: Option<string>): string {
    match lookup
    case Some(name) => name
    case None => stored.GetOr(UNKNOWN_NAME)
  }

  /** The address payload the attribute loop settles on: none unless the scope is universe. */
  function Selected(m: Message): Option<seq<byte>> {
    if m.scope == RT_SCOPE_UNIVERSE then m.address else None
  }

  /** The switch on nlmsg_type for an interface that is tracked and not deleted. */
  function Dispatch(i: Iface, name: string, m: Message, ntop: (byte, seq<byte>) -> string): (Iface, Decision) {
    if m.typ == RTM_NEWADDR then
      match Selected(m)
      case None => (i, NoNotify)
      case Some(raw) =>
        var text := ntop(m.family, raw);
        if Listed(i.chain, text, m.prefixlen) then (i, NoNotify)
        else (i.(chain := i.chain + [Entry(text, m.prefixlen)]), NotifyAddr(name, m.family, text, m.prefixlen))
    else if m.typ == RTM_DELADDR then
      match Selected(m)
      case None => (i, NoNotify)
      case Some(raw) => (i.(chain := Blanked(i.chain, ntop(m.family, raw), m.prefixlen)), NoNotify)
    else if m.typ == RTM_NEWLINK then
      (i.(chain := if Connected(m.flags) then i.chain else []), NotifyLink(name, m.flags))
    else if m.typ == RTM_DELLINK then
      (Iface(None, true, []), NotifyAway(name))
    else
      (i, NoNotify)
  }

  /** Dispatch changes only the address list, except that RTM_DELLINK tombstones the slot. */
  lemma DispatchShape(i: Iface, name: string, m: Message, ntop: (byte, seq<byte>) -> string)
    ensures var out := Dispatch(i, name, m, ntop);
      out.0 == if m.typ == RTM_DELLINK then Iface(None, true, []) else i.(chain := out.0.chain)
  {
  }

  /**
   * msg_handler on one message: grow the tables up to the message's index, ignore a
   * deleted interface, refresh the name, then dispatch on the message type. `lookup` is
   * what if_indextoname returns for the index, `ntop` stands for inet_ntop.
   */
  function Step(s: RegState, m: Message, lookup: Option<string>, ntop: (byte, seq<byte>) -> string): (r: StepResult)
    requires WellFormed(s) && m.index >= 1
    ensures WellFormed(r.state)
  {
    var n := m.index;
    if n <= s.maxinterface && s.ifaces[n].deleted then
      StepResult(s, NoNotify)
    else
      var g := Grow(s, n);
      var name := RefreshName(g.ifaces[n].name, lookup);
      var out := Dispatch(g.ifaces[n].(name := Some(name)), name, m, ntop);
      StepResult(RegState(g.maxinterface, g.ifaces[n := out.0]), out.1)
  }

  // ---------------------------------------------------------------------------
  // Properties of Step

  /** The slot a message lands on before dispatch: the stored one, or a freshly grown one. */
  function Prior(s: RegState, n: nat): Iface
    requires WellFormed(s)
  {
    if n <= s.maxinterface then s.ifaces[n] else NewIface
  }

  /** Step leaves every other slot alone and grows the table to the message's index. */
  lemma StepFrame(s: RegState, m: Message, lookup: Option<string>, ntop: (byte, seq<byte>) -> string)
    requires WellFormed(s) && m.index >= 1
    ensures var r := Step(s, m, lookup, ntop).state;
      && r.maxinterface == (if s.maxinterface < m.index then m.index else s.maxinterface)
      && (forall i :: 0 <= i <= s.maxinterface && i != m.index ==> r.ifaces[i] == s.ifaces[i])
      && (forall i :: s.maxinterface < i < m.index ==> r.ifaces[i] == NewIface)
  {
    GrowInitialises(s, m.index);
  }

  /** An event for a tracked index whose deleted flag is set changes nothing and notifies nothing. */
  lemma StepIgnoresDeleted(s: RegState, m: Message, lookup: Option<string>, ntop: (byte, seq<byte>) -> string)
    requires WellFormed(s) && m.index >= 1
    requires m.index <= s.maxinterface && s.ifaces[m.index].deleted
    ensures Step(s, m, lookup, ntop) == StepResult(s, NoNotify)
  {
  }

  /** For a live interface, the slot after Step is the dispatch of its prior slot under the refreshed name. */
  lemma StepAtIndex(s: RegState, m: Message, lookup: Option<string>, ntop: (byte, seq<byte>) -> string)
    requires WellFormed(s) && m.index >= 1 && !Prior(s, m.index).deleted
    ensures var p := Prior(s, m.index);
      var name := RefreshName(p.name, lookup);
      var out := Dispatch(p.(name := Some(name)), name, m, ntop);
      Step(s, m, lookup, ntop).state.ifaces[m.index] == out.0 && Step(s, m, lookup, ntop).decision == out.1
  {
    GrowInitialises(s, m.index);
  }

  /**
   * RTM_NEWADDR: only the selected address counts; a known pair changes nothing and is
   * not reported, a new pair is appended and reported.
   */
  lemma NewAddrDecision(s: RegState, m: Message, lookup: Option<string>, ntop: (byte, seq<byte>) -> string)
    requires WellFormed(s) && m.index >= 1 && !Prior(s, m.index).deleted
    requires m.typ == RTM_NEWADDR
    ensures var p := Prior(s, m.index);
      var name := RefreshName(p.name, lookup);
      var r := Step(s, m, lookup, ntop);
      && r.state.ifaces[m.index].name == Some(name)
      && !r.state.ifaces[m.index].deleted
      && (Selected(m).None? ==> r.decision == NoNotify && r.state.ifaces[m.index].chain == p.chain)
      && (Selected(m).Some? ==>
            var text := ntop(m.family, Selected(m).value);
            if Listed(p.chain, text, m.prefixlen) then
              r.decision == NoNotify && r.state.ifaces[m.index].chain == p.chain
            else
              r.decision == NotifyAddr(name, m.family, text, m.prefixlen) &&
              r.state.ifaces[m.index].chain == p.chain + [Entry(text, m.prefixlen)])
  {
    StepAtIndex(s, m, lookup, ntop);
  }

  /** RTM_DELADDR: the selected pair is blanked and nothing is ever reported. */
  lemma DelAddrDecision(s: RegState, m: Message, lookup: Option<string>, ntop: (byte, seq<byte>) -> string)
    requires WellFormed(s) && m.index >= 1 && !Prior(s, m.index).deleted
    requires m.typ == RTM_DELADDR
    ensures var p := Prior(s, m.index);
      var r := Step(s, m, lookup, ntop);
      && r.decision == NoNotify
      && !r.state.ifaces[m.index].deleted
      && r.state.ifaces[m.index].chain ==
           (if Selected(m).Some? then Blanked(p.chain, ntop(m.family, Selected(m).value), m.prefixlen) else p.chain)
  {
    StepAtIndex(s, m, lookup, ntop);
  }

  /**
   * RTM_NEWLINK: always reported, "up" exactly when IFF_LOWER_UP is set; the address
   * list is cleared exactly when the bit is clear.
   */
  lemma NewLinkDecision(s: RegState, m: Message, lookup: Option<string>, ntop: (byte, seq<byte>) -> string)
    requires WellFormed(s) && m.index >= 1 && !Prior(s, m.index).deleted
    requires m.typ == RTM_NEWLINK
    ensures var p := Prior(s, m.index);
      var r := Step(s, m, lookup, ntop);
      && r.decision == NotifyLink(RefreshName(p.name, lookup), m.flags)
      && !r.state.ifaces[m.index].deleted
      && (Connected(m.flags) ==> r.state.ifaces[m.index].chain == p.chain)
      && (!Connected(m.flags) ==> r.state.ifaces[m.index].chain == [])
  {
    StepAtIndex(s, m, lookup, ntop);
  }

  /** RTM_DELLINK: the interface is tombstoned, its list cleared, and its removal reported. */
  lemma DelLinkDecision(s: RegState, m: Message, lookup: Option<string>, ntop: (byte, seq<byte>) -> string)
    requires WellFormed(s) && m.index >= 1 && !Prior(s, m.index).deleted
    requires m.typ == RTM_DELLINK
    ensures var p := Prior(s, m.index);
      var r := Step(s, m, lookup, ntop);
      && r.decision == NotifyAway(RefreshName(p.name, lookup))
      && r.state.ifaces[m.index] == Iface(None, true, [])
  {
    StepAtIndex(s, m, lookup, ntop);
  }

  /** Route messages and unknown types report nothing and keep the address list. */
  lemma OtherTypesIgnored(s: RegState, m: Message, lookup: Option<string>, ntop: (byte, seq<byte>) -> string)
    requires WellFormed(s) && m.index >= 1 && !Prior(s, m.index).deleted
    requires m.typ !in {RTM_NEWADDR, RTM_DELADDR, RTM_NEWLINK, RTM_DELLINK}
    ensures var p := Prior(s, m.index);
      var r := Step(s, m, lookup, ntop);
      && r.decision == NoNotify
      && r.state.ifaces[m.index] == p.(name := Some(RefreshName(p.name, lookup)))
  {
    StepAtIndex(s, m, lookup, ntop);
  }

  /** The same RTM_NEWADDR twice: the second one changes nothing and is not reported. */
  lemma NewAddrIdempotent(s: RegState, m: Message, lookup: Option<string>, ntop: (byte, seq<byte>) -> string)
    requires WellFormed(s) && m.index >= 1 && m.typ == RTM_NEWADDR
    ensures var r1 := Step(s, m, lookup, ntop);
      var r2 := Step(r1.state, m, lookup, ntop);
      r2 == StepResult(r1.state, NoNotify)
  {
    var n := m.index;
    var r1 := Step(s, m, lookup, ntop);
    if Prior(s, n).deleted {
      StepIgnoresDeleted(s, m, lookup, ntop);
    } else {
      NewAddrDecision(s, m, lookup, ntop);
      StepFrame(s, m, lookup, ntop);
      assert Prior(r1.state, n) == r1.state.ifaces[n];
      NewAddrDecision(r1.state, m, lookup, ntop);
      StepAtIndex(r1.state, m, lookup, ntop);
      var r2 := Step(r1.state, m, lookup, ntop);
      if Selected(m).Some? {
        var text := ntop(m.family, Selected(m).value);
        assert Listed(r1.state.ifaces[n].chain, text, m.prefixlen) by {
          var c := r1.state.ifaces[n].chain;
          if !Listed(Prior(s, n).chain, text, m.prefixlen) {
            assert c[|c| - 1] == Entry(text, m.prefixlen);
          }
        }
      }
      assert r2.state.ifaces == r1.state.ifaces;
    }
  }

  /** After a link-down event, an address seen before is new again and is reported. */
  lemma ReAddAfterDown(s: RegState, down: Message, add: Message, lookup: Option<string>, ntop: (byte, seq<byte>) -> string)
    requires WellFormed(s) && down.index >= 1 && !Prior(s, down.index).deleted
    requires down.typ == RTM_NEWLINK && !Connected(down.flags)
    requires add.typ == RTM_NEWADDR && add.index == down.index && Selected(add).Some?
    ensures Step(Step(s, down, lookup, ntop).state, add, lookup, ntop).decision.NotifyAddr?
  {
    var r1 := Step(s, down, lookup, ntop);
    NewLinkDecision(s, down, lookup, ntop);
    StepFrame(s, down, lookup, ntop);
    assert Prior(r1.state, add.index) == r1.state.ifaces[add.index];
    NewAddrDecision(r1.state, add, lookup, ntop);
  }

  /** Every interface's address list is free of duplicate pairs. */
  predicate AllUnique(s: RegState) {
    forall i :: 0 <= i < |s.ifaces| ==> Unique(s.ifaces[i].chain)
  }

  /** Step keeps every address list free of duplicate pairs. */
  lemma StepKeepsUnique(s: RegState, m: Message, lookup: Option<string>, ntop: (byte, seq<byte>) -> string)
    requires WellFormed(s) && m.index >= 1 && AllUnique(s)
    ensures AllUnique(Step(s, m, lookup, ntop).state)
  {
    var n := m.index;
    var r := Step(s, m, lookup, ntop).state;
    if !(n <= s.maxinterface && s.ifaces[n].deleted) {
      StepFrame(s, m, lookup, ntop);
      StepAtIndex(s, m, lookup, ntop);
      var p := Prior(s, n);
      assert Unique(p.chain);
      if m.typ == RTM_NEWADDR && Selected(m).Some? {
        var text := ntop(m.family, Selected(m).value);
        if !Listed(p.chain, text, m.prefixlen) {
          AppendKeepsUnique(p.chain, text, m.prefixlen);
        }
      } else if m.typ == RTM_DELADDR && Selected(m).Some? {
        BlankKeepsUnique(p.chain, ntop(m.family, Selected(m).value), m.prefixlen);
      }
      forall i | 0 <= i < |r.ifaces| ensures Unique(r.ifaces[i].chain) {
        if i != n && i > s.maxinterface {
          assert r.ifaces[i] == NewIface;
        }
      }
    }
  }

  /** Step never lowers maxinterface and never changes a tombstoned slot. */
  lemma StepKeepsTombstones(s: RegState, m: Message, lookup: Option<string>, ntop: (byte, seq<byte>) -> string)
    requires WellFormed(s) && m.index >= 1
    ensures var r := Step(s, m, lookup, ntop).state;
      && s.maxinterface <= r.maxinterface
      && forall i :: 0 <= i <= s.maxinterface && s.ifaces[i].deleted ==> r.ifaces[i] == s.ifaces[i]
  {
    StepFrame(s, m, lookup, ntop);
  }

  // ---------------------------------------------------------------------------
  // The imperative registry

  class Registry {
    var maxinterface: nat
    var names: seq<Option<string>>     // ifnames[i]->name
    var deleted: seq<bool>             // ifnames[i]->deleted
    var chains: seq<AddressChain>      // addresses_seen[i]
    ghost var Model: RegState          // the registry as a value
    ghost var Repr: set<object>

    /**
     * One name, one deleted flag and one address list per slot 0..maxinterface, the
     * lists distinct objects, and Model the value they spell.
     */
    ghost predicate Valid()
      reads this, Repr
    {
      && this in Repr
      && |names| == |deleted| == |chains| == maxinterface + 1
      && (forall i :: 0 <= i < |chains| ==> chains[i] in Repr)
      && (forall i, j :: 0 <= i < j < |chains| ==> chains[i] != chains[j])
      && Model.maxinterface == maxinterface && |Model.ifaces| == |chains|
      && (forall i :: 0 <= i < |chains| ==> Model.ifaces[i] == Iface(names[i], deleted[i], chains[i].slots))
    }

    /** The globals before the first message: maxinterface 0, nothing tracked. */
    constructor ()
      ensures Valid() && fresh(Repr)
      ensures Model == RegState(0, [NewIface])
    {
      var c := new AddressChain();
      maxinterface := 0;
      names := [None];
      deleted := [false];
      chains := [c];
      Model := RegState(0, [NewIface]);
      Repr := {this, c};
    }

    /**
     * The growth block of msg_handler: while maxinterface is below n, step it and
     * initialise that slot (name NULL, not deleted, empty address list).
     */
    method Extend(n: nat)
      requires Valid()
      modifies this
      ensures Valid() && fresh(Repr - old(Repr))
      ensures Model == Grow(old(Model), n)
    {
      while maxinterface < n
        invariant Valid() && fresh(Repr - old(Repr))
        invariant WellFormed(Model) && Grow(Model, n) == Grow(old(Model), n)
        decreases n - maxinterface
      {
        var c := new AddressChain();
        maxinterface := maxinterface + 1;
        names := names + [None];
        deleted := deleted + [false];
        chains := chains + [c];
        Model := RegState(maxinterface, Model.ifaces + [NewIface]);
        Repr := Repr + {c};
      }
    }

    /**
     * The name handling of msg_handler: a NULL name becomes "(unknown)", then
     * if_indextoname overwrites it when the lookup succeeds.
     */
    method StoreName(n: nat, lookup: Option<string>) returns (name: string)
      requires Valid() && n <= maxinterface
      modifies this
      ensures Valid() && Repr == old(Repr) && chains == old(chains) && deleted == old(deleted)
      ensures name == RefreshName(old(names[n]), lookup) && names[n] == Some(name)
      ensures Model == old(Model).(ifaces := old(Model).ifaces[n := old(Model).ifaces[n].(name := Some(name))])
    {
      if names[n].None? {
        names := names[n := Some(UNKNOWN_NAME)];
      }
      if lookup.Some? {
        names := names[n := lookup];
      }
      name := names[n].value;
      Model := Model.(ifaces := Model.ifaces[n := Model.ifaces[n].(name := Some(name))]);
    }

    /**
     * msg_handler on the message at position h of buf, without the notification calls:
     * returns 0 and the decision that would be shown. `ifname` stands for
     * if_indextoname and `ntop` for inet_ntop.
     */
    method Handle(buf: seq<byte>, h: int, ifname: nat -> Option<string>, ntop: (byte, seq<byte>) -> string)
      returns (r: int, d: Decision)
      requires Valid() && IfIndex(buf, h) >= 1
      modifies Repr
      ensures Valid() && fresh(Repr - old(Repr))
      ensures r == 0
      ensures StepResult(Model, d) == Step(old(Model), Decode(buf, h), ifname(IfIndex(buf, h)), ntop)
    {
      r := 0;
      d := NoNotify;
      var n := IfIndex(buf, h);
      if maxinterface < n {
        Extend(n);
        GrowInitialises(old(Model), n);
      } else if deleted[n] {
        return;
      }
      assert Model == Grow(old(Model), n) && !deleted[n];

      var name := StoreName(n, ifname(n));
      d := Commit(n, name, buf, h, ntop);
    }

    /**
     * The switch on nlmsg_type for a live interface whose refreshed name is stored:
     * the address list of slot n is updated, and RTM_DELLINK also clears the name and
     * sets the deleted flag.
     */
    method Commit(n: nat, name: string, buf: seq<byte>, h: int, ntop: (byte, seq<byte>) -> string)
      returns (d: Decision)
      requires Valid() && n <= maxinterface && names[n] == Some(name) && !deleted[n]
      modifies Repr
      ensures Valid() && Repr == old(Repr)
      ensures var out := Dispatch(old(Model).ifaces[n], name, Decode(buf, h), ntop);
        Model == old(Model).(ifaces := old(Model).ifaces[n := out.0]) && d == out.1
    {
      ghost var out := Dispatch(Model.ifaces[n], name, Decode(buf, h), ntop);
      var chain := chains[n];
      d := Apply(chain, name, buf, h, ntop);
      if MsgType(buf, h) == RTM_DELLINK {
        // marking the interface deleted makes later events for it be ignored
        names := names[n := None];
        deleted := deleted[n := true];
      }
      DispatchShape(old(Model).ifaces[n], name, Decode(buf, h), ntop);
      Model := Model.(ifaces := Model.ifaces[n := out.0]);
      assert Iface(names[n], deleted[n], chain.slots) == out.0;
      forall i | 0 <= i < |chains| && i != n ensures Model.ifaces[i] == Iface(names[i], deleted[i], chains[i].slots) {
        assert chains[i] != chain;
      }
    }
  }

  /**
   * The switch on nlmsg_type in msg_handler, as it acts on the address list of the
   * message's interface (`name` is its refreshed name): returns the decision.
   */
  method Apply(chain: AddressChain, name: string, buf: seq<byte>, h: int, ntop: (byte, seq<byte>) -> string)
    returns (d: Decision)
    modifies chain
    ensures var out := Dispatch(Iface(Some(name), false, old(chain.slots)), name, Decode(buf, h), ntop);
      chain.slots == out.0.chain && d == out.1
  {
    d := NoNotify;
    var data := h + NLMSG_HDRLEN;
    var typ := MsgType(buf, h);
    if typ == RTM_NEWADDR {
      var found := FindAddress(buf, data + IFADDRMSG_LEN, AttrsLen(buf, h), ByteAt(buf, data + 3));
      if found.Some? {
        var family, prefix := ByteAt(buf, data), ByteAt(buf, data + 1);
        var text := ntop(family, found.value);
        // already reported?
        var known := chain.Match(text, prefix);
        if known == 0 {
          chain.Add(text, prefix);
          d := NotifyAddr(name, family, text, prefix);
        }
      }
    } else if typ == RTM_DELADDR {
      var found := FindAddress(buf, data + IFADDRMSG_LEN, AttrsLen(buf, h), ByteAt(buf, data + 3));
      if found.Some? {
        var family, prefix := ByteAt(buf, data), ByteAt(buf, data + 1);
        chain.Remove(ntop(family, found.value), prefix);
      }
    } else if typ == RTM_NEWROUTE || typ == RTM_DELROUTE {
      // ignored
    } else if typ == RTM_NEWLINK {
      var flags := U32(buf, data + 8);
      d := NotifyLink(name, flags);
      // the address list is released only when the interface goes down
      if !Connected(flags) {
        chain.Free();
      }
    } else if typ == RTM_DELLINK {
      d := NotifyAway(name);
      chain.Free();
    }
  }
}
