/**
 An IP router (router.hh and .cc): longest-prefix matching (section 5.2.4.3 of
 RFC 1812) and forwarding between its interfaces.
 */
module Routers {
  import opened Words
  import opened Ipv4Codec
  import opened NetworkInterfaces

  datatype Route = Route(prefix: U32, length: Byte, nextHop: U32, interface: nat)

  // ---------------------------------------------------------------- matching

  /** `x >> i`, also for a shift by the full width. */
  function ShiftRight(x: nat, i: nat): nat {
    if i == 0 then x else ShiftRight(x, i - 1) / 2
  }

  function BitAt(x: nat, k: nat): nat {
    ShiftRight(x, k) % 2
  }

  /** The `length` high-order bits of two 32-bit addresses are the same. */
  predicate Agree(x: U32, y: U32, length: nat)
    requires length <= 32
  {
    forall k :: 32 - length <= k < 32 ==> BitAt(x, k) == BitAt(y, k)
  }

  /** The route applies: all its prefix bits match. A length above 32 never does. */
  predicate Matches(r: Route, dst: U32) {
    r.length <= 32 && Agree(dst, r.prefix, r.length)
  }

  lemma {:induction false} ShiftBound(x: nat, i: nat, j: nat)
    requires x < Pow2(i + j)
    ensures ShiftRight(x, i) < Pow2(j)
    decreases i
  {
    if i > 0 {
      ShiftBound(x, i - 1, j + 1);
    }
  }

  lemma AllShiftedOut(x: U32)
    ensures ShiftRight(x, 32) == 0
  {
    assert Pow2(32) == 0x1_0000_0000 by {
      assert Pow2(8) == 256 by { assert Pow2(4) == 16; }
      Pow2Add(8, 8);
      Pow2Add(16, 16);
    }
    ShiftBound(x, 32, 0);
  }

  lemma {:induction false} Pow2Add(m: nat, n: nat)
    ensures Pow2(m + n) == Pow2(m) * Pow2(n)
    decreases m
  {
    if m > 0 {
      Pow2Add(m - 1, n);
      assert Pow2(m + n) == 2 * Pow2(m - 1 + n);
    }
  }

  /** Equal after a shift by `i` means equal in every bit from `i` up. */
  lemma {:induction false} ShiftAgree(x: U32, y: U32, i: nat)
    requires i <= 32
    ensures ShiftRight(x, i) == ShiftRight(y, i) <==> Agree(x, y, 32 - i)
    decreases 32 - i
  {
    if i == 32 {
      AllShiftedOut(x);
      AllShiftedOut(y);
    } else {
      ShiftAgree(x, y, i + 1);
      assert ShiftRight(x, i + 1) == ShiftRight(x, i) / 2 && ShiftRight(y, i + 1) == ShiftRight(y, i) / 2;
      if Agree(x, y, 32 - i) {
        assert BitAt(x, i) == BitAt(y, i);
        assert Agree(x, y, 32 - (i + 1));
      }
      if ShiftRight(x, i) == ShiftRight(y, i) {
        assert BitAt(x, i) == BitAt(y, i);
      }
    }
  }

  /** The inner loop: the smallest shift that makes both equal; `matched` is compared with the prefix length. */
  method MatchLength(dst: U32, prefix: U32) returns (matched: nat)
    ensures matched <= 32
    ensures forall length :: 0 <= length <= 32 ==> (length <= matched <==> Agree(dst, prefix, length))
  {
    hide Agree, ShiftRight;
    matched := 0;
    var i := 0;
    while i <= 32
      invariant 0 <= i <= 33
      invariant forall length :: 33 - i <= length <= 32 ==> !Agree(dst, prefix, length)
    {
      ShiftAgree(dst, prefix, i);
      if ShiftRight(dst, i) == ShiftRight(prefix, i) {
        matched := 32 - i;
        break;
      }
      i := i + 1;
    }
    forall length | 0 <= length <= matched
      ensures Agree(dst, prefix, length)
    {
      if i <= 32 {
        AgreeShorter(dst, prefix, length, matched);
      } else {
        AgreeNothing(dst, prefix);
      }
    }
  }

  lemma AgreeShorter(x: U32, y: U32, short: nat, long: nat)
    requires short <= long <= 32 && Agree(x, y, long)
    ensures Agree(x, y, short)
  {
  }

  lemma AgreeNothing(x: U32, y: U32)
    ensures Agree(x, y, 0)
  {
  }

  // ---------------------------------------------------------------- choosing a route

  /** Route `k` is the one to take: it matches, no match is longer, and none as long was added later. */
  predicate IsBest(table: seq<Route>, dst: U32, k: nat) {
    && k < |table| && Matches(table[k], dst)
    && forall j :: 0 <= j < |table| && Matches(table[j], dst) ==>
         table[j].length <= table[k].length && (k < j ==> table[j].length < table[k].length)
  }

  predicate NoneMatches(table: seq<Route>, dst: U32) {
    forall j :: 0 <= j < |table| ==> !Matches(table[j], dst)
  }

  lemma BestIsUnique(table: seq<Route>, dst: U32, j: nat, k: nat)
    requires IsBest(table, dst, j) && IsBest(table, dst, k)
    ensures j == k
  {
  }

  /** The choice the declarative definition describes. */
  function Best(table: seq<Route>, dst: U32): (k: Option<nat>)
    ensures k.Some? ==> IsBest(table, dst, k.value)
    ensures k.None? ==> NoneMatches(table, dst)
  {
    if table == [] then None
    else
      var n := |table| - 1;
      var k := Best(table[..n], dst);
      if Matches(table[n], dst) && (k.None? || table[n].length >= table[k.value].length) then Some(n) else k
  }

  /** The outer loop over the table. */
  method FindRoute(table: seq<Route>, dst: U32) returns (best: Option<nat>)
    ensures best == Best(table, dst)
  {
    best := None;
    var maxLength := 0;
    var i := 0;
    assert table[..|table|] == table;
    while i < |table|
      invariant 0 <= i <= |table|
      invariant best == Best(table[..i], dst)
      invariant maxLength == if best.Some? then table[best.value].length else 0
    {
      var matched := MatchLength(dst, table[i].prefix);
      assert table[..i + 1][..i] == table[..i];
      assert Matches(table[i], dst) <==> matched >= table[i].length;
      if matched >= table[i].length && table[i].length >= maxLength {
        maxLength := table[i].length;
        best := Some(i);
      }
      i := i + 1;
    }
  }

  // ---------------------------------------------------------------- forwarding

  datatype Forward = Forward(interface: nat, datagram: Datagram, hop: U32)

  /** The datagram as routing leaves it: the time to live is lowered in place unless it has run out. */
  function Lowered(d: Datagram): Datagram {
    if d.header.ttl <= 1 then d else d.(header := d.header.(ttl := d.header.ttl - 1))
  }

  /** What becomes of one datagram; a next hop of zero means the network is directly attached. */
  function Decide(table: seq<Route>, d: Datagram): Option<Forward> {
    if d.header.ttl <= 1 then None
    else
      match Best(table, d.header.dst)
      case None => None
      case Some(k) =>
        Some(Forward(table[k].interface, Lowered(d), if table[k].nextHop == 0 then d.header.dst else table[k].nextHop))
  }

  /**
   A datagram is dropped exactly when its time to live runs out or no route matches; otherwise it is given to the
   interface of the longest matching prefix, the latest of equals, with its time to live lowered by one.
   */
  lemma DecideIsLongestPrefix(table: seq<Route>, d: Datagram, k: nat)
    ensures Decide(table, d).None? <==> d.header.ttl <= 1 || NoneMatches(table, d.header.dst)
    ensures IsBest(table, d.header.dst, k) && Decide(table, d).Some? ==>
              var f := Decide(table, d).value;
              && f.interface == table[k].interface
              && f.hop == (if table[k].nextHop == 0 then d.header.dst else table[k].nextHop)
              && f.datagram.payload == d.payload && f.datagram.header.ttl + 1 == d.header.ttl
              && f.datagram.header.(ttl := d.header.ttl) == d.header
  {
    hide Matches;
    var best := Best(table, d.header.dst);
    if best.Some? && IsBest(table, d.header.dst, k) {
      BestIsUnique(table, d.header.dst, best.value, k);
    }
  }

  /** An interface with the datagrams it has received and not yet routed. */
  datatype AsyncInterface = AsyncInterface(net: Interface, inbox: seq<Datagram>)

  predicate ValidTable(table: seq<Route>, n: nat) {
    forall k :: 0 <= k < |table| ==> table[k].interface < n
  }

  /** The interfaces after a call, and whether it left by an exception. */
  datatype Routed = Routed(ifs: seq<AsyncInterface>, threw: bool)

  function RouteOne(table: seq<Route>, ifs: seq<AsyncInterface>, d: Datagram): (out: Routed)
    requires ValidTable(table, |ifs|)
    ensures |out.ifs| == |ifs|
  {
    match Decide(table, d)
    case None => Routed(ifs, false)
    case Some(f) =>
      var sent := SendDatagram(ifs[f.interface].net, f.datagram, f.hop);
      Routed(ifs[f.interface := ifs[f.interface].(net := sent.net)], sent.threw)
  }

  function WithInbox(ifs: seq<AsyncInterface>, k: nat, inbox: seq<Datagram>): (out: seq<AsyncInterface>)
    requires k < |ifs|
    ensures |out| == |ifs|
  {
    ifs[k := ifs[k].(inbox := inbox)]
  }

  /** The inner loop; an exception leaves the datagram at the front of its inbox, its time to live lowered. */
  function RouteInbox(table: seq<Route>, ifs: seq<AsyncInterface>, k: nat): (out: Routed)
    requires ValidTable(table, |ifs|) && k < |ifs|
    ensures |out.ifs| == |ifs|
    decreases |ifs[k].inbox|
  {
    var inbox := ifs[k].inbox;
    if inbox == [] then Routed(ifs, false)
    else
      var r := RouteOne(table, ifs, inbox[0]);
      if r.threw then Routed(WithInbox(r.ifs, k, [Lowered(inbox[0])] + inbox[1..]), true)
      else RouteInbox(table, WithInbox(r.ifs, k, inbox[1..]), k)
  }

  /** The outer loop, from interface `k` on. */
  function RouteFrom(table: seq<Route>, ifs: seq<AsyncInterface>, k: nat): (out: Routed)
    requires ValidTable(table, |ifs|) && k <= |ifs|
    ensures |out.ifs| == |ifs|
    decreases |ifs| - k
  {
    if k == |ifs| then Routed(ifs, false)
    else
      var r := RouteInbox(table, ifs, k);
      if r.threw then r else RouteFrom(table, r.ifs, k + 1)
  }

  class Router {
    var interfaces: seq<AsyncInterface>
    var table: seq<Route>

    constructor ()
      ensures interfaces == [] && table == []
    {
      interfaces, table := [], [];
    }

    method AddInterface(net: Interface) returns (index: nat)
      modifies this
      ensures table == old(table)
      ensures interfaces == old(interfaces) + [AsyncInterface(net, [])] && index == |old(interfaces)|
    {
      interfaces := interfaces + [AsyncInterface(net, [])];
      index := |interfaces| - 1;
    }

    /** Any interface number is stored; it has to exist only when datagrams are routed. */
    method AddRoute(prefix: U32, length: Byte, nextHop: Option<U32>, interface: nat)
      modifies `table
      ensures table == old(table) + [Route(prefix, length, if nextHop.Some? then nextHop.value else 0, interface)]
    {
      table := table + [Route(prefix, length, if nextHop.Some? then nextHop.value else 0, interface)];
    }

    method RouteOneDatagram(d: Datagram) returns (d': Datagram, threw: bool)
      requires ValidTable(table, |interfaces|)
      modifies `interfaces
      ensures Routed(interfaces, threw) == RouteOne(table, old(interfaces), d) && d' == Lowered(d)
    {
      hide SendDatagram;
      d', threw := d, false;
      if d.header.ttl == 0 || d.header.ttl == 1 {
        return;
      }
      d' := d.(header := d.header.(ttl := d.header.ttl - 1));
      var best := FindRoute(table, d.header.dst);
      if best.Some? {
        var r := table[best.value];
        var hop := if r.nextHop == 0 then d.header.dst else r.nextHop;
        var out := interfaces[r.interface];
        var sent := SendDatagram(out.net, d', hop);
        interfaces := interfaces[r.interface := out.(net := sent.net)];
        threw := sent.threw;
      }
    }

    /** Drain one inbox. */
    method DrainInbox(k: nat) returns (threw: bool)
      requires ValidTable(table, |interfaces|) && k < |interfaces|
      modifies `interfaces
      ensures Routed(interfaces, threw) == RouteInbox(table, old(interfaces), k)
    {
      hide RouteOne, Lowered;
      while interfaces[k].inbox != []
        invariant |interfaces| == |old(interfaces)|
        invariant RouteInbox(table, interfaces, k) == RouteInbox(table, old(interfaces), k)
        decreases |interfaces[k].inbox|
      {
        var inbox := interfaces[k].inbox;
        var front, failed := RouteOneDatagram(inbox[0]);
        if failed {
          interfaces := interfaces[k := interfaces[k].(inbox := [front] + inbox[1..])];
          return true;
        }
        interfaces := interfaces[k := interfaces[k].(inbox := inbox[1..])];
      }
      return false;
    }

    /**
     `route`: the datagrams of all inboxes are decided on in order, up to the first that cannot be sent. All
     inboxes end up empty if and only if there is none; otherwise it stays in front of those not looked at.
     */
    method RouteAll() returns (threw: bool)
      requires ValidTable(table, |interfaces|)
      modifies `interfaces
      ensures |interfaces| == |old(interfaces)|
      ensures var ds := Inboxes(old(interfaces), 0);
              var m := FirstStuck(table, old(interfaces), ds);
              && threw == (m < |ds|)
              && Inboxes(interfaces, 0) == Left(ds, m)
              && forall j :: 0 <= j < |interfaces| ==>
                   interfaces[j].net == SendAll(old(interfaces)[j].net, Outgoing(table, ds[..m], j))
    {
      hide SendAll, Outgoing, RouteInbox, FirstStuck, Left, Inboxes;
      RouteFromExact(table, interfaces, 0);
      var k := 0;
      while k < |interfaces|
        invariant 0 <= k <= |interfaces| == |old(interfaces)|
        invariant RouteFrom(table, interfaces, k) == RouteFrom(table, old(interfaces), 0)
      {
        var failed := DrainInbox(k);
        if failed {
          return true;
        }
        k := k + 1;
      }
      return false;
    }
  }

  // ---------------------------------------------------------------- what routing does

  /** The contents of the inboxes from interface `k` on, in the order they are routed. */
  function Inboxes(ifs: seq<AsyncInterface>, k: nat): seq<Datagram>
    requires k <= |ifs|
    decreases |ifs| - k
  {
    if k == |ifs| then [] else ifs[k].inbox + Inboxes(ifs, k + 1)
  }

  /** Routing the datagram does not throw: it is dropped, or has to wait for ARP, or serializes. */
  predicate Sendable(table: seq<Route>, ifs: seq<AsyncInterface>, d: Datagram)
    requires ValidTable(table, |ifs|)
  {
    match Decide(table, d)
    case None => true
    case Some(f) => ifs[f.interface].net.Fresh(f.hop) ==> Serializes(f.datagram)
  }

  /** How many datagrams come before the first one that cannot be sent. */
  function FirstStuck(table: seq<Route>, ifs: seq<AsyncInterface>, ds: seq<Datagram>): (m: nat)
    requires ValidTable(table, |ifs|)
    ensures m <= |ds|
    ensures forall k :: 0 <= k < m ==> Sendable(table, ifs, ds[k])
    ensures m < |ds| ==> !Sendable(table, ifs, ds[m])
  {
    if ds == [] || !Sendable(table, ifs, ds[0]) then 0 else 1 + FirstStuck(table, ifs, ds[1..])
  }

  /** What stays queued when routing stops at position `m`. */
  function Left(ds: seq<Datagram>, m: nat): seq<Datagram>
    requires m <= |ds|
  {
    if m == |ds| then [] else [Lowered(ds[m])] + ds[m + 1..]
  }

  /** What interface `j` is given to send for one datagram. */
  function Given(table: seq<Route>, d: Datagram, j: nat): seq<(Datagram, U32)> {
    var f := Decide(table, d);
    if f.Some? && f.value.interface == j then [(f.value.datagram, f.value.hop)] else []
  }

  /** What interface `j` is given to send, in order. */
  function Outgoing(table: seq<Route>, ds: seq<Datagram>, j: nat): seq<(Datagram, U32)> {
    if ds == [] then [] else Given(table, ds[0], j) + Outgoing(table, ds[1..], j)
  }

  function SendAll(n: Interface, ds: seq<(Datagram, U32)>): Interface
    decreases |ds|
  {
    if ds == [] then n else SendAll(SendDatagram(n, ds[0].0, ds[0].1).net, ds[1..])
  }

  /** Routing looks at an interface only through what is fresh there, and never changes that. */
  ghost predicate SameFreshness(ifs: seq<AsyncInterface>, ifs': seq<AsyncInterface>) {
    |ifs'| == |ifs| && forall j, hop: U32 :: 0 <= j < |ifs| ==> (ifs'[j].net.Fresh(hop) <==> ifs[j].net.Fresh(hop))
  }

  lemma {:induction false} SameStuck(table: seq<Route>, ifs: seq<AsyncInterface>, ifs': seq<AsyncInterface>,
                                     ds: seq<Datagram>)
    requires ValidTable(table, |ifs|) && SameFreshness(ifs, ifs')
    ensures FirstStuck(table, ifs', ds) == FirstStuck(table, ifs, ds)
  {
    hide Best, Serializes, Lowered;
    if ds != [] {
      SameStuck(table, ifs, ifs', ds[1..]);
    }
  }

  /** One datagram: it throws exactly when it is not sendable, and then no interface has changed. */
  lemma RouteOneExact(table: seq<Route>, ifs: seq<AsyncInterface>, d: Datagram)
    requires ValidTable(table, |ifs|)
    ensures var out := RouteOne(table, ifs, d);
            && out.threw == !Sendable(table, ifs, d)
            && (out.threw ==> out.ifs == ifs)
            && SameFreshness(ifs, out.ifs)
            && (forall j :: 0 <= j < |ifs| ==>
                  && out.ifs[j].inbox == ifs[j].inbox
                  && (!out.threw ==> out.ifs[j].net == SendAll(ifs[j].net, Outgoing(table, [d], j))))
  {
    hide Best, SerializeDatagram;
    var out := RouteOne(table, ifs, d);
    forall j | 0 <= j < |ifs| && !out.threw
      ensures out.ifs[j].net == SendAll(ifs[j].net, Outgoing(table, [d], j))
    {
      OutgoingOne(table, d, j);
      var f := Decide(table, d);
      if f.Some? && f.value.interface == j {
        SendOne(ifs[j].net, f.value.datagram, f.value.hop);
      }
    }
    if out.threw {
      var f := Decide(table, d).value;
      var n := ifs[f.interface].net;
      assert SendDatagram(n, f.datagram, f.hop).net == n by {
        assert n.framesOut + [] == n.framesOut;
      }
    }
  }

  lemma OutgoingOne(table: seq<Route>, d: Datagram, j: nat)
    ensures Outgoing(table, [d], j) == Given(table, d, j)
  {
    hide Given;
    assert [d][1..] == [];
    assert Outgoing(table, [], j) == [];
  }

  lemma SendOne(n: Interface, d: Datagram, hop: U32)
    ensures SendAll(n, [(d, hop)]) == SendDatagram(n, d, hop).net
  {
    hide SendDatagram;
    assert SendAll(SendDatagram(n, d, hop).net, [(d, hop)][1..]) == SendDatagram(n, d, hop).net;
  }

  /** One inbox: how far routing gets, what every interface is given, and what stays. */
  lemma {:induction false} RouteInboxExact(table: seq<Route>, ifs: seq<AsyncInterface>, k: nat)
    requires ValidTable(table, |ifs|) && k < |ifs|
    ensures var ds, out := ifs[k].inbox, RouteInbox(table, ifs, k);
            var m := FirstStuck(table, ifs, ds);
            && out.threw == (m < |ds|)
            && SameFreshness(ifs, out.ifs)
            && (forall j :: 0 <= j < |ifs| ==>
                  && out.ifs[j].net == SendAll(ifs[j].net, Outgoing(table, ds[..m], j))
                  && out.ifs[j].inbox == if j == k then Left(ds, m) else ifs[j].inbox)
    decreases |ifs[k].inbox|
  {
    hide RouteOne, SendAll, Outgoing, Sendable, Lowered;
    var ds, out := ifs[k].inbox, RouteInbox(table, ifs, k);
    var m := FirstStuck(table, ifs, ds);
    if ds == [] {
      NothingRoutedAll(table, ifs);
      assert ds[..0] == [];
    } else {
      RouteOneExact(table, ifs, ds[0]);
      var r := RouteOne(table, ifs, ds[0]);
      if r.threw {
        NothingRoutedAll(table, ifs);
        assert ds[..0] == [];
      } else {
        var next := WithInbox(r.ifs, k, ds[1..]);
        RouteInboxExact(table, next, k);
        assert SameFreshness(ifs, next);
        SameStuck(table, ifs, next, ds[1..]);
        assert ds[..m] == [ds[0]] + ds[1..][..m - 1];
        forall j | 0 <= j < |ifs|
          ensures out.ifs[j].net == SendAll(ifs[j].net, Outgoing(table, ds[..m], j))
        {
          SendConcat(table, ifs[j].net, [ds[0]], ds[1..][..m - 1], j);
        }
        LeftRest(ds, m);
      }
    }
  }

  lemma LeftRest(ds: seq<Datagram>, m: nat)
    requires 1 <= m <= |ds|
    ensures Left(ds, m) == Left(ds[1..], m - 1)
  {
  }

  lemma NothingRoutedAll(table: seq<Route>, ifs: seq<AsyncInterface>)
    ensures forall j :: 0 <= j < |ifs| ==> SendAll(ifs[j].net, Outgoing(table, [], j)) == ifs[j].net
  {
  }

  /** Giving an interface what two stretches decide for it is giving it what they decide together. */
  lemma SendConcat(table: seq<Route>, n: Interface, a: seq<Datagram>, b: seq<Datagram>, j: nat)
    ensures SendAll(n, Outgoing(table, a + b, j)) == SendAll(SendAll(n, Outgoing(table, a, j)), Outgoing(table, b, j))
  {
    hide SendAll, Outgoing;
    OutgoingConcat(table, a, b, j);
    SendAllConcat(n, Outgoing(table, a, j), Outgoing(table, b, j));
  }

  lemma {:induction false} OutgoingConcat(table: seq<Route>, a: seq<Datagram>, b: seq<Datagram>, j: nat)
    ensures Outgoing(table, a + b, j) == Outgoing(table, a, j) + Outgoing(table, b, j)
    decreases |a|
  {
    hide Given;
    if a == [] {
      assert a + b == b;
    } else {
      OutgoingConcat(table, a[1..], b, j);
      assert (a + b)[1..] == a[1..] + b;
      var first, rest, last := Given(table, a[0], j), Outgoing(table, a[1..], j), Outgoing(table, b, j);
      assert first + (rest + last) == (first + rest) + last;
    }
  }

  lemma {:induction false} SendAllConcat(n: Interface, a: seq<(Datagram, U32)>, b: seq<(Datagram, U32)>)
    ensures SendAll(n, a + b) == SendAll(SendAll(n, a), b)
    decreases |a|
  {
    hide SendDatagram;
    if a == [] {
      assert a + b == b;
    } else {
      SendAllConcat(SendDatagram(n, a[0].0, a[0].1).net, a[1..], b);
      assert (a + b)[1..] == a[1..] + b;
    }
  }

  lemma {:induction false} SameInboxes(ifs: seq<AsyncInterface>, ifs': seq<AsyncInterface>, k: nat)
    requires k <= |ifs| == |ifs'| && forall j :: k <= j < |ifs| ==> ifs'[j].inbox == ifs[j].inbox
    ensures Inboxes(ifs', k) == Inboxes(ifs, k)
    decreases |ifs| - k
  {
    if k < |ifs| {
      SameInboxes(ifs, ifs', k + 1);
    }
  }

  lemma {:induction false} StuckConcat(table: seq<Route>, ifs: seq<AsyncInterface>, a: seq<Datagram>, b: seq<Datagram>)
    requires ValidTable(table, |ifs|)
    ensures var m := FirstStuck(table, ifs, a);
            FirstStuck(table, ifs, a + b) == if m < |a| then m else |a| + FirstStuck(table, ifs, b)
    decreases |a|
  {
    hide Sendable;
    if a == [] {
      assert a + b == b;
    } else {
      StuckConcat(table, ifs, a[1..], b);
      assert (a + b)[1..] == a[1..] + b;
    }
  }

  /**
   All inboxes from `k` on: routing throws exactly when some datagram in them is not sendable. Up to the first
   such datagram every interface is given exactly what is decided for it, in order; that one stays in front of
   those after it, its time to live lowered, and everything before it is gone from the inboxes.
   */
  lemma {:induction false} RouteFromExact(table: seq<Route>, ifs: seq<AsyncInterface>, k: nat)
    requires ValidTable(table, |ifs|) && k <= |ifs|
    ensures var ds, out := Inboxes(ifs, k), RouteFrom(table, ifs, k);
            var m := FirstStuck(table, ifs, ds);
            && out.threw == (m < |ds|)
            && Inboxes(out.ifs, k) == Left(ds, m)
            && (forall j :: 0 <= j < |ifs| ==>
                  && out.ifs[j].net == SendAll(ifs[j].net, Outgoing(table, ds[..m], j))
                  && (j < k ==> out.ifs[j].inbox == ifs[j].inbox))
    decreases |ifs| - k
  {
    hide RouteInbox, SendAll, Outgoing, Sendable, FirstStuck, Left;
    var ds, out := Inboxes(ifs, k), RouteFrom(table, ifs, k);
    var m := FirstStuck(table, ifs, ds);
    if k == |ifs| {
      NothingRoutedAll(table, ifs);
      LeftNothing();
    } else {
      RouteInboxExact(table, ifs, k);
      var r, first, rest := RouteInbox(table, ifs, k), ifs[k].inbox, Inboxes(ifs, k + 1);
      SameInboxes(ifs, r.ifs, k + 1);
      StuckConcat(table, ifs, first, rest);
      if r.threw {
        assert ds[..m] == first[..m];
        LeftConcat(first, rest, m);
      } else {
        RouteFromExact(table, r.ifs, k + 1);
        SameStuck(table, ifs, r.ifs, rest);
        var m' := FirstStuck(table, ifs, rest);
        LeftPast(first, rest, m');
        assert first[..|first|] == first;
        assert ds[..m] == first + rest[..m'];
        forall j | 0 <= j < |ifs|
          ensures out.ifs[j].net == SendAll(ifs[j].net, Outgoing(table, ds[..m], j))
        {
          SendConcat(table, ifs[j].net, first, rest[..m'], j);
        }
      }
    }
  }

  /** Routing finishes with nothing left queued if and only if every queued datagram can be sent. */
  lemma RouteFinishes(table: seq<Route>, ifs: seq<AsyncInterface>)
    requires ValidTable(table, |ifs|)
    ensures var ds, out := Inboxes(ifs, 0), RouteFrom(table, ifs, 0);
            && (out.threw <==> Inboxes(out.ifs, 0) != [])
            && (Inboxes(out.ifs, 0) == [] <==> forall k :: 0 <= k < |ds| ==> Sendable(table, ifs, ds[k]))
  {
    hide RouteFrom, Sendable, SendAll, Outgoing, Inboxes;
    RouteFromExact(table, ifs, 0);
  }

  lemma LeftNothing()
    ensures Left([], 0) == []
  {
  }

  lemma LeftConcat(a: seq<Datagram>, b: seq<Datagram>, m: nat)
    requires m < |a|
    ensures Left(a + b, m) == Left(a, m) + b
  {
    hide Lowered;
    DropConcat(a, b, m + 1);
    var first, rest := [Lowered(a[m])], a[m + 1..];
    assert first + (rest + b) == (first + rest) + b;
  }

  lemma DropConcat(a: seq<Datagram>, b: seq<Datagram>, k: nat)
    requires k <= |a|
    ensures (a + b)[k..] == a[k..] + b
  {
  }

  lemma LeftPast(a: seq<Datagram>, b: seq<Datagram>, m: nat)
    requires m <= |b|
    ensures Left(a, |a|) == [] && Left(a + b, |a| + m) == Left(b, m)
  {
    hide Lowered;
    if m < |b| {
      assert (a + b)[|a| + m + 1..] == b[m + 1..];
    }
  }
}
