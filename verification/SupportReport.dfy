/**
  redactResult masks the fields of a report in place, through the arrays and records that
  the caller's copy of the report shares.  The lists may overlap: two fields may be the
  same array, and because masking is idempotent that does no harm.
 */
module SupportReport {
  import opened Redaction
  import opened RedactionTheorems

  datatype SocketInfo =
    SocketInfo(protocol: string, localAddr: string, foreignAddr: string, pid: string, process: string, raw: string)

  class RouteResult {
    var targetHost: string
    var targetPort: string
    var gateway: string
    var routeOutput: string
    var pingOutput: string

    constructor (targetHost: string, targetPort: string, gateway: string, routeOutput: string, pingOutput: string) {
      this.targetHost, this.targetPort, this.gateway := targetHost, targetPort, gateway;
      this.routeOutput, this.pingOutput := routeOutput, pingOutput;
    }
  }

  class RawPacketTest {
    var listenAddress: string
    const uniqueSenders: array<string>

    constructor (listenAddress: string, uniqueSenders: array<string>) {
      this.listenAddress, this.uniqueSenders := listenAddress, uniqueSenders;
    }
  }

  datatype InterfaceInfo = InterfaceInfo(name: string, addresses: array<string>, ipv4Bind: array<string>)

  datatype DiagnosticResult = DiagnosticResult(
    interfaces: seq<InterfaceInfo>,
    udpSockets: array<SocketInfo>,
    route: RouteResult?,
    rawPacketTest: RawPacketTest?
  )

  function InterfaceLists(interfaces: seq<InterfaceInfo>): seq<array<string>> {
    if interfaces == [] then []
    else [interfaces[0].addresses, interfaces[0].ipv4Bind] + InterfaceLists(interfaces[1..])
  }

  /** The lists of addresses that a report refers to. */
  function Lists(res: DiagnosticResult): seq<array<string>> {
    InterfaceLists(res.interfaces) + if res.rawPacketTest == null then [] else [res.rawPacketTest.uniqueSenders]
  }

  lemma {:induction false} InterfaceListsHold(interfaces: seq<InterfaceInfo>, i: nat)
    requires i < |interfaces|
    ensures interfaces[i].addresses in InterfaceLists(interfaces)
    ensures interfaces[i].ipv4Bind in InterfaceLists(interfaces)
    decreases |interfaces|
  {
    if i > 0 {
      InterfaceListsHold(interfaces[1..], i - 1);
    }
  }

  /** `f` stands for maskIP; all that the in-place pass needs of it is idempotence. */
  ghost predicate Idempotent(f: string -> string) {
    forall s :: f(f(s)) == f(s)
  }

  twostate predicate Mapped(f: string -> string, a: array<string>)
    reads a
  {
    forall i :: 0 <= i < a.Length ==> a[i] == f(old(a[i]))
  }

  twostate predicate PartlyMapped(f: string -> string, a: array<string>)
    reads a
  {
    forall i :: 0 <= i < a.Length ==> a[i] == old(a[i]) || a[i] == f(old(a[i]))
  }

  method MapList(f: string -> string, a: array<string>)
    modifies a
    ensures Mapped(f, a)
  {
    for i := 0 to a.Length
      invariant forall j :: 0 <= j < i ==> a[j] == f(old(a[j]))
      invariant forall j :: i <= j < a.Length ==> a[j] == old(a[j])
    {
      a[i] := f(a[i]);
    }
  }

  /** Every list ends up masked once, however often the same array occurs. */
  method MapLists(f: string -> string, lists: seq<array<string>>)
    requires Idempotent(f)
    modifies lists
    ensures forall a <- lists :: Mapped(f, a)
  {
    for k := 0 to |lists|
      invariant forall a <- lists[..k] :: Mapped(f, a)
      invariant forall a <- lists :: PartlyMapped(f, a)
    {
      var a := lists[k];
      ghost var was := a[..];
      assert PartlyMapped(f, a);
      MapList(f, a);
      forall i | 0 <= i < a.Length ensures a[i] == f(old(a[i])) {
        assert was[i] == old(a[i]) || was[i] == f(old(a[i]));
        assert a[i] == f(was[i]);
      }
    }
  }

  function MapSocket(f: string -> string, s: SocketInfo): SocketInfo {
    s.(localAddr := f(s.localAddr), foreignAddr := f(s.foreignAddr), raw := f(s.raw))
  }

  method MapSockets(f: string -> string, sockets: array<SocketInfo>)
    modifies sockets
    ensures forall i :: 0 <= i < sockets.Length ==> sockets[i] == MapSocket(f, old(sockets[i]))
  {
    for i := 0 to sockets.Length
      invariant forall j :: 0 <= j < i ==> sockets[j] == MapSocket(f, old(sockets[j]))
      invariant forall j :: i <= j < sockets.Length ==> sockets[j] == old(sockets[j])
    {
      sockets[i] := sockets[i].(localAddr := f(sockets[i].localAddr),
                                foreignAddr := f(sockets[i].foreignAddr),
                                raw := f(sockets[i].raw));
    }
  }

  twostate predicate RouteMapped(f: string -> string, r: RouteResult)
    reads r
  {
    && r.targetHost == f(old(r.targetHost)) && r.gateway == f(old(r.gateway))
    && r.routeOutput == f(old(r.routeOutput)) && r.pingOutput == f(old(r.pingOutput))
    && r.targetPort == old(r.targetPort)
  }

  method MapRoute(f: string -> string, r: RouteResult)
    modifies r
    ensures RouteMapped(f, r)
  {
    r.targetHost := f(r.targetHost);
    r.gateway := f(r.gateway);
    r.routeOutput := f(r.routeOutput);
    r.pingOutput := f(r.pingOutput);
  }

  /** The string lists are masked once, whatever they share, and so are the socket records
      and, where present, the route and the address of the raw test. */
  method RedactWith(f: string -> string, lists: seq<array<string>>, sockets: array<SocketInfo>,
                    route: RouteResult?, raw: RawPacketTest?)
    requires Idempotent(f)
    modifies lists, sockets, if route == null then {} else {route}, if raw == null then {} else {raw}
    ensures forall a <- lists :: Mapped(f, a)
    ensures forall i :: 0 <= i < sockets.Length ==> sockets[i] == MapSocket(f, old(sockets[i]))
    ensures route != null ==> RouteMapped(f, route)
    ensures raw != null ==> raw.listenAddress == f(old(raw.listenAddress))
  {
    MapLists(f, lists);
    MapSockets(f, sockets);
    if route != null {
      MapRoute(f, route);
    }
    if raw != null {
      raw.listenAddress := f(raw.listenAddress);
    }
  }

  lemma MaskIPIsIdempotent()
    ensures Idempotent(MaskIP)
  {
    forall s ensures MaskIP(MaskIP(s)) == MaskIP(s) {
      MaskIPIdempotent(s);
    }
  }

  /** An entry is as it was if and only if it was clean. */
  twostate predicate KeptIffClean(a: array<string>)
    reads a
  {
    forall i :: 0 <= i < a.Length ==> (a[i] == old(a[i]) <==> Clean(old(a[i])))
  }

  twostate lemma MappedKeepsIff(a: array<string>)
    requires Mapped(MaskIP, a)
    ensures KeptIffClean(a)
  {
    forall i | 0 <= i < a.Length ensures a[i] == old(a[i]) <==> Clean(old(a[i])) {
      MaskIPKeepsIff(old(a[i]));
    }
  }

  ghost predicate CleanSocket(s: SocketInfo) {
    Clean(s.localAddr) && Clean(s.foreignAddr) && Clean(s.raw)
  }

  lemma MapSocketKeepsIff(s: SocketInfo)
    ensures MapSocket(MaskIP, s) == s <==> CleanSocket(s)
  {
    MaskIPKeepsIff(s.localAddr);
    MaskIPKeepsIff(s.foreignAddr);
    MaskIPKeepsIff(s.raw);
  }

  twostate predicate RouteKeptIffClean(r: RouteResult)
    reads r
  {
    && (r.targetHost == old(r.targetHost) <==> Clean(old(r.targetHost)))
    && (r.gateway == old(r.gateway) <==> Clean(old(r.gateway)))
    && (r.routeOutput == old(r.routeOutput) <==> Clean(old(r.routeOutput)))
    && (r.pingOutput == old(r.pingOutput) <==> Clean(old(r.pingOutput)))
  }

  twostate lemma RouteMappedKeepsIff(r: RouteResult)
    requires RouteMapped(MaskIP, r)
    ensures RouteKeptIffClean(r)
  {
    MaskIPKeepsIff(old(r.targetHost));
    MaskIPKeepsIff(old(r.gateway));
    MaskIPKeepsIff(old(r.routeOutput));
    MaskIPKeepsIff(old(r.pingOutput));
  }

  method RedactFields(res: DiagnosticResult)
    modifies Lists(res), res.udpSockets
    modifies if res.route == null then {} else {res.route}
    modifies if res.rawPacketTest == null then {} else {res.rawPacketTest}
    ensures forall i :: 0 <= i < |res.interfaces| ==>
              Mapped(MaskIP, res.interfaces[i].addresses) && Mapped(MaskIP, res.interfaces[i].ipv4Bind)
    ensures forall i :: 0 <= i < res.udpSockets.Length ==>
              res.udpSockets[i] == MapSocket(MaskIP, old(res.udpSockets[i]))
    ensures res.route != null ==> RouteMapped(MaskIP, res.route)
    ensures res.rawPacketTest != null ==>
              && Mapped(MaskIP, res.rawPacketTest.uniqueSenders)
              && res.rawPacketTest.listenAddress == MaskIP(old(res.rawPacketTest.listenAddress))
  {
    MaskIPIsIdempotent();
    RedactWith(MaskIP, Lists(res), res.udpSockets, res.route, res.rawPacketTest);
    forall i | 0 <= i < |res.interfaces|
      ensures Mapped(MaskIP, res.interfaces[i].addresses) && Mapped(MaskIP, res.interfaces[i].ipv4Bind)
    {
      InterfaceListsHold(res.interfaces, i);
    }
  }

  /** redactResult.  Every listed field holds the masked old value, and so is as it was if and
      only if no match in it is an address outside 127.0.0.0/8. */
  method RedactResult(res: DiagnosticResult)
    modifies Lists(res), res.udpSockets
    modifies if res.route == null then {} else {res.route}
    modifies if res.rawPacketTest == null then {} else {res.rawPacketTest}
    ensures forall i :: 0 <= i < |res.interfaces| ==>
              Mapped(MaskIP, res.interfaces[i].addresses) && Mapped(MaskIP, res.interfaces[i].ipv4Bind)
    ensures forall i :: 0 <= i < res.udpSockets.Length ==>
              res.udpSockets[i] == MapSocket(MaskIP, old(res.udpSockets[i]))
    ensures res.route != null ==> RouteMapped(MaskIP, res.route)
    ensures res.rawPacketTest != null ==>
              && Mapped(MaskIP, res.rawPacketTest.uniqueSenders)
              && res.rawPacketTest.listenAddress == MaskIP(old(res.rawPacketTest.listenAddress))
    ensures forall i :: 0 <= i < |res.interfaces| ==>
              KeptIffClean(res.interfaces[i].addresses) && KeptIffClean(res.interfaces[i].ipv4Bind)
    ensures forall i :: 0 <= i < res.udpSockets.Length ==>
              (res.udpSockets[i] == old(res.udpSockets[i]) <==> CleanSocket(old(res.udpSockets[i])))
    ensures res.route != null ==> RouteKeptIffClean(res.route)
    ensures res.rawPacketTest != null ==>
              && KeptIffClean(res.rawPacketTest.uniqueSenders)
              && (res.rawPacketTest.listenAddress == old(res.rawPacketTest.listenAddress)
                  <==> Clean(old(res.rawPacketTest.listenAddress)))
  {
    RedactFields(res);
    forall i | 0 <= i < |res.interfaces|
      ensures KeptIffClean(res.interfaces[i].addresses) && KeptIffClean(res.interfaces[i].ipv4Bind)
    {
      MappedKeepsIff(res.interfaces[i].addresses);
      MappedKeepsIff(res.interfaces[i].ipv4Bind);
    }
    forall i | 0 <= i < res.udpSockets.Length
      ensures res.udpSockets[i] == old(res.udpSockets[i]) <==> CleanSocket(old(res.udpSockets[i]))
    {
      MapSocketKeepsIff(old(res.udpSockets[i]));
    }
    if res.route != null {
      RouteMappedKeepsIff(res.route);
    }
    if res.rawPacketTest != null {
      MappedKeepsIff(res.rawPacketTest.uniqueSenders);
      MaskIPKeepsIff(old(res.rawPacketTest.listenAddress));
    }
  }
}
