/** openConnection of src/RakNetConnect.cpp: the control flow of the open handshake over an arbitrary
    network, and what it acquires, sends and releases on every path. */
module Handshake {
  import opened Wrappers
  import opened Bits
  import opened RakNetConnect
  import opened RakNetPing

  datatype Resolution = Unresolvable | NoAddress | Resolved(ip: Ip, port: u16)

  /** An arbitrary network: name resolution, whether a socket is given, whether the i-th sendto takes
      the whole packet, and what, if anything, arrives before the i-th timeout. */
  datatype Network = Network(
    resolution: Resolution,
    socketGiven: bool,
    sends: nat -> bool,
    arrives: nat -> Option<Bytes>)

  datatype Resource = AddrInfo | Socket

  datatype Event = Acquire(r: Resource) | Send(packet: Bytes) | Receive(packet: Bytes) | Release(r: Resource)

  /** RakNetOpenResult without the caller's own host and port; addresses are octets and port. */
  datatype OpenResult = OpenResult(
    ok: bool,
    error: Option<ConnectError>,
    clientGuid: u64,
    serverGuid: u64,
    requestedMtu: int,
    usedMtu: int,
    request1PayloadSize: int,
    mtuFromReply1: int,
    mtuFromReply2: int,
    triedMtus: seq<int>,
    resolved: Option<(Ip, u16)>,
    clientAddress: Option<(Ip, u16)>,
    serverSecurity: bool,
    securityCookie: u32,
    hasSecurityCookie: bool)

  // ---------- what is held ----------

  /** Where a resource stands after a trace; Broken once it was acquired twice, released without
      being held, or a packet went over a socket that was not held. */
  datatype Status = Untouched | Held | Freed | Broken

  function Move(s: Status, e: Event, r: Resource): Status {
    match e
    case Acquire(q) => if q != r then s else if s.Untouched? then Held else Broken
    case Release(q) => if q != r then s else if s.Held? then Freed else Broken
    case _ => if r.Socket? && !s.Held? then Broken else s
  }

  function StatusOf(trace: seq<Event>, r: Resource): Status {
    if trace == [] then Untouched
    else Move(StatusOf(trace[..|trace| - 1], r), trace[|trace| - 1], r)
  }

  predicate OnWire(e: Event) {
    e.Send? || e.Receive?
  }

  /** The packets of a trace, in order. */
  function Packets(trace: seq<Event>): seq<Event> {
    if trace == [] then []
    else Packets(trace[..|trace| - 1]) + (if OnWire(trace[|trace| - 1]) then [trace[|trace| - 1]] else [])
  }

  predicate Holding(trace: seq<Event>) {
    StatusOf(trace, AddrInfo) == Held && StatusOf(trace, Socket) == Held
  }

  predicate Settled(trace: seq<Event>) {
    StatusOf(trace, AddrInfo) == Freed && StatusOf(trace, Socket) == Freed
  }

  /** The operating system, as far as openConnection acts on it. */
  class Host {
    var trace: seq<Event>

    constructor ()
      ensures trace == []
    {
      trace := [];
    }

    method Do(e: Event)
      modifies this
      ensures trace == old(trace) + [e]
      ensures StatusOf(trace, AddrInfo) == Move(old(StatusOf(trace, AddrInfo)), e, AddrInfo)
      ensures StatusOf(trace, Socket) == Move(old(StatusOf(trace, Socket)), e, Socket)
      ensures Packets(trace) == if OnWire(e) then old(Packets(trace)) + [e] else old(Packets(trace))
    {
      trace := trace + [e];
      assert trace[..|trace| - 1] == old(trace);
    }

    /** close(sock) */
    method Close()
      modifies this
      ensures StatusOf(trace, Socket) == if old(StatusOf(trace, Socket)).Held? then Freed else Broken
      ensures StatusOf(trace, AddrInfo) == old(StatusOf(trace, AddrInfo)) && Packets(trace) == old(Packets(trace))
    {
      Do(Release(Socket));
    }

    /** freeaddrinfo(res) */
    method FreeAddrInfo()
      modifies this
      ensures StatusOf(trace, AddrInfo) == if old(StatusOf(trace, AddrInfo)).Held? then Freed else Broken
      ensures StatusOf(trace, Socket) == old(StatusOf(trace, Socket)) && Packets(trace) == old(Packets(trace))
    {
      Do(Release(AddrInfo));
    }
  }

  // ---------- what a run does ----------

  /** How the Request1 attempts from the i-th candidate on end. */
  datatype Tried = Answered(n: nat, packet: Bytes) | Unanswered | CutShort(n: nat)

  function Attempts(net: Network, list: seq<int>, i: nat): (t: Tried)
    ensures t.Answered? || t.CutShort? ==> i <= t.n < |list|
    decreases |list| - i
  {
    if i >= |list| then Unanswered
    else if !net.sends(i) then CutShort(i)
    else
      match net.arrives(i)
      case Some(d) => Answered(i, d)
      case None => Attempts(net, list, i + 1)
  }

  function TriedCount(t: Tried, list: seq<int>): nat {
    if t.Unanswered? then |list| else t.n + 1
  }

  function FinalMtu(offered: u16, used: int): int {
    if UsableMtu(offered) then offered else used
  }

  function Initial(mtu: int, guid: u64): OpenResult {
    OpenResult(false, None, guid, 0, mtu, -1, -1, -1, -1, [], None, None, false, 0, false)
  }

  /** The fields the first answer leaves behind, complete or cut off. */
  function After1(r: OpenResult, d: Bytes): OpenResult {
    if |d| < 28 || d[0] != REPLY_1 || d[1..17] != MAGIC then r
    else
      var g := r.(serverGuid := Word(d[17..25]), serverSecurity := d[25] != 0);
      if d[25] == 0 then g.(mtuFromReply1 := Word(d[26..28]))
      else if |d| < 30 then g
      else
        var k := g.(securityCookie := Word(d[26..30]), hasSecurityCookie := true);
        if |d| < 32 then k else k.(mtuFromReply1 := Word(d[30..32]))
  }

  /** And those of the second answer. */
  function After2(r: OpenResult, d: Bytes): OpenResult {
    if |d| < 35 || d[0] != REPLY_2 || d[1..17] != MAGIC then r
    else
      var g := r.(serverGuid := Word(d[17..25]));
      match ReadAddress(d, 25)
      case Err(_) => g
      case Ok(a) => g.(clientAddress := Some(a), mtuFromReply2 := Word(d[32..34]), serverSecurity := d[34] != 0)
  }

  /** The result once Request2 is due, from the one after the first answer to the n-th candidate. */
  function Answered2(net: Network, r1: OpenResult, n: nat): OpenResult {
    if !net.sends(n + 1) then r1.(error := Some(Exception(SendFailed)))
    else
      match net.arrives(n + 1)
      case None => r1.(error := Some(Timeout2))
      case Some(d2) =>
        match Parsed2(d2)
        case Err(e) => After2(r1, d2).(error := Some(e))
        case Ok(_) => After2(r1, d2).(ok := true)
  }

  /** The result after the answer d to the n-th candidate. */
  function Finished(net: Network, r: OpenResult, n: nat, d: Bytes): OpenResult {
    match Parsed1(d)
    case Err(e) => After1(r, d).(error := Some(e))
    case Ok(_) => Answered2(net, After1(r, d), n)
  }

  function Talked(net: Network, r: OpenResult, list: seq<int>): OpenResult {
    var t := Attempts(net, list, 0);
    var tried := r.(triedMtus := list[..TriedCount(t, list)]);
    match t
    case CutShort(_) => tried.(error := Some(Exception(SendFailed)))
    case Unanswered => tried.(error := Some(Timeout1))
    case Answered(n, d) =>
      Finished(net, tried.(usedMtu := list[n], request1PayloadSize := list[n] - UDP_IPV4_HEADER_SIZE), n, d)
  }

  /** What openConnection returns. */
  function Outcome(net: Network, mtu: int, guid: u64): OpenResult {
    var r := Initial(mtu, guid);
    match net.resolution
    case Unresolvable => r.(error := Some(ResolveFailed))
    case NoAddress => r.(error := Some(EmptyResolution))
    case Resolved(ip, p) =>
      var found := r.(resolved := Some((ip, p)));
      if !net.socketGiven then found.(error := Some(SocketFailed)) else Talked(net, found, TryList(mtu))
  }

  /** The packets of the Request1 attempts from the i-th candidate on. */
  function Attempted(net: Network, list: seq<int>, i: nat): seq<Event>
    requires forall v | v in list :: UsableMtu(v)
    decreases |list| - i
  {
    if i >= |list| then []
    else
      assert list[i] in list && UsableMtu(list[i]);
      [Send(Request1(list[i]))] +
      (if !net.sends(i) then []
       else
         match net.arrives(i)
         case Some(d) => [Receive(d)]
         case None => Attempted(net, list, i + 1))
  }

  /** The packets of the second exchange, when the first answer r came to the n-th candidate. */
  function SecondExchange(net: Network, ip: Ip, port: u16, guid: u64, used: int, n: nat, r: Reply1): seq<Event>
    requires UsableMtu(used)
  {
    [Send(Request2(ip, port, FinalMtu(r.mtu, used), guid, r.cookie))] +
    (if !net.sends(n + 1) then []
     else
       match net.arrives(n + 1)
       case None => []
       case Some(d2) => [Receive(d2)])
  }

  /** The packets after the answer d to the n-th candidate. */
  function Concluded(net: Network, ip: Ip, port: u16, guid: u64, used: int, n: nat, d: Bytes): seq<Event>
    requires UsableMtu(used)
  {
    match Parsed1(d)
    case Err(_) => []
    case Ok(r) => SecondExchange(net, ip, port, guid, used, n, r)
  }

  /** Every packet of a run, in order. */
  function Dialogue(net: Network, list: seq<int>, ip: Ip, port: u16, guid: u64): seq<Event>
    requires forall v | v in list :: UsableMtu(v)
  {
    Attempted(net, list, 0) +
    match Attempts(net, list, 0)
    case Answered(n, d) => Concluded(net, ip, port, guid, list[n], n, d)
    case _ => []
  }

  // ---------- the C++ routine ----------

  /** How a part of openConnection ends: it goes on, it returned and gave back what was held, or it
      threw and left that to the handler. */
  datatype Flow = Continue | Returned | Threw(thrown: Thrown)

  predicate Kept(trace: seq<Event>, flow: Flow) {
    if flow.Returned? then Settled(trace) else Holding(trace)
  }

  /** sendPacket: throws unless the whole packet was taken. */
  method SendPacket(host: Host, net: Network, i: nat, packet: Bytes) returns (thrown: bool)
    requires Holding(host.trace)
    modifies host
    ensures Holding(host.trace)
    ensures Packets(host.trace) == old(Packets(host.trace)) + [Send(packet)]
    ensures thrown == !net.sends(i)
  {
    host.Do(Send(packet));
    thrown := !net.sends(i);
  }

  /** recvPacket: what arrives before the timeout. */
  method RecvPacket(host: Host, net: Network, i: nat) returns (packet: Option<Bytes>)
    requires Holding(host.trace)
    modifies host
    ensures packet == net.arrives(i) && Holding(host.trace)
    ensures Packets(host.trace) == old(Packets(host.trace)) + if packet.Some? then [Receive(packet.value)] else []
  {
    packet := net.arrives(i);
    if packet.Some? {
      host.Do(Receive(packet.value));
    }
  }

  /** The loop over the candidates, and the return when none is answered. */
  method TryCandidates(host: Host, net: Network, mtuList: seq<int>, start: OpenResult)
    returns (result: OpenResult, flow: Flow, reply1: Bytes, index: nat)
    requires forall v | v in mtuList :: UsableMtu(v)
    requires Holding(host.trace) && start.triedMtus == [] && start.error.None?
    modifies host
    ensures Packets(host.trace) == old(Packets(host.trace)) + Attempted(net, mtuList, 0)
    ensures Kept(host.trace, flow)
    ensures match Attempts(net, mtuList, 0)
            case CutShort(n) => flow == Threw(SendFailed) && result == start.(triedMtus := mtuList[..n + 1])
            case Unanswered => flow == Returned && result == start.(triedMtus := mtuList, error := Some(Timeout1))
            case Answered(n, d) =>
              && flow == Continue && reply1 == d && index == n
              && result == start.(triedMtus := mtuList[..n + 1], usedMtu := mtuList[n],
                                  request1PayloadSize := mtuList[n] - UDP_IPV4_HEADER_SIZE)
  {
    hide Request1, Attempted, Packets, StatusOf;
    result, flow, reply1, index := start, Continue, [], 0;
    ghost var before := Packets(host.trace);
    AttemptedEnds(net, mtuList, before);
    assert mtuList[..0] == [];
    for i := 0 to |mtuList|
      invariant result == start.(triedMtus := mtuList[..i]) && Holding(host.trace) && flow == Continue
      invariant Attempts(net, mtuList, 0) == Attempts(net, mtuList, i)
      invariant Packets(host.trace) + Attempted(net, mtuList, i) == before + Attempted(net, mtuList, 0)
    {
      AttemptedStep(net, mtuList, i, Packets(host.trace));
      var candidateMtu := mtuList[i];
      assert mtuList[..i + 1] == mtuList[..i] + [candidateMtu];
      result := result.(triedMtus := result.triedMtus + [candidateMtu]);
      var req1 := BuildOpenConnectionRequest1(candidateMtu);
      var thrown := SendPacket(host, net, i, req1.value);
      if thrown {
        flow := Threw(SendFailed);
        return;
      }
      var received := RecvPacket(host, net, i);
      if received.Some? {
        reply1, index := received.value, i;
        result := result.(usedMtu := candidateMtu, request1PayloadSize := |req1.value|);
        return;
      }
    }
    assert mtuList[..|mtuList|] == mtuList;
    AttemptedEnds(net, mtuList, Packets(host.trace));
    result := result.(error := Some(Timeout1));
    host.Close();
    host.FreeAddrInfo();
    flow := Returned;
  }

  lemma AttemptedStep(net: Network, list: seq<int>, i: nat, before: seq<Event>)
    requires i < |list| && forall v | v in list :: UsableMtu(v)
    ensures list[i] in list && UsableMtu(list[i])
    ensures before + Attempted(net, list, i) ==
            var sent := before + [Send(Request1(list[i]))];
            if !net.sends(i) then sent
            else
              match net.arrives(i)
              case Some(d) => sent + [Receive(d)]
              case None => sent + Attempted(net, list, i + 1)
  {
    hide Request1;
  }

  lemma AttemptedEnds(net: Network, list: seq<int>, before: seq<Event>)
    requires forall v | v in list :: UsableMtu(v)
    ensures before + Attempted(net, list, |list|) == before
  {
  }

  function FlowOf(e: ConnectError): Flow {
    match e
    case Exception(thrown) => Threw(thrown)
    case _ => Returned
  }

  /** Reading the first answer, with the returns on a short, foreign or damaged one. */
  method ReadReply1(host: Host, reply1: Bytes, start: OpenResult) returns (result: OpenResult, flow: Flow)
    requires Holding(host.trace)
    modifies host
    ensures Packets(host.trace) == old(Packets(host.trace))
    ensures Kept(host.trace, flow)
    ensures match Parsed1(reply1)
            case Ok(r) => flow == Continue && result == After1(start, reply1) && result.mtuFromReply1 == r.mtu
                          && (result.serverSecurity <==> r.cookie.Some?)
                          && (r.cookie.Some? ==> result.securityCookie == r.cookie.value)
            case Err(e) =>
              && flow == FlowOf(e)
              && result == After1(start, reply1).(error := if flow.Returned? then Some(e) else start.error)
  {
    hide Word, Packets, StatusOf;
    result := start;
    var off1 := 0;
    if |reply1| < 28 {
      result := result.(error := Some(TooSmall1));
      host.Close();
      host.FreeAddrInfo();
      return result, Returned;
    }
    var id1 := reply1[off1];
    off1 := off1 + 1;
    if id1 != REPLY_1 {
      result := result.(error := Some(UnexpectedId1));
      host.Close();
      host.FreeAddrInfo();
      return result, Returned;
    }
    var magic := CheckMagic(reply1, off1);
    if !magic {
      result := result.(error := Some(BadMagic1));
      host.Close();
      host.FreeAddrInfo();
      return result, Returned;
    }
    off1 := off1 + 16;
    var guid := ReadWord(reply1, off1, 8);
    off1 := off1 + 8;
    result := result.(serverGuid := guid.value);
    // "OpenConnectionReply1 missing security byte" is never reported: 28 bytes are there
    assert off1 < |reply1|;
    result := result.(serverSecurity := reply1[off1] != 0);
    off1 := off1 + 1;
    if result.serverSecurity {
      var cookie := ReadWord(reply1, off1, 4);
      if cookie.Err? {
        return result, Threw(cookie.error);
      }
      off1 := off1 + 4;
      result := result.(securityCookie := cookie.value, hasSecurityCookie := true);
    }
    var mtu := ReadWord(reply1, off1, 2);
    if mtu.Err? {
      return result, Threw(mtu.error);
    }
    result := result.(mtuFromReply1 := mtu.value);
    flow := Continue;
  }

  /** Reading the answer to Request2, with the returns on a short, foreign or damaged one, and the
      return of the finished handshake. */
  method ReadReply2(host: Host, reply2: Bytes, start: OpenResult) returns (result: OpenResult, flow: Flow)
    requires Holding(host.trace)
    modifies host
    ensures Packets(host.trace) == old(Packets(host.trace))
    ensures Kept(host.trace, flow)
    ensures match Parsed2(reply2)
            case Ok(_) => flow == Returned && result == After2(start, reply2).(ok := true)
            case Err(e) =>
              && flow == FlowOf(e)
              && result == After2(start, reply2).(error := if flow.Returned? then Some(e) else start.error)
  {
    hide Word, ReadAddress, Packets, StatusOf;
    result := start;
    var off2 := 0;
    if |reply2| < 35 {
      result := result.(error := Some(TooSmall2));
      host.Close();
      host.FreeAddrInfo();
      return result, Returned;
    }
    var id2 := reply2[off2];
    off2 := off2 + 1;
    if id2 != REPLY_2 {
      result := result.(error := Some(UnexpectedId2));
      host.Close();
      host.FreeAddrInfo();
      return result, Returned;
    }
    var magic := CheckMagic(reply2, off2);
    if !magic {
      result := result.(error := Some(BadMagic2));
      host.Close();
      host.FreeAddrInfo();
      return result, Returned;
    }
    off2 := off2 + 16;
    result, flow := ReadBody2(host, reply2, off2, result);
  }

  /** The part of the second answer behind its magic bytes. */
  method ReadBody2(host: Host, reply2: Bytes, start2: nat, start: OpenResult) returns (result: OpenResult, flow: Flow)
    requires Holding(host.trace) && start2 == 17 && |reply2| >= 35
    requires reply2[0] == REPLY_2 && reply2[1..17] == MAGIC
    modifies host
    ensures Packets(host.trace) == old(Packets(host.trace))
    ensures Kept(host.trace, flow)
    ensures match Parsed2(reply2)
            case Ok(_) => flow == Returned && result == After2(start, reply2).(ok := true)
            case Err(e) => flow == FlowOf(e) && flow.Threw? && result == After2(start, reply2)
  {
    hide Word, ReadAddress, Packets, StatusOf;
    result := start;
    var off2 := start2;
    var guid := ReadWord(reply2, off2, 8);
    off2 := off2 + 8;
    result := result.(serverGuid := guid.value);
    var clientAddr := ReadAddress(reply2, off2);
    if clientAddr.Err? {
      return result, Threw(clientAddr.error);
    }
    off2 := off2 + 7;
    result := result.(clientAddress := Some(clientAddr.value));
    var mtu := ReadWord(reply2, off2, 2);
    off2 := off2 + 2;
    result := result.(mtuFromReply2 := mtu.value);
    if off2 < |reply2| {
      result := result.(serverSecurity := reply2[off2] != 0);
    }
    result := result.(ok := true);
    host.Close();
    host.FreeAddrInfo();
    flow := Returned;
  }

  /** From the first answer on: its reading, then the second exchange. */
  method Conclude(host: Host, net: Network, ip: Ip, port: u16, n: nat, reply1: Bytes, start: OpenResult)
    returns (result: OpenResult, flow: Flow)
    requires Holding(host.trace) && UsableMtu(start.usedMtu) && start.error.None?
    modifies host
    ensures Packets(host.trace) ==
            old(Packets(host.trace)) + Concluded(net, ip, port, start.clientGuid, start.usedMtu, n, reply1)
    ensures Kept(host.trace, flow) && flow != Continue
    ensures CaughtAs(result, flow) == Finished(net, start, n, reply1)
  {
    hide SecondExchange, Answered2, Parsed1, After1, Packets, StatusOf;
    After1Keeps(start, reply1);
    result, flow := ReadReply1(host, reply1, start);
    if flow == Continue {
      result, flow := Exchange(host, net, ip, port, n, Parsed1(reply1).value, result);
    }
  }

  /** Request2 and its answer, after the first answer r. */
  method Exchange(host: Host, net: Network, ip: Ip, port: u16, n: nat, r: Reply1, start: OpenResult)
    returns (result: OpenResult, flow: Flow)
    requires Holding(host.trace) && UsableMtu(start.usedMtu) && start.error.None? && start.mtuFromReply1 == r.mtu
    requires (start.serverSecurity <==> r.cookie.Some?) && (r.cookie.Some? ==> start.securityCookie == r.cookie.value)
    modifies host
    ensures Packets(host.trace) ==
            old(Packets(host.trace)) + SecondExchange(net, ip, port, start.clientGuid, start.usedMtu, n, r)
    ensures Kept(host.trace, flow) && flow != Continue
    ensures CaughtAs(result, flow) == Answered2(net, start, n)
  {
    hide Request2, Parsed2, After2, Packets, StatusOf;
    result := start;
    var finalMtu := result.usedMtu;
    if result.mtuFromReply1 >= 576 && result.mtuFromReply1 <= 1492 {
      finalMtu := result.mtuFromReply1;
    }
    var req2 := BuildOpenConnectionRequest2(
      ip, port, finalMtu, result.clientGuid, result.serverSecurity, result.securityCookie);
    var thrown := SendPacket(host, net, n + 1, req2);
    if thrown {
      return result, Threw(SendFailed);
    }
    var reply2 := RecvPacket(host, net, n + 1);
    if reply2.None? {
      result := result.(error := Some(Timeout2));
      host.Close();
      host.FreeAddrInfo();
      return result, Returned;
    }
    result, flow := ReadReply2(host, reply2.value, result);
  }

  /** The result once the handler has put down what was thrown. */
  function CaughtAs(r: OpenResult, flow: Flow): OpenResult {
    if flow.Threw? then r.(error := Some(Exception(flow.thrown))) else r
  }

  lemma After1Keeps(r: OpenResult, d: Bytes)
    ensures var r' := After1(r, d);
            r'.usedMtu == r.usedMtu && r'.clientGuid == r.clientGuid && r'.error == r.error
  {
  }

  lemma FreshTrace()
    ensures Packets([]) == [] && forall r :: StatusOf([], r) == Untouched
  {
  }

  /** Whether a run comes to hold a socket at all. */
  predicate Talks(net: Network) {
    net.resolution.Resolved? && net.socketGiven
  }

  /** The packets of a whole run. */
  function Exchanged(net: Network, port: u16, mtu: int, guid: u64): seq<Event> {
    if Talks(net) then
      UsableTries(mtu);
      Dialogue(net, TryList(mtu), net.resolution.ip, port, guid)
    else []
  }

  /** What a run leaves in the trace: everything it acquired given back, and these packets. */
  predicate Ran(trace: seq<Event>, net: Network, port: u16, mtu: int, guid: u64) {
    && StatusOf(trace, AddrInfo) == (if net.resolution.Resolved? then Freed else Untouched)
    && StatusOf(trace, Socket) == (if Talks(net) then Freed else Untouched)
    && Packets(trace) == Exchanged(net, port, mtu, guid)
  }

  lemma UsableTries(mtu: int)
    ensures forall v | v in TryList(mtu) :: UsableMtu(v)
  {
    AddedMtusAre(mtu, 10);
  }

  /** openConnection. Each return gives back what is held where it stands; what is thrown reaches the
      handler, which gives back what is then held. */
  method OpenConnection(host: Host, net: Network, port: u16, mtu: int, guid: u64) returns (result: OpenResult)
    requires host.trace == []
    modifies host
    ensures Ran(host.trace, net, port, mtu, guid)
    ensures result == Outcome(net, mtu, guid)
  {
    FreshTrace();
    hide Dialogue, Talked, TryList, Packets, StatusOf;
    result := Initial(mtu, guid);
    var res, sock := false, false;
    var flow := Returned;
    label Try: {
      if net.resolution.Unresolvable? {
        result := result.(error := Some(ResolveFailed));
        return;
      }
      if net.resolution.NoAddress? {
        result := result.(error := Some(EmptyResolution));
        return;
      }
      host.Do(Acquire(AddrInfo));
      res := true;
      result := result.(resolved := Some((net.resolution.ip, net.resolution.port)));
      if !net.socketGiven {
        result := result.(error := Some(SocketFailed));
        host.FreeAddrInfo();
        return;
      }
      host.Do(Acquire(Socket));
      sock := true;
      result, flow := Talk(host, net, port, mtu, result);
      if flow.Threw? {
        break Try;
      }
      return;
    }
    if sock {
      host.Close();
    }
    if res {
      host.FreeAddrInfo();
    }
    result := result.(error := Some(Exception(flow.thrown)));
  }

  /** Everything that goes over the socket. */
  method Talk(host: Host, net: Network, port: u16, mtu: int, start: OpenResult)
    returns (result: OpenResult, flow: Flow)
    requires Holding(host.trace) && Packets(host.trace) == [] && Talks(net)
    requires start == Initial(mtu, start.clientGuid).(resolved := start.resolved)
    modifies host
    ensures Packets(host.trace) == Exchanged(net, port, mtu, start.clientGuid)
    ensures Kept(host.trace, flow) && flow != Continue
    ensures CaughtAs(result, flow) == Talked(net, start, TryList(mtu))
  {
    hide Attempted, Concluded, Finished, TryList, Packets, StatusOf;
    var mtuList := BuildMtuTryList(mtu);
    UsableTries(mtu);
    var reply1, index;
    result, flow, reply1, index := TryCandidates(host, net, mtuList, start);
    if flow != Continue {
      return;
    }
    result, flow := Conclude(host, net, net.resolution.ip, port, index, reply1, result);
  }

  // ---------- what every run keeps ----------

  /** A packet openConnection may send: a Request1 of a usable MTU, 28 bytes shorter than it, or a
      Request2 that carries a usable MTU. */
  ghost predicate GoodPacket(p: Bytes) {
    || (exists v: int | UsableMtu(v) :: p == Request1(v) && |p| == v - 28)
    || (|p| >= 34 && p[0] == REQUEST_2 && UsableMtu(MtuField(p)))
  }

  ghost predicate GoodPackets(es: seq<Event>) {
    forall e | e in es && e.Send? :: GoodPacket(e.packet)
  }

  lemma GoodRequest1(v: int)
    requires UsableMtu(v)
    ensures GoodPacket(Request1(v))
  {
  }

  lemma {:induction false} AttemptsGood(net: Network, list: seq<int>, i: nat)
    requires forall v | v in list :: UsableMtu(v)
    ensures GoodPackets(Attempted(net, list, i))
    decreases |list| - i
  {
    hide GoodPacket, Request1;
    if i < |list| {
      assert list[i] in list;
      GoodRequest1(list[i]);
      AttemptsGood(net, list, i + 1);
    }
  }

  lemma ConcludedGood(net: Network, ip: Ip, port: u16, guid: u64, used: int, n: nat, d: Bytes)
    requires UsableMtu(used)
    ensures GoodPackets(Concluded(net, ip, port, guid, used, n, d))
  {
    hide Request2, Parsed1;
    if Parsed1(d).Ok? {
      var r := Parsed1(d).value;
      Request2Carries(ip, port, FinalMtu(r.mtu, used), guid, r.cookie);
    }
  }

  lemma DialogueGood(net: Network, list: seq<int>, ip: Ip, port: u16, guid: u64)
    requires forall v | v in list :: UsableMtu(v)
    ensures GoodPackets(Dialogue(net, list, ip, port, guid))
  {
    hide GoodPacket, Attempted, Concluded;
    AttemptsGood(net, list, 0);
    match Attempts(net, list, 0)
    case Answered(n, d) => ConcludedGood(net, ip, port, guid, list[n], n, d);
    case _ =>
  }

  /** How often an event occurs. */
  function Count(trace: seq<Event>, e: Event): nat {
    if trace == [] then 0
    else Count(trace[..|trace| - 1], e) + if trace[|trace| - 1] == e then 1 else 0
  }

  /** How often a trace that is not broken acquires and releases a resource. */
  lemma {:induction false} Counts(trace: seq<Event>, r: Resource)
    requires StatusOf(trace, r) != Broken
    ensures Count(trace, Acquire(r)) == if StatusOf(trace, r) == Untouched then 0 else 1
    ensures Count(trace, Release(r)) == if StatusOf(trace, r) == Freed then 1 else 0
  {
    if trace != [] {
      Counts(trace[..|trace| - 1], r);
    }
  }

  /** In such a trace every packet goes over a held socket. */
  lemma {:induction false} PacketsOverSocket(trace: seq<Event>, i: nat)
    requires StatusOf(trace, Socket) != Broken && i < |trace| && OnWire(trace[i])
    ensures StatusOf(trace[..i], Socket) == Held
  {
    var n := |trace| - 1;
    if i < n {
      PacketsOverSocket(trace[..n], i);
      assert trace[..n][..i] == trace[..i];
    }
  }

  lemma {:induction false} PacketIn(trace: seq<Event>, e: Event)
    requires e in trace && OnWire(e)
    ensures e in Packets(trace)
  {
    var n := |trace| - 1;
    if trace[n] != e {
      PacketIn(trace[..n], e);
    }
  }

  /** On every run against every network: what is acquired is released exactly once and nothing else
      is released, packets go only over the socket while it is held, and every packet sent is good. */
  lemma RunsAreSafe(trace: seq<Event>, net: Network, port: u16, mtu: int, guid: u64)
    requires Ran(trace, net, port, mtu, guid)
    ensures forall r :: Count(trace, Acquire(r)) == Count(trace, Release(r)) <= 1
    ensures forall i | 0 <= i < |trace| && OnWire(trace[i]) :: StatusOf(trace[..i], Socket) == Held
    ensures forall e | e in trace && e.Send? :: GoodPacket(e.packet)
  {
    hide GoodPacket, Dialogue, StatusOf, Packets, TryList, Count;
    forall r: Resource
      ensures Count(trace, Acquire(r)) == Count(trace, Release(r)) <= 1
    {
      match r
      case AddrInfo => Counts(trace, AddrInfo);
      case Socket => Counts(trace, Socket);
    }
    forall i | 0 <= i < |trace| && OnWire(trace[i])
      ensures StatusOf(trace[..i], Socket) == Held
    {
      PacketsOverSocket(trace, i);
    }
    if Talks(net) {
      UsableTries(mtu);
      DialogueGood(net, TryList(mtu), net.resolution.ip, port, guid);
    }
    forall e | e in trace && e.Send?
      ensures GoodPacket(e.packet)
    {
      PacketIn(trace, e);
    }
  }

  // ---------- what a run reports ----------

  /** The candidates tried are a prefix of the list, without duplicates and all usable. */
  lemma TriedAre(net: Network, mtu: int, guid: u64)
    ensures var r := Outcome(net, mtu, guid);
            && r.triedMtus <= TryList(mtu) && Distinct(r.triedMtus)
            && forall v | v in r.triedMtus :: UsableMtu(v)
  {
    AddedMtusAre(mtu, 10);
    hide TryList, AddedMtus, Finished, Distinct;
    var list, t := TryList(mtu), Attempts(net, TryList(mtu), 0);
    PrefixDistinct(list, TriedCount(t, list));
    PrefixDistinct(list, 0);
    assert list[..0] == [];
    if Talks(net) && t.Answered? {
      FinishedKeeps(net, Started(net, mtu, guid, t), t.n, t.packet);
    }
  }

  /** The MTU a run uses is the last one it tried, and its payload is the Request1 that was answered. */
  lemma UsedIs(net: Network, mtu: int, guid: u64)
    ensures var r := Outcome(net, mtu, guid);
            r.usedMtu == -1 ||
            (&& |r.triedMtus| > 0 && r.usedMtu == r.triedMtus[|r.triedMtus| - 1]
             && UsableMtu(r.usedMtu) && r.request1PayloadSize == |Request1(r.usedMtu)|)
  {
    UsableTries(mtu);
    hide TryList, Finished, Request1;
    var t := Attempts(net, TryList(mtu), 0);
    if Talks(net) && t.Answered? {
      FinishedKeeps(net, Started(net, mtu, guid, t), t.n, t.packet);
    }
  }

  lemma PrefixDistinct(list: seq<int>, n: nat)
    requires n <= |list| && Distinct(list)
    ensures Distinct(list[..n]) && forall v | v in list[..n] :: v in list
  {
  }

  /** The answers' fields leave the rest of the result alone. */
  lemma AnswersKeep(r: OpenResult, d: Bytes)
    ensures var a, b := After1(r, d), After2(r, d);
            && a.triedMtus == b.triedMtus == r.triedMtus && a.usedMtu == b.usedMtu == r.usedMtu
            && a.request1PayloadSize == b.request1PayloadSize == r.request1PayloadSize
            && a.ok == b.ok == r.ok && a.error == b.error == r.error
  {
    hide Word, ReadAddress;
  }

  lemma FinishedKeeps(net: Network, r: OpenResult, n: nat, d: Bytes)
    ensures var r' := Finished(net, r, n, d);
            && r'.triedMtus == r.triedMtus && r'.usedMtu == r.usedMtu && r'.request1PayloadSize == r.request1PayloadSize
  {
    hide After1, After2, Parsed1, Parsed2;
    AnswersKeep(r, d);
    if net.arrives(n + 1).Some? {
      AnswersKeep(After1(r, d), net.arrives(n + 1).value);
    }
  }

  ghost predicate OnWire1(d: Bytes) {
    exists q, flag, tail :: Layout1(d, q, flag, tail)
  }

  ghost predicate OnWire2(d: Bytes) {
    exists q, flag, tail :: Layout2(d, q, flag, tail)
  }

  /** The handshake succeeds exactly when the name resolves, a socket is given, some candidate is
      answered first by a Reply1 of the wire layout, and Request2 goes out and is answered by a
      Reply2 of the wire layout; success and error exclude each other. */
  lemma SucceedsExactly(net: Network, mtu: int, guid: u64)
    ensures var r := Outcome(net, mtu, guid);
            var t := Attempts(net, TryList(mtu), 0);
            && (r.ok <==> r.error.None?)
            && (r.ok <==>
                  && Talks(net) && t.Answered? && OnWire1(t.packet)
                  && net.sends(t.n + 1) && net.arrives(t.n + 1).Some? && OnWire2(net.arrives(t.n + 1).value))
  {
    hide TryList, OnWire1, OnWire2, Parsed1, Parsed2, After1, After2;
    var t := Attempts(net, TryList(mtu), 0);
    if Talks(net) && t.Answered? {
      var used := Started(net, mtu, guid, t);
      Readable1(t.packet);
      AnswersKeep(used, t.packet);
      if net.arrives(t.n + 1).Some? {
        var d2 := net.arrives(t.n + 1).value;
        Readable2(d2);
        AnswersKeep(After1(used, t.packet), d2);
      }
    }
  }

  /** The result when the n-th candidate is answered. */
  function Started(net: Network, mtu: int, guid: u64, t: Tried): OpenResult
    requires Talks(net) && t.Answered? && t.n < |TryList(mtu)|
  {
    var used := TryList(mtu)[t.n];
    Initial(mtu, guid).(resolved := Some((net.resolution.ip, net.resolution.port)),
                        triedMtus := TryList(mtu)[..t.n + 1],
                        usedMtu := used, request1PayloadSize := used - UDP_IPV4_HEADER_SIZE)
  }

  lemma Readable1(d: Bytes)
    ensures Parsed1(d).Ok? <==> OnWire1(d)
  {
    hide Layout1, Parsed1;
    if Parsed1(d).Ok? {
      Parses1Exactly(d, Parsed1(d).value);
    }
    forall q: Reply1, flag: byte, tail: Bytes | Layout1(d, q, flag, tail)
      ensures Parsed1(d).Ok?
    {
      Parses1Exactly(d, q);
    }
  }

  lemma Readable2(d: Bytes)
    ensures Parsed2(d).Ok? <==> OnWire2(d)
  {
    hide Layout2, Parsed2;
    if Parsed2(d).Ok? {
      Parses2Exactly(d, Parsed2(d).value);
    }
    forall q: Reply2, flag: byte, tail: Bytes | Layout2(d, q, flag, tail)
      ensures Parsed2(d).Ok?
    {
      Parses2Exactly(d, q);
    }
  }
}
