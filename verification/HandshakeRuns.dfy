/** What a run of the open handshake puts on the wire and reports, in terms of what the network does
    and of the bytes at their wire places. */
module HandshakeRuns {
  import opened Wrappers
  import opened Bits
  import opened Words
  import opened RakNetConnect
  import opened Handshake
  import RakNetPing

  // ---------- the attempts ----------

  /** The n-th candidate is the first one answered, by d: everything up to it was taken whole, nothing
      arrived for those before it. */
  ghost predicate FirstAnswer(net: Network, list: seq<int>, n: nat, d: Bytes) {
    && n < |list| && net.arrives(n) == Some(d)
    && (forall i | 0 <= i <= n :: net.sends(i)) && (forall i | 0 <= i < n :: net.arrives(i).None?)
  }

  ghost predicate Silent(net: Network, i: nat, n: nat) {
    forall j | i <= j < n :: net.sends(j) && net.arrives(j).None?
  }

  /** How the attempts end, by what the network does. */
  lemma {:induction false} AttemptsFrom(net: Network, list: seq<int>, i: nat)
    requires i <= |list|
    ensures match Attempts(net, list, i)
            case Unanswered => Silent(net, i, |list|)
            case CutShort(n) => i <= n < |list| && Silent(net, i, n) && !net.sends(n)
            case Answered(n, d) => i <= n < |list| && Silent(net, i, n) && net.sends(n) && net.arrives(n) == Some(d)
    decreases |list| - i
  {
    if i < |list| {
      AttemptsFrom(net, list, i + 1);
    }
  }

  lemma AnsweredExactly(net: Network, list: seq<int>, n: nat, d: Bytes)
    ensures Attempts(net, list, 0) == Answered(n, d) <==> FirstAnswer(net, list, n, d)
  {
    AttemptsFrom(net, list, 0);
  }

  ghost predicate Tries(e: Event, v: int) {
    UsableMtu(v) && e == Send(Request1(v))
  }

  /** On the wire each tried candidate is one Request1 of its size, in order, and then, if one was
      answered, the answer. */
  lemma {:induction false} AttemptedAre(net: Network, list: seq<int>, i: nat)
    requires i <= |list| && forall v | v in list :: UsableMtu(v)
    ensures var es, t := Attempted(net, list, i), Attempts(net, list, i);
            var n := TriedCount(t, list) - i;
            && n >= 0 && |es| == n + (if t.Answered? then 1 else 0)
            && (forall k | 0 <= k < n :: Tries(es[k], list[i + k]))
            && (t.Answered? ==> es[n] == Receive(t.packet))
    decreases |list| - i
  {
    hide Attempted, Attempts, Tries;
    if i < |list| && net.sends(i) && net.arrives(i).None? {
      AttemptedAre(net, list, i + 1);
      OneMoreTry(net, list, i);
      var n := TriedCount(Attempts(net, list, i), list) - i;
      AttemptBefore(list, i, n, Attempted(net, list, i + 1), Attempted(net, list, i));
    } else {
      LastTry(net, list, i);
    }
  }

  lemma OneMoreTry(net: Network, list: seq<int>, i: nat)
    requires i < |list| && (forall v | v in list :: UsableMtu(v)) && net.sends(i) && net.arrives(i).None?
    ensures Attempts(net, list, i) == Attempts(net, list, i + 1)
    ensures var es, rest := Attempted(net, list, i), Attempted(net, list, i + 1);
            |es| == |rest| + 1 && Tries(es[0], list[i]) && forall k | 0 < k < |es| :: es[k] == rest[k - 1]
  {
    hide Request1, UsableMtu;
    assert list[i] in list;
  }

  lemma LastTry(net: Network, list: seq<int>, i: nat)
    requires i <= |list| && (forall v | v in list :: UsableMtu(v))
    requires i < |list| ==> !net.sends(i) || net.arrives(i).Some?
    ensures var es, t := Attempted(net, list, i), Attempts(net, list, i);
            if i == |list| then es == [] && t.Unanswered?
            else
              && |es| == (if t.Answered? then 2 else 1) && !t.Unanswered? && t.n == i && Tries(es[0], list[i])
              && (t.Answered? ==> es[1] == Receive(t.packet))
  {
    hide Request1, UsableMtu;
    assert i < |list| ==> list[i] in list;
  }

  lemma AttemptBefore(list: seq<int>, i: nat, n: nat, rest: seq<Event>, es: seq<Event>)
    requires i < |list| && i + n <= |list| && 0 < n <= |es|
    requires |es| == |rest| + 1 && Tries(es[0], list[i]) && forall k | 0 < k < |es| :: es[k] == rest[k - 1]
    requires forall k | 0 <= k < n - 1 :: Tries(rest[k], list[i + 1 + k])
    ensures forall k | 0 <= k < n :: Tries(es[k], list[i + k])
  {
    hide Tries;
    forall k | 0 <= k < n
      ensures Tries(es[k], list[i + k])
    {
      if k > 0 {
        var j := k - 1;
        assert es[k] == rest[j];
        assert Tries(rest[j], list[i + 1 + j]);
      }
    }
  }

  const SIZES: seq<int> := [1492, 1400, 1300, 1200, 1100, 1000, 900, 800, 700, 576]

  function Except(list: seq<int>, v: int): seq<int> {
    if list == [] then []
    else Except(list[..|list| - 1], v) + if list[|list| - 1] == v then [] else [list[|list| - 1]]
  }

  lemma {:induction false} ExceptHolds(list: seq<int>, v: int)
    ensures forall w :: w in Except(list, v) <==> w in list && w != v
  {
    if list != [] {
      var n := |list| - 1;
      ExceptHolds(list[..n], v);
      assert list == list[..n] + [list[n]];
    }
  }

  /** The candidates: the requested MTU if it is usable, then the ten sizes without it, in order. */
  lemma CandidatesAre(mtu: int)
    ensures TryList(mtu) == (if 576 <= mtu <= 1492 then [mtu] else []) + Except(SIZES, mtu)
  {
    AddedAre(mtu, 10);
    assert SIZES[..10] == SIZES;
  }

  lemma {:induction false} AddedAre(mtu: int, n: nat)
    requires n <= 10
    ensures AddedMtus(mtu, n) == (if 576 <= mtu <= 1492 then [mtu] else []) + Except(SIZES[..n], mtu)
  {
    hide Except;
    if n > 0 {
      var v := SIZES[n - 1];
      AddedAre(mtu, n - 1);
      ExceptHolds(SIZES[..n - 1], mtu);
      ExceptLast(n, mtu);
      SizesAre(n - 1);
      assert v !in SIZES[..n - 1];
    } else {
      assert SIZES[..0] == [];
      ExceptNothing(mtu);
    }
  }

  lemma ExceptNothing(v: int)
    ensures Except([], v) == []
  {
  }

  lemma ExceptLast(n: nat, v: int)
    requires 0 < n <= 10
    ensures Except(SIZES[..n], v) == Except(SIZES[..n - 1], v) + if SIZES[n - 1] == v then [] else [SIZES[n - 1]]
  {
    assert SIZES[..n][..n - 1] == SIZES[..n - 1];
  }

  lemma SizesAre(i: nat)
    requires i < 10
    ensures DefaultMtu(i) == SIZES[i] && UsableMtu(SIZES[i]) && forall j | 0 <= j < i :: SIZES[j] > SIZES[i]
  {
  }

  // ---------- the requests, byte by byte ----------

  lemma Request1Bytes(mtu: int)
    requires UsableMtu(mtu)
    ensures var p := Request1(mtu);
            && |p| == mtu - 28 && p[0] == 0x05 && p[1..17] == RakNetPing.MAGIC && p[17] == 11
            && forall i | 18 <= i < |p| :: p[i] == 0
  {
  }

  /** A Request2 read at its wire places. */
  ghost predicate Asks(p: Bytes, ip: Ip, port: u16, mtu: int, guid: u64, cookie: Option<u32>) {
    var o := if cookie.Some? then 22 else 17;
    && |p| == o + 17 && p[0] == 0x07 && p[1..17] == RakNetPing.MAGIC
    && (cookie.Some? ==> ValueBE(p[17..21]) == cookie.value && p[21] == 0)
    && ReadAddress(p, o) == Ok((ip, port))
    && ValueBE(p[o + 7..o + 9]) == mtu && ValueBE(p[o + 9..]) == guid
  }

  lemma Request2Asks(ip: Ip, port: u16, mtu: u16, guid: u64, cookie: Option<u32>)
    ensures Asks(Request2(ip, port, mtu, guid, cookie), ip, port, mtu, guid, cookie)
  {
    hide BytesBE, ValueBE, Pow2, Address, ReadAddress;
    var p, o := Request2(ip, port, mtu, guid, cookie), if cookie.Some? then 22 else 17;
    WordSizes();
    ValueOfBytesBE(mtu, 2);
    ValueOfBytesBE(guid, 8);
    if cookie.Some? {
      ValueOfBytesBE(cookie.value, 4);
      assert p[17..21] == BytesBE(cookie.value, 4);
    }
    assert p[o..o + 7] == Address(ip, port);
    AddressExactly(p, o, ip, port);
    assert p[o + 7..o + 9] == BytesBE(mtu, 2) && p[o + 9..] == BytesBE(guid, 8);
  }

  // ---------- what follows an answer ----------

  /** The MTU Request2 asks for: the one the server offered when it is between 576 and 1492, and the one
      that was answered otherwise. */
  function Agreed(offered: int, used: int): int {
    if 576 <= offered <= 1492 then offered else used
  }

  /** In every run in which the n-th candidate is answered first, by a Reply1 of the wire layout, one
      packet follows the attempts: a Request2 that carries the MTU the server offered, or the answered
      one where that is out of bounds, the server's cookie, the resolved address with the caller's port,
      and the client's guid, each at its wire place. Whatever arrives then is the last packet. */
  lemma Request2Follows(trace: seq<Event>, net: Network, port: u16, mtu: int, guid: u64, n: nat, d: Bytes,
                        q: Reply1, flag: byte, tail: Bytes)
    requires Ran(trace, net, port, mtu, guid) && Talks(net)
    requires FirstAnswer(net, TryList(mtu), n, d) && Layout1(d, q, flag, tail)
    ensures var es := Packets(trace);
            && |es| == n + 3 + (if net.sends(n + 1) && net.arrives(n + 1).Some? then 1 else 0)
            && es[n + 1] == Receive(d) && es[n + 2].Send?
            && Asks(es[n + 2].packet, net.resolution.ip, port, Agreed(q.mtu, TryList(mtu)[n]), guid, q.cookie)
            && (|es| == n + 4 ==> es[n + 3] == Receive(net.arrives(n + 1).value))
  {
    hide TryList, Layout1, Parsed1, Request1, Request2, Asks, FirstAnswer, Attempted;
    var list := TryList(mtu);
    UsableTries(mtu);
    AnsweredExactly(net, list, n, d);
    AttemptedAre(net, list, 0);
    Parses1Exactly(d, q);
    assert list[n] in list;
    Request2Asks(net.resolution.ip, port, FinalMtu(q.mtu, list[n]), guid, q.cookie);
  }

  /** And the result of such a run: the first answer's fields, and the second answer's when one of the
      wire layout arrives. */
  lemma ReportedIs(net: Network, mtu: int, guid: u64, n: nat, d: Bytes, q: Reply1, flag: byte, tail: Bytes)
    requires Talks(net) && FirstAnswer(net, TryList(mtu), n, d) && Layout1(d, q, flag, tail)
    ensures var r := Outcome(net, mtu, guid);
            && r.clientGuid == guid && r.requestedMtu == mtu && r.usedMtu == TryList(mtu)[n]
            && r.request1PayloadSize == r.usedMtu - 28 && r.triedMtus == TryList(mtu)[..n + 1]
            && r.resolved == Some((net.resolution.ip, net.resolution.port)) && r.mtuFromReply1 == q.mtu
            && r.hasSecurityCookie == q.cookie.Some? && (q.cookie.Some? ==> r.securityCookie == q.cookie.value)
            && (!net.sends(n + 1) || net.arrives(n + 1).None? ==>
                  && !r.ok && r.serverGuid == q.guid && r.serverSecurity == q.cookie.Some?
                  && r.clientAddress.None? && r.mtuFromReply2 == -1
                  && r.error == Some(if net.sends(n + 1) then Timeout2 else Exception(SendFailed)))
  {
    hide TryList, Layout1, FirstAnswer, After2, Word, ReadAddress;
    AnsweredExactly(net, TryList(mtu), n, d);
    Parses1Exactly(d, q);
    if net.arrives(n + 1).Some? {
      After2Keeps(After1(Started(net, mtu, guid, Answered(n, d)), d), net.arrives(n + 1).value);
    }
  }

  lemma After2Keeps(r: OpenResult, d: Bytes)
    ensures var r' := After2(r, d);
            && r'.clientGuid == r.clientGuid && r'.requestedMtu == r.requestedMtu && r'.usedMtu == r.usedMtu
            && r'.request1PayloadSize == r.request1PayloadSize && r'.triedMtus == r.triedMtus
            && r'.resolved == r.resolved && r'.mtuFromReply1 == r.mtuFromReply1
            && r'.hasSecurityCookie == r.hasSecurityCookie && r'.securityCookie == r.securityCookie
  {
    hide Word, ReadAddress;
  }

  lemma SecondReported(net: Network, mtu: int, guid: u64, n: nat, d: Bytes, q: Reply1, flag: byte, tail: Bytes,
                       d2: Bytes, q2: Reply2, flag2: byte, tail2: Bytes)
    requires Talks(net) && FirstAnswer(net, TryList(mtu), n, d) && Layout1(d, q, flag, tail)
    requires net.sends(n + 1) && net.arrives(n + 1) == Some(d2) && Layout2(d2, q2, flag2, tail2)
    ensures var r := Outcome(net, mtu, guid);
            && r.ok && r.error.None? && r.serverGuid == q2.guid && r.clientAddress == Some((q2.ip, q2.port))
            && r.mtuFromReply2 == q2.mtu && r.serverSecurity == q2.security
  {
    hide TryList, Layout1, Layout2, FirstAnswer, Word, ReadAddress, After1;
    AnsweredExactly(net, TryList(mtu), n, d);
    Parses1Exactly(d, q);
    Parses2Exactly(d2, q2);
    AnswersKeep(Started(net, mtu, guid, Answered(n, d)), d);
  }

  // ---------- which error a run ends with ----------

  /** What is wrong with a first answer that is refused. */
  lemma Refused1(d: Bytes)
    ensures Parsed1(d) == Err(TooSmall1) <==> |d| < 28
    ensures Parsed1(d) == Err(UnexpectedId1) <==> |d| >= 28 && d[0] != 0x06
    ensures Parsed1(d) == Err(BadMagic1) <==> |d| >= 28 && d[0] == 0x06 && d[1..17] != RakNetPing.MAGIC
    ensures Parsed1(d) == Err(Exception(OutOfRange)) <==>
            28 <= |d| < 32 && d[0] == 0x06 && d[1..17] == RakNetPing.MAGIC && d[25] != 0
  {
    hide Word;
  }

  lemma Refused2(d: Bytes)
    ensures Parsed2(d) == Err(TooSmall2) <==> |d| < 35
    ensures Parsed2(d) == Err(UnexpectedId2) <==> |d| >= 35 && d[0] != 0x08
    ensures Parsed2(d) == Err(BadMagic2) <==> |d| >= 35 && d[0] == 0x08 && d[1..17] != RakNetPing.MAGIC
    ensures Parsed2(d) == Err(Exception(BadAddressVersion)) <==>
            |d| >= 35 && d[0] == 0x08 && d[1..17] == RakNetPing.MAGIC && d[25] != 4
  {
    hide Word;
  }

  /** A run that gets no answer to a Request1 ends for the first thing that went wrong, and reports the
      candidates it tried. */
  lemma EndsEarly(net: Network, mtu: int, guid: u64)
    ensures var r := Outcome(net, mtu, guid);
            var n := |TryList(mtu)|;
            && (r.error == Some(ResolveFailed) <==> net.resolution.Unresolvable?)
            && (r.error == Some(EmptyResolution) <==> net.resolution.NoAddress?)
            && (r.error == Some(SocketFailed) <==> net.resolution.Resolved? && !net.socketGiven)
            && (r.error == Some(Timeout1) <==> Talks(net) && Silent(net, 0, n))
            && (r.error == Some(Timeout1) ==> r.triedMtus == TryList(mtu))
            && (forall i | 0 <= i < n && Talks(net) && Silent(net, 0, i) && !net.sends(i) ::
                  r.error == Some(Exception(SendFailed)) && r.triedMtus == TryList(mtu)[..i + 1])
  {
    hide TryList, Finished;
    var list := TryList(mtu);
    var t := Attempts(net, list, 0);
    AttemptsFrom(net, list, 0);
    assert list[..|list|] == list;
    if Talks(net) && t.Answered? {
      LateErrors(net, Started(net, mtu, guid, t), t.n, t.packet);
      assert !Silent(net, 0, |list|);
    }
    forall i | 0 <= i < |list| && Silent(net, 0, i) && !net.sends(i)
      ensures t == CutShort(i)
    {
      assert t.CutShort? ==> !net.sends(t.n);
    }
  }

  lemma LateErrors(net: Network, r: OpenResult, n: nat, d: Bytes)
    requires r.error.None?
    ensures var e := Finished(net, r, n, d).error;
            && e != Some(ResolveFailed) && e != Some(EmptyResolution) && e != Some(SocketFailed) && e != Some(Timeout1)
  {
    hide Word, ReadAddress, After1, After2;
    AnswersKeep(r, d);
    if net.arrives(n + 1).Some? {
      AnswersKeep(After1(r, d), net.arrives(n + 1).value);
    }
  }

  /** A run whose first or second answer is refused reports what is wrong with it. */
  lemma EndsRefused(net: Network, mtu: int, guid: u64, n: nat, d: Bytes)
    requires Talks(net) && FirstAnswer(net, TryList(mtu), n, d)
    ensures var r := Outcome(net, mtu, guid);
            && (Parsed1(d).Err? ==> r.error == Some(Parsed1(d).error) && !r.ok)
            && (Parsed1(d).Ok? && net.sends(n + 1) && net.arrives(n + 1).Some? ==>
                  var second := Parsed2(net.arrives(n + 1).value);
                  second.Err? ==> r.error == Some(second.error) && !r.ok)
  {
    hide TryList, FirstAnswer, After1, After2, Parsed1, Parsed2;
    AnsweredExactly(net, TryList(mtu), n, d);
    var used := Started(net, mtu, guid, Answered(n, d));
    AnswersKeep(used, d);
    if net.arrives(n + 1).Some? {
      AnswersKeep(After1(used, d), net.arrives(n + 1).value);
    }
  }

  /** Without an answer nothing is reported of one. */
  lemma NothingLearned(net: Network, mtu: int, guid: u64)
    requires !Talks(net) || !Attempts(net, TryList(mtu), 0).Answered?
    ensures var r := Outcome(net, mtu, guid);
            && !r.ok && r.clientGuid == guid && r.requestedMtu == mtu && r.serverGuid == 0 && r.clientAddress.None?
            && r.usedMtu == r.request1PayloadSize == r.mtuFromReply1 == r.mtuFromReply2 == -1
            && !r.serverSecurity && !r.hasSecurityCookie && r.securityCookie == 0
  {
    hide TryList;
  }

  /** A first answer that ends inside its cookie or its MTU leaves what was read before it. */
  lemma CutOff(r: OpenResult, d: Bytes)
    requires 28 <= |d| < 32 && d[0] == 0x06 && d[1..17] == RakNetPing.MAGIC && d[25] != 0
    ensures var r' := After1(r, d);
            && r'.serverGuid == ValueBE(d[17..25]) && r'.serverSecurity && r'.mtuFromReply1 == r.mtuFromReply1
            && (if |d| < 30 then !r'.hasSecurityCookie || r.hasSecurityCookie
                else r'.hasSecurityCookie && r'.securityCookie == ValueBE(d[26..30]))
  {
    hide ValueBE;
  }

  /** A second answer with a foreign address leaves the server's guid only. */
  lemma ForeignAddress(r: OpenResult, d: Bytes)
    requires |d| >= 35 && d[0] == 0x08 && d[1..17] == RakNetPing.MAGIC && d[25] != 4
    ensures After2(r, d) == r.(serverGuid := After2(r, d).serverGuid) && After2(r, d).serverGuid == ValueBE(d[17..25])
  {
    hide ValueBE;
  }
}
