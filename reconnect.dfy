// UDP discovery of the master and the TCP reconnect backoff of
// wired_solution/nodejs/server.js. Sockets and timers are replaced by the
// events that drive them: a UDP message, a TCP connect, a close or error,
// and the firing of the reconnect timer.

module Reconnect {
  import opened Bytes

  const BaseDelay: nat := 1000     // TCP_RECONNECT_BASE_MS
  const MaxDelay: nat := 15000     // TCP_RECONNECT_MAX_MS
  const DiscoveryReply := "Here I am, eLocker"

  /** `Math.min(tcpReconnectDelay * 2, TCP_RECONNECT_MAX_MS)` */
  function Doubled(d: nat): (r: nat)
    ensures r <= MaxDelay && r <= 2 * d
    ensures r == 2 * d || r == MaxDelay
  {
    Min(d * 2, MaxDelay)
  }

  /** The delay after k timer fires with no successful connect in between. */
  function Backoff(d: nat, k: nat): nat
  {
    if k == 0 then d else Doubled(Backoff(d, k - 1))
  }

  /** Starting from the base, the k-th reconnect waits min(1000 * 2^k, 15000). */
  lemma {:induction false} BackoffClosedForm(k: nat)
    ensures Backoff(BaseDelay, k) == Min(BaseDelay * Pow2(k), MaxDelay)
  {
    if k > 0 {
      BackoffClosedForm(k - 1);
    }
  }

  /** Four doublings reach the cap; it is never exceeded afterwards. */
  lemma BackoffReachesCap(k: nat)
    requires k >= 4
    ensures Backoff(BaseDelay, k) == MaxDelay
  {
    BackoffClosedForm(k);
    Pow2Grows(4, k);
  }

  lemma {:induction false} Pow2Grows(j: nat, k: nat)
    requires j <= k
    ensures Pow2(j) <= Pow2(k)
  {
    if j < k {
      Pow2Grows(j, k - 1);
    }
  }

  /** String.prototype.trim over ASCII whitespace. */
  predicate IsSpace(c: char)
  {
    c == ' ' || c == '\t' || c == '\n' || c == '\r' || c == '\U{0B}' || c == '\U{0C}'
  }

  function TrimStart(s: string): (r: string)
    ensures |r| <= |s| && r == s[|s| - |r|..]
    ensures r == [] || !IsSpace(r[0])
    ensures forall i :: 0 <= i < |s| - |r| ==> IsSpace(s[i])
  {
    if s != [] && IsSpace(s[0]) then TrimStart(s[1..]) else s
  }

  function TrimEnd(s: string): (r: string)
    ensures |r| <= |s| && r == s[..|r|]
    ensures r == [] || !IsSpace(r[|r| - 1])
    ensures forall i :: |r| <= i < |s| ==> IsSpace(s[i])
  {
    if s != [] && IsSpace(s[|s| - 1]) then TrimEnd(s[..|s| - 1]) else s
  }

  function Trim(s: string): string
  {
    TrimEnd(TrimStart(s))
  }

  /** The discovery reply with whitespace around it is still recognised. */
  lemma TrimPadded(pre: string, post: string)
    requires forall i :: 0 <= i < |pre| ==> IsSpace(pre[i])
    requires forall i :: 0 <= i < |post| ==> IsSpace(post[i])
    ensures Trim(pre + DiscoveryReply + post) == DiscoveryReply
  {
    TrimStartSkips(pre, DiscoveryReply + post);
    assert pre + DiscoveryReply + post == pre + (DiscoveryReply + post);
    TrimEndSkips(DiscoveryReply, post);
  }

  lemma {:induction false} TrimStartSkips(pre: string, s: string)
    requires forall i :: 0 <= i < |pre| ==> IsSpace(pre[i])
    requires s != [] && !IsSpace(s[0])
    ensures TrimStart(pre + s) == s
  {
    if pre != [] {
      assert (pre + s)[1..] == pre[1..] + s;
      TrimStartSkips(pre[1..], s);
    } else {
      assert pre + s == s;
    }
  }

  lemma {:induction false} TrimEndSkips(s: string, post: string)
    requires forall i :: 0 <= i < |post| ==> IsSpace(post[i])
    requires s != [] && !IsSpace(s[|s| - 1])
    ensures TrimEnd(s + post) == s
  {
    if post != [] {
      assert (s + post)[..|s + post| - 1] == s + post[..|post| - 1];
      TrimEndSkips(s, post[..|post| - 1]);
    } else {
      assert s + post == s;
    }
  }

  /** The discovery and reconnect state of the gateway. */
  class PeerLink {
    var peerIp: string           // discoveredPeer.ip; "" while unknown
    var peerPort: int            // discoveredPeer.port
    var broadcasting: bool       // udpBroadcastTimer is set
    var connects: nat            // connectTcp calls that opened a socket
    var reconnectPending: bool   // tcpReconnectTimer is set
    var pendingWait: nat         // the delay that timer was set with
    var reconnectDelay: nat      // tcpReconnectDelay

    ghost predicate Valid()
      reads this
    {
      BaseDelay <= reconnectDelay <= MaxDelay
      && (reconnectPending ==> BaseDelay <= pendingWait <= MaxDelay)
      && (peerIp == [] ==> connects == 0)
    }

    /** Start-up, once the UDP socket is bound and broadcasting. */
    constructor()
      ensures Valid() && peerIp == [] && broadcasting && connects == 0
      ensures !reconnectPending && reconnectDelay == BaseDelay
    {
      peerIp := [];
      peerPort := 0;
      broadcasting := true;
      connects := 0;
      reconnectPending := false;
      pendingWait := 0;
      reconnectDelay := BaseDelay;
    }

    /** connectTcp: nothing while no peer is known. */
    method ConnectTcp()
      requires Valid()
      modifies this
      ensures Valid()
      ensures connects == if old(peerIp) == [] then old(connects) else old(connects) + 1
      ensures peerIp == old(peerIp) && peerPort == old(peerPort) && broadcasting == old(broadcasting)
      ensures reconnectPending == old(reconnectPending) && pendingWait == old(pendingWait)
      ensures reconnectDelay == old(reconnectDelay)
    {
      if peerIp == [] {
        return;
      }
      connects := connects + 1;
    }

    /** `udpSocket.on('message')`: the first discovery reply from a sender
        with an address fixes the peer, stops the broadcast and connects. */
    method OnUdpMessage(msg: string, address: string, port: int)
      requires Valid()
      modifies this
      ensures Valid()
      ensures Trim(msg) == DiscoveryReply && old(peerIp) == [] ==>
                peerIp == address && peerPort == port && !broadcasting
                && connects == if address == [] then old(connects) else old(connects) + 1
      ensures !(Trim(msg) == DiscoveryReply && old(peerIp) == []) ==>
                peerIp == old(peerIp) && peerPort == old(peerPort) && broadcasting == old(broadcasting)
                && connects == old(connects)
      ensures reconnectPending == old(reconnectPending) && pendingWait == old(pendingWait)
      ensures reconnectDelay == old(reconnectDelay)
    {
      if Trim(msg) == DiscoveryReply {
        if peerIp == [] {
          peerIp := address;
          peerPort := port;
          broadcasting := false;
          ConnectTcp();
        }
      }
    }

    /** `tcpSocket.on('connect')` */
    method OnConnect()
      requires Valid()
      modifies this
      ensures Valid() && reconnectDelay == BaseDelay
      ensures peerIp == old(peerIp) && peerPort == old(peerPort) && broadcasting == old(broadcasting)
      ensures connects == old(connects) && reconnectPending == old(reconnectPending) && pendingWait == old(pendingWait)
    {
      reconnectDelay := BaseDelay;
    }

    /** scheduleReconnect, run on 'close' and on 'error': while a timer is set
        it does nothing, otherwise it sets one with the current delay. */
    method ScheduleReconnect()
      requires Valid()
      modifies this
      ensures Valid() && reconnectPending
      ensures pendingWait == if old(reconnectPending) then old(pendingWait) else reconnectDelay
      ensures peerIp == old(peerIp) && peerPort == old(peerPort) && broadcasting == old(broadcasting)
      ensures connects == old(connects) && reconnectDelay == old(reconnectDelay)
    {
      if reconnectPending {
        return;
      }
      reconnectPending := true;
      pendingWait := reconnectDelay;
    }

    /** The reconnect timer fires: clear it, double the delay up to the cap,
        and connect again. */
    method OnReconnectTimer()
      requires Valid() && reconnectPending
      modifies this
      ensures Valid() && !reconnectPending
      ensures reconnectDelay == Doubled(old(reconnectDelay))
      ensures connects == if peerIp == [] then old(connects) else old(connects) + 1
      ensures peerIp == old(peerIp) && peerPort == old(peerPort) && broadcasting == old(broadcasting)
    {
      reconnectPending := false;
      reconnectDelay := Min(reconnectDelay * 2, MaxDelay);
      ConnectTcp();
    }
  }
}
