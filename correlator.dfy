// The single-pending-resolver request/response correlator of the gateway's
// sensor port (`sendAndWait`, its timer, and the `validatePacket` branch of
// the receive loop in wired_solution/nodejs/server.js and nodejs/serial.js).
// Promises are numbered in the order sendAndWait creates them; timers are
// events rather than clocks.

module Correlator {
  import opened Bytes
  import SensorFrame

  /** The correlator's state.
      - `resolver`: whose resolve function `sensorResolver` holds, if any.
      - `timeoutHdl`: whose timer `sensorTimeoutHdl` names, if any.
      - `armed`: timers set and neither fired nor cleared.
      - `settled`: what each settled promise resolved with (None for null).
      - `issued`: how many sendAndWait calls there were. */
  datatype Link = Link(resolver: Option<nat>, timeoutHdl: Option<nat>, armed: set<nat>,
                       settled: map<nat, Option<seq<Byte>>>, issued: nat)

  const Initial := Link(None, None, {}, map[], 0)

  /** `resolve(v)` on promise n: a promise that has settled keeps its value. */
  function Settle(settled: map<nat, Option<seq<Byte>>>, n: nat, v: Option<seq<Byte>>): (r: map<nat, Option<seq<Byte>>>)
    ensures n in r && r[n] == (if n in settled then settled[n] else v)
    ensures r.Keys == settled.Keys + {n}
    ensures forall m :: m in settled ==> r[m] == settled[m]
  {
    if n in settled then settled else settled[n := v]
  }

  /** sendAndWait: a new promise takes the resolver slot and a timer. */
  function Send(s: Link): (r: Link)
  {
    Link(Some(s.issued), Some(s.issued), s.armed + {s.issued}, s.settled, s.issued + 1)
  }

  /** The write callback of request n with an error: the slot is emptied,
      whoever holds it, and promise n resolves null. Its timer stays set. */
  function WriteFailed(s: Link, n: nat): (r: Link)
    requires n < s.issued
  {
    s.(resolver := None, settled := Settle(s.settled, n, None))
  }

  /** Request n's timer as written: `if (sensorResolver)` tests for any
      resolver, so the slot is emptied and promise n resolves null even when
      the slot belongs to a later request. */
  function TimerFiredAsWritten(s: Link, n: nat): (r: Link)
    requires n in s.armed
  {
    if s.resolver.Some? then
      s.(resolver := None, armed := s.armed - {n}, settled := Settle(s.settled, n, None))
    else
      s.(armed := s.armed - {n})
  }

  /** Request n's timer as intended: promise n resolves null if it has not
      settled, and the slot is emptied only if it is still n's. */
  function TimerFired(s: Link, n: nat): (r: Link)
    requires n in s.armed
  {
    s.(resolver := if s.resolver == Some(n) then None else s.resolver,
       armed := s.armed - {n},
       settled := Settle(s.settled, n, None))
  }

  /** A packet that passed validatePacket: the holder of the slot gets it and
      its timer is cleared; with no holder the packet is dropped. */
  function Deliver(s: Link, packet: seq<Byte>): (r: Link)
  {
    match s.resolver
    case None => s
    case Some(m) =>
      s.(resolver := None,
         armed := if s.timeoutHdl.Some? then s.armed - {s.timeoutHdl.value} else s.armed,
         settled := Settle(s.settled, m, Some(packet)))
  }

  /** The receive loop's handling of one sliced candidate. */
  function Receive(s: Link, candidate: seq<Byte>): Link
  {
    if SensorFrame.ValidatePacket(candidate) then Deliver(s, candidate) else s
  }

  /** Receive over the candidates of one data event, in order. */
  function ReceiveAll(s: Link, candidates: seq<seq<Byte>>): Link
  {
    if candidates == [] then s
    else Receive(ReceiveAll(s, candidates[..|candidates| - 1]), candidates[|candidates| - 1])
  }

  // ---------------------------------------------------------------------
  // Invariants

  /** What every reachable state satisfies: only issued requests appear, the
      resolver and the handle name the same request, and a request that
      holds the slot has not settled and has its timer set. */
  ghost predicate WellFormed(s: Link)
  {
    (forall n :: n in s.armed ==> n < s.issued)
    && (forall n :: n in s.settled ==> n < s.issued)
    && (s.resolver.Some? ==> s.timeoutHdl == s.resolver && s.resolver.value < s.issued
                             && s.resolver.value !in s.settled && s.resolver.value in s.armed)
  }

  /** Liveness of the intended correlator: every request that has not settled
      still has a timer that will settle it. */
  ghost predicate Live(s: Link)
  {
    forall n :: 0 <= n < s.issued && n !in s.settled ==> n in s.armed
  }

  /** A promise that has settled keeps its value: `s2` extends `s1`. */
  ghost predicate Extends(s1: Link, s2: Link)
  {
    s1.issued <= s2.issued && forall n :: n in s1.settled ==> n in s2.settled && s2.settled[n] == s1.settled[n]
  }

  lemma InitialWellFormed()
    ensures WellFormed(Initial) && Live(Initial)
  {
  }

  lemma SendKeeps(s: Link)
    requires WellFormed(s)
    ensures WellFormed(Send(s)) && Extends(s, Send(s)) && (Live(s) ==> Live(Send(s)))
    ensures Send(s).resolver == Some(s.issued) && s.issued !in Send(s).settled
  {
  }

  lemma WriteFailedKeeps(s: Link, n: nat)
    requires WellFormed(s) && n < s.issued
    ensures WellFormed(WriteFailed(s, n)) && Extends(s, WriteFailed(s, n))
    ensures Live(s) ==> Live(WriteFailed(s, n))
    ensures n in WriteFailed(s, n).settled
  {
  }

  lemma TimerFiredKeeps(s: Link, n: nat)
    requires WellFormed(s) && Live(s) && n in s.armed
    ensures WellFormed(TimerFired(s, n)) && Live(TimerFired(s, n)) && Extends(s, TimerFired(s, n))
    ensures n in TimerFired(s, n).settled
  {
  }

  lemma DeliverKeeps(s: Link, packet: seq<Byte>)
    requires WellFormed(s)
    ensures WellFormed(Deliver(s, packet)) && Extends(s, Deliver(s, packet))
    ensures Live(s) ==> Live(Deliver(s, packet))
    ensures s.resolver.Some? ==> Deliver(s, packet).settled[s.resolver.value] == Some(packet)
    ensures s.resolver.None? ==> Deliver(s, packet) == s
  {
  }

  lemma {:induction false} ReceiveAllKeeps(s: Link, candidates: seq<seq<Byte>>)
    requires WellFormed(s)
    ensures WellFormed(ReceiveAll(s, candidates)) && Extends(s, ReceiveAll(s, candidates))
    ensures Live(s) ==> Live(ReceiveAll(s, candidates))
  {
    if candidates != [] {
      var p := ReceiveAll(s, candidates[..|candidates| - 1]);
      ReceiveAllKeeps(s, candidates[..|candidates| - 1]);
      var last := candidates[|candidates| - 1];
      if SensorFrame.ValidatePacket(last) {
        DeliverKeeps(p, last);
      }
    }
  }

  /** The written timer keeps the state well formed and never overwrites a
      settled promise; what it loses is liveness (see StaleTimerStrands). */
  lemma TimerFiredAsWrittenKeeps(s: Link, n: nat)
    requires WellFormed(s) && n in s.armed
    ensures WellFormed(TimerFiredAsWritten(s, n)) && Extends(s, TimerFiredAsWritten(s, n))
  {
  }

  // ---------------------------------------------------------------------
  // Happy paths

  /** A request answered before its timer: it resolves with the packet and
      its timer is cleared, so it can no longer fire. */
  lemma AnsweredInTime(s: Link, packet: seq<Byte>)
    requires WellFormed(s)
    ensures var r := Deliver(Send(s), packet);
            r.settled[s.issued] == Some(packet) && s.issued !in r.armed && r.resolver.None?
  {
  }

  /** A request nobody answers resolves null when its timer fires, with the
      timer as written and as intended alike. */
  lemma UnansweredTimesOut(s: Link)
    requires WellFormed(s)
    ensures s.issued in Send(s).armed
    ensures var r := TimerFiredAsWritten(Send(s), s.issued);
            r.settled[s.issued] == None && r.resolver.None?
    ensures TimerFired(Send(s), s.issued) == TimerFiredAsWritten(Send(s), s.issued)
  {
  }

  /** A packet while no request is waiting changes nothing. */
  lemma NoResolverDrops(s: Link, packet: seq<Byte>)
    requires s.resolver.None?
    ensures Receive(s, packet) == s
  {
  }

  // ---------------------------------------------------------------------
  // The stale timer

  /** Request 0's write fails, so /getStatus moves on and sends request 1.
      Request 0's timer is still set. With the written timer it empties the
      slot request 1 holds, request 1's own timer then finds no resolver, and
      request 1 is left with no timer and no resolver: its await never
      returns. The intended timer settles request 1 instead. */
  lemma StaleTimerStrands()
    ensures var s1 := Send(WriteFailed(Send(Initial), 0));
            0 in s1.armed && 1 in s1.armed && s1.resolver == Some(1)
            && var s2 := TimerFiredAsWritten(s1, 0);
               1 in s2.armed
               && var s3 := TimerFiredAsWritten(s2, 1);
                  1 !in s3.settled && s3.armed == {} && s3.resolver.None? && !Live(s3)
                  && Deliver(s3, [STX]) == s3
    ensures var s1 := Send(WriteFailed(Send(Initial), 0));
            var s3 := TimerFired(TimerFired(s1, 0), 1);
            s3.settled[1] == None && Live(s3)
  {
    var s1 := Send(WriteFailed(Send(Initial), 0));
    var s3 := TimerFiredAsWritten(TimerFiredAsWritten(s1, 0), 1);
    assert !(1 in s3.armed);
  }

  // ---------------------------------------------------------------------
  // The sensor port

  /** The sensor port: the receive buffer and the correlator's module state.
      Its timer is the one server.js has, so it keeps WellFormed but not Live
      (StaleTimerStrands). */
  class SensorPort {
    var recvBuffer: seq<Byte>
    var resolver: Option<nat>
    var timeoutHdl: Option<nat>
    var armed: set<nat>
    var settled: map<nat, Option<seq<Byte>>>
    var issued: nat

    ghost function State(): Link
      reads this
    {
      Link(resolver, timeoutHdl, armed, settled, issued)
    }

    ghost predicate Valid()
      reads this
    {
      WellFormed(State())
    }

    constructor()
      ensures Valid() && State() == Initial && recvBuffer == []
    {
      recvBuffer := [];
      resolver := None;
      timeoutHdl := None;
      armed := {};
      settled := map[];
      issued := 0;
    }

    /** sendAndWait: returns the number of the new promise. */
    method SendAndWait() returns (n: nat)
      requires Valid()
      modifies this
      ensures Valid() && State() == Send(old(State())) && n == old(issued)
      ensures recvBuffer == old(recvBuffer)
    {
      SendKeeps(State());
      n := issued;
      resolver := Some(n);
      armed := armed + {n};
      timeoutHdl := Some(n);
      issued := issued + 1;
    }

    /** The write callback of request n reporting an error. */
    method OnWriteError(n: nat)
      requires Valid() && n < issued
      modifies this
      ensures Valid() && State() == WriteFailed(old(State()), n) && recvBuffer == old(recvBuffer)
    {
      WriteFailedKeeps(State(), n);
      resolver := None;
      settled := Settle(settled, n, None);
    }

    /** Request n's timer firing: `if (sensorResolver)` empties the slot and
        resolves promise n with null whoever holds the slot. */
    method OnTimer(n: nat)
      requires Valid() && n in armed
      modifies this
      ensures Valid() && State() == TimerFiredAsWritten(old(State()), n) && recvBuffer == old(recvBuffer)
    {
      TimerFiredAsWrittenKeeps(State(), n);
      armed := armed - {n};
      if resolver.Some? {
        resolver := None;
        settled := Settle(settled, n, None);
      }
    }

    /** The `validatePacket` branch for one sliced candidate. */
    method Handle(packet: seq<Byte>)
      requires Valid()
      modifies this
      ensures Valid() && State() == Receive(old(State()), packet) && recvBuffer == old(recvBuffer)
    {
      if SensorFrame.ValidatePacket(packet) {
        DeliverKeeps(State(), packet);
        if resolver.Some? {
          if timeoutHdl.Some? {
            armed := armed - {timeoutHdl.value};
          }
          settled := Settle(settled, resolver.value, Some(packet));
          resolver := None;
        }
      }
    }

    /** `ssPort.on("data")`: append the chunk, then slice from the first STX to
        the first ETX after it while at least 7 bytes are buffered, handing
        every candidate that passes validatePacket to the waiting request. */
    method OnData(chunk: seq<Byte>)
      requires Valid()
      modifies this
      ensures Valid()
      ensures recvBuffer == SensorFrame.Drain(old(recvBuffer) + chunk).1
      ensures State() == ReceiveAll(old(State()), SensorFrame.Drain(old(recvBuffer) + chunk).0)
    {
      var buf := recvBuffer + chunk;
      ghost var whole := buf;
      ghost var start := State();
      ghost var done: seq<seq<Byte>> := [];
      while |buf| >= 7
        invariant done + SensorFrame.Drain(buf).0 == SensorFrame.Drain(whole).0
        invariant SensorFrame.Drain(buf).1 == SensorFrame.Drain(whole).1
        invariant Valid() && State() == ReceiveAll(start, done)
        decreases |buf|
      {
        var stx := IndexOf(buf, STX, 0);
        var etx := IndexOf(buf, ETX, stx + 1);
        SensorFrame.SliceAt(buf, stx, etx);
        if stx == -1 || etx == -1 {
          assert SensorFrame.Drain(buf) == ([], buf);
          break;
        }
        var packet := buf[stx..etx + 1];
        var rest := buf[etx + 1..];
        SensorFrame.DrainStep(buf, packet, rest);
        AppendAssoc(done, [packet], SensorFrame.Drain(rest).0);
        assert (done + [packet])[..|done|] == done;
        Handle(packet);
        buf := rest;
        done := done + [packet];
      }
      assert SensorFrame.Drain(buf) == ([], buf);
      assert done + [] == done;
      recvBuffer := buf;
    }
  }
}
