/**
 * The power controller of `class Nas`: `wake_up` and `suspend`, two
 * probe-guarded retry loops. The UDP liveness probe `ping()` is an oracle:
 * `ping(k)` is the answer of the k-th probe made during one call (true: the
 * NAS answered). This is the probe with its reply check repaired;
 * `WrittenPing` models the probe as written. Sending is modelled by
 * returning the datagrams sent, in order.
 *
 * The source's loops do not run as intended: `max_attempts =- 1` stores -1
 * instead of decrementing, and the final check reads the undefined name
 * `mac_attempts`; moreover the check `max_attempts == 0` ignores the answer of
 * the probe that ended the loop. `WakeUp` and `Suspend` model the intended
 * behaviour (decrement by one, give up after 15 commands, fail only if the
 * last probe still reports the wrong state); the loops as written are modelled
 * at the end of this module, where the three defects are exhibited.
 */
module Power {
  import opened Wrappers
  import opened WakeOnLan

  /** `max_attempts = 15` */
  const MaxAttempts: nat := 15
  /** The Wake-on-LAN broadcast goes to UDP port 9. */
  const WakePort: int := 9
  /** `b"suspend"` */
  const SuspendPayload: seq<byte> := [0x73, 0x75, 0x73, 0x70, 0x65, 0x6E, 0x64]

  /** `Nas(host, port, mac)`; the fields are never changed after construction. */
  datatype Nas = Nas(host: string, port: int, mac: string)

  datatype Destination = Broadcast(port: int) | Host(host: string, port: int)

  datatype Datagram = Datagram(to: Destination, payload: seq<byte>)

  /**
   * How a call ends: the NAS reached the wanted state, the attempts ran out
   * ("Failed to ... after multiple attempts"), or the MAC did not hex-decode
   * (`ValueError` from `bytes.fromhex`, only possible in `wake_up`).
   */
  datatype Outcome = Reached | Exhausted | InvalidMac

  /**
   * The number of commands a probe-guarded loop sends when it starts at probe
   * `i` with `left` attempts: it sends while the probe differs from `want` and
   * attempts remain.
   */
  function Attempts(ping: nat -> bool, want: bool, i: nat, left: nat): (n: nat)
    ensures n <= left
    decreases left
  {
    if ping(i) == want || left == 0 then 0
    else 1 + Attempts(ping, want, i + 1, left - 1)
  }

  /** The loop sends one command per probe that reports the wrong state and stops at the first right one. */
  lemma {:induction false} AttemptsStopAtFirstAnswer(ping: nat -> bool, want: bool, i: nat, left: nat)
    ensures forall k :: i <= k < i + Attempts(ping, want, i, left) ==> ping(k) != want
    ensures Attempts(ping, want, i, left) < left ==> ping(i + Attempts(ping, want, i, left)) == want
    decreases left
  {
    if ping(i) != want && left > 0 {
      AttemptsStopAtFirstAnswer(ping, want, i + 1, left - 1);
    }
  }

  /** The loop uses all its attempts and the probe after them is still wrong exactly when every one of those probes is wrong. */
  lemma {:induction false} AttemptsExhaustedIff(ping: nat -> bool, want: bool, i: nat, left: nat)
    ensures (Attempts(ping, want, i, left) == left && ping(i + left) != want)
        <==> forall k :: i <= k <= i + left ==> ping(k) != want
  {
    AttemptsStopAtFirstAnswer(ping, want, i, left);
  }

  /** The loop sends `n` commands exactly when the first `n` probes are wrong and then a probe is right or the attempts run out. */
  lemma {:induction false} AttemptsIs(ping: nat -> bool, want: bool, i: nat, left: nat, n: nat)
    requires n <= left
    requires forall k :: i <= k < i + n ==> ping(k) != want
    requires n == left || ping(i + n) == want
    ensures Attempts(ping, want, i, left) == n
    decreases left
  {
    if n > 0 {
      AttemptsIs(ping, want, i + 1, left - 1, n - 1);
    }
  }

  /** The datagram `wake_on_lan` broadcasts for this NAS, when its MAC decodes. */
  function WakeDatagram(nas: Nas): Option<Datagram>
  {
    match WakeOnLanPayload(nas.mac)
    case None => None
    case Some(packet) => Some(Datagram(Broadcast(WakePort), packet))
  }

  /** The datagram `suspend` sends on its socket: `b"suspend"` to the NAS's host and port. */
  function SuspendDatagram(nas: Nas): Datagram {
    Datagram(Host(nas.host, nas.port), SuspendPayload)
  }

  /**
   * One call of `wake_up` against the probe answers `ping`: the wake packets
   * sent, the number of probes made and how the call ends.
   */
  ghost predicate WakeUpBehaviour(nas: Nas, ping: nat -> bool, sent: seq<Datagram>, probes: nat, outcome: Outcome) {
    if !ping(0) && WakeDatagram(nas).None? then
      sent == [] && probes == 1 && outcome == InvalidMac
    else
      && |sent| == Attempts(ping, true, 0, MaxAttempts)
      && probes == |sent| + 1
      && (forall k :: 0 <= k < |sent| ==> Some(sent[k]) == WakeDatagram(nas))
      && outcome == (if ping(|sent|) then Reached else Exhausted)
  }

  /** One call of `suspend` against the probe answers `ping`. */
  ghost predicate SuspendBehaviour(nas: Nas, ping: nat -> bool, sent: seq<Datagram>, probes: nat, outcome: Outcome) {
    && |sent| == Attempts(ping, false, 0, MaxAttempts)
    && probes == |sent| + 1
    && (forall k :: 0 <= k < |sent| ==> sent[k] == SuspendDatagram(nas))
    && outcome == (if ping(|sent|) then Exhausted else Reached)
  }

  /**
   * `Nas.wake_up`: probe, and while the NAS does not answer and attempts
   * remain, broadcast a wake packet. The probe is made before the attempt
   * counter is tested, so every call probes once more than it sends.
   */
  method WakeUp(nas: Nas, ping: nat -> bool) returns (sent: seq<Datagram>, probes: nat, outcome: Outcome)
    ensures WakeUpBehaviour(nas, ping, sent, probes, outcome)
  {
    ghost var wake := WakeDatagram(nas);
    var attempts: nat := MaxAttempts;
    sent := [];
    var alive := ping(0);
    probes := 1;
    while !alive && attempts != 0
      invariant attempts + |sent| == MaxAttempts
      invariant probes == |sent| + 1 && alive == ping(|sent|)
      invariant forall k :: 0 <= k < |sent| ==> !ping(k)
      invariant forall k :: 0 <= k < |sent| ==> Some(sent[k]) == wake
      invariant |sent| > 0 ==> wake.Some?
      decreases attempts
    {
      // `wake_on_lan` decodes the MAC string on every send; a `ValueError` ends the call.
      var packet := WakeDatagram(nas);
      if packet.None? {
        break;
      }
      sent := sent + [packet.value];
      attempts := attempts - 1;
      alive := ping(probes);
      probes := probes + 1;
    }
    outcome := if !alive && attempts != 0 then InvalidMac else if alive then Reached else Exhausted;
    WakeUpEnds(nas, ping, sent, attempts, outcome);
  }

  /** How `wake_up` ends once its loop stops: by an answer, by running out of attempts, or by a `ValueError`. */
  lemma WakeUpEnds(nas: Nas, ping: nat -> bool, sent: seq<Datagram>, attempts: nat, outcome: Outcome)
    requires attempts + |sent| == MaxAttempts
    requires forall k :: 0 <= k < |sent| ==> !ping(k)
    requires forall k :: 0 <= k < |sent| ==> Some(sent[k]) == WakeDatagram(nas)
    requires ping(|sent|) || attempts == 0 || WakeDatagram(nas).None?
    requires outcome == if !ping(|sent|) && attempts != 0 then InvalidMac else if ping(|sent|) then Reached else Exhausted
    ensures WakeUpBehaviour(nas, ping, sent, |sent| + 1, outcome)
  {
    if |sent| > 0 {
      assert Some(sent[0]) == WakeDatagram(nas);
    }
    if outcome != InvalidMac {
      AttemptsIs(ping, true, 0, MaxAttempts, |sent|);
    }
  }

  /**
   * `Nas.suspend`: probe, and while the NAS still answers and attempts remain,
   * send `b"suspend"` to it.
   */
  method Suspend(nas: Nas, ping: nat -> bool) returns (sent: seq<Datagram>, probes: nat, outcome: Outcome)
    ensures SuspendBehaviour(nas, ping, sent, probes, outcome)
  {
    ghost var command := SuspendDatagram(nas);
    var attempts: nat := MaxAttempts;
    sent := [];
    var alive := ping(0);
    probes := 1;
    while alive && attempts != 0
      invariant attempts + |sent| == MaxAttempts
      invariant probes == |sent| + 1 && alive == ping(|sent|)
      invariant forall k :: 0 <= k < |sent| ==> ping(k)
      invariant forall k :: 0 <= k < |sent| ==> sent[k] == command
      decreases attempts
    {
      sent := sent + [SuspendDatagram(nas)];
      attempts := attempts - 1;
      alive := ping(probes);
      probes := probes + 1;
    }
    AttemptsIs(ping, false, 0, MaxAttempts, |sent|);
    outcome := if attempts == 0 && alive then Exhausted else Reached;
  }

  /**
   * What a `wake_up` call promises: when the NAS answers the first probe
   * nothing is sent; otherwise at most 15 wake packets are broadcast to port 9,
   * one per unanswered probe; the call succeeds exactly when the last probe is
   * answered, raises on an undecodable MAC, and gives up exactly when all 16
   * probes go unanswered.
   */
  lemma WakeUpGuarantees(nas: Nas, ping: nat -> bool, sent: seq<Datagram>, probes: nat, outcome: Outcome)
    requires WakeUpBehaviour(nas, ping, sent, probes, outcome)
    ensures ping(0) ==> sent == [] && probes == 1 && outcome == Reached
    ensures |sent| <= MaxAttempts && forall k :: 0 <= k < |sent| ==> !ping(k)
    ensures forall d :: d in sent ==> d.to == Broadcast(WakePort) && Some(d.payload) == WakeOnLanPayload(nas.mac)
    ensures outcome == Reached <==> ping(|sent|)
    ensures outcome == InvalidMac <==> !ping(0) && WakeOnLanPayload(nas.mac).None?
    ensures WakeOnLanPayload(nas.mac).Some? ==>
      (outcome == Exhausted <==> forall k :: 0 <= k <= MaxAttempts ==> !ping(k))
    ensures outcome == Exhausted ==> |sent| == MaxAttempts
  {
    AttemptsStopAtFirstAnswer(ping, true, 0, MaxAttempts);
    AttemptsExhaustedIff(ping, true, 0, MaxAttempts);
  }

  /**
   * What a `suspend` call promises: when the NAS does not answer the first
   * probe nothing is sent; otherwise at most 15 `b"suspend"` datagrams go to
   * the NAS's host and port, one per answered probe; the call succeeds exactly
   * when the last probe goes unanswered and gives up exactly when all 16
   * probes are answered.
   */
  lemma SuspendGuarantees(nas: Nas, ping: nat -> bool, sent: seq<Datagram>, probes: nat, outcome: Outcome)
    requires SuspendBehaviour(nas, ping, sent, probes, outcome)
    ensures !ping(0) ==> sent == [] && probes == 1 && outcome == Reached
    ensures |sent| <= MaxAttempts && forall k :: 0 <= k < |sent| ==> ping(k)
    ensures forall d :: d in sent ==> d == Datagram(Host(nas.host, nas.port), SuspendPayload)
    ensures outcome == Reached <==> !ping(|sent|)
    ensures outcome == Exhausted <==> forall k :: 0 <= k <= MaxAttempts ==> ping(k)
    ensures outcome == Exhausted ==> |sent| == MaxAttempts
  {
    AttemptsStopAtFirstAnswer(ping, false, 0, MaxAttempts);
    AttemptsExhaustedIff(ping, false, 0, MaxAttempts);
  }

  // ---------------------------------------------------------------------------
  // The probe and the loops as written
  // ---------------------------------------------------------------------------

  /** What a call of `ping()` does: it returns an answer, or an exception escapes it. */
  datatype Probe = Answer(alive: bool) | AttributeError

  /**
   * `ping()` as written, given whether a reply arrived within the 2 s timeout.
   * Without a reply `recvfrom` times out, `except socket.timeout` catches it
   * and the call returns False. With a reply the check calls
   * `self.assertEqual`, which `Nas` does not have; the `AttributeError` is
   * not a `socket.timeout`, so it escapes the call.
   */
  function WrittenPing(replied: bool): (r: Probe)
    ensures r == AttributeError <==> replied
    ensures r != Answer(true)
  {
    if replied then AttributeError else Answer(false)
  }

  /**
   * How far the source's loop gets in `fuel` iterations: still sending after
   * that many commands; out of the loop after `sends` commands, where the next
   * line reads `mac_attempts` and raises `NameError`; or stopped by the
   * `ValueError` of `wake_on_lan` when the MAC does not decode.
   */
  datatype WrittenRun = StillSending(sends: nat) | NameError(sends: nat) | ValueError(sends: nat)

  /**
   * The loop of `wake_up` (`want` true) or `suspend` (`want` false) as written,
   * from probe `i` with counter value `counter`, for at most `fuel` iterations.
   * `ping` is the probe with its reply check repaired (an answer is true); with
   * line 88 as written a probe that gets a reply raises instead, see
   * `WrittenPing`.
   * The guard `ping() and max_attempts` tests the counter for truthiness; an
   * iteration of `wake_up` first calls `wake_on_lan`, which raises when the MAC
   * does not decode; each iteration ends with `max_attempts =- 1`, which
   * stores -1.
   */
  function WrittenLoop(nas: Nas, ping: nat -> bool, want: bool, i: nat, counter: int, fuel: nat): (r: WrittenRun)
    ensures r.sends <= fuel
    decreases fuel
  {
    if ping(i) == want || counter == 0 then NameError(0)
    else if fuel == 0 then StillSending(0)
    else if want && WakeOnLanPayload(nas.mac).None? then ValueError(0)
    else
      match WrittenLoop(nas, ping, want, i + 1, -1, fuel - 1)
      case StillSending(n) => StillSending(n + 1)
      case NameError(n) => NameError(n + 1)
      case ValueError(n) => ValueError(n + 1)
  }

  lemma {:induction false} WrittenLoopKeepsSending(nas: Nas, ping: nat -> bool, want: bool, i: nat, counter: int, fuel: nat)
    requires counter != 0
    requires want ==> WakeOnLanPayload(nas.mac).Some?
    requires forall k :: ping(k) != want
    ensures WrittenLoop(nas, ping, want, i, counter, fuel) == StillSending(fuel)
    decreases fuel
  {
    if fuel > 0 {
      WrittenLoopKeepsSending(nas, ping, want, i + 1, -1, fuel - 1);
    }
  }

  /**
   * Against a NAS that never reaches the wanted state, the loop as written
   * never gives up: for every bound it has sent that many commands and is
   * still sending, where `WakeUp` and `Suspend` stop after `MaxAttempts`.
   * (For `wake_up` this needs a MAC that decodes; otherwise the first
   * `wake_on_lan` raises, see `WrittenLoopRaisesOnBadMac`.)
   */
  lemma WrittenLoopNeverGivesUp(nas: Nas, ping: nat -> bool, want: bool, bound: nat)
    requires want ==> WakeOnLanPayload(nas.mac).Some?
    requires forall k :: ping(k) != want
    ensures WrittenLoop(nas, ping, want, 0, MaxAttempts, bound) == StillSending(bound)
  {
    WrittenLoopKeepsSending(nas, ping, want, 0, MaxAttempts, bound);
  }

  /**
   * As written, `wake_up` with a MAC that does not decode and a NAS that does
   * not answer the first probe raises `ValueError` before sending anything,
   * as `WakeUp` reports `InvalidMac`.
   */
  lemma WrittenLoopRaisesOnBadMac(nas: Nas, ping: nat -> bool, fuel: nat)
    requires !ping(0) && WakeOnLanPayload(nas.mac).None? && fuel > 0
    ensures WrittenLoop(nas, ping, true, 0, MaxAttempts, fuel) == ValueError(0)
  {
  }

  /**
   * A run of the loop as written that leaves the loop raises `NameError`
   * (`WrittenRun` has no successful end); so a NAS already in the wanted state
   * makes the call fail without a single command, where `WakeUp` and
   * `Suspend` report `Reached`.
   */
  lemma WrittenLoopFailsWhenAlreadyThere(nas: Nas, ping: nat -> bool, want: bool, fuel: nat)
    requires ping(0) == want
    ensures WrittenLoop(nas, ping, want, 0, MaxAttempts, fuel) == NameError(0)
  {
  }

  /**
   * The check after the loop with the decrement and the name repaired,
   * `if max_attempts == 0: raise`: an error exactly when the counter ran out,
   * whatever the probe that ended the loop said.
   */
  function CounterCheckFails(ping: nat -> bool, want: bool): bool {
    Attempts(ping, want, 0, MaxAttempts) == MaxAttempts
  }

  /**
   * A NAS that reaches the wanted state only at the probe after the last
   * command is reported as a failure by the counter check, although that
   * probe saw it in the wanted state; `WakeUp` and `Suspend` report `Reached`.
   */
  lemma CounterCheckIgnoresLastProbe(want: bool)
    ensures var ping: nat -> bool := k => if k < MaxAttempts then !want else want;
      CounterCheckFails(ping, want) && ping(MaxAttempts) == want
  {
    var ping: nat -> bool := k => if k < MaxAttempts then !want else want;
    AttemptsStopAtFirstAnswer(ping, want, 0, MaxAttempts);
  }
}
