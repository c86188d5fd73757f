/** Reachability: the facts kept per device, the default policy, and the runtime
    methods that record facts and do what the policy scheduled.

    Both clocks are inputs: a step is given the monotonic and the wall time at
    which it runs. Times are whole units from an arbitrary origin. */
module Reachability {
  import opened Wrappers
  import opened Words

  datatype Belief = Unknown | Reachable | Unreachable

  /** A transmit failure, by whatever code the adapter gives it. */
  datatype Probed = Answered | Failed(failure: nat)

  datatype Evidence =
    | Traffic
    | CommandAcked
    | CommandFailed(failure: nat)
    | Probe(result: Probed)
    | Elapsed

  datatype NextCheck =
    | ProbeAt(at: int, attempts: byte, allowRecovery: bool)
    | Reassess(at: int)
    | AwaitTraffic

  datatype Info = Info(
    state: Belief,
    lastSeen: Option<int>,
    lastTxOk: Option<int>,
    lastTxErr: Option<(int, nat)>,
    lastProbe: Option<(int, Probed)>,
    failures: u32)

  const U32_MAX: u32 := 0xffff_ffff

  /** The facts about a device restored from disk. */
  const NOTHING_KNOWN := Info(Unknown, None, None, None, None, 0)

  datatype Device = Device(info: Info, next: NextCheck)

  const NEW_DEVICE := Device(NOTHING_KNOWN, AwaitTraffic)

  /** What both clocks show. */
  datatype Clock = Clock(now: int, wall: int)

  // ---------------------------------------------------------------------
  // Facts

  function Silence(info: Info, wall: int): Option<nat> {
    if info.lastSeen.Some? && info.lastSeen.value <= wall then Some(wall - info.lastSeen.value) else None
  }

  function WithTraffic(info: Info, at: int): Info {
    info.(lastSeen := Some(at), failures := 0)
  }

  function WithTx(info: Info, at: int, failure: Option<nat>): Info {
    if failure.None? then info.(lastTxOk := Some(at)) else info.(lastTxErr := Some((at, failure.value)))
  }

  function WithProbe(info: Info, at: int, result: Probed): Info {
    info.(lastProbe := Some((at, result)),
          failures := if result.Answered? then 0 else if info.failures == U32_MAX then U32_MAX else info.failures + 1)
  }

  // ---------------------------------------------------------------------
  // Policies

  /** A verdict and what to schedule, from a device's address, its facts and the clocks. */
  type Policy = (u64, Info, Clock) -> (Belief, NextCheck)

  /** The default policy. */
  function SilencePolicy(limit: nat): Policy {
    (ieee: u64, info: Info, clock: Clock) => Assess(info, limit, clock)
  }

  function Assess(info: Info, limit: nat, clock: Clock): (Belief, NextCheck) {
    match Silence(info, clock.wall)
    case None => (Unknown, AwaitTraffic)
    case Some(silence) =>
      if silence < limit then (Reachable, Reassess(clock.now + (limit - silence)))
      else (Unreachable, AwaitTraffic)
  }

  // ---------------------------------------------------------------------
  // Steps of one device

  datatype Change = Change(from: Belief, to: Belief, evidence: Evidence)

  /** Something that happens to a device, with the clocks as they stand when it
      does. The timer looks at what was scheduled; the clocks are read again when
      the policy is asked, after the probe if a probe is what was scheduled. */
  datatype Moment = Moment(what: What, clock: Clock)

  datatype What =
    | Heard(at: int)
    | Transmitted(at: int, failure: Option<nat>)
    | Timer(visit: Visit)

  /** What a probe would find and when, and the clocks when the policy is then asked. */
  datatype Visit = Visit(answer: Probed, at: int, clock: Clock)

  function Assessed(d: Device, ieee: u64, policy: Policy, evidence: Evidence, clock: Clock): (Device, seq<Change>) {
    var (verdict, next) := policy(ieee, d.info, clock);
    (Device(d.info.(state := verdict), next),
     if d.info.state != verdict then [Change(d.info.state, verdict, evidence)] else [])
  }

  function TxEvidence(failure: Option<nat>): Evidence {
    if failure.None? then CommandAcked else CommandFailed(failure.value)
  }

  predicate Due(next: NextCheck, now: int) {
    match next
    case ProbeAt(at, _, _) => at <= now
    case Reassess(at) => at <= now
    case AwaitTraffic => false
  }

  /** A due device is probed if a probe was scheduled, and reassessed on its silence if not. */
  function Visited(d: Device, ieee: u64, policy: Policy, visit: Visit): (Device, seq<Change>) {
    if d.next.ProbeAt? then
      Assessed(d.(info := WithProbe(d.info, visit.at, visit.answer)), ieee, policy, Probe(visit.answer), visit.clock)
    else Assessed(d, ieee, policy, Elapsed, visit.clock)
  }

  function Step(d: Device, ieee: u64, policy: Policy, m: Moment): (Device, seq<Change>) {
    match m.what
    case Heard(at) => Assessed(d.(info := WithTraffic(d.info, at)), ieee, policy, Traffic, m.clock)
    case Transmitted(at, failure) =>
      Assessed(d.(info := WithTx(d.info, at, failure)), ieee, policy, TxEvidence(failure), m.clock)
    case Timer(visit) => if Due(d.next, m.clock.now) then Visited(d, ieee, policy, visit) else (d, [])
  }

  // ---------------------------------------------------------------------
  // The runtime loop

  datatype Event = LastSeenChanged(ieee: u64, at: int) | ReachabilityChanged(ieee: u64, change: Change)

  /** The reachability changes announced for one device. */
  function ChangesOf(events: seq<Event>, ieee: u64): seq<Change> {
    if events == [] then []
    else
      ChangesOf(events[..|events| - 1], ieee)
      + match events[|events| - 1]
        case ReachabilityChanged(i, change) => if i == ieee then [change] else []
        case LastSeenChanged(_, _) => []
  }

  /** One device goes to a new state with some changes, and nothing else happens. */
  twostate predicate Stepped(t: Task, ieee: u64, step: (Device, seq<Change>))
    reads t
  {
    && t.devices == old(t.devices)[ieee := step.0]
    && ChangesOf(t.events, ieee) == ChangesOf(old(t.events), ieee) + step.1
    && forall other :: other != ieee ==> ChangesOf(t.events, other) == ChangesOf(old(t.events), other)
  }

  class Task {
    const policy: Policy
    var devices: map<u64, Device>
    var events: seq<Event>

    constructor (policy: Policy)
      ensures this.policy == policy && devices == map[] && events == []
    {
      this.policy := policy;
      devices, events := map[], [];
    }

    method Emit(event: Event)
      modifies this`events
      ensures events == old(events) + [event]
      ensures forall ieee ::
                ChangesOf(events, ieee) == ChangesOf(old(events), ieee)
                  + if event.ReachabilityChanged? && event.ieee == ieee then [event.change] else []
    {
      assert (events + [event])[..|events|] == events;
      events := events + [event];
    }

    /** Asks the policy for a verdict, and announces a change only if there was one. */
    method AssessDevice(ieee: u64, evidence: Evidence, clock: Clock)
      modifies this`devices, this`events
      ensures ieee !in old(devices) ==> devices == old(devices) && events == old(events)
      ensures ieee in old(devices) ==> Stepped(this, ieee, Assessed(old(devices)[ieee], ieee, policy, evidence, clock))
    {
      if ieee !in devices {
        return;
      }
      var device := devices[ieee];
      var (verdict, next) := policy(ieee, device.info, clock);
      devices := devices[ieee := Device(device.info.(state := verdict), next)];
      if device.info.state != verdict {
        Emit(ReachabilityChanged(ieee, Change(device.info.state, verdict, evidence)));
      }
    }

    /** Records that a frame arrived. */
    method Touch(ieee: u64, at: int, clock: Clock)
      modifies this
      ensures ieee !in old(devices) ==> devices == old(devices) && events == old(events)
      ensures ieee in old(devices) ==> Stepped(this, ieee, Step(old(devices)[ieee], ieee, policy, Moment(Heard(at), clock)))
    {
      if ieee !in devices {
        return;
      }
      devices := devices[ieee := devices[ieee].(info := WithTraffic(devices[ieee].info, at))];
      Emit(LastSeenChanged(ieee, at));
      AssessDevice(ieee, Traffic, clock);
    }

    method RecordTx(ieee: u64, at: int, failure: Option<nat>, clock: Clock)
      modifies this
      ensures ieee !in old(devices) ==> devices == old(devices) && events == old(events)
      ensures ieee in old(devices) ==>
                Stepped(this, ieee, Step(old(devices)[ieee], ieee, policy, Moment(Transmitted(at, failure), clock)))
    {
      if ieee in devices {
        devices := devices[ieee := devices[ieee].(info := WithTx(devices[ieee].info, at, failure))];
      }
      AssessDevice(ieee, TxEvidence(failure), clock);
    }

    /** Records what a probe found. */
    method FinishProbe(ieee: u64, visit: Visit)
      requires ieee in devices && devices[ieee].next.ProbeAt?
      modifies this
      ensures Stepped(this, ieee, Visited(old(devices)[ieee], ieee, policy, visit))
    {
      devices := devices[ieee := devices[ieee].(info := WithProbe(devices[ieee].info, visit.at, visit.answer))];
      AssessDevice(ieee, Probe(visit.answer), visit.clock);
    }

    /** Probes a due device, or reassesses it on silence alone. */
    method CheckDue(ieee: u64, visit: Visit)
      requires ieee in devices
      modifies this
      ensures Stepped(this, ieee, Visited(old(devices)[ieee], ieee, policy, visit))
    {
      if devices[ieee].next.ProbeAt? {
        FinishProbe(ieee, visit);
      } else {
        AssessDevice(ieee, Elapsed, visit.clock);
      }
    }

    /** Runs whatever was scheduled and is now due: every device takes its timer
        step. Which ones are due is settled by one reading of the clock; each
        visit then has its own. */
    method RunDue(clock: Clock, visits: u64 -> Visit)
      modifies this
      ensures devices.Keys == old(devices).Keys
      ensures forall ieee :: ieee in devices ==>
                var (d, changes) := Step(old(devices)[ieee], ieee, policy, Moment(Timer(visits(ieee)), clock));
                devices[ieee] == d && ChangesOf(events, ieee) == ChangesOf(old(events), ieee) + changes
    {
      var due := set ieee | ieee in devices && Due(devices[ieee].next, clock.now);
      var todo := due;
      while todo != {}
        invariant todo <= due && devices.Keys == old(devices).Keys
        invariant forall ieee :: ieee in devices && ieee !in due - todo ==>
                    devices[ieee] == old(devices)[ieee] && ChangesOf(events, ieee) == ChangesOf(old(events), ieee)
        invariant forall ieee :: ieee in due - todo ==>
                    var (d, changes) := Visited(old(devices)[ieee], ieee, policy, visits(ieee));
                    devices[ieee] == d && ChangesOf(events, ieee) == ChangesOf(old(events), ieee) + changes
        decreases todo
      {
        var ieee :| ieee in todo;
        todo := todo - {ieee};
        CheckDue(ieee, visits(ieee));
      }
    }
  }

  // ---------------------------------------------------------------------
  // Every run

  /** A run of one device: its state and the changes announced. */
  function Run(ieee: u64, policy: Policy, moments: seq<Moment>): (Device, seq<Change>) {
    if moments == [] then (NEW_DEVICE, [])
    else
      var (d, changes) := Run(ieee, policy, moments[..|moments| - 1]);
      var (e, more) := Step(d, ieee, policy, moments[|moments| - 1]);
      (e, changes + more)
  }

  /** Each change starts where the previous one ended, and none goes nowhere. */
  predicate Chained(from: Belief, changes: seq<Change>, to: Belief) {
    if changes == [] then from == to
    else
      var last := changes[|changes| - 1];
      last.to == to && last.from != last.to && Chained(from, changes[..|changes| - 1], last.from)
  }

  lemma ChainedSnoc(from: Belief, changes: seq<Change>, at: Belief, more: seq<Change>, to: Belief)
    requires Chained(from, changes, at)
    requires (more == [] && to == at) || (|more| == 1 && more[0].from == at && more[0].to == to && at != to)
    ensures Chained(from, changes + more, to)
  {
    if more == [] {
      assert changes + more == changes;
    } else {
      assert (changes + more)[..|changes|] == changes;
    }
  }

  /** Whatever the policy, a step announces the change of belief it makes, if any. */
  lemma StepAnnounces(d: Device, ieee: u64, policy: Policy, m: Moment)
    ensures var (e, changes) := Step(d, ieee, policy, m);
            (changes == [] && e.info.state == d.info.state) ||
            (|changes| == 1 && changes[0].from == d.info.state && changes[0].to == e.info.state && d.info.state != e.info.state)
  {
  }

  /** Under any policy, the announced changes of a run chain from "unknown" to the
      current belief. */
  lemma {:induction false} ChangesChain(ieee: u64, policy: Policy, moments: seq<Moment>)
    ensures Chained(Unknown, Run(ieee, policy, moments).1, Run(ieee, policy, moments).0.info.state)
  {
    if moments != [] {
      var before, last := moments[..|moments| - 1], moments[|moments| - 1];
      ChangesChain(ieee, policy, before);
      var (d, changes) := Run(ieee, policy, before);
      var (e, more) := Step(d, ieee, policy, last);
      StepAnnounces(d, ieee, policy, last);
      ChainedSnoc(Unknown, changes, d.info.state, more, e.info.state);
    }
  }

  /** Whether the timer probes: a probe was scheduled, and is due. */
  predicate Probes(d: Device, m: Moment) {
    m.what.Timer? && d.next.ProbeAt? && Due(d.next, m.clock.now)
  }

  /** Failed probes since the device last answered one or was heard. */
  function FailedSince(ieee: u64, policy: Policy, moments: seq<Moment>): nat {
    if moments == [] then 0
    else
      var before, last := moments[..|moments| - 1], moments[|moments| - 1];
      if last.what.Heard? then 0
      else if !Probes(Run(ieee, policy, before).0, last) then FailedSince(ieee, policy, before)
      else if last.what.visit.answer.Answered? then 0
      else FailedSince(ieee, policy, before) + 1
  }

  /** Under any policy the counter is that number, stopping at the largest it can hold. */
  lemma {:induction false} CounterIsExact(ieee: u64, policy: Policy, moments: seq<Moment>)
    ensures Run(ieee, policy, moments).0.info.failures == Min(FailedSince(ieee, policy, moments), U32_MAX)
  {
    if moments != [] {
      CounterIsExact(ieee, policy, moments[..|moments| - 1]);
    }
  }

  // ---------------------------------------------------------------------
  // The default policy

  /** The clocks when the policy is asked, if it is. */
  function Asked(d: Device, m: Moment): Clock {
    if m.what.Timer? && Due(d.next, m.clock.now) then m.what.visit.clock else m.clock
  }

  predicate Together(clock: Clock, offset: int) { clock.wall == clock.now + offset }

  /** The clocks advance together and never go back, and no frame is dated later
      than the moment it is recorded. */
  predicate Steady(moments: seq<Moment>, offset: int) {
    && (forall i :: 0 <= i < |moments| ==> Together(moments[i].clock, offset))
    && (forall i :: 0 <= i < |moments| && moments[i].what.Timer? ==>
          Together(moments[i].what.visit.clock, offset) && moments[i].clock.now <= moments[i].what.visit.clock.now)
    && (forall i, j :: 0 <= i < j < |moments| ==> Latest(moments[i]) <= moments[j].clock.now)
    && (forall i :: 0 <= i < |moments| && moments[i].what.Heard? ==> moments[i].what.at <= moments[i].clock.wall)
  }

  /** When a moment is over. */
  function Latest(m: Moment): int { if m.what.Timer? then m.what.visit.clock.now else m.clock.now }

  /** What silence alone says. */
  function Verdict(lastSeen: Option<int>, limit: nat, wall: int): Belief {
    match lastSeen
    case None => Unknown
    case Some(at) => if wall - at < limit then Reachable else Unreachable
  }

  /** A device judged reachable has a reassessment scheduled at exactly last-seen
      plus the limit; nothing else is ever scheduled. */
  predicate ScheduledExactly(d: Device, limit: nat, offset: int) {
    if d.info.state == Reachable then
      d.info.lastSeen.Some? && d.next == Reassess(d.info.lastSeen.value + limit - offset)
    else d.next == AwaitTraffic
  }

  lemma StepIsExact(d: Device, ieee: u64, limit: nat, offset: int, m: Moment, before: int)
    requires ScheduledExactly(d, limit, offset) && d.info.state == Verdict(d.info.lastSeen, limit, before)
    requires Together(m.clock, offset) && before <= m.clock.wall
    requires m.what.Timer? ==> Together(m.what.visit.clock, offset) && m.clock.now <= m.what.visit.clock.now
    requires m.what.Heard? ==> m.what.at <= m.clock.wall
    requires d.info.lastSeen.Some? ==> d.info.lastSeen.value <= before
    ensures var e, wall := Step(d, ieee, SilencePolicy(limit), m).0, Asked(d, m).wall;
            && ScheduledExactly(e, limit, offset) && e.info.state == Verdict(e.info.lastSeen, limit, wall)
            && (e.info.lastSeen.Some? ==> e.info.lastSeen.value <= wall)
  {
  }

  /** Under the default policy, after every moment of every run, the belief is exactly
      what the silence says when the policy was last asked or the timer passed the
      device over: it is never called unreachable before last-seen plus the limit,
      and always is by the first check from then on. No probe is ever scheduled. */
  lemma {:induction false} JudgedExactly(ieee: u64, limit: nat, offset: int, moments: seq<Moment>)
    requires Steady(moments, offset)
    ensures var d := Run(ieee, SilencePolicy(limit), moments).0;
            && ScheduledExactly(d, limit, offset) && !d.next.ProbeAt?
            && (moments == [] ==> d == NEW_DEVICE)
            && (moments != [] ==>
                  var before, last := moments[..|moments| - 1], moments[|moments| - 1];
                  var wall := Asked(Run(ieee, SilencePolicy(limit), before).0, last).wall;
                  && d.info.state == Verdict(d.info.lastSeen, limit, wall)
                  && (d.info.lastSeen.Some? ==> d.info.lastSeen.value <= wall))
  {
    if moments != [] {
      var before, last := moments[..|moments| - 1], moments[|moments| - 1];
      JudgedExactly(ieee, limit, offset, before);
      var d := Run(ieee, SilencePolicy(limit), before).0;
      if before == [] {
        StepIsExact(d, ieee, limit, offset, last, last.clock.wall);
      } else {
        var m := before[|before| - 1];
        assert m == moments[|before| - 1] && Latest(m) <= last.clock.now;
        var asked := Asked(Run(ieee, SilencePolicy(limit), before[..|before| - 1]).0, m);
        StepIsExact(d, ieee, limit, offset, last, asked.wall);
      }
    }
  }

  /** Why frames must not be dated later than they are recorded: hearing a device
      makes it reachable exactly when the frame is recent, and a frame dated in the
      future makes it unknown, with nothing scheduled. */
  lemma HeardIsReachable(d: Device, ieee: u64, limit: nat, at: int, clock: Clock)
    ensures var e := Step(d, ieee, SilencePolicy(limit), Moment(Heard(at), clock)).0;
            && (e.info.state == Reachable <==> at <= clock.wall < at + limit)
            && (e.info.state == Unknown <==> at > clock.wall)
            && (e.next.AwaitTraffic? <==> e.info.state != Reachable)
  {
  }
}
