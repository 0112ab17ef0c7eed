/** The loops of sw_wait_change, fault_reset, disable, switch_on and enable, against any sequence of answers: each does
    what its step machine does. */
module PowerLink {
  import opened Basics
  import opened PowerStates
  import opened PowerRuns

  datatype Waited = Changed(now: bv16) | GaveUp | Unanswered

  // a wait for another word than sw, begun before read `from` and still going on before read `to`
  ghost predicate Quiet(l: Line, ws: seq<bv16>, sw: bv16, from: nat, to: nat)
    requires from <= to <= |ws|
  {
    forall i :: from <= i < to ==> ws[i] == sw && i + 1 < l.giveUp(from)
  }

  // a step machine that waits stays as it is while the wait goes on
  lemma {:induction false} QuietStays(l: Line, g: Goal, w0: seq<bv16>, ws: seq<bv16>, from: nat, p: nat, q: nat,
                                      sw: bv16)
    requires from <= p <= q <= |ws| && Quiet(l, ws, sw, p, q)
    requires var s := After(l, g, w0, ws[..p], from).phase;
             (s.Wait? || s.ResetWait?) && s.sw == sw && s.since == p
    ensures After(l, g, w0, ws[..q], from) == After(l, g, w0, ws[..p], from)
    decreases q
  {
    hide After, Inspect, ResetInspect;
    if p < q {
      QuietStays(l, g, w0, ws, from, p, q - 1, sw);
      AfterStep(l, g, w0, ws, from, q - 1);
    }
  }

  // the last read of a wait
  ghost predicate Ended(l: Line, ws: seq<bv16>, sw: bv16, from: nat, to: nat, r: Waited)
    requires from <= to <= |ws|
  {
    match r
    case Changed(now) => from < to && now == ws[to - 1] != sw && Quiet(l, ws, sw, from, to - 1)
    case GaveUp => from < to && ws[to - 1] == sw && to >= l.giveUp(from) && Quiet(l, ws, sw, from, to - 1)
    case Unanswered => to == |ws| && Quiet(l, ws, sw, from, to)
  }

  /** Any drive: the statuswords with which it answers the reads, as far as they go, and the circumstances. */
  class Link {
    const answers: seq<bv16>
    const line: Line
    var pos: nat
    var written: seq<bv16>

    ghost predicate Valid()
      reads this
    {
      pos <= |answers|
    }

    constructor (answers: seq<bv16>, line: Line)
      ensures Valid() && this.answers == answers && this.line == line && pos == 0 && written == []
    {
      this.answers, this.line, pos, written := answers, line, 0, [];
    }

    // sw_get
    method Get() returns (sw: Option<bv16>)
      requires Valid()
      modifies `pos
      ensures Valid()
      ensures if old(pos) == |answers| then sw == None && pos == old(pos)
              else sw == Some(answers[old(pos)]) && pos == old(pos) + 1
    {
      if pos == |answers| {
        return None;
      }
      sw := Some(answers[pos]);
      pos := pos + 1;
    }

    // il_servo_raw_write_u16 on the controlword
    method Write(cmd: bv16) returns (ok: bool)
      modifies `written
      ensures ok == !line.refused(|old(written)|)
      ensures written == if ok then old(written) + [cmd] else old(written)
    {
      ok := !line.refused(|written|);
      if ok { written := written + [cmd]; }
    }

    /** sw_wait_change: it ends with the first word other than sw, or gives up on sw itself when its time is over. */
    method WaitChange(sw: bv16) returns (r: Waited)
      requires Valid()
      modifies `pos
      ensures Valid() && pos >= old(pos) && Ended(line, answers, sw, old(pos), pos, r)
    {
      var since := pos;
      if pos == |answers| {
        return Unanswered;
      }
      var now := answers[pos];
      pos := pos + 1;
      while now == sw
        invariant old(pos) < pos <= |answers| && now == answers[pos - 1] && Quiet(line, answers, sw, old(pos), pos - 1)
        decreases |answers| - pos, now == sw
      {
        if pos >= line.giveUp(since) {
          return GaveUp;
        }
        if pos == |answers| {
          return Unanswered;
        }
        now := answers[pos];
        pos := pos + 1;
      }
      r := Changed(now);
    }

    // where the step machine of sequence g, begun before read `from`, is now
    ghost function Now(g: Goal, w0: seq<bv16>, from: nat): State
      requires Valid() && from <= pos
      reads this
    {
      After(line, g, w0, answers[..pos], from)
    }

    // the sequence was not over before the read made last
    ghost predicate Timely(g: Goal, w0: seq<bv16>, from: nat)
      requires Valid()
      reads this
    {
      from < pos && !After(line, g, w0, answers[..pos - 1], from).phase.Done?
    }

    // a wait, seen from the step machine
    lemma {:induction false} WaitIsSteps(g: Goal, w0: seq<bv16>, from: nat, p: nat, sw: bv16, r: Waited)
      requires Valid() && from <= p <= pos && Ended(line, answers, sw, p, pos, r)
      requires var s := After(line, g, w0, answers[..p], from).phase;
               (s.Wait? || s.ResetWait?) && s.sw == sw && s.since == p
      ensures var s := After(line, g, w0, answers[..p], from);
              match r
              case Changed(now) => Now(g, w0, from) ==
                (if s.phase.Wait? then Inspect(line, g, s.written, pos - 1, now)
                 else ResetInspect(line, g, s.written, pos - 1, now, s.phase.k))
              case GaveUp => Now(g, w0, from) == State(Done(TimedOut), s.written)
              case Unanswered => Now(g, w0, from) == s
      ensures !r.Unanswered? ==> Timely(g, w0, from)
    {
      hide After, Inspect, ResetInspect;
      if r.Unanswered? {
        QuietStays(line, g, w0, answers, from, p, pos, sw);
      } else {
        QuietStays(line, g, w0, answers, from, p, pos - 1, sw);
        AfterStep(line, g, w0, answers, from, pos - 1);
      }
    }

    // one pulse of fault_reset and the wait after it
    method PulseAndWait(ghost g: Goal, ghost w0: seq<bv16>, ghost from: nat, sw: bv16, ghost k: nat)
      returns (r: Waited, refused: bool)
      requires Valid() && from < pos && k < FAULT_RESET_RETRIES && Faulty(Decode(sw))
      requires Now(g, w0, from) == ResetInspect(line, g, written, pos - 1, sw, k)
      modifies this
      ensures Valid() && pos >= old(pos)
      ensures if refused then written == old(written) || written == old(written) + [0]
              else written == old(written) + [0, CMD_FR]
      ensures refused ==> Now(g, w0, from) == State(Done(Refused), written)
      ensures !refused && r.Changed? ==>
                pos > old(pos) && r.now == answers[pos - 1]
                && Now(g, w0, from) == ResetInspect(line, g, written, pos - 1, r.now, k + 1)
      ensures !refused && r == GaveUp ==> Now(g, w0, from) == State(Done(TimedOut), written)
      ensures refused ==> pos == old(pos)
      ensures !refused && r != Unanswered ==> Timely(g, w0, from)
      ensures !refused && r == Unanswered ==>
                pos == |answers| && !Now(g, w0, from).phase.Done? && Now(g, w0, from).written == written
    {
      hide Decode, Faulty, After, Ended, ResetInspect;
      PulseCases(line, g, written, pos - 1, sw, k);
      r := Unanswered;
      var ok := Write(0);
      if !ok { return r, true; }
      ok := Write(CMD_FR);
      if !ok { return r, true; }
      assert written == old(written) + [0, CMD_FR];
      refused := false;
      ghost var p := pos;
      r := WaitChange(sw);
      WaitIsSteps(g, w0, from, p, sw, r);
      EndedMeans(line, answers, sw, p, pos, r);
    }

    /** il_eth_servo_fault_reset: the step machine from ResetLook on. At most 20 pulses are written, and only a refused
        write cuts one short. */
    method FaultReset(ghost g: Goal, ghost w0: seq<bv16>, ghost from: nat) returns (r: Option<Outcome>, ghost k: nat)
      requires Valid() && from <= pos && Now(g, w0, from) == State(ResetLook, written)
      modifies this
      ensures Valid() && pos >= old(pos) && k <= 20 && (r == Some(InFault) ==> k == 20)
      ensures written == old(written) + Pulses(k) || (r == Some(Refused) && written == old(written) + Pulses(k) + [0])
      ensures r == None ==> pos == |answers| && !Now(g, w0, from).phase.Done? && Now(g, w0, from).written == written
      ensures r == Some(Ok) ==> pos > old(pos) && Now(g, w0, from) == State(AfterReset(g), written)
                                && !Faulty(Decode(answers[pos - 1]))
      ensures r.Some? && r != Some(Ok) ==> Now(g, w0, from) == State(Done(r.value), written) && Timely(g, w0, from)
    {
      hide Decode, Faulty, After, Pulses;
      k := 0;
      PulsesStep(0);
      assert written + [] == written;
      var retries: nat := 0;
      var first := Get();
      if first == None {
        return None, k;
      }
      AfterStep(line, g, w0, answers, from, pos - 1);
      var sw := first.value;
      while true
        invariant Valid() && from < pos && old(pos) < pos && k == retries <= FAULT_RESET_RETRIES
                  && sw == answers[pos - 1]
        invariant written == old(written) + Pulses(k)
        invariant Now(g, w0, from) == ResetInspect(line, g, written, pos - 1, sw, retries) && Timely(g, w0, from)
        decreases FAULT_RESET_RETRIES - retries
      {
        var state := Decode(sw);
        if !Faulty(state) {
          return Some(Ok), k;
        }
        if retries == FAULT_RESET_RETRIES {
          return Some(InFault), k;
        }
        PulsesStep(k);
        ghost var before := written;
        var waited, refused := PulseAndWait(g, w0, from, sw, retries);
        if refused {
          return Some(Refused), k;
        }
        assert before + [0, CMD_FR] == old(written) + (Pulses(k) + [0, CMD_FR]);
        k := k + 1;
        match waited
        case Unanswered => return None, k;
        case GaveUp => return Some(TimedOut), k;
        case Changed(now) =>
          sw := now;
          retries := retries + 1;
      }
    }

    // writes the planned command and waits
    method Command(g: Goal, ghost w0: seq<bv16>, ghost from: nat, sw: bv16) returns (r: Waited, refused: bool)
      requires Valid() && from < pos && !Stops(g, Decode(sw)) && (g != ToEnabled ==> !Faulty(Decode(sw)))
      requires Now(g, w0, from) == Inspect(line, g, written, pos - 1, sw)
      modifies this
      ensures Valid() && pos >= old(pos)
      ensures refused ==> pos == old(pos) && Now(g, w0, from) == State(Done(Refused), written)
      ensures !refused && r.Changed? ==>
                pos > old(pos) && r.now == answers[pos - 1] && Timely(g, w0, from)
                && Now(g, w0, from) == Inspect(line, g, written, pos - 1, r.now)
      ensures !refused && r == GaveUp ==> Now(g, w0, from) == State(Done(TimedOut), written) && Timely(g, w0, from)
      ensures !refused && r == Unanswered ==>
                pos == |answers| && !Now(g, w0, from).phase.Done? && Now(g, w0, from).written == written
    {
      hide Decode, Faulty, After, Ended, Plan;
      r := Unanswered;
      var ok := Write(Plan(g, Decode(sw)));
      if !ok { return r, true; }
      refused := false;
      ghost var p := pos;
      r := WaitChange(sw);
      WaitIsSteps(g, w0, from, p, sw, r);
      EndedMeans(line, answers, sw, p, pos, r);
    }

    /** il_eth_servo_enable is its step machine: it writes the same commands, reads on exactly until that is over, and
        reports its outcome; None means that it is still running when the answers are used up. */
    method Enable() returns (r: Option<Outcome>)
      requires Valid()
      modifies this
      ensures Valid() && Reported(ToEnabled, old(written), old(pos), r)
    {
      hide Decode, Faulty, After, Stops, Target;
      ghost var w0, from := written, pos;
      var sw := Get();
      AfterStart(line, ToEnabled, w0, answers, from);
      if sw == None { return None; }
      AfterStep(line, ToEnabled, w0, answers, from, pos - 1);
      if Faulty(Decode(sw.value)) {
        ghost var k;
        r, k := FaultReset(ToEnabled, w0, from);
        if r != Some(Ok) { return; }
        sw := Get();
        if sw == None { return None; }
        AfterStep(line, ToEnabled, w0, answers, from, pos - 1);
      }
      r := EnableLoop(w0, from);
    }

    // the second reading and the loop of il_eth_servo_enable
    method EnableLoop(ghost w0: seq<bv16>, ghost from: nat) returns (r: Option<Outcome>)
      requires Valid() && from < pos && Now(ToEnabled, w0, from) == State(Look, written)
      modifies this
      ensures Valid() && Reported(ToEnabled, w0, from, r)
    {
      hide Decode, After, Stops, Inspect;
      var first := Get();
      if first == None { return None; }
      AfterStep(line, ToEnabled, w0, answers, from, pos - 1);
      var sw := first.value;
      while true
        invariant Valid() && from < pos && sw == answers[pos - 1] && Timely(ToEnabled, w0, from)
        invariant Now(ToEnabled, w0, from) == Inspect(line, ToEnabled, written, pos - 1, sw)
        decreases |answers| - pos
      {
        var state := Decode(sw);
        InspectStops(line, ToEnabled, written, pos - 1, sw);
        if state == Enabled { return Some(Ok); }
        if state == Fault { return Some(InFault); }
        NotStopped(ToEnabled, state);
        var waited, refused := Command(ToEnabled, w0, from, sw);
        if refused { return Some(Refused); }
        match waited
        case Unanswered => return None;
        case GaveUp => return Some(TimedOut);
        case Changed(now) => sw := now;
      }
    }

    /** il_eth_servo_disable and il_eth_servo_switch_on, likewise. */
    method Approach(g: Goal) returns (r: Option<Outcome>)
      requires Valid() && g != ToEnabled
      modifies this
      ensures Valid() && Reported(g, old(written), old(pos), r)
    {
      hide Decode, After, Stops, Inspect, Faulty, Target;
      ghost var w0, from := written, pos;
      AfterStart(line, g, w0, answers, from);
      var first := Get();
      if first == None { return None; }
      AfterStep(line, g, w0, answers, from, pos - 1);
      var sw := first.value;
      while true
        invariant Valid() && from == old(pos) < pos && sw == answers[pos - 1] && Timely(g, w0, from)
        invariant Now(g, w0, from) == Inspect(line, g, written, pos - 1, sw)
        decreases |answers| - pos
      {
        var state := Decode(sw);
        InspectStops(line, g, written, pos - 1, sw);
        if Faulty(state) {
          ghost var k;
          r, k := FaultReset(g, w0, from);
          if r != Some(Ok) { return; }
          var next := Get();
          if next == None { return None; }
          AfterStep(line, g, w0, answers, from, pos - 1);
          sw := next.value;
        } else if state != Target(g) {
          NotStopped(g, state);
          var waited, refused := Command(g, w0, from, sw);
          if refused { return Some(Refused); }
          match waited
          case Unanswered => return None;
          case GaveUp => return Some(TimedOut);
          case Changed(now) => sw := now;
        } else {
          return Some(Ok);
        }
      }
    }

    // a run that is over when the step machine is, at read t
    lemma {:induction false} OverAt(g: Goal, w0: seq<bv16>, from: nat, r: Option<Outcome>, t: nat, outcome: Outcome)
      requires Valid() && Reported(g, w0, from, r) && from <= t < |answers|
      requires After(line, g, w0, answers[..t + 1], from).phase == Done(outcome)
      requires !After(line, g, w0, answers[..t], from).phase.Done?
      ensures r == Some(outcome) && pos == t + 1
    {
      hide After;
      if pos <= t { DoneStays(line, g, w0, answers, from, pos, t); }
      if pos >= t + 1 { DoneStays(line, g, w0, answers, from, t + 1, pos); }
      if pos >= t + 2 { DoneStays(line, g, w0, answers, from, t + 1, pos - 1); }
    }

    /** A drive that obeys the commands it is sent is enabled, from every state without fault. */
    method EnableObedient(ghost at: seq<Pds>, ghost delay: nat) returns (r: Option<Outcome>)
      requires Valid() && pos + 1 < |answers| == |at| && !Faulty(Decode(answers[pos])) && delay > 0
      requires Obedient(line, ToEnabled, written, answers, pos, pos + 1, at, delay)
      requires Patient(line, delay) && NoneRefused(line) && |answers| > pos + 1 + 4 * delay
      modifies this
      ensures Valid() && r == Some(Ok) && old(pos) < pos <= old(pos) + 2 + 4 * delay
              && Decode(answers[pos - 1]) == Enabled
    {
      hide Decode, Faulty, After, Obedient, Patient, NoneRefused, Distance, Reported;
      ghost var w0, from := written, pos;
      AfterStart(line, ToEnabled, w0, answers, from);
      AfterStep(line, ToEnabled, w0, answers, from, from);
      AtMostFour(ToEnabled, at[from + 1], delay);
      ghost var t := Arrives(line, ToEnabled, w0, answers, from, from + 1, at, delay);
      r := Enable();
      OverAt(ToEnabled, w0, from, r, t, Ok);
    }

    /** Likewise for disabling and switching on. */
    method ApproachObedient(g: Goal, ghost at: seq<Pds>, ghost delay: nat) returns (r: Option<Outcome>)
      requires Valid() && g != ToEnabled && pos < |answers| == |at| && delay > 0
      requires Obedient(line, g, written, answers, pos, pos, at, delay)
      requires Patient(line, delay) && NoneRefused(line) && |answers| > pos + 4 * delay
      modifies this
      ensures Valid() && r == Some(Ok) && old(pos) < pos <= old(pos) + 1 + 4 * delay
              && Decode(answers[pos - 1]) == Target(g)
    {
      hide Decode, Faulty, After, Obedient, Patient, NoneRefused, Distance, Reported;
      ghost var w0, from := written, pos;
      AfterStart(line, g, w0, answers, from);
      AtMostFour(g, at[from], delay);
      ghost var t := Arrives(line, g, w0, answers, from, from, at, delay);
      r := Approach(g);
      OverAt(g, w0, from, r, t, Ok);
    }

    // the outcome, the commands and the reads are those of the step machine
    ghost predicate Reported(g: Goal, w0: seq<bv16>, from: nat, r: Option<Outcome>)
      requires Valid()
      reads this
    {
      && from <= pos
      && Now(g, w0, from).written == written
      && (r.Some? ==> Now(g, w0, from).phase == Done(r.value) && Timely(g, w0, from))
      && (r == None ==> pos == |answers| && !Now(g, w0, from).phase.Done?)
    }
  }

  /** For every number of reads, and whatever the time-outs, there is a link on which enable makes that many reads,
      writes a command after each but the first, and is still running. */
  method LongRun(n: nat, line: Line) returns (link: Link, r: Option<Outcome>)
    requires NoneRefused(line) && n >= 2
    ensures fresh(link) && link.line == line && r == None && link.pos == n && |link.written| == n - 1
  {
    hide After, NoneRefused, Flicker;
    NeedNotEnd(line, ToEnabled, [], n);
    link := new Link(Flicker(n), line);
    r := link.Enable();
    var ws := link.answers;
    assert ws[..n] == ws;
    DoneStays(line, ToEnabled, [], ws, 0, link.pos, n);
  }

  lemma {:induction false} AtMostFour(g: Goal, p: Pds, delay: nat)
    ensures Distance(g, p) * delay <= 4 * delay
  {
    assert Distance(g, p) <= 4;
  }

  lemma {:induction false} InspectStops(l: Line, g: Goal, written: seq<bv16>, i: nat, w: bv16)
    ensures var s := Inspect(l, g, written, i, w);
            && (Decode(w) == Target(g) ==> s == State(Done(Ok), written))
            && (g == ToEnabled && Decode(w) == Fault ==> s == State(Done(InFault), written))
            && (g != ToEnabled && Faulty(Decode(w)) ==> s == State(ResetLook, written))
  {
    hide Decode;
  }

  lemma {:induction false} NotStopped(g: Goal, p: Pds)
    ensures p != Target(g) && (g == ToEnabled ==> p != Fault) ==> !Stops(g, p)
    ensures Target(ToEnabled) == Enabled
  {
  }

  lemma {:induction false} EndedMeans(l: Line, ws: seq<bv16>, sw: bv16, from: nat, to: nat, r: Waited)
    requires from <= to <= |ws| && Ended(l, ws, sw, from, to, r)
    ensures r.Changed? ==> to > from && r.now == ws[to - 1]
    ensures r.GaveUp? ==> to > from
    ensures r.Unanswered? ==> to == |ws|
  {
  }

  // fault_reset looks at a faulty word with retries left
  lemma {:induction false} PulseCases(l: Line, g: Goal, written: seq<bv16>, i: nat, w: bv16, k: nat)
    requires Faulty(Decode(w)) && k < FAULT_RESET_RETRIES
    ensures ResetInspect(l, g, written, i, w, k) ==
            if l.refused(|written|) then State(Done(Refused), written)
            else if l.refused(|written| + 1) then State(Done(Refused), written + [0])
            else State(ResetWait(w, i + 1, k + 1), written + [0, CMD_FR])
  {
    hide Decode, Faulty;
    assert written + [0] + [CMD_FR] == written + [0, CMD_FR];
  }

  // k times a zero and a fault reset command
  function Pulses(k: nat): seq<bv16> {
    if k == 0 then [] else Pulses(k - 1) + [0, CMD_FR]
  }

  lemma {:induction false} PulsesStep(k: nat)
    ensures Pulses(0) == [] && Pulses(k + 1) == Pulses(k) + [0, CMD_FR]
  {
  }
}
