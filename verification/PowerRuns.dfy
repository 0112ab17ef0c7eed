/** The power state sequences as step machines over the statuswords read: what disable, switch_on and enable do with any
    sequence of answers, what a drive that obeys its commands makes of them, and when they do not end. */
module PowerRuns {
  import opened PowerStates

  const FAULT_RESET_RETRIES: nat := 20

  datatype Outcome = Ok | TimedOut | Refused | InFault

  /** The circumstances of a run: a wait that begins with read s gives up on an unchanged word at the first read i with
      i + 1 >= giveUp(s); write number n is refused or not. */
  datatype Line = Line(giveUp: nat -> nat, refused: nat -> bool)

  datatype Phase =
    | Start                                        // enable looks for a fault first
    | Skip                                         // a word is read and not looked at
    | Look                                         // the loop looks at the next word
    | Wait(sw: bv16, since: nat)                   // for a word other than sw
    | ResetLook                                    // fault_reset looks at the next word
    | ResetWait(sw: bv16, since: nat, k: nat)      // the same, after k pulses
    | Done(outcome: Outcome)

  datatype State = State(phase: Phase, written: seq<bv16>)

  function Send(l: Line, written: seq<bv16>, cmd: bv16, next: Phase): State {
    if l.refused(|written|) then State(Done(Refused), written) else State(next, written + [cmd])
  }

  // a zero and a fault reset command
  function Pulse(l: Line, written: seq<bv16>, next: Phase): State {
    if l.refused(|written|) then State(Done(Refused), written) else Send(l, written + [0], CMD_FR, next)
  }

  // the loop of sequence g looks at word w, which was read number i
  function Inspect(l: Line, g: Goal, written: seq<bv16>, i: nat, w: bv16): State {
    var p := Decode(w);
    if p == Target(g) then State(Done(Ok), written)
    else if g == ToEnabled && p == Fault then State(Done(InFault), written)
    else if g != ToEnabled && Faulty(p) then State(ResetLook, written)
    else Send(l, written, Plan(g, p), Wait(w, i + 1))
  }

  // the states that end the loop of sequence g
  predicate Stops(g: Goal, p: Pds) { p == Target(g) || (g == ToEnabled && p == Fault) }

  // enable reads twice after a fault reset
  function AfterReset(g: Goal): Phase { if g == ToEnabled then Skip else Look }

  function ResetInspect(l: Line, g: Goal, written: seq<bv16>, i: nat, w: bv16, k: nat): State {
    if !Faulty(Decode(w)) then State(AfterReset(g), written)
    else if k >= FAULT_RESET_RETRIES then State(Done(InFault), written)
    else Pulse(l, written, ResetWait(w, i + 1, k + 1))
  }

  // read number i returns w
  function Step(l: Line, g: Goal, s: State, i: nat, w: bv16): State {
    match s.phase
    case Start => State(if Faulty(Decode(w)) then ResetLook else Look, s.written)
    case Skip => State(Look, s.written)
    case Look => Inspect(l, g, s.written, i, w)
    case Wait(sw, since) =>
      if w != sw then Inspect(l, g, s.written, i, w)
      else if i + 1 >= l.giveUp(since) then State(Done(TimedOut), s.written)
      else s
    case ResetLook => ResetInspect(l, g, s.written, i, w, 0)
    case ResetWait(sw, since, k) =>
      if w != sw then ResetInspect(l, g, s.written, i, w, k)
      else if i + 1 >= l.giveUp(since) then State(Done(TimedOut), s.written)
      else s
    case Done(_) => s
  }

  /** The state of sequence g, begun before read `from` with the commands w0 written earlier, after the reads ws. */
  function After(l: Line, g: Goal, w0: seq<bv16>, ws: seq<bv16>, from: nat): (s: State)
    requires from <= |ws|
  {
    if |ws| == from then State(if g == ToEnabled then Start else Look, w0)
    else
      var i := |ws| - 1;
      Step(l, g, After(l, g, w0, ws[..i], from), i, ws[i])
  }

  lemma {:induction false} AfterStep(l: Line, g: Goal, w0: seq<bv16>, ws: seq<bv16>, from: nat, i: nat)
    requires from <= i < |ws|
    ensures After(l, g, w0, ws[..i + 1], from) == Step(l, g, After(l, g, w0, ws[..i], from), i, ws[i])
  {
    assert ws[..i + 1][..i] == ws[..i];
  }

  lemma {:induction false} AfterStart(l: Line, g: Goal, w0: seq<bv16>, ws: seq<bv16>, from: nat)
    requires from <= |ws|
    ensures After(l, g, w0, ws[..from], from) == State(if g == ToEnabled then Start else Look, w0)
  {
  }

  // what is over stays over
  lemma {:induction false} DoneStays(l: Line, g: Goal, w0: seq<bv16>, ws: seq<bv16>, from: nat, i: nat, j: nat)
    requires from <= i <= j <= |ws|
    ensures After(l, g, w0, ws[..i], from).phase.Done? ==>
              After(l, g, w0, ws[..j], from) == After(l, g, w0, ws[..i], from)
    decreases j
  {
    hide After, Inspect, ResetInspect, Decode, Faulty;
    if i < j {
      DoneStays(l, g, w0, ws, from, i, j - 1);
      AfterStep(l, g, w0, ws, from, j - 1);
    }
  }

  // ---------- a drive that obeys ----------

  // the controlword in force: the last one written
  function InForce(written: seq<bv16>): bv16 {
    if written == [] then CMD_DV else written[|written| - 1]
  }

  // the controlword in force when read i is made
  function Force(l: Line, g: Goal, w0: seq<bv16>, ws: seq<bv16>, from: nat, i: nat): bv16
    requires from <= i <= |ws|
  {
    InForce(After(l, g, w0, ws[..i], from).written)
  }

  // from read i to read j the drive is in one state under one controlword
  ghost predicate Resting(l: Line, g: Goal, w0: seq<bv16>, ws: seq<bv16>, from: nat, at: seq<Pds>, i: nat, j: nat)
    requires from <= i <= j < |ws| == |at|
  {
    forall k :: i < k <= j ==> at[k] == at[i] && Force(l, g, w0, ws, from, k) == Force(l, g, w0, ws, from, i + 1)
  }

  /** A drive that keeps to its automaton from read `start` on: it is in state at[i] at read i and shows no fault at
      first; between two reads it stays, or takes a transition that the controlword in force allows; and where that
      controlword allows one, it takes one within `delay` reads. */
  ghost predicate Obedient(l: Line, g: Goal, w0: seq<bv16>, ws: seq<bv16>, from: nat, start: nat, at: seq<Pds>,
                           delay: nat)
    requires from <= start < |ws| == |at|
  {
    && !Faulty(at[start])
    && (forall i :: start <= i < |ws| ==> Shows(ws[i], at[i]))
    && (forall i :: start < i < |ws| ==> Moved(at[i - 1], Force(l, g, w0, ws, from, i), at[i]))
    && (forall i, j :: start <= i < j < |ws| && Resting(l, g, w0, ws, from, at, i, j)
          ==> Quick(l, g, w0, ws, from, at, i, j, delay))
  }

  ghost predicate Quick(l: Line, g: Goal, w0: seq<bv16>, ws: seq<bv16>, from: nat, at: seq<Pds>, i: nat, j: nat,
                        delay: nat)
    requires from <= i < j < |ws| == |at|
  {
    CanMove(at[i], Force(l, g, w0, ws, from, i + 1)) ==> j < i + delay
  }

  predicate Moved(p: Pds, cw: bv16, next: Pds) { next == p || Follows(p, cw, next) }

  // the word read last has been answered with the planned command, and another one is waited for
  ghost predicate InStep(l: Line, g: Goal, w0: seq<bv16>, ws: seq<bv16>, from: nat, start: nat, i: nat)
    requires from <= start <= i < |ws|
  {
    var s := After(l, g, w0, ws[..i + 1], from);
    && s.phase.Wait? && s.phase.sw == ws[i] && start < s.phase.since <= i + 1
    && (forall k :: s.phase.since - 1 <= k <= i ==> ws[k] == ws[i])
    && s.written != [] && InForce(s.written) == Plan(g, Decode(ws[i])) && Decode(ws[i]) != Target(g)
  }

  /** As long as a sequence is not over and no fault shows, the controlword in force is the one planned for the word
      read last: the code answers every new word before it reads on. */
  lemma {:induction false} KeepsStep(l: Line, g: Goal, w0: seq<bv16>, ws: seq<bv16>, from: nat, start: nat, i: nat)
    requires from <= start <= i < |ws| && After(l, g, w0, ws[..start], from).phase == Look
    requires forall k :: start <= k <= i ==> !Faulty(Decode(ws[k]))
    requires !After(l, g, w0, ws[..i + 1], from).phase.Done?
    ensures InStep(l, g, w0, ws, from, start, i)
    decreases i
  {
    hide Decode, Plan, Faulty, Target, After, Inspect;
    AfterStep(l, g, w0, ws, from, i);
    Answered(l, g, After(l, g, w0, ws[..i], from).written, i, ws[i]);
    if i > start {
      DoneStays(l, g, w0, ws, from, i, i + 1);
      KeepsStep(l, g, w0, ws, from, start, i - 1);
    }
  }

  // a word that is looked at without ending the sequence is answered
  lemma {:induction false} Answered(l: Line, g: Goal, written: seq<bv16>, i: nat, w: bv16)
    ensures var s := Inspect(l, g, written, i, w);
            !s.phase.Done? && (Faulty(Decode(w)) ==> g == ToEnabled) ==>
              s == State(Wait(w, i + 1), written + [Plan(g, Decode(w))]) && !Stops(g, Decode(w))
    ensures Stops(g, Decode(w)) ==> Inspect(l, g, written, i, w).phase.Done?
    ensures Inspect(l, g, written, i, w).phase.Done? && !l.refused(|written|) ==> Stops(g, Decode(w))
  {
    hide Decode, Plan;
  }

  // the reads i - 1 and i of an obedient drive
  lemma {:induction false} OneRead(l: Line, g: Goal, w0: seq<bv16>, ws: seq<bv16>, from: nat, start: nat, at: seq<Pds>,
                                   delay: nat, i: nat)
    requires from <= start <= i < |ws| == |at| && Obedient(l, g, w0, ws, from, start, at, delay)
    requires After(l, g, w0, ws[..start], from).phase == Look && !After(l, g, w0, ws[..i], from).phase.Done?
    ensures !Faulty(at[i]) && Decode(ws[i]) == at[i]
    ensures i > start ==> at[i - 1] != Target(g) && Force(l, g, w0, ws, from, i) == Plan(g, at[i - 1])
                          && (at[i] == at[i - 1] || Distance(g, at[i]) < Distance(g, at[i - 1]))
    decreases i
  {
    hide Decode, Plan, Faulty, Target, After, Follows, Shows, Distance, Resting, Quick;
    DecodeExact(ws[i], at[i]);
    if i > start {
      NoFaultSoFar(l, g, w0, ws, from, start, at, delay, i);
      KeepsStep(l, g, w0, ws, from, start, i - 1);
      DecodeExact(ws[i - 1], at[i - 1]);
      assert Moved(at[i - 1], Force(l, g, w0, ws, from, i), at[i]);
      if at[i] != at[i - 1] { EveryTransitionHelps(g, at[i - 1], at[i]); }
    }
  }

  lemma {:induction false} NoFaultSoFar(l: Line, g: Goal, w0: seq<bv16>, ws: seq<bv16>, from: nat, start: nat,
                                        at: seq<Pds>, delay: nat, i: nat)
    requires from <= start < i < |ws| == |at| && Obedient(l, g, w0, ws, from, start, at, delay)
    requires After(l, g, w0, ws[..start], from).phase == Look && !After(l, g, w0, ws[..i], from).phase.Done?
    ensures forall k :: start <= k < i ==> !Faulty(Decode(ws[k])) && Decode(ws[k]) == at[k]
    ensures !Faulty(at[i - 1])
    decreases i, 0
  {
    hide Decode, Plan, Faulty, Target, After, Follows, Shows, Distance, Resting, Quick;
    forall k | start <= k < i
      ensures !Faulty(Decode(ws[k])) && Decode(ws[k]) == at[k]
    {
      DoneStays(l, g, w0, ws, from, k, i);
      OneRead(l, g, w0, ws, from, start, at, delay, k);
    }
  }

  // the drive has been in its state since read c, and the reads up to c are paid for by the way it has come
  lemma {:induction false} Progress(l: Line, g: Goal, w0: seq<bv16>, ws: seq<bv16>, from: nat, start: nat,
                                    at: seq<Pds>, delay: nat, i: nat)
    returns (c: nat)
    requires from <= start <= i < |ws| == |at| && Obedient(l, g, w0, ws, from, start, at, delay) && delay > 0
    requires After(l, g, w0, ws[..start], from).phase == Look && !After(l, g, w0, ws[..i + 1], from).phase.Done?
    ensures start <= c <= i && Resting(l, g, w0, ws, from, at, c, i) && i < c + delay
    ensures at[i] != Target(g) && Distance(g, at[i]) <= Distance(g, at[start])
    ensures c - start <= (Distance(g, at[start]) - Distance(g, at[i])) * delay
    decreases i
  {
    hide Decode, Plan, Faulty, Target, After, Follows, Shows, Distance, Resting, Quick, Obedient;
    NotDoneBefore(l, g, w0, ws, from, i, i + 1);
    OneRead(l, g, w0, ws, from, start, at, delay, i);
    InStepAt(l, g, w0, ws, from, start, at, delay, i);
    if i == start {
      c := i;
      RestingStart(l, g, w0, ws, from, at, i);
    } else {
      var b := Progress(l, g, w0, ws, from, start, at, delay, i - 1);
      if at[i] == at[i - 1] {
        c := b;
        RestingGrows(l, g, w0, ws, from, start, at, delay, c, i);
        RestsShortly(l, g, w0, ws, from, start, at, delay, c, i);
      } else {
        c := i;
        RestingStart(l, g, w0, ws, from, at, i);
        Paid(Distance(g, at[start]), Distance(g, at[i - 1]), Distance(g, at[i]), delay);
      }
    }
  }

  lemma {:induction false} Paid(d0: nat, d1: nat, d2: nat, delay: nat)
    requires d2 < d1 <= d0
    ensures (d0 - d1) * delay + delay <= (d0 - d2) * delay
  {
    OneMoreTime(d0 - d1, delay);
    Fewer(d0 - d1 + 1, d0 - d2, delay);
  }

  lemma {:induction false} OneMoreTime(n: nat, delay: nat)
    ensures (n + 1) * delay == n * delay + delay
  {
  }

  lemma {:induction false} Fewer(m: nat, n: nat, delay: nat)
    requires m <= n
    ensures m * delay <= n * delay
    decreases n - m
  {
    if m < n {
      OneMoreTime(m, delay);
      Fewer(m + 1, n, delay);
    }
  }

  lemma {:induction false} NotDoneBefore(l: Line, g: Goal, w0: seq<bv16>, ws: seq<bv16>, from: nat, i: nat, j: nat)
    requires from <= i <= j <= |ws| && !After(l, g, w0, ws[..j], from).phase.Done?
    ensures !After(l, g, w0, ws[..i], from).phase.Done?
  {
    hide After;
    DoneStays(l, g, w0, ws, from, i, j);
  }

  // after read i the command for the state at read i is in force
  lemma {:induction false} InStepAt(l: Line, g: Goal, w0: seq<bv16>, ws: seq<bv16>, from: nat, start: nat,
                                    at: seq<Pds>, delay: nat, i: nat)
    requires from <= start <= i < |ws| == |at| && Obedient(l, g, w0, ws, from, start, at, delay)
    requires After(l, g, w0, ws[..start], from).phase == Look && !After(l, g, w0, ws[..i + 1], from).phase.Done?
    ensures InStep(l, g, w0, ws, from, start, i)
    ensures Force(l, g, w0, ws, from, i + 1) == Plan(g, at[i]) && at[i] != Target(g) && !Faulty(at[i])
  {
    hide Decode, Plan, Faulty, Target, After, Follows, Shows, Distance, Resting, Quick, Obedient;
    NotDoneBefore(l, g, w0, ws, from, i, i + 1);
    OneRead(l, g, w0, ws, from, start, at, delay, i);
    if i > start { NoFaultSoFar(l, g, w0, ws, from, start, at, delay, i); }
    KeepsStep(l, g, w0, ws, from, start, i);
  }

  lemma {:induction false} RestingStart(l: Line, g: Goal, w0: seq<bv16>, ws: seq<bv16>, from: nat, at: seq<Pds>, i: nat)
    requires from <= i < |ws| == |at|
    ensures Resting(l, g, w0, ws, from, at, i, i)
  {
  }

  lemma {:induction false} RestingGrows(l: Line, g: Goal, w0: seq<bv16>, ws: seq<bv16>, from: nat, start: nat,
                                        at: seq<Pds>, delay: nat, c: nat, i: nat)
    requires from <= start <= c < i < |ws| == |at| && Obedient(l, g, w0, ws, from, start, at, delay)
    requires After(l, g, w0, ws[..start], from).phase == Look && !After(l, g, w0, ws[..i + 1], from).phase.Done?
    requires Resting(l, g, w0, ws, from, at, c, i - 1) && at[i] == at[i - 1]
    ensures Resting(l, g, w0, ws, from, at, c, i)
  {
    hide Decode, Plan, Faulty, Target, After, Follows, Shows, Distance, Quick, Force;
    NotDoneBefore(l, g, w0, ws, from, i, i + 1);
    NotDoneBefore(l, g, w0, ws, from, c + 1, i + 1);
    InStepAt(l, g, w0, ws, from, start, at, delay, i - 1);
    InStepAt(l, g, w0, ws, from, start, at, delay, c);
  }

  // a drive that can move does not rest for long
  lemma {:induction false} RestsShortly(l: Line, g: Goal, w0: seq<bv16>, ws: seq<bv16>, from: nat, start: nat,
                                        at: seq<Pds>, delay: nat, c: nat, i: nat)
    requires from <= start <= c < i < |ws| == |at| && Obedient(l, g, w0, ws, from, start, at, delay)
    requires After(l, g, w0, ws[..start], from).phase == Look && !After(l, g, w0, ws[..i], from).phase.Done?
    requires Resting(l, g, w0, ws, from, at, c, i)
    ensures i < c + delay
  {
    hide Decode, Plan, Faulty, Target, After, Follows, Shows, Distance, Resting, Force;
    NotDoneBefore(l, g, w0, ws, from, c + 1, i);
    InStepAt(l, g, w0, ws, from, start, at, delay, c);
    PlanMoves(g, at[c]);
    assert Quick(l, g, w0, ws, from, at, c, i, delay);
  }

  /** A wait of at least `delay` reads is patient enough. */
  ghost predicate Patient(l: Line, delay: nat) { forall s: nat :: l.giveUp(s) >= s + delay }

  ghost predicate NoneRefused(l: Line) { forall k: nat :: !l.refused(k) }

  /** An obedient drive is brought to the target, from every state without fault, within `delay` reads for every
      transition on the way. The sequence is over then, with success, and was not over before. */
  lemma {:induction false} Arrives(l: Line, g: Goal, w0: seq<bv16>, ws: seq<bv16>, from: nat, start: nat, at: seq<Pds>,
                                   delay: nat)
    returns (t: nat)
    requires from <= start < |ws| == |at| && Obedient(l, g, w0, ws, from, start, at, delay) && delay > 0
    requires After(l, g, w0, ws[..start], from).phase == Look
    requires Patient(l, delay) && NoneRefused(l)
    requires |ws| > start + Distance(g, at[start]) * delay
    ensures start <= t <= start + Distance(g, at[start]) * delay && Decode(ws[t]) == Target(g)
    ensures After(l, g, w0, ws[..t + 1], from).phase == Done(Ok) && !After(l, g, w0, ws[..t], from).phase.Done?
  {
    hide Decode, Plan, Faulty, Target, After, Follows, Shows, Distance, Resting, Quick, Obedient;
    var last := start + Distance(g, at[start]) * delay;
    if !After(l, g, w0, ws[..last + 1], from).phase.Done? {
      var c := Progress(l, g, w0, ws, from, start, at, delay, last);
      TooFar(g, at[start], at[last], delay, c, start, last);
      assert false;
    }
    t := FirstDone(l, g, w0, ws, from, start, last);
    EndsWell(l, g, w0, ws, from, start, at, delay, t);
  }

  lemma {:induction false} TooFar(g: Goal, p: Pds, q: Pds, delay: nat, c: nat, start: nat, last: nat)
    requires Distance(g, q) <= Distance(g, p) && c - start <= (Distance(g, p) - Distance(g, q)) * delay
    requires q != Target(g)
    ensures c + delay <= start + Distance(g, p) * delay
  {
    var d, e := Distance(g, p), Distance(g, q);
    assert e >= 1;
    assert (d - e) * delay + delay == (d - e + 1) * delay <= d * delay;
  }

  lemma {:induction false} FirstDone(l: Line, g: Goal, w0: seq<bv16>, ws: seq<bv16>, from: nat, start: nat, last: nat)
    returns (t: nat)
    requires from <= start <= last < |ws|
    requires !After(l, g, w0, ws[..start], from).phase.Done? && After(l, g, w0, ws[..last + 1], from).phase.Done?
    ensures start <= t <= last
    ensures !After(l, g, w0, ws[..t], from).phase.Done? && After(l, g, w0, ws[..t + 1], from).phase.Done?
    decreases last
  {
    hide After;
    if After(l, g, w0, ws[..last], from).phase.Done? && last > start {
      t := FirstDone(l, g, w0, ws, from, start, last - 1);
    } else {
      t := last;
    }
  }

  // when a run with an obedient drive is over, it is for the target
  lemma {:induction false} EndsWell(l: Line, g: Goal, w0: seq<bv16>, ws: seq<bv16>, from: nat, start: nat,
                                    at: seq<Pds>, delay: nat, t: nat)
    requires from <= start <= t < |ws| == |at| && Obedient(l, g, w0, ws, from, start, at, delay) && delay > 0
    requires After(l, g, w0, ws[..start], from).phase == Look && Patient(l, delay) && NoneRefused(l)
    requires !After(l, g, w0, ws[..t], from).phase.Done? && After(l, g, w0, ws[..t + 1], from).phase.Done?
    ensures After(l, g, w0, ws[..t + 1], from).phase == Done(Ok) && Decode(ws[t]) == Target(g)
  {
    hide Decode, Plan, Target, After, Follows, Shows, Distance, Resting, Quick, Obedient;
    AfterStep(l, g, w0, ws, from, t);
    OneRead(l, g, w0, ws, from, start, at, delay, t);
    if t > start {
      InStepAt(l, g, w0, ws, from, start, at, delay, t - 1);
      var since := After(l, g, w0, ws[..t], from).phase.since;
      if ws[t] == ws[t - 1] {
        SameWordsRest(l, g, w0, ws, from, start, at, delay, since - 1, t);
        RestsShortly(l, g, w0, ws, from, start, at, delay, since - 1, t);
      }
    }
  }

  lemma {:induction false} SameWordsRest(l: Line, g: Goal, w0: seq<bv16>, ws: seq<bv16>, from: nat, start: nat,
                                         at: seq<Pds>, delay: nat, c: nat, i: nat)
    requires from <= start <= c < i < |ws| == |at| && Obedient(l, g, w0, ws, from, start, at, delay)
    requires After(l, g, w0, ws[..start], from).phase == Look && !After(l, g, w0, ws[..i], from).phase.Done?
    requires forall k :: c <= k <= i ==> ws[k] == ws[i]
    ensures Resting(l, g, w0, ws, from, at, c, i)
  {
    hide Decode, Plan, Faulty, Target, After, Follows, Shows, Distance, Quick, Force, Obedient;
    forall k | c < k <= i
      ensures at[k] == at[c] && Force(l, g, w0, ws, from, k) == Force(l, g, w0, ws, from, c + 1)
    {
      NotDoneBefore(l, g, w0, ws, from, k, i);
      NotDoneBefore(l, g, w0, ws, from, c + 1, i);
      NotDoneBefore(l, g, w0, ws, from, c, i);
      OneRead(l, g, w0, ws, from, start, at, delay, k);
      OneRead(l, g, w0, ws, from, start, at, delay, c);
      InStepAt(l, g, w0, ws, from, start, at, delay, k - 1);
      InStepAt(l, g, w0, ws, from, start, at, delay, c);
      NotDoneBefore(l, g, w0, ws, from, k - 1, i);
      OneRead(l, g, w0, ws, from, start, at, delay, k - 1);
    }
  }

  // a drive that is switched on disabled, takes every transition at once, and is enabled with two commands
  const QUICK_WORDS: seq<bv16> := [0x40, 0x40, 0x21, 0x27]
  const QUICK_STATES: seq<Pds> := [SwitchOnDisabled, SwitchOnDisabled, Ready, Enabled]

  /** There are obedient drives. */
  lemma {:induction false} AnObedientDrive(l: Line)
    requires NoneRefused(l)
    ensures Obedient(l, ToEnabled, [], QUICK_WORDS, 0, 1, QUICK_STATES, 1)
  {
    hide After, Resting, Quick, Obedient;
    var ws, at := QUICK_WORDS, QUICK_STATES;
    QuickForces(l);
    assert ws[0] == 0x40 && ws[1] == 0x40 && ws[2] == 0x21 && ws[3] == 0x27;
    assert Follows(SwitchOnDisabled, CMD_SD, Ready) && Follows(Ready, CMD_SOEO, Enabled);
    ObedientIf(l, ws, at);
  }

  lemma {:induction false} QuickForces(l: Line)
    requires NoneRefused(l)
    ensures Force(l, ToEnabled, [], QUICK_WORDS, 0, 2) == CMD_SD
            && Force(l, ToEnabled, [], QUICK_WORDS, 0, 3) == CMD_SOEO
  {
    hide After;
    var ws := QUICK_WORDS;
    AfterStart(l, ToEnabled, [], ws, 0);
    AfterStep(l, ToEnabled, [], ws, 0, 0);
    AfterStep(l, ToEnabled, [], ws, 0, 1);
    AfterStep(l, ToEnabled, [], ws, 0, 2);
    assert Decode(0x40) == SwitchOnDisabled && Decode(0x21) == Ready;
  }

  lemma {:induction false} ObedientIf(l: Line, ws: seq<bv16>, at: seq<Pds>)
    requires |ws| == |at| == 4 && Shows(ws[1], at[1]) && Shows(ws[2], at[2]) && Shows(ws[3], at[3])
    requires Follows(at[1], Force(l, ToEnabled, [], ws, 0, 2), at[2])
             && Follows(at[2], Force(l, ToEnabled, [], ws, 0, 3), at[3])
    requires at[1] != at[2] && at[2] != at[3] && !Faulty(at[1])
    ensures Obedient(l, ToEnabled, [], ws, 0, 1, at, 1)
  {
    hide After, Follows, Shows, Quick, Force;
    forall i, j | 1 <= i < j < 4 ensures !Resting(l, ToEnabled, [], ws, 0, at, i, j) {
      assert at[i + 1] != at[i];
    }
  }

  // ---------- when a sequence is still running ----------

  /** What a read is made for: by enable at first; right after a fault reset, not looked at; by the loop; in a reset
      episode, which begins after a faulty word that is looked at and ends with the first word without fault. */
  datatype Role = First | Skipped | Loop | Reset

  // the role of read i, from the words read before
  function RoleOf(g: Goal, ws: seq<bv16>, from: nat, i: nat): Role
    requires from <= i <= |ws|
  {
    if i == from then if g == ToEnabled then First else Loop
    else
      var faulty := Faulty(Decode(ws[i - 1]));
      match RoleOf(g, ws, from, i - 1)
      case First => if faulty then Reset else Loop
      case Skipped => Loop
      case Loop => if g != ToEnabled && faulty then Reset else Loop
      case Reset => if faulty then Reset else if g == ToEnabled then Skipped else Loop
  }

  // read i has the role of the read before
  predicate Continues(g: Goal, ws: seq<bv16>, from: nat, i: nat)
    requires from <= i <= |ws|
  {
    i > from && RoleOf(g, ws, from, i - 1) == RoleOf(g, ws, from, i)
  }

  // read i returns, in the same role, the word of the read before
  predicate Repeats(g: Goal, ws: seq<bv16>, from: nat, i: nat)
    requires from <= i < |ws|
  {
    Continues(g, ws, from, i) && ws[i] == ws[i - 1]
  }

  // the read after the one that brought the word of read i
  function Since(g: Goal, ws: seq<bv16>, from: nat, i: nat): (s: nat)
    requires from <= i < |ws|
    ensures from < s <= i + 1 && !Repeats(g, ws, from, s - 1)
    ensures forall k :: s <= k <= i ==> Repeats(g, ws, from, k)
  {
    if Repeats(g, ws, from, i) then Since(g, ws, from, i - 1) else i + 1
  }

  // how many words this stretch of reads in one role has brought up to read i
  function Looks(g: Goal, ws: seq<bv16>, from: nat, i: nat): nat
    requires from <= i < |ws|
  {
    if !Continues(g, ws, from, i) then 1
    else Looks(g, ws, from, i - 1) + if ws[i] == ws[i - 1] then 0 else 1
  }

  // in its role, read i shows neither what ends the loop nor a 21st faulty word
  ghost predicate Fine(g: Goal, ws: seq<bv16>, from: nat, i: nat)
    requires from <= i < |ws|
  {
    var role := RoleOf(g, ws, from, i);
    && (role.Loop? ==> !Stops(g, Decode(ws[i])))
    && (role.Reset? && Faulty(Decode(ws[i])) ==> Looks(g, ws, from, i) <= FAULT_RESET_RETRIES)
  }

  /** Read i does not end the sequence: it is fine, and if it repeats a word, the wait for another one has time left. */
  ghost predicate GoesOn(l: Line, g: Goal, ws: seq<bv16>, from: nat, i: nat)
    requires from <= i < |ws|
  {
    Fine(g, ws, from, i) && (Repeats(g, ws, from, i) ==> i + 1 < l.giveUp(Since(g, ws, from, i - 1)))
  }

  // what read i makes the sequence write
  function Answer(g: Goal, ws: seq<bv16>, from: nat, i: nat): seq<bv16>
    requires from <= i < |ws|
  {
    var faulty, role := Faulty(Decode(ws[i])), RoleOf(g, ws, from, i);
    if Repeats(g, ws, from, i) then []
    else if role.Reset? && faulty then [0, CMD_FR]
    else if role.Loop? && (g == ToEnabled || !faulty) then [Plan(g, Decode(ws[i]))]
    else []
  }

  /** For every word that is new, the planned command in the loop, and a zero and a fault reset command for a faulty one
      in a reset episode. */
  function Commands(g: Goal, ws: seq<bv16>, from: nat, n: nat): seq<bv16>
    requires from <= n <= |ws|
  {
    if n == from then [] else Commands(g, ws, from, n - 1) + Answer(g, ws, from, n - 1)
  }

  // the phase in which a sequence that is not over makes read n
  function PhaseAt(g: Goal, ws: seq<bv16>, from: nat, n: nat): Phase
    requires from <= n <= |ws|
  {
    match RoleOf(g, ws, from, n)
    case First => Start
    case Skipped => Skip
    case Loop => if Continues(g, ws, from, n) then Wait(ws[n - 1], Since(g, ws, from, n - 1)) else Look
    case Reset =>
      if Continues(g, ws, from, n)
      then ResetWait(ws[n - 1], Since(g, ws, from, n - 1), Looks(g, ws, from, n - 1)) else ResetLook
  }

  // the words since the last change of role or word
  lemma {:induction false} WordsSoFar(g: Goal, ws: seq<bv16>, from: nat, i: nat)
    requires from <= i < |ws|
    ensures Since(g, ws, from, i) == if Repeats(g, ws, from, i) then Since(g, ws, from, i - 1) else i + 1
    ensures Looks(g, ws, from, i) == if !Continues(g, ws, from, i) then 1
                                     else if Repeats(g, ws, from, i) then Looks(g, ws, from, i - 1)
                                     else Looks(g, ws, from, i - 1) + 1
  {
    hide RoleOf;
  }

  lemma {:induction false} NextRole(g: Goal, ws: seq<bv16>, from: nat, i: nat)
    requires from <= i < |ws|
    ensures var role, next, faulty := RoleOf(g, ws, from, i), RoleOf(g, ws, from, i + 1), Faulty(Decode(ws[i]));
            && (role.First? ==> next == if faulty then Reset else Loop)
            && (role.Skipped? ==> next == Loop)
            && (role.Loop? ==> next == if g != ToEnabled && faulty then Reset else Loop)
            && (role.Reset? ==> next == if faulty then Reset else if g == ToEnabled then Skipped else Loop)
    ensures Continues(g, ws, from, i + 1) <==> RoleOf(g, ws, from, i) == RoleOf(g, ws, from, i + 1)
  {
    hide Decode, Faulty;
  }

  // a read that continues its role: the word before did not end it
  lemma {:induction false} Continued(g: Goal, ws: seq<bv16>, from: nat, i: nat)
    requires from <= i < |ws| && Continues(g, ws, from, i)
    ensures var role, faulty := RoleOf(g, ws, from, i), Faulty(Decode(ws[i - 1]));
            (role.Loop? && !(g != ToEnabled && faulty)) || (role.Reset? && faulty)
  {
    hide Decode, Faulty;
    NextRole(g, ws, from, i - 1);
  }

  // a read of the loop
  lemma {:induction false} LoopRead(l: Line, g: Goal, written: seq<bv16>, ws: seq<bv16>, from: nat, i: nat)
    requires from <= i < |ws| && NoneRefused(l) && RoleOf(g, ws, from, i).Loop?
    requires i > from ==> GoesOn(l, g, ws, from, i - 1)
    ensures var s := Step(l, g, State(PhaseAt(g, ws, from, i), written), i, ws[i]);
            if GoesOn(l, g, ws, from, i)
            then s == State(PhaseAt(g, ws, from, i + 1), written + Answer(g, ws, from, i))
            else s.phase.Done?
  {
    hide Decode, Plan, Faulty, RoleOf, Since, Looks, Continues, Inspect;
    WordsSoFar(g, ws, from, i);
    NextRole(g, ws, from, i);
    Looked(l, g, written, i, ws[i]);
    if Continues(g, ws, from, i) { Continued(g, ws, from, i); RoleBefore(g, ws, from, i); }
    assert written + [] == written;
  }

  // the loop looks at a word
  lemma {:induction false} Looked(l: Line, g: Goal, written: seq<bv16>, i: nat, w: bv16)
    requires NoneRefused(l)
    ensures var p := Decode(w);
            Inspect(l, g, written, i, w) ==
            if p == Target(g) then State(Done(Ok), written)
            else if g == ToEnabled && p == Fault then State(Done(InFault), written)
            else if g != ToEnabled && Faulty(p) then State(ResetLook, written)
            else State(Wait(w, i + 1), written + [Plan(g, p)])
    ensures Stops(g, Decode(w)) <==> Decode(w) == Target(g) || (g == ToEnabled && Decode(w) == Fault)
  {
    hide Decode, Plan;
  }

  lemma {:induction false} RoleBefore(g: Goal, ws: seq<bv16>, from: nat, i: nat)
    requires from <= i < |ws| && Continues(g, ws, from, i)
    ensures i > from && RoleOf(g, ws, from, i - 1) == RoleOf(g, ws, from, i)
  {
  }

  // a read of a reset episode
  lemma {:induction false} ResetRead(l: Line, g: Goal, written: seq<bv16>, ws: seq<bv16>, from: nat, i: nat)
    requires from <= i < |ws| && NoneRefused(l) && RoleOf(g, ws, from, i).Reset?
    requires i > from ==> GoesOn(l, g, ws, from, i - 1)
    ensures var s := Step(l, g, State(PhaseAt(g, ws, from, i), written), i, ws[i]);
            if GoesOn(l, g, ws, from, i)
            then s == State(PhaseAt(g, ws, from, i + 1), written + Answer(g, ws, from, i))
            else s.phase.Done?
  {
    hide Decode, Plan, Faulty, RoleOf, Since, Looks, Continues, ResetInspect, Stops;
    WordsSoFar(g, ws, from, i);
    NextRole(g, ws, from, i);
    if Continues(g, ws, from, i) {
      Continued(g, ws, from, i);
      RoleBefore(g, ws, from, i);
      ResetLooked(l, g, written, i, ws[i], Looks(g, ws, from, i - 1));
    } else {
      ResetLooked(l, g, written, i, ws[i], 0);
    }
    assert written + [] == written;
  }

  // fault_reset looks at a word
  lemma {:induction false} ResetLooked(l: Line, g: Goal, written: seq<bv16>, i: nat, w: bv16, k: nat)
    requires NoneRefused(l)
    ensures ResetInspect(l, g, written, i, w, k) ==
            if !Faulty(Decode(w)) then State(if g == ToEnabled then Skip else Look, written)
            else if k >= FAULT_RESET_RETRIES then State(Done(InFault), written)
            else State(ResetWait(w, i + 1, k + 1), written + [0, CMD_FR])
  {
    hide Decode, Faulty;
    assert written + [0] + [CMD_FR] == written + [0, CMD_FR];
  }

  // one read of a sequence that is not over
  lemma {:induction false} ReadGoesOn(l: Line, g: Goal, written: seq<bv16>, ws: seq<bv16>, from: nat, i: nat)
    requires from <= i < |ws| && NoneRefused(l)
    requires i > from ==> GoesOn(l, g, ws, from, i - 1)
    ensures var s := Step(l, g, State(PhaseAt(g, ws, from, i), written), i, ws[i]);
            if GoesOn(l, g, ws, from, i)
            then s == State(PhaseAt(g, ws, from, i + 1), written + Answer(g, ws, from, i))
            else s.phase.Done?
  {
    hide Decode, Faulty, RoleOf, Since, Looks, Continues;
    match RoleOf(g, ws, from, i)
    case Loop => LoopRead(l, g, written, ws, from, i);
    case Reset => ResetRead(l, g, written, ws, from, i);
    case First | Skipped =>
      NextRole(g, ws, from, i);
      if Continues(g, ws, from, i) { Continued(g, ws, from, i); }
      assert written + [] == written;
  }

  lemma {:induction false} StillRunning(l: Line, g: Goal, w0: seq<bv16>, ws: seq<bv16>, from: nat, n: nat)
    requires from <= n <= |ws| && NoneRefused(l)
    ensures if forall i :: from <= i < n ==> GoesOn(l, g, ws, from, i)
            then After(l, g, w0, ws[..n], from) == State(PhaseAt(g, ws, from, n), w0 + Commands(g, ws, from, n))
            else After(l, g, w0, ws[..n], from).phase.Done?
    decreases n
  {
    hide After, GoesOn, PhaseAt, Answer, Step;
    if n == from {
      AfterStart(l, g, w0, ws, from);
      PhaseFirst(g, ws, from);
      assert w0 + [] == w0;
    } else {
      StillRunning(l, g, w0, ws, from, n - 1);
      AfterStep(l, g, w0, ws, from, n - 1);
      if forall i :: from <= i < n - 1 ==> GoesOn(l, g, ws, from, i) {
        var c := Commands(g, ws, from, n - 1);
        ReadGoesOn(l, g, w0 + c, ws, from, n - 1);
        assert w0 + c + Answer(g, ws, from, n - 1) == w0 + (c + Answer(g, ws, from, n - 1));
      } else {
        DoneStays(l, g, w0, ws, from, n - 1, n);
      }
    }
  }

  lemma {:induction false} PhaseFirst(g: Goal, ws: seq<bv16>, from: nat)
    requires from <= |ws|
    ensures PhaseAt(g, ws, from, from) == if g == ToEnabled then Start else Look
  {
  }

  /** With no write refused, every sequence, fault resets included, is still running after the reads ws if and only if
      no word in the loop has shown the target (or, in enable, a fault), no reset episode has brought a 21st faulty
      word, and every repeated word has come with time left. Its commands are then those that the words ask for. */
  lemma {:induction false} RunningIff(l: Line, g: Goal, w0: seq<bv16>, ws: seq<bv16>, from: nat)
    requires from <= |ws| && NoneRefused(l)
    ensures !After(l, g, w0, ws, from).phase.Done? <==> forall i :: from <= i < |ws| ==> GoesOn(l, g, ws, from, i)
    ensures !After(l, g, w0, ws, from).phase.Done? ==>
              After(l, g, w0, ws, from).written == w0 + Commands(g, ws, from, |ws|)
  {
    hide After, GoesOn, Commands;
    assert ws[..|ws|] == ws;
    StillRunning(l, g, w0, ws, from, |ws|);
    PhaseNotDone(g, ws, from, |ws|);
  }

  lemma {:induction false} PhaseNotDone(g: Goal, ws: seq<bv16>, from: nat, n: nat)
    requires from <= n <= |ws|
    ensures !PhaseAt(g, ws, from, n).Done?
  {
  }

  // read i is at least the `patience`th in a row that repeats a word
  ghost predicate Stuck(g: Goal, ws: seq<bv16>, from: nat, patience: nat, i: nat)
    requires from <= i < |ws|
  {
    from + patience <= i && forall k :: i - patience < k <= i ==> Repeats(g, ws, from, k)
  }

  lemma {:induction false} ExpiredIffStuck(l: Line, g: Goal, ws: seq<bv16>, from: nat, patience: nat, i: nat)
    requires from <= i < |ws| && patience > 0 && forall s: nat :: l.giveUp(s) == s + patience
    ensures GoesOn(l, g, ws, from, i) <==> Fine(g, ws, from, i) && !Stuck(g, ws, from, patience, i)
  {
    hide Fine, RoleOf;
    if Repeats(g, ws, from, i) {
      var s := Since(g, ws, from, i - 1);
      assert !Repeats(g, ws, from, s - 1);
    }
  }

  /** The code gives every wait its own interval. With one of `patience` reads, a sequence is still running, after
      however many reads, if and only if each was fine and no word has come more than `patience` times in a row. */
  lemma {:induction false} RunningInterval(l: Line, g: Goal, w0: seq<bv16>, ws: seq<bv16>, from: nat, patience: nat)
    requires from <= |ws| && NoneRefused(l) && patience > 0 && forall s: nat :: l.giveUp(s) == s + patience
    ensures !After(l, g, w0, ws, from).phase.Done?
            <==> forall i :: from <= i < |ws| ==> Fine(g, ws, from, i) && !Stuck(g, ws, from, patience, i)
  {
    hide After, Commands, Fine, Stuck, GoesOn;
    RunningIff(l, g, w0, ws, from);
    forall i | from <= i < |ws|
      ensures GoesOn(l, g, ws, from, i) <==> Fine(g, ws, from, i) && !Stuck(g, ws, from, patience, i)
    {
      ExpiredIffStuck(l, g, ws, from, patience, i);
    }
  }

  /** With the one time-out for all waits together that the comment of sw_wait_change promises: past its limit, a
      sequence is still running if and only if it was at the limit, and every read since was fine and no repeat. */
  lemma {:induction false} RunningPastLimit(l: Line, g: Goal, w0: seq<bv16>, ws: seq<bv16>, from: nat, limit: nat)
    requires from <= limit <= |ws| && NoneRefused(l) && forall s: nat :: l.giveUp(s) == limit
    ensures !After(l, g, w0, ws, from).phase.Done?
            <==> !After(l, g, w0, ws[..limit], from).phase.Done?
                 && forall i :: limit <= i < |ws| ==> Fine(g, ws, from, i) && !Repeats(g, ws, from, i)
  {
    hide After, Commands, Fine, Repeats, GoesOn;
    assert ws[..|ws|] == ws;
    StillRunning(l, g, w0, ws, from, limit);
    StillRunning(l, g, w0, ws, from, |ws|);
    PhaseNotDone(g, ws, from, limit);
    PhaseNotDone(g, ws, from, |ws|);
    forall i | limit <= i < |ws|
      ensures GoesOn(l, g, ws, from, i) <==> Fine(g, ws, from, i) && !Repeats(g, ws, from, i)
    {
      GoesOnPast(l, g, ws, from, i, limit);
    }
  }

  lemma {:induction false} GoesOnPast(l: Line, g: Goal, ws: seq<bv16>, from: nat, i: nat, limit: nat)
    requires from <= i < |ws| && limit <= i && forall s: nat :: l.giveUp(s) == limit
    ensures GoesOn(l, g, ws, from, i) <==> Fine(g, ws, from, i) && !Repeats(g, ws, from, i)
  {
    hide Fine, Repeats;
  }

  // ---------- runs that do not end ----------

  // two words of a drive that is not ready, in turn: a warning comes and goes
  function Flicker(n: nat): (ws: seq<bv16>)
    ensures |ws| == n
  {
    seq(n, i => if i % 2 == 0 then 0 else 0x80)
  }

  /** For every number of reads there is a drive that keeps enable, or any other sequence, going that long, whatever the
      time-outs: its statusword changes at every read. A command is written for every read that is looked at. */
  lemma {:induction false} NeedNotEnd(l: Line, g: Goal, w0: seq<bv16>, n: nat)
    requires NoneRefused(l) && n >= 2
    ensures var s := After(l, g, w0, Flicker(n), 0);
            !s.phase.Done? && |s.written| == |w0| + (if g == ToEnabled then n - 1 else n)
  {
    hide After, GoesOn, Flicker, Commands;
    var ws := Flicker(n);
    RunningIff(l, g, w0, ws, 0);
    forall i | 0 <= i < n ensures GoesOn(l, g, ws, 0, i) {
      FlickerRole(g, n, i);
      FlickerGoesOn(l, g, n, i);
    }
    CommandsOfAll(g, n, n);
  }

  lemma {:induction false} FlickerShows(g: Goal, n: nat, i: nat)
    requires i < n
    ensures !Faulty(Decode(Flicker(n)[i])) && !Stops(g, Decode(Flicker(n)[i]))
    ensures i > 0 ==> Flicker(n)[i] != Flicker(n)[i - 1]
  {
    assert Decode(0) == NotReady && Decode(0x80) == NotReady;
  }

  lemma {:induction false} FlickerRole(g: Goal, n: nat, i: nat)
    requires i <= n
    ensures RoleOf(g, Flicker(n), 0, i) == if i == 0 && g == ToEnabled then First else Loop
  {
    hide Flicker, Decode, Faulty;
    if i > 0 {
      FlickerRole(g, n, i - 1);
      FlickerShows(g, n, i - 1);
    }
  }

  lemma {:induction false} FlickerGoesOn(l: Line, g: Goal, n: nat, i: nat)
    requires i < n
    ensures GoesOn(l, g, Flicker(n), 0, i)
  {
    hide Flicker, Decode, Faulty, RoleOf;
    FlickerRole(g, n, i);
    FlickerShows(g, n, i);
  }

  lemma {:induction false} CommandsOfAll(g: Goal, n: nat, m: nat)
    requires m <= n
    ensures |Commands(g, Flicker(n), 0, m)| == if g == ToEnabled && m > 0 then m - 1 else m
  {
    hide Flicker, Decode, Faulty, RoleOf;
    if m > 0 {
      CommandsOfAll(g, n, m - 1);
      FlickerRole(g, n, m - 1);
      FlickerShows(g, n, m - 1);
    }
  }

  // a fault at every other read
  function FaultFlicker(n: nat): (ws: seq<bv16>)
    ensures |ws| == n
  {
    seq(n, i => if i % 2 == 0 then F else 0)
  }

  /** Disable and switch_on can be kept going through the fault branch alone: if a fault shows whenever the loop looks
      and is gone whenever fault_reset looks, they go on without ever writing a command or waiting. */
  lemma {:induction false} FaultsNeedNotEnd(l: Line, g: Goal, w0: seq<bv16>, n: nat, m: nat)
    requires g != ToEnabled && m <= n
    ensures After(l, g, w0, FaultFlicker(n)[..m], 0) == State(if m % 2 == 0 then Look else ResetLook, w0)
    decreases m
  {
    hide After;
    if m == 0 {
      AfterStart(l, g, w0, FaultFlicker(n), 0);
    } else {
      FaultsNeedNotEnd(l, g, w0, n, m - 1);
      AfterStep(l, g, w0, FaultFlicker(n), 0, m - 1);
      assert Decode(F) == Fault && Decode(0) == NotReady;
    }
  }
}
