/** The power states of a CiA 402 drive: what its statusword shows, which transitions a controlword allows, and which
    commands the sequences plan. */
module PowerStates {
  datatype Pds = NotReady | SwitchOnDisabled | Ready | SwitchedOn | Enabled | QuickStop | FaultReaction | Fault

  // statusword bits
  const RTSO: bv16 := 0x01
  const SO: bv16 := 0x02
  const OE: bv16 := 0x04
  const F: bv16 := 0x08
  const QS: bv16 := 0x20
  const SOD: bv16 := 0x40

  // controlword bits
  const CW_SO: bv16 := 0x01
  const CW_EV: bv16 := 0x02
  const CW_QS: bv16 := 0x04
  const CW_EO: bv16 := 0x08
  const CW_FR: bv16 := 0x80

  const CMD_SD: bv16 := CW_EV | CW_QS
  const CMD_SO: bv16 := CW_SO | CW_EV | CW_QS
  const CMD_SOEO: bv16 := CW_SO | CW_EV | CW_QS | CW_EO
  const CMD_DV: bv16 := 0
  const CMD_DO: bv16 := CW_SO | CW_EV | CW_QS
  const CMD_EO: bv16 := CW_SO | CW_EV | CW_QS | CW_EO
  const CMD_FR: bv16 := CW_FR

  // ---------- statuswords ----------

  /** A drive in state p shows this statusword (Table 30 of DS402 Part 2). */
  predicate Shows(sw: bv16, p: Pds) {
    match p
    case NotReady => sw & (RTSO | SO | OE | F | SOD) == 0
    case SwitchOnDisabled => sw & (RTSO | SO | OE | F | SOD) == SOD
    case Ready => sw & (RTSO | SO | OE | F | QS | SOD) == RTSO | QS
    case SwitchedOn => sw & (RTSO | SO | OE | F | QS | SOD) == RTSO | SO | QS
    case Enabled => sw & (RTSO | SO | OE | F | QS | SOD) == RTSO | SO | OE | QS
    case QuickStop => sw & (RTSO | SO | OE | F | QS | SOD) == RTSO | SO | OE
    case FaultReaction => sw & (RTSO | SO | OE | F | SOD) == RTSO | SO | OE | F
    case Fault => sw & (RTSO | SO | OE | F | SOD) == F
  }

  // il_eth_servo__state_decode
  function Decode(sw: bv16): Pds {
    if sw & (RTSO | SO | OE | F | SOD) == 0 then NotReady
    else if sw & (RTSO | SO | OE | F | SOD) == SOD then SwitchOnDisabled
    else if sw & (RTSO | SO | OE | F | QS | SOD) == RTSO | QS then Ready
    else if sw & (RTSO | SO | OE | F | QS | SOD) == RTSO | SO | QS then SwitchedOn
    else if sw & (RTSO | SO | OE | F | QS | SOD) == RTSO | SO | OE | QS then Enabled
    else if sw & (RTSO | SO | OE | F | QS | SOD) == RTSO | SO | OE then QuickStop
    else if sw & (RTSO | SO | OE | F | SOD) == RTSO | SO | OE | F then FaultReaction
    else if sw & (RTSO | SO | OE | F | SOD) == F then Fault
    else NotReady
  }

  /** The order of the tests does not matter: a statusword shows at most one state, and decoding finds it; words that
      show none count as not ready. */
  lemma {:induction false} DecodeExact(sw: bv16, p: Pds)
    ensures Shows(sw, p) ==> Decode(sw) == p
    ensures Decode(sw) == p && p != NotReady ==> Shows(sw, p)
    ensures Decode(sw) == NotReady && !Shows(sw, NotReady) ==> !Shows(sw, p)
  {
  }

  // ---------- the drive ----------

  predicate IsShutdown(cw: bv16) { cw & CW_SO == 0 && cw & CW_EV != 0 && cw & CW_QS != 0 }
  predicate IsSwitchOn(cw: bv16) { cw & CW_SO != 0 && cw & CW_EV != 0 && cw & CW_QS != 0 && cw & CW_EO == 0 }
  predicate IsEnable(cw: bv16) { cw & CW_SO != 0 && cw & CW_EV != 0 && cw & CW_QS != 0 && cw & CW_EO != 0 }
  predicate IsDisableVoltage(cw: bv16) { cw & CW_EV == 0 }
  predicate IsQuickStop(cw: bv16) { cw & CW_EV != 0 && cw & CW_QS == 0 }

  /** The transitions a drive may take under a controlword (Figure 3 and Table 27 of DS402 Part 2), faults aside. */
  predicate Follows(p: Pds, cw: bv16, next: Pds) {
    match p
    case NotReady => next == SwitchOnDisabled
    case SwitchOnDisabled => next == Ready && IsShutdown(cw)
    case Ready =>
      || (next == SwitchedOn && (IsSwitchOn(cw) || IsEnable(cw)))
      || (next == Enabled && IsEnable(cw))
      || (next == SwitchOnDisabled && (IsDisableVoltage(cw) || IsQuickStop(cw)))
    case SwitchedOn =>
      || (next == Enabled && IsEnable(cw))
      || (next == Ready && IsShutdown(cw))
      || (next == SwitchOnDisabled && (IsDisableVoltage(cw) || IsQuickStop(cw)))
    case Enabled =>
      || (next == SwitchedOn && IsSwitchOn(cw))
      || (next == Ready && IsShutdown(cw))
      || (next == SwitchOnDisabled && IsDisableVoltage(cw))
      || (next == QuickStop && IsQuickStop(cw))
    case QuickStop =>
      || (next == Enabled && IsEnable(cw))
      || next == SwitchOnDisabled
    case FaultReaction => next == Fault
    case Fault => next == SwitchOnDisabled && cw & CW_FR != 0
  }

  predicate Faulty(p: Pds) { p == FaultReaction || p == Fault }

  // ---------- the commands ----------

  datatype Goal = ToDisabled | ToOn | ToEnabled

  function Target(g: Goal): Pds {
    match g
    case ToDisabled => SwitchOnDisabled
    case ToOn => SwitchedOn
    case ToEnabled => Enabled
  }

  // the command for the state just read
  function Plan(g: Goal, p: Pds): bv16 {
    match g
    case ToDisabled => CMD_DV
    case ToOn =>
      if p == NotReady then CMD_DV else if p == SwitchOnDisabled then CMD_SD else if p == Ready then CMD_SO
      else if p == Enabled then CMD_DO else CMD_DV
    case ToEnabled =>
      if p == NotReady then CMD_DV
      else if p == SwitchOnDisabled then CMD_SD
      else if p == Ready then CMD_SOEO
      else CMD_EO
  }

  /** The planned commands by name (Table 27 of DS402 Part 2). Where no other command is due, voltage is disabled: so
      switch_on takes a drive out of a quick stop, while enable lets it go on. */
  lemma {:induction false} PlannedCommands(g: Goal, p: Pds)
    requires p != Target(g) && !Faulty(p)
    ensures IsDisableVoltage(Plan(g, p)) <==> g == ToDisabled || p == NotReady || (g == ToOn && p == QuickStop)
    ensures IsShutdown(Plan(g, p)) <==> g != ToDisabled && p == SwitchOnDisabled
    ensures IsSwitchOn(Plan(g, p)) <==> g == ToOn && (p == Ready || p == Enabled)
    ensures IsEnable(Plan(g, p)) <==> g == ToEnabled && (p == Ready || p == SwitchedOn || p == QuickStop)
    ensures !IsQuickStop(Plan(g, p)) && Plan(g, p) & CW_FR == 0
  {
  }

  /** A fault ends under the reset command only, and under no command that is planned. */
  lemma {:induction false} FaultEnds(g: Goal, p: Pds)
    ensures Follows(Fault, CMD_FR, p) <==> p == SwitchOnDisabled
    ensures CMD_FR == 0x80 && CMD_DV == 0
    ensures !Follows(Fault, CMD_DV, p) && !Follows(Fault, Plan(g, Fault), p)
  {
  }

  // transitions left to the target
  function Distance(g: Goal, p: Pds): nat {
    match g
    case ToDisabled => if p == SwitchOnDisabled then 0 else 1
    case ToOn =>
      if p == SwitchedOn then 0 else if p == Ready || p == Enabled then 1 else if p == SwitchOnDisabled then 2 else 3
    case ToEnabled =>
      if p == Enabled then 0
      else if p == SwitchedOn then 1
      else if p == Ready then 2
      else if p == SwitchOnDisabled then 3
      else 4
  }

  /** Every transition that the planned command allows leads strictly closer to the target, and never into a fault. */
  lemma {:induction false} EveryTransitionHelps(g: Goal, p: Pds, next: Pds)
    requires !Faulty(p) && p != Target(g) && Follows(p, Plan(g, p), next)
    ensures Distance(g, next) < Distance(g, p) && !Faulty(next)
  {
  }

  ghost predicate CanMove(p: Pds, cw: bv16) { exists next :: Follows(p, cw, next) }

  /** On the way to the target the planned command always allows a transition. */
  lemma {:induction false} PlanMoves(g: Goal, p: Pds)
    requires !Faulty(p) && p != Target(g)
    ensures CanMove(p, Plan(g, p))
  {
    var c := Plan(g, p);
    match p
    case NotReady => assert Follows(p, c, SwitchOnDisabled);
    case SwitchOnDisabled => assert Follows(p, c, Ready);
    case Ready => assert Follows(p, c, if g == ToDisabled then SwitchOnDisabled else SwitchedOn);
    case SwitchedOn => assert Follows(p, c, if g == ToDisabled then SwitchOnDisabled else Enabled);
    case Enabled => assert Follows(p, c, if g == ToDisabled then SwitchOnDisabled else SwitchedOn);
    case QuickStop => assert Follows(p, c, SwitchOnDisabled);
  }
}
