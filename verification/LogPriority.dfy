/** The packed syslog priority of the logger: one word holds the severity in its low three bits and the facility in
    the next five (the PRI of section 6.2.1 of RFC 5424); two flags tell an explicit zero from "never set". */
module LogPriority {
  import opened Runs
  import opened Wrappers

  type Priority = bv64

  const SEVERITY_MASK: Priority := 0x07
  const FACILITY_MASK: Priority := 0xf8
  const EMERG: Priority := 0
  const INFO: Priority := 6
  const DEBUG: Priority := 7
  const KERN: Priority := 0
  const LOCAL0: Priority := 0x80
  const LOCAL7: Priority := 0xb8

  function Syslevel(lvl: Priority, fac: Priority): Priority {
    (lvl & SEVERITY_MASK) | (fac & FACILITY_MASK)
  }

  /** The calls that change the priority. SIGUSR1 lowers the level by one, SIGUSR2 raises it. */
  datatype Op = SetLevel(p: Priority) | SetFacility(p: Priority) | Usr1 | Usr2

  /** What the logger is meant to be: two independent cells. */
  datatype Cells = Cells(level: Priority, facility: Priority)

  const DEFAULTS := Cells(INFO, LOCAL0)

  /** A facility beyond LOCAL7 makes SetFacility panic before anything is changed. */
  predicate Panics(op: Op) {
    op.SetFacility? && (op.p & FACILITY_MASK) > LOCAL7
  }

  /** Exactly the facilities 0 to 23 are accepted; a logger starts with severity 6 and facility 16 (section 6.2.1 of
      RFC 5424). */
  lemma FacilitiesExactly(p: Priority)
    ensures Panics(SetFacility(p)) <==> (p >> 3) & 0x1f > 23
    ensures DEFAULTS == Cells(6, 16 << 3) && EMERG == 0 && DEBUG == 7 && KERN == 0
  {
    assert (p & 0xf8) > 0xb8 <==> (p >> 3) & 0x1f > 23;
  }

  function Step(c: Cells, op: Op): Cells {
    if Panics(op) then c else
    match op
    case SetLevel(p) => c.(level := p & SEVERITY_MASK)
    case SetFacility(p) => c.(facility := p & FACILITY_MASK)
    case Usr1 => c.(level := (c.level - 1) & SEVERITY_MASK)
    case Usr2 => c.(level := (c.level + 1) & SEVERITY_MASK)
  }

  function Run(c: Cells, ops: seq<Op>): Cells {
    Fold(Step, c, ops)
  }

  class Logger {
    var priority: Priority
    var disabled: bool
    var isKernel: bool

    constructor ()
      ensures Abstract() == DEFAULTS
      ensures priority == 0 && !isKernel
    {
      priority, disabled, isKernel := 0, false, false;
    }

    function GetFacility(): (fac: Priority)
      reads this
      ensures fac & FACILITY_MASK == fac
    {
      if priority & FACILITY_MASK == KERN && !isKernel then LOCAL0 else priority & FACILITY_MASK
    }

    function GetLevel(): (lvl: Priority)
      reads this
      ensures lvl & SEVERITY_MASK == lvl
    {
      var lvl := priority & SEVERITY_MASK;
      if lvl == EMERG && !disabled then INFO else lvl
    }

    function Abstract(): Cells
      reads this
    {
      Cells(GetLevel(), GetFacility())
    }

    /** Whether a severity or facility has been written since the logger was made. */
    predicate Written()
      reads this
    {
      priority & FACILITY_MASK != KERN || isKernel
    }

    method SetFacility(p: Priority) returns (panicked: bool)
      modifies this
      ensures panicked <==> Panics(Op.SetFacility(p))
      ensures Abstract() == Step(old(Abstract()), Op.SetFacility(p))
      ensures if panicked then Written() == old(Written()) else Written()
    {
      if (p & FACILITY_MASK) > LOCAL7 {
        return true;
      }
      priority := Syslevel(GetLevel(), p);
      isKernel := (p & FACILITY_MASK) == KERN;
      return false;
    }

    method SetLevel(p: Priority)
      modifies this
      ensures Abstract() == Step(old(Abstract()), Op.SetLevel(p))
      ensures Written()
    {
      var q := p;
      if (p & SEVERITY_MASK) > DEBUG {
        q := Syslevel(DEBUG, p);
      } else if (p & SEVERITY_MASK) < EMERG {
        q := Syslevel(EMERG, p);
      }
      priority := Syslevel(q, GetFacility());
      disabled := (q & SEVERITY_MASK) == EMERG;
    }

    /** One iteration of the signal loop. */
    method HandleSignal(op: Op)
      requires op.Usr1? || op.Usr2?
      modifies this
      ensures Abstract() == Step(old(Abstract()), op)
      ensures Written()
    {
      if op.Usr1? {
        SetLevel(GetLevel() - 1);
      } else {
        SetLevel(GetLevel() + 1);
      }
    }

    /** Over every sequence of calls and signals the word and its flags behave like the two cells. */
    method Apply(ops: seq<Op>)
      modifies this
      ensures Abstract() == Run(old(Abstract()), ops)
      ensures Written() <==> old(Written()) || exists i :: 0 <= i < |ops| && !Panics(ops[i])
    {
      for i := 0 to |ops|
        invariant Abstract() == Run(old(Abstract()), ops[..i])
        invariant Written() <==> old(Written()) || exists j :: 0 <= j < i && !Panics(ops[j])
      {
        assert ops[..i + 1][..i] == ops[..i];
        match ops[i]
        case SetLevel(p) => SetLevel(p);
        case SetFacility(p) => var _ := SetFacility(p);
        case Usr1 => HandleSignal(Usr1);
        case Usr2 => HandleSignal(Usr2);
      }
      assert ops[..|ops|] == ops;
    }

    /** The priority printed in front of a local log line of severity `p`, unless the line is suppressed. */
    method Emit(p: Priority) returns (line: Option<Priority>)
      ensures line == None <==> p & SEVERITY_MASK > GetLevel()
      ensures line.Some? ==> line.value & SEVERITY_MASK == p & SEVERITY_MASK
      ensures line.Some? ==> (line.value & FACILITY_MASK == GetFacility() <==> Written())
    {
      if p & SEVERITY_MASK > GetLevel() {
        return None;
      }
      line := Some(Syslevel(p, priority));
    }
  }

  // ---------- What the cells remember ----------

  /** Calls that change the facility. */
  predicate TouchesFacility(op: Op) {
    op.SetFacility? && !Panics(op)
  }

  lemma {:induction false} FacilityUntouched(c: Cells, ops: seq<Op>)
    requires forall op <- ops :: !TouchesFacility(op)
    ensures Run(c, ops).facility == c.facility
    decreases |ops|
  {
    if ops == [] {
    } else {
      FacilityUntouched(c, ops[..|ops| - 1]);
      assert ops[|ops| - 1] in ops;
    }
  }

  /** By how much the signals among some calls move the level, modulo 2^64. */
  function Shift(ops: seq<Op>): Priority
    decreases |ops|
  {
    if ops == [] then 0 else
      var last := ops[|ops| - 1];
      Shift(ops[..|ops| - 1]) + if last.Usr1? then -1 else if last.Usr2? then 1 else 0
  }

  lemma {:induction false} SignalsShift(c: Cells, ops: seq<Op>)
    requires c.level & SEVERITY_MASK == c.level && forall op <- ops :: !op.SetLevel?
    ensures Run(c, ops).level == (c.level + Shift(ops)) & SEVERITY_MASK
    decreases |ops|
  {
    if ops == [] {
    } else {
      SignalsShift(c, ops[..|ops| - 1]);
      assert ops[|ops| - 1] in ops;
    }
  }

  /** GetLevel is the last level set, EMERG included, or INFO if none was, moved by the signals since then, all modulo 8;
      facilities do not matter. */
  lemma LevelIsLastSet(before: seq<Op>, p: Priority, after: seq<Op>)
    requires forall op <- after :: !op.SetLevel?
    ensures Run(DEFAULTS, after).level == (INFO + Shift(after)) & SEVERITY_MASK
    ensures Run(DEFAULTS, before + [SetLevel(p)] + after).level == (p + Shift(after)) & SEVERITY_MASK
  {
    SignalsShift(DEFAULTS, after);
    FoldConcat(Step, DEFAULTS, before + [SetLevel(p)], after);
    assert (before + [SetLevel(p)])[..|before|] == before;
    var c := Run(DEFAULTS, before + [SetLevel(p)]);
    assert c.level == p & SEVERITY_MASK;
    SignalsShift(c, after);
    var s := Shift(after);
    assert ((p & SEVERITY_MASK) + s) & SEVERITY_MASK == (p + s) & SEVERITY_MASK;
  }

  /** GetFacility is the last valid facility set, including KERN, and LOCAL0 if none was; levels do not matter. */
  lemma FacilityIsLastSet(before: seq<Op>, p: Priority, after: seq<Op>)
    requires forall op <- after :: !TouchesFacility(op)
    requires !Panics(SetFacility(p))
    ensures Run(DEFAULTS, after).facility == LOCAL0
    ensures Run(DEFAULTS, before + [SetFacility(p)] + after).facility == p & FACILITY_MASK
  {
    FacilityUntouched(DEFAULTS, after);
    FoldConcat(Step, DEFAULTS, before + [SetFacility(p)], after);
    assert (before + [SetFacility(p)])[..|before|] == before;
    FacilityUntouched(Run(DEFAULTS, before + [SetFacility(p)]), after);
  }

  /** The signals do not stop at the ends of the scale: one wraps around exactly at EMERG, the other at DEBUG. */
  lemma SignalsWrapAround(c: Cells)
    requires c.level & SEVERITY_MASK == c.level
    ensures Step(c, Usr1).level < c.level <==> c.level != EMERG
    ensures Step(c, Usr2).level > c.level <==> c.level != DEBUG
    ensures Step(Step(c, Usr1), Usr2) == c == Step(Step(c, Usr2), Usr1)
  {
    if c.level == EMERG {
      assert Step(c, Usr1).level == DEBUG;
    }
  }
}
