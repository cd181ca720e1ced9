/** The flush protocol of a whole machine: every interleaving of page-table changes, TLB fills,
    flush requests and out-of-order deliveries of their interrupts.

    A handler is three kinds of step: it reads both generations and decides, it flushes, and it
    publishes the generation it read. Any other step may come between them. All CPUs have the
    address space loaded throughout. */
module TlbProtocol {
  import opened Arith
  import opened TlbFlush

  type CpuId = nat

  /** Where a CPU is in the flush handler. `snap` is the generation read at the start. */
  datatype Pc =
    | Idle
    | FlushingRange(g: nat, snap: nat, addr: nat)
    | FlushingAll(g: nat, snap: nat)
    | Flushed(g: nat, snap: nat)

  datatype CpuState = CpuState(tlb: set<Entry>, gen: nat, pc: Pc)

  /** `log[g - 1]` is the request that raised the generation to g and `pending[g - 1]` the CPUs
      that have not yet started its handler. `dirty` holds the translations taken out of the page
      table that no later request has covered; no step of the protocol reads it. */
  datatype State = State(
    mmGen: nat,
    log: seq<FlushInfo>,
    pending: seq<set<CpuId>>,
    cpus: map<CpuId, CpuState>,
    pt: set<Leaf>,
    dirty: set<Leaf>)

  datatype Step =
    | Fill(c: CpuId, leaf: Leaf)
    | Evict(c: CpuId, e: Entry)
    | ChangePtes(removed: set<Leaf>, added: set<Leaf>)
    | Request(start: nat, end: nat, strideShift: nat)
    | Begin(c: CpuId, g: nat)
    | FlushPage(c: CpuId)
    | FlushEverything(c: CpuId)
    | Publish(c: CpuId)

  predicate Init(s: State) {
    && s.mmGen == 0 && s.log == [] && s.pending == [] && s.dirty == {}
    && forall c :: c in s.cpus ==> s.cpus[c] == CpuState({}, 0, Idle)
  }

  /** The request with the next generation. */
  function NewInfo(s: State, start: nat, end: nat, strideShift: nat): FlushInfo {
    MakeInfo(start, end, strideShift, s.mmGen + 1)
  }

  predicate Enabled(s: State, step: Step) {
    |s.log| == s.mmGen && |s.pending| == s.mmGen &&
    match step
    case Fill(c, leaf) => c in s.cpus && leaf in s.pt
    case Evict(c, e) => c in s.cpus
    case ChangePtes(removed, added) => true
    case Request(start, end, strideShift) =>
      // The requester chooses a stride that fits the translations in use.
      forall c, e :: c in s.cpus && e in s.cpus[c].tlb ==>
        StrideFits(NewInfo(s, start, end, strideShift), e.leaf)
    case Begin(c, g) =>
      c in s.cpus && s.cpus[c].pc.Idle? && 1 <= g <= s.mmGen && c in s.pending[g - 1]
    case FlushPage(c) =>
      c in s.cpus && s.cpus[c].pc.FlushingRange? && 1 <= s.cpus[c].pc.g <= s.mmGen
      && s.cpus[c].pc.addr < s.log[s.cpus[c].pc.g - 1].end
    case FlushEverything(c) => c in s.cpus && s.cpus[c].pc.FlushingAll?
    case Publish(c) =>
      c in s.cpus
      && (s.cpus[c].pc.Flushed?
          || (s.cpus[c].pc.FlushingRange? && 1 <= s.cpus[c].pc.g <= s.mmGen
              && s.log[s.cpus[c].pc.g - 1].end <= s.cpus[c].pc.addr))
  }

  /** The start of a handler: both generations are read and the kind of flush is chosen. */
  function BeginHandler(cpu: CpuState, f: FlushInfo, g: nat, mmGen: nat): CpuState {
    match Decide(f, cpu.gen, mmGen)
    case UpToDate => cpu
    case Partial => cpu.(pc := FlushingRange(g, mmGen, f.start))
    case Full => cpu.(pc := FlushingAll(g, mmGen))
  }

  function FlushOnePage(cpu: CpuState, f: FlushInfo): CpuState
    requires cpu.pc.FlushingRange?
  {
    cpu.(tlb := FlushOneUser(cpu.tlb, cpu.pc.addr), pc := cpu.pc.(addr := cpu.pc.addr + f.stride))
  }

  function PublishGen(cpu: CpuState): CpuState
    requires !cpu.pc.Idle?
  {
    cpu.(gen := cpu.pc.snap, pc := Idle)
  }

  function Apply(s: State, step: Step): State
    requires Enabled(s, step)
  {
    match step
    case Fill(c, leaf) =>
      s.(cpus := s.cpus[c := s.cpus[c].(tlb := s.cpus[c].tlb + {Entry(leaf, s.mmGen)})])
    case Evict(c, e) => s.(cpus := s.cpus[c := s.cpus[c].(tlb := s.cpus[c].tlb - {e})])
    case ChangePtes(removed, added) =>
      s.(pt := s.pt - removed + added, dirty := s.dirty + (s.pt * removed))
    case Request(start, end, strideShift) =>
      var f := NewInfo(s, start, end, strideShift);
      s.(mmGen := s.mmGen + 1, log := s.log + [f], pending := s.pending + [s.cpus.Keys],
         dirty := set l | l in s.dirty && !Covers(f, l))
    case Begin(c, g) =>
      s.(pending := s.pending[g - 1 := s.pending[g - 1] - {c}],
         cpus := s.cpus[c := BeginHandler(s.cpus[c], s.log[g - 1], g, s.mmGen)])
    case FlushPage(c) =>
      s.(cpus := s.cpus[c := FlushOnePage(s.cpus[c], s.log[s.cpus[c].pc.g - 1])])
    case FlushEverything(c) =>
      s.(cpus := s.cpus[c := s.cpus[c].(tlb := {}, pc := Flushed(s.cpus[c].pc.g, s.cpus[c].pc.snap))])
    case Publish(c) => s.(cpus := s.cpus[c := PublishGen(s.cpus[c])])
  }

  /** A run: each step is enabled where it is taken. */
  ghost predicate IsRun(s: State, steps: seq<Step>)
    decreases |steps|
  {
    steps == [] || (Enabled(s, steps[0]) && IsRun(Apply(s, steps[0]), steps[1..]))
  }

  ghost function After(s: State, steps: seq<Step>): State
    requires IsRun(s, steps)
    decreases |steps|
  {
    if steps == [] then s else After(Apply(s, steps[0]), steps[1..])
  }

  // ----- The invariant -----

  /** No cached entry is older than a flush of generation at most `gen` that covers it. */
  predicate CaughtUp(tlb: set<Entry>, log: seq<FlushInfo>, gen: nat)
    requires gen <= |log|
  {
    forall e, i :: e in tlb && 0 <= i < gen && Covers(log[i], e.leaf) ==> i < e.fillGen
  }

  predicate PcInv(cpu: CpuState, log: seq<FlushInfo>)
    requires forall i :: 0 <= i < |log| ==> log[i].stride > 0
  {
    match cpu.pc
    case Idle => true
    case FlushingRange(g, snap, addr) =>
      && g == snap == cpu.gen + 1 && snap <= |log| && log[g - 1].end != TLB_FLUSH_ALL
      && log[g - 1].start <= addr
      && (log[g - 1].start % log[g - 1].stride == 0 ==> addr % log[g - 1].stride == 0)
      && forall e :: e in cpu.tlb && e.fillGen < snap ==>
           !Overlaps(e.leaf, log[g - 1].start, Min(addr, log[g - 1].end))
    case FlushingAll(g, snap) => 1 <= g <= snap <= |log| && cpu.gen < snap
    case Flushed(g, snap) =>
      1 <= g <= snap <= |log| && cpu.gen < snap
      && forall e :: e in cpu.tlb ==> snap <= e.fillGen
  }

  predicate CpuInv(cpu: CpuState, log: seq<FlushInfo>)
    requires forall i :: 0 <= i < |log| ==> log[i].stride > 0
  {
    && cpu.gen <= |log|
    && (forall e :: e in cpu.tlb ==> e.fillGen <= |log|)
    && CaughtUp(cpu.tlb, log, cpu.gen)
    && PcInv(cpu, log)
    && (forall e, i :: e in cpu.tlb && e.fillGen <= i < |log| ==> StrideFits(log[i], e.leaf))
  }

  predicate Serving(cpu: CpuState, g: nat) {
    !cpu.pc.Idle? && cpu.pc.g == g
  }

  /** Every CPU has still to take a request's interrupt, is handling it, or has reached it. */
  predicate Accounted(s: State)
    requires |s.log| == s.mmGen && |s.pending| == s.mmGen
  {
    forall c, i :: c in s.cpus && 0 <= i < s.mmGen ==>
      c in s.pending[i] || Serving(s.cpus[c], i + 1) || i < s.cpus[c].gen
  }

  /** A cached translation the page table no longer holds is still to be flushed. */
  predicate Explained(s: State, e: Entry)
    requires |s.log| == s.mmGen
  {
    || e.leaf in s.pt
    || e.leaf in s.dirty
    || exists i :: e.fillGen <= i < s.mmGen && Covers(s.log[i], e.leaf)
  }

  predicate LogInv(s: State) {
    && |s.log| == s.mmGen && |s.pending| == s.mmGen
    && forall i :: 0 <= i < |s.log| ==> s.log[i].stride > 0 && s.log[i].newGen == i + 1
  }

  predicate Inv(s: State) {
    && LogInv(s)
    && (forall c :: c in s.cpus ==> CpuInv(s.cpus[c], s.log))
    && Accounted(s)
    && (forall c, e :: c in s.cpus && e in s.cpus[c].tlb ==> Explained(s, e))
  }

  // ----- Every step keeps it -----

  lemma FillKeepsCpu(cpu: CpuState, log: seq<FlushInfo>, leaf: Leaf)
    requires forall i :: 0 <= i < |log| ==> log[i].stride > 0
    requires CpuInv(cpu, log)
    ensures CpuInv(cpu.(tlb := cpu.tlb + {Entry(leaf, |log|)}), log)
  {
  }

  /** A new request leaves every CPU's promises about the earlier ones as they were. */
  lemma RequestKeepsCpu(cpu: CpuState, log: seq<FlushInfo>, f: FlushInfo)
    requires forall i :: 0 <= i < |log| ==> log[i].stride > 0
    requires CpuInv(cpu, log) && f.stride > 0
    requires forall e :: e in cpu.tlb ==> StrideFits(f, e.leaf)
    ensures CpuInv(cpu, log + [f])
  {
    var log' := log + [f];
    assert forall i :: 0 <= i < |log| ==> log'[i] == log[i];
    assert CaughtUp(cpu.tlb, log', cpu.gen);
  }

  lemma BeginKeepsCpu(cpu: CpuState, log: seq<FlushInfo>, g: nat)
    requires forall i :: 0 <= i < |log| ==> log[i].stride > 0 && log[i].newGen == i + 1
    requires CpuInv(cpu, log) && cpu.pc.Idle? && 1 <= g <= |log|
    ensures CpuInv(BeginHandler(cpu, log[g - 1], g, |log|), log)
  {
  }

  lemma FlushPageKeepsCpu(cpu: CpuState, log: seq<FlushInfo>)
    requires forall i :: 0 <= i < |log| ==> log[i].stride > 0
    requires CpuInv(cpu, log) && cpu.pc.FlushingRange? && cpu.pc.addr < log[cpu.pc.g - 1].end
    ensures CpuInv(FlushOnePage(cpu, log[cpu.pc.g - 1]), log)
  {
    var f, addr := log[cpu.pc.g - 1], cpu.pc.addr;
    var cpu' := FlushOnePage(cpu, f);
    if f.start % f.stride == 0 {
      MulMod(f.stride, 1);
      ModAdd(addr, f.stride, f.stride);
    }
    forall e | e in cpu'.tlb && e.fillGen < cpu.pc.snap
      ensures !Overlaps(e.leaf, f.start, Min(addr + f.stride, f.end))
    {
      assert StrideFits(log[cpu.pc.g - 1], e.leaf);
      OneStride(f, e.leaf, addr);
    }
  }

  /** Publishing is justified: what the handler flushed is enough for every generation up to the
      one it read, entries loaded since then included. */
  lemma PublishKeepsCpu(cpu: CpuState, log: seq<FlushInfo>)
    requires forall i :: 0 <= i < |log| ==> log[i].stride > 0
    requires CpuInv(cpu, log)
    requires cpu.pc.Flushed? || (cpu.pc.FlushingRange? && log[cpu.pc.g - 1].end <= cpu.pc.addr)
    ensures CpuInv(PublishGen(cpu), log)
  {
  }

  lemma RequestKeepsInv(s: State, step: Step)
    requires Inv(s) && Enabled(s, step) && step.Request?
    ensures Inv(Apply(s, step))
  {
    var s' := Apply(s, step);
    var f := s'.log[s.mmGen];
    assert forall i :: 0 <= i < s.mmGen ==> s'.log[i] == s.log[i] && s'.pending[i] == s.pending[i];
    forall c | c in s'.cpus ensures CpuInv(s'.cpus[c], s'.log) {
      RequestKeepsCpu(s.cpus[c], s.log, f);
    }
    forall c, e | c in s'.cpus && e in s'.cpus[c].tlb ensures Explained(s', e) {
      assert Explained(s, e);
      if e.leaf !in s'.pt && e.leaf !in s'.dirty {
        if e.leaf in s.dirty {
          assert Covers(s'.log[s.mmGen], e.leaf);
        } else {
          var i :| e.fillGen <= i < s.mmGen && Covers(s.log[i], e.leaf);
          assert Covers(s'.log[i], e.leaf);
        }
      }
    }
  }

  lemma ExplainedFrame(s: State, s': State)
    requires Inv(s) && s'.mmGen == s.mmGen && s'.log == s.log && s'.pt == s.pt && s'.dirty == s.dirty
    requires s'.cpus.Keys == s.cpus.Keys
    requires forall c :: c in s.cpus ==> s'.cpus[c].tlb <= s.cpus[c].tlb
    ensures forall c, e :: c in s'.cpus && e in s'.cpus[c].tlb ==> Explained(s', e)
  {
    forall c, e | c in s'.cpus && e in s'.cpus[c].tlb ensures Explained(s', e) {
      assert Explained(s, e);
    }
  }

  lemma BeginKeepsAccounts(s: State, c0: CpuId, g: nat)
    requires Inv(s) && Enabled(s, Begin(c0, g))
    ensures Accounted(Apply(s, Begin(c0, g)))
  {
    var s' := Apply(s, Begin(c0, g));
    var cpu, cpu' := s.cpus[c0], s'.cpus[c0];
    assert Serving(cpu', g) || g <= cpu'.gen;
    assert !(exists i: nat :: Serving(cpu, i)) && cpu'.gen == cpu.gen;
    forall c, i | c in s'.cpus && 0 <= i < s'.mmGen
      ensures c in s'.pending[i] || Serving(s'.cpus[c], i + 1) || i < s'.cpus[c].gen
    {
      assert c in s.pending[i] || Serving(s.cpus[c], i + 1) || i < s.cpus[c].gen;
      if c == c0 && i != g - 1 {
        assert s'.pending[i] == s.pending[i];
      }
    }
  }

  lemma BeginKeepsInv(s: State, c0: CpuId, g: nat)
    requires Inv(s) && Enabled(s, Begin(c0, g))
    ensures Inv(Apply(s, Begin(c0, g)))
  {
    var s' := Apply(s, Begin(c0, g));
    var cpu' := BeginHandler(s.cpus[c0], s.log[g - 1], g, s.mmGen);
    BeginKeepsCpu(s.cpus[c0], s.log, g);
    assert s'.cpus == s.cpus[c0 := cpu'];
    BeginKeepsAccounts(s, c0, g);
    ExplainedFrame(s, s');
  }

  /** A step that only moves one CPU's handler forward. */
  lemma HandlerKeepsInv(s: State, c0: CpuId, cpu': CpuState)
    requires Inv(s) && c0 in s.cpus && CpuInv(cpu', s.log) && cpu'.tlb <= s.cpus[c0].tlb
    requires forall g: nat :: Serving(s.cpus[c0], g) || g <= s.cpus[c0].gen ==>
               Serving(cpu', g) || g <= cpu'.gen
    ensures Inv(s.(cpus := s.cpus[c0 := cpu']))
  {
    var s' := s.(cpus := s.cpus[c0 := cpu']);
    ExplainedFrame(s, s');
    forall c, i | c in s'.cpus && 0 <= i < s'.mmGen
      ensures c in s'.pending[i] || Serving(s'.cpus[c], i + 1) || i < s'.cpus[c].gen
    {
      assert c in s.pending[i] || Serving(s.cpus[c], i + 1) || i < s.cpus[c].gen;
    }
  }

  lemma FlushKeepsInv(s: State, step: Step)
    requires Inv(s) && Enabled(s, step)
    requires step.FlushPage? || step.FlushEverything? || step.Publish?
    ensures Inv(Apply(s, step))
  {
    var cpu := s.cpus[step.c];
    assert CpuInv(cpu, s.log);
    match step
    case FlushPage(c) =>
      FlushPageKeepsCpu(cpu, s.log);
      HandlerKeepsInv(s, c, FlushOnePage(cpu, s.log[cpu.pc.g - 1]));
    case FlushEverything(c) => HandlerKeepsInv(s, c, Apply(s, step).cpus[c]);
    case Publish(c) =>
      PublishKeepsCpu(cpu, s.log);
      HandlerKeepsInv(s, c, PublishGen(cpu));
  }

  lemma TableKeepsInv(s: State, step: Step)
    requires Inv(s) && Enabled(s, step) && (step.Fill? || step.Evict? || step.ChangePtes?)
    ensures Inv(Apply(s, step))
  {
    var s' := Apply(s, step);
    if step.Fill? {
      FillKeepsCpu(s.cpus[step.c], s.log, step.leaf);
    }
    forall c, e | c in s'.cpus && e in s'.cpus[c].tlb ensures Explained(s', e) {
      if e in s.cpus[c].tlb {
        assert Explained(s, e);
        if e.leaf !in s'.pt && e.leaf !in s'.dirty {
          var i :| e.fillGen <= i < s.mmGen && Covers(s.log[i], e.leaf);
          assert Covers(s'.log[i], e.leaf);
        }
      }
    }
    forall c, i | c in s'.cpus && 0 <= i < s'.mmGen
      ensures c in s'.pending[i] || Serving(s'.cpus[c], i + 1) || i < s'.cpus[c].gen
    {
      assert c in s.pending[i] || Serving(s.cpus[c], i + 1) || i < s.cpus[c].gen;
    }
  }

  lemma StepKeepsInv(s: State, step: Step)
    requires Inv(s) && Enabled(s, step)
    ensures Inv(Apply(s, step))
  {
    match step
    case Request(_, _, _) => RequestKeepsInv(s, step);
    case Begin(c, g) => BeginKeepsInv(s, c, g);
    case Publish(_) => FlushKeepsInv(s, step);
    case FlushPage(_) => FlushKeepsInv(s, step);
    case FlushEverything(_) => FlushKeepsInv(s, step);
    case _ => TableKeepsInv(s, step);
  }

  lemma {:induction false} RunKeepsInv(s: State, steps: seq<Step>)
    requires Inv(s) && IsRun(s, steps)
    ensures Inv(After(s, steps))
    decreases |steps|
  {
    if steps != [] {
      StepKeepsInv(s, steps[0]);
      RunKeepsInv(Apply(s, steps[0]), steps[1..]);
    }
  }

  // ----- What callers rely on -----

  /** In every reachable state a CPU at generation g caches nothing invalidated by a flush of
      generation at most g, and no CPU is ahead of the address space. */
  lemma NoStaleEntry(s: State, steps: seq<Step>, c: CpuId, e: Entry, g: nat)
    requires Init(s) && IsRun(s, steps)
    requires c in After(s, steps).cpus && e in After(s, steps).cpus[c].tlb
    ensures After(s, steps).cpus[c].gen <= After(s, steps).mmGen == |After(s, steps).log|
    ensures 1 <= g <= After(s, steps).cpus[c].gen && Covers(After(s, steps).log[g - 1], e.leaf) ==>
              e.fillGen >= g
  {
    RunKeepsInv(s, steps);
  }

  /** The two warnings of the handler never fire: whenever a handler may start, neither the CPU nor
      the request is ahead of the address space. */
  lemma HandlerWarningsNeverFire(s: State, steps: seq<Step>, c: CpuId, g: nat)
    requires Init(s) && IsRun(s, steps) && Enabled(After(s, steps), Begin(c, g))
    ensures var t := After(s, steps);
            t.cpus[c].gen <= t.mmGen && t.log[g - 1].newGen == g <= t.mmGen
  {
    RunKeepsInv(s, steps);
  }

  predicate HandledByAll(s: State, g: nat)
    requires 1 <= g <= |s.pending|
  {
    s.pending[g - 1] == {} && forall c :: c in s.cpus ==> !Serving(s.cpus[c], g)
  }

  /** Once every interrupt of a request is handled, every CPU has caught up to it, however the
      deliveries were ordered. */
  lemma RequestCompletes(s: State, steps: seq<Step>, g: nat, c: CpuId)
    requires Init(s) && IsRun(s, steps)
    requires 1 <= g <= |After(s, steps).pending| && HandledByAll(After(s, steps), g)
    requires c in After(s, steps).cpus
    ensures After(s, steps).cpus[c].gen >= g
  {
    RunKeepsInv(s, steps);
    var t := After(s, steps);
    assert c in t.pending[g - 1] || Serving(t.cpus[c], g) || g - 1 < t.cpus[c].gen;
  }

  /** A CPU that has caught up with the address space caches only translations the page table
      holds, apart from changes for which no flush has been requested yet. */
  lemma CaughtUpIsCoherent(s: State, steps: seq<Step>, c: CpuId, e: Entry)
    requires Init(s) && IsRun(s, steps)
    requires c in After(s, steps).cpus && e in After(s, steps).cpus[c].tlb
    requires After(s, steps).cpus[c].gen == After(s, steps).mmGen
    ensures e.leaf in After(s, steps).pt || e.leaf in After(s, steps).dirty
  {
    RunKeepsInv(s, steps);
    assert Explained(After(s, steps), e);
  }

  lemma {:induction false} RunAppend(s: State, a: seq<Step>, b: seq<Step>)
    requires IsRun(s, a) && IsRun(After(s, a), b)
    ensures IsRun(s, a + b) && After(s, a + b) == After(After(s, a), b)
    decreases |a|
  {
    if a == [] {
      assert a + b == b;
    } else {
      RunAppend(Apply(s, a[0]), a[1..], b);
      assert (a + b)[0] == a[0] && (a + b)[1..] == a[1..] + b;
    }
  }

  /** Along a run on which `leaf` is never mapped, every entry for it is older than the start. */
  ghost predicate NeverMapped(s: State, steps: seq<Step>, leaf: Leaf)
    requires IsRun(s, steps)
    decreases |steps|
  {
    leaf !in s.pt && (steps != [] ==> NeverMapped(Apply(s, steps[0]), steps[1..], leaf))
  }

  lemma {:induction false} UnmappedLeafIsOld(s: State, steps: seq<Step>, leaf: Leaf, g: nat)
    requires IsRun(s, steps) && NeverMapped(s, steps, leaf)
    requires forall c, e :: c in s.cpus && e in s.cpus[c].tlb && e.leaf == leaf ==> e.fillGen < g
    ensures var t := After(s, steps);
            forall c, e :: c in t.cpus && e in t.cpus[c].tlb && e.leaf == leaf ==> e.fillGen < g
    decreases |steps|
  {
    if steps != [] {
      var s1 := Apply(s, steps[0]);
      forall c, e | c in s1.cpus && e in s1.cpus[c].tlb && e.leaf == leaf ensures e.fillGen < g {
        assert e in s.cpus[c].tlb;
      }
      UnmappedLeafIsOld(s1, steps[1..], leaf, g);
      assert After(s, steps) == After(s1, steps[1..]);
    }
  }

  lemma {:induction false} LogGrows(s: State, steps: seq<Step>, i: nat)
    requires Inv(s) && IsRun(s, steps) && i < |s.log|
    ensures i < |After(s, steps).log| && After(s, steps).log[i] == s.log[i]
    decreases |steps|
  {
    if steps != [] {
      StepKeepsInv(s, steps[0]);
      LogGrows(Apply(s, steps[0]), steps[1..], i);
    }
  }

  /** The shootdown guarantee. A translation is taken out of the page table, a flush that covers it
      is requested, and it is not mapped again: when all interrupts of the request have been
      handled, no TLB of the machine holds it, whatever else ran in between. */
  lemma ShotDown(s: State, before: seq<Step>, start: nat, end: nat, strideShift: nat,
                 later: seq<Step>, leaf: Leaf, c: CpuId, e: Entry)
    requires Init(s) && IsRun(s, before)
    requires Enabled(After(s, before), Request(start, end, strideShift))
    requires end == TLB_FLUSH_ALL || Overlaps(leaf, start, end)
    requires IsRun(Apply(After(s, before), Request(start, end, strideShift)), later)
    requires NeverMapped(Apply(After(s, before), Request(start, end, strideShift)), later, leaf)
    requires var t := After(Apply(After(s, before), Request(start, end, strideShift)), later);
             var g := After(s, before).mmGen + 1;
             && g <= |t.pending| && HandledByAll(t, g)
             && c in t.cpus && e in t.cpus[c].tlb
    ensures e.leaf != leaf
  {
    var s0 := After(s, before);
    RunKeepsInv(s, before);
    var s1 := Apply(s0, Request(start, end, strideShift));
    StepKeepsInv(s0, Request(start, end, strideShift));
    RunKeepsInv(s1, later);
    var t, g := After(s1, later), s0.mmGen + 1;
    LogGrows(s1, later, g - 1);
    MakeInfoCovers(start, end, strideShift, g, leaf);
    UnmappedLeafIsOld(s1, later, leaf, g);
    assert c in t.pending[g - 1] || Serving(t.cpus[c], g) || g - 1 < t.cpus[c].gen;
    assert CaughtUp(t.cpus[c].tlb, t.log, t.cpus[c].gen);
  }

  // ----- The handler of module TlbFlush is a run of these steps -----

  /** One more page flushed leaves the same translations uncovered. */
  lemma FlushedPage(s: State, c: CpuId) returns (s1: State)
    requires Inv(s) && c in s.cpus && s.cpus[c].pc.FlushingRange?
    requires s.cpus[c].pc.addr < s.log[s.cpus[c].pc.g - 1].end
    requires forall e :: e in s.cpus[c].tlb ==> e.fillGen < s.cpus[c].pc.snap
    ensures Enabled(s, FlushPage(c)) && s1 == Apply(s, FlushPage(c)) && Inv(s1)
    ensures s1.cpus[c].pc == s.cpus[c].pc.(addr := s1.cpus[c].pc.addr) && s1.cpus[c].pc.addr > s.cpus[c].pc.addr
    ensures s1.cpus[c].tlb <= s.cpus[c].tlb && s1 == s.(cpus := s.cpus[c := s1.cpus[c]])
    ensures Uncovered(s1.cpus[c].tlb, s.log[s.cpus[c].pc.g - 1]) == Uncovered(s.cpus[c].tlb, s.log[s.cpus[c].pc.g - 1])
  {
    var cpu := s.cpus[c];
    assert CpuInv(cpu, s.log);
    var f := s.log[cpu.pc.g - 1];
    s1 := Apply(s, FlushPage(c));
    StepKeepsInv(s, FlushPage(c));
    forall e | e in cpu.tlb && e.leaf.Contains(cpu.pc.addr) ensures Covers(f, e.leaf) {
      assert Max(e.leaf.va, f.start) <= cpu.pc.addr;
    }
  }

  lemma {:induction false} RangeRun(s: State, c: CpuId) returns (steps: seq<Step>)
    requires Inv(s) && c in s.cpus && s.cpus[c].pc.FlushingRange?
    requires forall e :: e in s.cpus[c].tlb ==> e.fillGen < s.cpus[c].pc.snap
    ensures IsRun(s, steps)
    ensures After(s, steps) == s.(cpus := s.cpus[c :=
              CpuState(Uncovered(s.cpus[c].tlb, s.log[s.cpus[c].pc.g - 1]), s.cpus[c].pc.snap, Idle)])
    decreases s.log[s.cpus[c].pc.g - 1].end - s.cpus[c].pc.addr
  {
    var cpu := s.cpus[c];
    assert CpuInv(cpu, s.log);
    var f := s.log[cpu.pc.g - 1];
    if cpu.pc.addr < f.end {
      var s1 := FlushedPage(s, c);
      var rest := RangeRun(s1, c);
      steps := [FlushPage(c)] + rest;
      assert steps[1..] == rest;
      assert After(s, steps) == After(s1, rest);
    } else {
      steps := [Publish(c)];
      assert steps[1..] == [];
      assert Uncovered(cpu.tlb, f) == cpu.tlb;
      assert After(s, steps) == After(Apply(s, Publish(c)), []);
    }
  }

  lemma FullRun(s: State, c: CpuId) returns (steps: seq<Step>)
    requires Inv(s) && c in s.cpus && s.cpus[c].pc.FlushingAll?
    ensures IsRun(s, steps)
    ensures After(s, steps) == s.(cpus := s.cpus[c := CpuState({}, s.cpus[c].pc.snap, Idle)])
  {
    var s1 := Apply(s, FlushEverything(c));
    var s2 := Apply(s1, Publish(c));
    steps := [FlushEverything(c), Publish(c)];
    assert steps[1..] == [Publish(c)] && steps[1..][1..] == [];
    assert After(s2, []) == s2;
    assert After(s1, [Publish(c)]) == s2;
  }

  lemma BegunRun(s: State, c: CpuId, cpu: CpuState, g: nat) returns (steps: seq<Step>)
    requires Inv(s) && c in s.cpus && 1 <= g <= s.mmGen
    requires cpu.pc.Idle? && s.cpus[c] == BeginHandler(cpu, s.log[g - 1], g, s.mmGen)
    requires forall e :: e in cpu.tlb ==> e.fillGen < s.mmGen
    ensures IsRun(s, steps)
    ensures After(s, steps) == s.(cpus := s.cpus[c :=
              CpuState(Handled(cpu.tlb, cpu.gen, s.log[g - 1], s.mmGen), s.mmGen, Idle)])
  {
    match Decide(s.log[g - 1], cpu.gen, s.mmGen)
    case UpToDate =>
      steps := [];
      assert s.cpus == s.cpus[c := cpu];
    case Partial => steps := RangeRun(s, c);
    case Full => steps := FullRun(s, c);
  }

  /** Interrupts taken while nothing else runs have the effect of `CpuTlb.FlushTlbFuncCommon`. */
  lemma HandlerRun(s: State, c: CpuId, g: nat) returns (steps: seq<Step>)
    requires Inv(s) && Enabled(s, Begin(c, g))
    requires forall e :: e in s.cpus[c].tlb ==> e.fillGen < s.mmGen
    ensures IsRun(s, steps)
    ensures After(s, steps) == s.(
              pending := s.pending[g - 1 := s.pending[g - 1] - {c}],
              cpus := s.cpus[c := CpuState(Handled(s.cpus[c].tlb, s.cpus[c].gen, s.log[g - 1], s.mmGen),
                                           s.mmGen, Idle)])
  {
    var s1 := Apply(s, Begin(c, g));
    BeginKeepsInv(s, c, g);
    var rest := BegunRun(s1, c, s.cpus[c], g);
    steps := [Begin(c, g)] + rest;
    assert steps[1..] == rest;
    assert After(s, steps) == After(s1, rest);
  }

  // ----- Why the two conditions of a partial flush are needed -----

  /** Flushing only the range of `f` and publishing generation `snap` is sound for every TLB that
      has caught up to `gen`. */
  ghost predicate PartialFlushSound(log: seq<FlushInfo>, gen: nat, snap: nat, f: FlushInfo)
    requires gen <= snap <= |log|
  {
    forall tlb: set<Entry> :: CaughtUp(tlb, log, gen) ==> CaughtUp(Uncovered(tlb, f), log, snap)
  }

  /** It is sound exactly when the range of `f` covers every flush the CPU has missed. The handler's
      test, that `f` is the only one missed, is the case it can decide from the generations. */
  lemma PartialFlushSoundExactly(log: seq<FlushInfo>, gen: nat, snap: nat, f: FlushInfo)
    requires gen <= snap <= |log|
    ensures PartialFlushSound(log, gen, snap, f)
            <==> forall i, leaf :: gen <= i < snap && Covers(log[i], leaf) ==> Covers(f, leaf)
  {
    if PartialFlushSound(log, gen, snap, f) {
      forall i, leaf | gen <= i < snap && Covers(log[i], leaf) ensures Covers(f, leaf) {
        var e := Entry(leaf, gen);
        assert CaughtUp({e}, log, gen);
        assert CaughtUp(Uncovered({e}, f), log, snap);
        assert e !in Uncovered({e}, f);
      }
    }
  }
}
