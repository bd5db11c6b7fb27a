/** The task register across interrupts: the bus observer pushes the task when it sees an acknowledge, and an
    RTI restores it fifteen bus cycles later. */
module TaskStack {
  import opened Bytes

  const MAX_NEST := 16
  const RTI_CYCLES := 15
  const TASK_MODULUS := 32
  const VECTORS := 0x30
  const RESET_VECTOR := 0x3E

  datatype BusState = BusRunning | BusIrq | BusSync | BusHalt

  datatype RunState = Unpowered | InReset | Running | InIrq | Synced | Halted

  /** What the guest can tell about its task: the register it reads, the pins, and the host's own copy. */
  datatype TaskView = TaskView(task: byte, register: byte, pins: byte)

  datatype Cpu = Cpu(
    view: TaskView,
    stack: seq<byte>,
    ptr: nat,
    depth: nat,
    countdown: nat,
    pending: byte,
    bus: BusState,
    run: RunState)
  {
    predicate Valid() { |stack| == MAX_NEST && ptr <= MAX_NEST && depth < 256 && countdown <= RTI_CYCLES }

    /** The guest stores into the task register. */
    function TaskStore(v: byte): Cpu
    {
      this.(view := TaskView(v % TASK_MODULUS, v % TASK_MODULUS, v % TASK_MODULUS))
    }

    /** `apply_rti`: an RTI opcode was fetched. */
    function Rti(): Cpu
      requires Valid()
    {
      if depth == 0 then this
      else if ptr > 0 then
        this.(depth := depth - 1, ptr := ptr - 1, pending := stack[ptr - 1], countdown := RTI_CYCLES)
      else
        this.(depth := depth - 1, run := if depth == 1 && countdown == 0 then Running else run)
    }

    /** `tick_rti_countdown` */
    function Tick(): Cpu
    {
      if countdown == 0 then this
      else if countdown > 1 then this.(countdown := countdown - 1)
      else
        this.(countdown := 0, view := TaskView(pending, pending, pending),
              run := if depth == 0 then Running else run)
    }

    /** An acknowledge cycle appeared: the task is saved unless the vector is RESET or the stack is full. */
    function Acknowledge(lsb: nat): Cpu
      requires Valid()
    {
      var saves := VECTORS <= lsb < RESET_VECTOR && ptr < MAX_NEST;
      this.(stack := if saves then stack[ptr := view.task] else stack,
            ptr := if saves then ptr + 1 else ptr,
            depth := if saves then (depth + 1) % 256 else depth,
            run := InIrq)
    }

    function Observe(reset: bool, bs: BusState, lsb: nat): Cpu
      requires Valid()
    {
      if reset then (if run != InReset then this.(run := InReset, ptr := 0) else this)
      else if run == InReset then this.(run := Running)
      else if bs == bus then this
      else
        match bs
        case BusIrq => Acknowledge(lsb).(bus := bs)
        case BusSync => this.(bus := bs, run := Synced)
        case BusHalt => this.(bus := bs, run := Halted)
        case BusRunning => this.(bus := bs, run := if run == InIrq then InIrq else Running)
    }

    /** One rising edge of Q. */
    function QRise(reset: bool, bs: BusState, lsb: nat): Cpu
      requires Valid()
    {
      Observe(reset, bs, lsb).Tick()
    }

    function Setup(): Cpu
    {
      this.(run := InReset, bus := BusRunning, ptr := 0, depth := 0, countdown := 0, pending := 0)
    }
  }

  /** The part of class mc6809 and of the bus observer that keeps the task. */
  class Mc6809 {
    var task: byte
    var taskRegister: byte
    var taskPins: byte
    const taskStack: array<byte>
    var taskStackPtr: nat
    var nestingDepth: nat
    var rtiTaskCountdown: nat
    var rtiPendingTask: byte
    var busState: BusState
    var runState: RunState

    ghost predicate Valid()
      reads this
    {
      && taskStack.Length == MAX_NEST && taskStackPtr <= MAX_NEST && nestingDepth < 256
      && rtiTaskCountdown <= RTI_CYCLES
    }

    ghost function State(): (c: Cpu)
      requires Valid()
      reads this, taskStack
      ensures c.Valid()
    {
      Cpu(TaskView(task, taskRegister, taskPins), taskStack[..], taskStackPtr, nestingDepth, rtiTaskCountdown,
          rtiPendingTask, busState, runState)
    }

    constructor ()
      ensures Valid() && fresh(taskStack)
      ensures State().view == TaskView(0, 0, 0) && State().ptr == State().depth == 0 && State().run == Unpowered
    {
      task, taskRegister, taskPins := 0, 0, 0;
      taskStack := new byte[MAX_NEST](_ => 0);
      taskStackPtr, nestingDepth, rtiTaskCountdown, rtiPendingTask := 0, 0, 0, 0;
      busState, runState := BusRunning, Unpowered;
    }

    method Setup()
      requires Valid()
      modifies this
      ensures Valid() && State() == old(State()).Setup()
    {
      runState, busState := InReset, BusRunning;
      taskStackPtr, nestingDepth, rtiTaskCountdown, rtiPendingTask := 0, 0, 0, 0;
    }

    method TaskStore(v: byte)
      requires Valid()
      modifies this
      ensures Valid() && State() == old(State()).TaskStore(v)
    {
      var newTask := v % TASK_MODULUS;
      task := newTask;
      taskRegister := newTask;
      taskPins := newTask;
    }

    method ApplyRti()
      requires Valid()
      modifies this
      ensures Valid() && State() == old(State()).Rti()
    {
      if nestingDepth > 0 {
        nestingDepth := nestingDepth - 1;
        if taskStackPtr > 0 {
          taskStackPtr := taskStackPtr - 1;
          rtiPendingTask := taskStack[taskStackPtr];
          rtiTaskCountdown := RTI_CYCLES;
        }
        if nestingDepth == 0 && rtiTaskCountdown == 0 {
          runState := Running;
        }
      }
    }

    method TickRtiCountdown()
      requires Valid()
      modifies this
      ensures Valid() && State() == old(State()).Tick()
    {
      if rtiTaskCountdown > 0 {
        rtiTaskCountdown := rtiTaskCountdown - 1;
        if rtiTaskCountdown == 0 {
          task := rtiPendingTask;
          taskRegister := rtiPendingTask;
          taskPins := rtiPendingTask;
          if nestingDepth == 0 {
            runState := Running;
          }
        }
      }
    }

    method Acknowledge(lsb: nat)
      requires Valid()
      modifies this, taskStack
      ensures Valid() && State() == old(State()).Acknowledge(lsb)
    {
      if VECTORS <= lsb < RESET_VECTOR && taskStackPtr < MAX_NEST {
        ghost var before := taskStack[..];
        taskStack[taskStackPtr] := task;
        assert taskStack[..] == before[taskStackPtr := task];
        taskStackPtr := taskStackPtr + 1;
        nestingDepth := (nestingDepth + 1) % 256;
      }
      runState := InIrq;
    }

    /** The rising-edge half of the bus observer. */
    method QRise(reset: bool, bs: BusState, lsb: nat)
      requires Valid()
      modifies this, taskStack
      ensures Valid() && State() == old(State()).QRise(reset, bs, lsb)
    {
      if reset {
        if runState != InReset {
          runState := InReset;
          taskStackPtr := 0;
        }
      } else if runState == InReset {
        runState := Running;
      } else if bs != busState {
        busState := bs;
        match bs
        case BusIrq => Acknowledge(lsb);
        case BusSync => runState := Synced;
        case BusHalt => runState := Halted;
        case BusRunning =>
          if runState != InIrq {
            runState := Running;
          }
      }
      TickRtiCountdown();
    }
  }

  // ----- properly nested runs -----

  /** What a guest program does between two points of the same nesting. An interrupt is acknowledged for
      `held` further cycles, runs its body, and ends with an RTI that the cycles `after` are left to. */
  datatype Item =
    | Store(v: byte)
    | Cycles(bs: seq<BusState>)
    | Interrupt(lsb: nat, held: nat, body: seq<Item>, after: seq<BusState>)

  function Edges(c: Cpu, bs: seq<BusState>): (d: Cpu)
    requires c.Valid()
    ensures d.Valid()
    decreases |bs|
  {
    if bs == [] then c else Edges(c.QRise(false, bs[0], 0), bs[1..])
  }

  function Enter(c: Cpu, lsb: nat, held: nat): (d: Cpu)
    requires c.Valid()
    ensures d.Valid()
  {
    Edges(Edges(c.QRise(false, BusIrq, lsb), Copies(BusIrq, held)), [BusRunning])
  }

  function Leave(c: Cpu, after: seq<BusState>): (d: Cpu)
    requires c.Valid()
    ensures d.Valid()
  {
    Edges(c.Rti(), after)
  }

  function Exec(c: Cpu, items: seq<Item>): (d: Cpu)
    requires c.Valid()
    ensures d.Valid()
    decreases items
  {
    if items == [] then c
    else
      var d := match items[0]
        case Store(v) => c.TaskStore(v)
        case Cycles(bs) => Edges(c, bs)
        case Interrupt(lsb, held, body, after) => Leave(Exec(Enter(c, lsb, held), body), after);
      Exec(d, items[1..])
  }

  /** At least fifteen edges without an acknowledge, the processor running, waiting or halted. */
  predicate LongEnough(after: seq<BusState>)
  {
    |after| >= RTI_CYCLES && BusIrq !in after
  }

  predicate ProperItem(i: Item)
  {
    match i
    case Store(_) => true
    case Cycles(bs) => BusIrq !in bs
    case Interrupt(lsb, _, body, after) => VECTORS <= lsb < RESET_VECTOR && Proper(body) && LongEnough(after)
  }

  predicate Proper(items: seq<Item>)
  {
    forall i :: 0 <= i < |items| ==> ProperItem(items[i])
  }

  function Nesting(items: seq<Item>): nat
    decreases items
  {
    if items == [] then 0
    else
      var first := if items[0].Interrupt? then 1 + Nesting(items[0].body) else 0;
      var rest := Nesting(items[1..]);
      if first > rest then first else rest
  }

  /** Between two items: no restore is outstanding and all copies of the task agree. */
  predicate Steady(c: Cpu)
  {
    && c.Valid() && c.ptr == c.depth && c.countdown == 0 && c.bus != BusIrq
    && c.run != InReset && c.view.task == c.view.register == c.view.pins
  }

  lemma {:induction false} EdgesKeepSteady(c: Cpu, bs: seq<BusState>)
    requires Steady(c) && BusIrq !in bs
    ensures var d := Edges(c, bs);
      Steady(d) && d.view == c.view && d.ptr == c.ptr && d.stack == c.stack
    decreases |bs|
  {
    if bs != [] {
      EdgesKeepSteady(c.QRise(false, bs[0], 0), bs[1..]);
    }
  }

  /** An acknowledge is one push, however many cycles BS stays high, whether or not the countdown of an RTI
      is running; without one nothing changes at all. */
  lemma {:induction false} HeldAcknowledgePushesOnce(c: Cpu, n: nat)
    requires c.Valid() && c.bus == BusIrq && c.run != InReset
    ensures var d := Edges(c, Copies(BusIrq, n));
      && d.stack == c.stack && d.ptr == c.ptr && d.depth == c.depth && d.bus == BusIrq
      && (c.countdown == 0 ==> d == c)
    decreases n
  {
    if n > 0 {
      assert Copies(BusIrq, n)[1..] == Copies(BusIrq, n - 1);
      HeldAcknowledgePushesOnce(c.QRise(false, BusIrq, 0), n - 1);
    }
  }

  lemma EnterPushes(c: Cpu, lsb: nat, held: nat)
    requires Steady(c) && VECTORS <= lsb < RESET_VECTOR && c.ptr < MAX_NEST
    ensures var d := Enter(c, lsb, held);
      Steady(d) && d.view == c.view && d.ptr == c.ptr + 1 && d.stack == c.stack[c.ptr := c.view.task]
  {
    var a := c.QRise(false, BusIrq, lsb);
    HeldAcknowledgePushesOnce(a, held);
    assert Edges(a, [BusRunning]) == a.QRise(false, BusRunning, 0);
  }

  /** After an RTI the old task stays for fourteen edges and the saved one is there from the fifteenth on,
      whatever else the bus shows in them that is no acknowledge. */
  lemma {:induction false} RestoreTakesFifteenEdges(c: Cpu, bs: seq<BusState>)
    requires c.Valid() && c.run != InReset && c.bus != BusIrq && BusIrq !in bs
    ensures var d, n := Edges(c, bs), |bs|;
      && d.countdown == (if n < c.countdown then c.countdown - n else 0)
      && d.view == (if 0 < c.countdown <= n then TaskView(c.pending, c.pending, c.pending) else c.view)
      && d.ptr == c.ptr && d.depth == c.depth && d.stack == c.stack && d.pending == c.pending
      && d.run != InReset && d.bus != BusIrq
    decreases |bs|
  {
    if bs != [] {
      RestoreTakesFifteenEdges(c.QRise(false, bs[0], 0), bs[1..]);
    }
  }

  lemma LeavePops(c: Cpu, after: seq<BusState>)
    requires Steady(c) && c.ptr > 0 && LongEnough(after)
    ensures var d := Leave(c, after);
      && Steady(d) && d.ptr == c.ptr - 1 && d.stack == c.stack
      && d.view == TaskView(c.stack[c.ptr - 1], c.stack[c.ptr - 1], c.stack[c.ptr - 1])
  {
    RestoreTakesFifteenEdges(c.Rti(), after);
  }

  /** A properly nested program returns to the nesting it started from and leaves the tasks saved below it
      alone. */
  lemma {:induction false} NestedRunKeepsStack(c: Cpu, items: seq<Item>)
    requires Steady(c) && Proper(items) && c.ptr + Nesting(items) <= MAX_NEST
    ensures var d := Exec(c, items);
      Steady(d) && d.ptr == c.ptr && d.stack[..c.ptr] == c.stack[..c.ptr]
    decreases items
  {
    if items != [] {
      var first := items[0];
      match first {
        case Store(v) => NestedRunKeepsStack(c.TaskStore(v), items[1..]);
        case Cycles(bs) =>
          EdgesKeepSteady(c, bs);
          NestedRunKeepsStack(Edges(c, bs), items[1..]);
        case Interrupt(lsb, held, body, after) =>
          InterruptRestores(c, first);
          NestedRunKeepsStack(Leave(Exec(Enter(c, lsb, held), body), after), items[1..]);
      }
    }
  }

  /** Task restoration is last-in first-out: whatever a properly nested interrupt does, however deep, the
      task, the register and the pins are afterwards what they were when it was acknowledged. */
  lemma {:induction false} InterruptRestores(c: Cpu, i: Item)
    requires Steady(c) && i.Interrupt? && ProperItem(i) && c.ptr + 1 + Nesting(i.body) <= MAX_NEST
    ensures var d := Leave(Exec(Enter(c, i.lsb, i.held), i.body), i.after);
      Steady(d) && d.view == c.view && d.ptr == c.ptr && d.stack[..c.ptr] == c.stack[..c.ptr]
    decreases i
  {
    EnterPushes(c, i.lsb, i.held);
    var e := Enter(c, i.lsb, i.held);
    NestedRunKeepsStack(e, i.body);
    var d := Exec(e, i.body);
    assert d.stack[..e.ptr][c.ptr] == c.view.task;
    LeavePops(d, i.after);
    assert d.stack[..c.ptr] == d.stack[..e.ptr][..c.ptr] == c.stack[..c.ptr];
  }

  /** One level too deep: the acknowledge is not saved but its RTI restores all the same, so a task is taken
      off the stack that belongs to the interrupt outside. */
  lemma RestoredIffRoom(c: Cpu, lsb: nat, held: nat, after: seq<BusState>)
    requires Steady(c) && VECTORS <= lsb < RESET_VECTOR && LongEnough(after)
    ensures Leave(Enter(c, lsb, held), after).ptr == c.ptr <==> c.ptr < MAX_NEST
  {
    if c.ptr < MAX_NEST {
      EnterPushes(c, lsb, held);
      LeavePops(Enter(c, lsb, held), after);
    } else {
      var a := c.QRise(false, BusIrq, lsb);
      HeldAcknowledgePushesOnce(a, held);
      assert Edges(a, [BusRunning]) == a.QRise(false, BusRunning, 0);
      LeavePops(Enter(c, lsb, held), after);
    }
  }

  /** An acknowledge that follows an RTI too soon saves the task that the RTI is leaving: the task pushed is
      the restored one for every pair of tasks exactly when fifteen edges lie between them. */
  lemma NextAcknowledgeSavesRestoredIff(c: Cpu, between: seq<BusState>, lsb: nat)
    requires Steady(c) && c.ptr > 0 && c.stack[c.ptr - 1] != c.view.task && VECTORS <= lsb < RESET_VECTOR
    requires BusIrq !in between
    ensures var d := Edges(c.Rti(), between).QRise(false, BusIrq, lsb);
      d.ptr == c.ptr && (d.stack[c.ptr - 1] == c.stack[c.ptr - 1] <==> |between| >= RTI_CYCLES)
  {
    RestoreTakesFifteenEdges(c.Rti(), between);
  }

  /** A task store that follows an RTI too soon is overwritten by the restore: it stays exactly when fifteen
      edges lie between. */
  lemma StoreBehindRtiStaysIff(c: Cpu, between: seq<BusState>, v: byte, after: seq<BusState>)
    requires Steady(c) && c.ptr > 0 && c.stack[c.ptr - 1] != v % TASK_MODULUS
    requires BusIrq !in between && LongEnough(after)
    ensures var d := Edges(Edges(c.Rti(), between).TaskStore(v), after);
      d.view.task == v % TASK_MODULUS <==> |between| >= RTI_CYCLES
  {
    RestoreTakesFifteenEdges(c.Rti(), between);
    RestoreTakesFifteenEdges(Edges(c.Rti(), between).TaskStore(v), after);
  }

  // ----- by address and by edge -----

  /** Which acknowledges save the task: those of the vectors from 0x30 up to the one of RESET at 0x3E, as long
      as fewer than 16 tasks are saved. Any other one leaves the stack and the count alone. */
  lemma AcknowledgeSavesIff(c: Cpu, lsb: nat)
    requires c.Valid() && c.run != InReset && c.bus != BusIrq
    ensures var d := c.QRise(false, BusIrq, lsb);
      && (d.ptr == c.ptr + 1 <==> 0x30 <= lsb < 0x3E && c.ptr < 16)
      && (d.ptr == c.ptr + 1 ==>
            d.stack[c.ptr] == c.view.task && d.stack[..c.ptr] == c.stack[..c.ptr] && d.depth == (c.depth + 1) % 256)
      && (d.ptr != c.ptr + 1 ==> d.ptr == c.ptr && d.stack == c.stack && d.depth == c.depth)
      && d.bus == BusIrq && (d.depth > 0 ==> d.run == InIrq)
  {
  }

  /** The vectors of SWI3, SWI2, FIRQ, IRQ, SWI and NMI. */
  predicate InterruptVector(lsb: nat)
  {
    lsb == 0x32 || lsb == 0x34 || lsb == 0x36 || lsb == 0x38 || lsb == 0x3A || lsb == 0x3C
  }

  /** So a handler of any of them, properly nested and with fifteen edges behind its RTI, gives back the task, the
      register and the pins. */
  lemma EveryInterruptRestores(c: Cpu, lsb: nat, held: nat, body: seq<Item>, after: seq<BusState>)
    requires Steady(c) && InterruptVector(lsb) && Proper(body) && c.ptr + 1 + Nesting(body) <= 16
    requires |after| >= 15 && BusIrq !in after
    ensures var d := Leave(Exec(Enter(c, lsb, held), body), after);
      Steady(d) && d.view == c.view && d.ptr == c.ptr && d.stack[..c.ptr] == c.stack[..c.ptr]
  {
    InterruptRestores(c, Interrupt(lsb, held, body, after));
  }

  /** The saved task is back with the fifteenth edge behind the RTI and not before. */
  lemma RestoreIsAtFifteenthEdge(c: Cpu, bs: seq<BusState>)
    requires Steady(c) && c.ptr > 0 && BusIrq !in bs
    ensures var d, saved := Edges(c.Rti(), bs), c.stack[c.ptr - 1];
      d.view == if |bs| >= 15 then TaskView(saved, saved, saved) else c.view
  {
    RestoreTakesFifteenEdges(c.Rti(), bs);
  }

  /** A store into the task register takes its five low bits, at once and everywhere. */
  lemma TaskStoreMeans(c: Cpu, v: byte)
    ensures c.TaskStore(v) == c.(view := TaskView(v % 32, v % 32, v % 32))
  {
  }

  // ----- the run state -----

  lemma {:induction false} RunningCycles(c: Cpu, n: nat)
    requires c.Valid() && c.bus == BusRunning && c.run != InReset
    ensures var d := Edges(c, Copies(BusRunning, n));
      d.bus == BusRunning && d.run == if 0 < c.countdown <= n && c.depth == 0 then Running else c.run
    decreases n
  {
    if n > 0 {
      assert Copies(BusRunning, n)[1..] == Copies(BusRunning, n - 1);
      RunningCycles(c.QRise(false, BusRunning, 0), n - 1);
    }
  }

  /** The processor counts as in an interrupt from the acknowledge until the restore of the outermost task, and
      as running again from there on. */
  lemma InterruptShowsInRunState(c: Cpu, lsb: nat, held: nat, n: nat)
    requires Steady(c) && InterruptVector(lsb) && c.ptr < 16 && n >= 15
    ensures Enter(c, lsb, held).run == InIrq
    ensures Leave(Enter(c, lsb, held), Copies(BusRunning, n)).run == if c.depth == 0 then Running else InIrq
  {
    var a := c.QRise(false, BusIrq, lsb);
    HeldAcknowledgePushesOnce(a, held);
    EnterPushes(c, lsb, held);
    assert Edges(a, [BusRunning]) == a.QRise(false, BusRunning, 0);
    RunningCycles(Enter(c, lsb, held).Rti(), n);
  }

  /** SYNC and HALT show at the edge at which the bus shows them; leaving them the processor runs. */
  lemma BusShowsInRunState(c: Cpu, bs: BusState, lsb: nat)
    requires c.Valid() && c.run != InReset && bs != c.bus && bs != BusIrq && c.countdown == 0
    ensures var d := c.QRise(false, bs, lsb);
      && d.bus == bs && d.stack == c.stack && d.ptr == c.ptr && d.depth == c.depth && d.view == c.view
      && (bs == BusSync ==> d.run == Synced) && (bs == BusHalt ==> d.run == Halted)
      && (bs == BusRunning ==> d.run == if c.run == InIrq then InIrq else Running)
  {
  }

  /** RESET forgets the saved tasks once, at its first edge; the first edge behind it finds the processor running. */
  lemma ResetShowsInRunState(c: Cpu, bs: BusState, lsb: nat)
    requires c.Valid() && c.countdown == 0
    ensures var d := c.QRise(true, bs, lsb);
      d.run == InReset && d.ptr == (if c.run == InReset then c.ptr else 0) && d.depth == c.depth && d.view == c.view
    ensures c.run == InReset ==> c.QRise(false, bs, lsb) == c.(run := Running)
  {
  }

  /** An RTI without a saved task is only counted, and one without a counted interrupt is ignored. */
  lemma UnsavedRti(c: Cpu)
    requires c.Valid() && c.ptr == 0
    ensures c.depth == 0 ==> c.Rti() == c
    ensures c.depth > 0 ==>
      c.Rti() == c.(depth := c.depth - 1, run := if c.depth == 1 && c.countdown == 0 then Running else c.run)
  {
  }

  /** `setup` forgets interrupts, saved tasks and a pending restore, and keeps the task. */
  lemma SetupMeans(c: Cpu)
    ensures var d := c.Setup();
      && d.run == InReset && d.bus == BusRunning && d.ptr == 0 && d.depth == 0 && d.countdown == 0 && d.pending == 0
      && d.view == c.view && d.stack == c.stack
  {
  }

  // ----- every reachable state -----

  /** The processor with its reset line, which only `start` releases. */
  datatype Board = Board(cpu: Cpu, held: bool)

  datatype Event = Edge(bs: BusState, lsb: nat) | RtiFetched | TaskWritten(v: byte) | Stop | Start

  predicate Enabled(b: Board, e: Event)
  {
    e.Start? ==> b.cpu.run == InReset
  }

  function Apply(b: Board, e: Event): Board
    requires b.cpu.Valid() && Enabled(b, e)
  {
    match e
    case Edge(bs, lsb) => b.(cpu := b.cpu.QRise(b.held, bs, lsb))
    case RtiFetched => b.(cpu := b.cpu.Rti())
    case TaskWritten(v) => b.(cpu := b.cpu.TaskStore(v))
    case Stop => b.(held := true)
    case Start => Board(b.cpu.Setup(), false)
  }

  ghost predicate Leads(b: Board, events: seq<Event>, d: Board)
    decreases |events|
  {
    if events == [] then b == d
    else b.cpu.Valid() && Enabled(b, events[0]) && Leads(Apply(b, events[0]), events[1..], d)
  }

  /** The saved tasks never outnumber the interrupts counted, and agree with them except while the line
      holds the processor in reset. */
  ghost predicate Counted(b: Board)
  {
    && b.cpu.Valid() && b.cpu.ptr <= b.cpu.depth <= MAX_NEST
    && (b.cpu.ptr == b.cpu.depth || (b.held && b.cpu.run == InReset && b.cpu.ptr == 0))
  }

  lemma StepCounts(b: Board, e: Event)
    requires Counted(b) && Enabled(b, e)
    ensures Counted(Apply(b, e))
  {
  }

  lemma {:induction false} StackWithinNesting(b: Board, events: seq<Event>, d: Board)
    requires Counted(b) && Leads(b, events, d)
    ensures Counted(d)
    decreases |events|
  {
    if events != [] {
      StepCounts(b, events[0]);
      StackWithinNesting(Apply(b, events[0]), events[1..], d);
    }
  }

  /** In every state that a powered board reaches, `task_stack_ptr` is at most `nesting_depth`, which is at
      most 16, so the eight-bit counter never wraps. */
  lemma NestingNeverWraps(c: Cpu, events: seq<Event>, d: Board)
    requires c.Valid() && Leads(Board(c.Setup(), true), events, d)
    ensures d.cpu.Valid() && d.cpu.ptr <= d.cpu.depth <= 16
    ensures d.cpu.run != InReset ==> d.cpu.ptr == d.cpu.depth
  {
    StackWithinNesting(Board(c.Setup(), true), events, d);
  }
}
