/** The few 6809 instructions that the memory snippets of extra/api.asm use, on the guest's address space. */
module Guest6809 {
  import opened Bytes

  const MEMORY_SIZE := 0x1_0000
  const REGISTER_BASE := 0xFFC0
  const SHARED := 0xFFD0
  const SNIPPET := 0xFFE0
  const RESET_VECTOR := 0xFFFE

  datatype Instruction =
    | LdaImm(v: byte)
    | LdbImm(v: byte)
    | LdxImm(w: nat)
    | LduImm(w: nat)
    | CmpxImm(w: nat)
    | LdaX           // LDA ,X+
    | LdaU           // LDA ,U+
    | StaX           // STA ,X+
    | StaU           // STA ,U+
    | Decb
    | Bne(offset: int)
    | Sync
    | Unknown

  function Word(hi: byte, lo: byte): (w: nat)
    ensures w < MEMORY_SIZE
  {
    256 * (hi as nat) + lo
  }

  /** The instruction that starts with `op`, `arg`, `arg2`. */
  function Decode(op: byte, arg: byte, arg2: byte): Instruction
  {
    if op == 0x86 then LdaImm(arg)
    else if op == 0xC6 then LdbImm(arg)
    else if op == 0x8E then LdxImm(Word(arg, arg2))
    else if op == 0xCE then LduImm(Word(arg, arg2))
    else if op == 0x8C then CmpxImm(Word(arg, arg2))
    else if op == 0xA6 && arg == 0x80 then LdaX
    else if op == 0xA6 && arg == 0xC0 then LdaU
    else if op == 0xA7 && arg == 0x80 then StaX
    else if op == 0xA7 && arg == 0xC0 then StaU
    else if op == 0x5A then Decb
    else if op == 0x26 then Bne(if arg < 128 then arg else arg - 256)
    else if op == 0x13 then Sync
    else Unknown
  }

  datatype Progress = Executing | AtSync | Illegal

  datatype Machine = Machine(
    mem: seq<byte>,
    a: byte,
    b: byte,
    x: nat,
    u: nat,
    pc: nat,
    zero: bool,
    progress: Progress)
  {
    predicate Valid()
    {
      |mem| == MEMORY_SIZE && x < MEMORY_SIZE && u < MEMORY_SIZE && pc < MEMORY_SIZE
    }

    function Byte(at: nat): byte
      requires Valid()
    {
      mem[at % MEMORY_SIZE]
    }

    /** The sixteen device registers do not read back what is stored into them. */
    function Store(at: nat, v: byte): Machine
      requires Valid() && at < MEMORY_SIZE
    {
      if REGISTER_BASE <= at < SHARED then this else this.(mem := mem[at := v])
    }

    function To(address: int): Machine { this.(pc := address % MEMORY_SIZE) }

    function Bumped(r: nat): nat { (r + 1) % MEMORY_SIZE }

    function Execute(i: Instruction): Machine
      requires Valid()
    {
      match i
      case LdaImm(v) => this.(a := v, zero := v == 0).To(pc + 2)
      case LdbImm(v) => this.(b := v, zero := v == 0).To(pc + 2)
      case LdxImm(w) => this.(x := w, zero := w == 0).To(pc + 3)
      case LduImm(w) => this.(u := w, zero := w == 0).To(pc + 3)
      case CmpxImm(w) => this.(zero := x == w).To(pc + 3)
      case LdaX => this.(a := mem[x], x := Bumped(x), zero := mem[x] == 0).To(pc + 2)
      case LdaU => this.(a := mem[u], u := Bumped(u), zero := mem[u] == 0).To(pc + 2)
      case StaX => Store(x, a).(x := Bumped(x), zero := a == 0).To(pc + 2)
      case StaU => Store(u, a).(u := Bumped(u), zero := a == 0).To(pc + 2)
      case Decb => this.(b := (b + 255) % 256, zero := b == 1).To(pc + 1)
      case Bne(offset) => To(if zero then pc + 2 else pc + 2 + offset)
      case Sync => this.(progress := AtSync)
      case Unknown => this.(progress := Illegal)
    }

    function Step(): (m: Machine)
      requires Valid()
      ensures m.Valid()
    {
      if progress != Executing then this else Execute(Decode(Byte(pc), Byte(pc + 1), Byte(pc + 2)))
    }
  }

  ghost predicate IsTrace(trace: seq<Machine>, m: Machine, n: nat, r: Machine)
  {
    && |trace| == n + 1 && trace[0] == m && trace[n] == r
    && forall i :: 0 <= i < n ==> trace[i].Valid() && trace[i].Step() == trace[i + 1]
  }

  /** `n` instructions lead from `m` to `r`. */
  ghost predicate Runs(m: Machine, n: nat, r: Machine)
  {
    exists trace :: IsTrace(trace, m, n, r)
  }

  lemma RunsOne(m: Machine, r: Machine)
    requires m.Valid() && m.Step() == r
    ensures Runs(m, 1, r)
  {
    assert IsTrace([m, r], m, 1, r);
  }

  lemma RunsOn(m: Machine, i: nat, m1: Machine, j: nat, m2: Machine)
    requires Runs(m, i, m1) && Runs(m1, j, m2)
    ensures Runs(m, i + j, m2)
  {
    var t1 :| IsTrace(t1, m, i, m1);
    var t2 :| IsTrace(t2, m1, j, m2);
    assert IsTrace(t1 + t2[1..], m, i + j, m2);
  }

  /** Memory with `s` written at `at`. */
  function Blit(mem: seq<byte>, at: nat, s: seq<byte>): (r: seq<byte>)
    requires at + |s| <= |mem|
    ensures |r| == |mem|
  {
    mem[..at] + s + mem[at + |s|..]
  }

  lemma BlitTwice(mem: seq<byte>, at: nat, s: seq<byte>, t: seq<byte>)
    requires at + |s| + |t| <= |mem|
    ensures Blit(Blit(mem, at, s), at + |s|, t) == Blit(mem, at, s + t)
  {
  }

  // ----- the instructions by their bytes -----

  /** BNE goes on behind itself when the last result was 0, and otherwise by a signed byte from there. */
  lemma BranchReaches(m: Machine)
    requires m.Valid() && m.progress == Executing && m.Byte(m.pc) == 0x26
    ensures var arg := m.Byte(m.pc + 1);
      var taken := if arg < 128 then m.pc + 2 + arg else m.pc + arg - 254;
      m.Step() == m.(pc := (if m.zero then m.pc + 2 else taken) % 0x10000)
  {
  }

  /** STA ,X+ into plain memory, and into the sixteen device registers, where it has no effect on memory. */
  lemma StoreReaches(m: Machine)
    requires m.Valid() && m.progress == Executing && m.Byte(m.pc) == 0xA7 && m.Byte(m.pc + 1) == 0x80
    ensures var r := m.Step();
      && r.mem == (if 0xFFC0 <= m.x < 0xFFD0 then m.mem else m.mem[m.x := m.a])
      && r.x == (m.x + 1) % 0x10000 && (r.zero <==> m.a == 0) && r.pc == (m.pc + 2) % 0x10000
  {
  }

  /** The interpreter knows ten opcodes and stops at any other. */
  lemma OthersStop(m: Machine)
    requires m.Valid() && m.progress == Executing
    requires m.Byte(m.pc) !in [0x86, 0xC6, 0x8E, 0xCE, 0x8C, 0xA6, 0xA7, 0x5A, 0x26, 0x13]
    ensures m.Step() == m.(progress := Illegal)
  {
  }

  // ----- the snippets -----

  const COPY_OUT: seq<byte> :=
    [0x8E, 0xFF, 0xD0, 0xCE, 0xAA, 0xAA, 0xC6, 0xBB, 0xA6, 0x80, 0xA7, 0xC0, 0x5A, 0x26, 0xF9, 0x13]

  const COPY_IN: seq<byte> :=
    [0x8E, 0xFF, 0xD0, 0xCE, 0xAA, 0xAA, 0xC6, 0xBB, 0xA6, 0xC0, 0xA7, 0x80, 0x5A, 0x26, 0xF9, 0x13]

  /** The unpatched half of either copy snippet: the loop at `l@0` and the SYNC after it. */
  predicate LoopLoaded(mem: seq<byte>, outwards: bool)
    requires |mem| == MEMORY_SIZE
  {
    && mem[0xFFE8] == 0xA6 && mem[0xFFE9] == (if outwards then 0x80 else 0xC0)
    && mem[0xFFEA] == 0xA7 && mem[0xFFEB] == (if outwards then 0xC0 else 0x80)
    && mem[0xFFEC] == 0x5A
    && mem[0xFFED] == 0x26 && mem[0xFFEE] == 0xF9
    && mem[0xFFEF] == 0x13
  }

  /** A copy snippet with its address and count patched in at offsets 4 and 7. */
  predicate CopyLoaded(mem: seq<byte>, outwards: bool, address: nat, count: byte)
    requires |mem| == MEMORY_SIZE && address < MEMORY_SIZE
  {
    && mem[0xFFE0] == 0x8E && mem[0xFFE1] == 0xFF && mem[0xFFE2] == 0xD0
    && mem[0xFFE3] == 0xCE && mem[0xFFE4] == address / 256 && mem[0xFFE5] == address % 256
    && mem[0xFFE6] == 0xC6 && mem[0xFFE7] == count
    && LoopLoaded(mem, outwards)
  }

  predicate InLoop(m: Machine, outwards: bool)
  {
    && m.Valid() && m.progress == Executing && LoopLoaded(m.mem, outwards)
    && m.pc == 0xFFE8 && m.b > 0
    && SHARED <= m.x < SNIPPET && m.u < REGISTER_BASE
  }

  lemma LoadStep(m: Machine, outwards: bool)
    requires InLoop(m, outwards)
    ensures m.Step() == if outwards then m.(a := m.mem[m.x], x := m.x + 1, zero := m.mem[m.x] == 0, pc := 0xFFEA)
                        else m.(a := m.mem[m.u], u := m.u + 1, zero := m.mem[m.u] == 0, pc := 0xFFEA)
  {
  }

  lemma StoreStep(m: Machine, outwards: bool)
    requires m.Valid() && m.progress == Executing && LoopLoaded(m.mem, outwards) && m.pc == 0xFFEA
    requires if outwards then m.u < REGISTER_BASE else SHARED <= m.x < SNIPPET
    ensures m.Step() == if outwards then m.(mem := m.mem[m.u := m.a], u := m.u + 1, zero := m.a == 0, pc := 0xFFEC)
                        else m.(mem := m.mem[m.x := m.a], x := m.x + 1, zero := m.a == 0, pc := 0xFFEC)
  {
  }

  lemma CountStep(m: Machine)
    requires m.Valid() && m.progress == Executing && m.mem[0xFFEC] == 0x5A && m.pc == 0xFFEC && m.b > 0
    ensures m.Step() == m.(b := m.b - 1, zero := m.b == 1, pc := 0xFFED)
  {
  }

  lemma BranchStep(m: Machine)
    requires m.Valid() && m.progress == Executing && m.pc == 0xFFED
    requires m.mem[0xFFED] == 0x26 && m.mem[0xFFEE] == 0xF9
    ensures m.Step() == m.(pc := if m.zero then 0xFFEF else 0xFFE8)
  {
  }

  /** One pass of the loop at `l@0`. */
  function AfterPass(m: Machine, outwards: bool): Machine
    requires InLoop(m, outwards)
  {
    m.(a := if outwards then m.mem[m.x] else m.mem[m.u],
       x := m.x + 1, u := m.u + 1, b := m.b - 1, zero := m.b == 1,
       pc := if m.b == 1 then 0xFFEF else 0xFFE8,
       mem := if outwards then m.mem[m.u := m.mem[m.x]] else m.mem[m.x := m.mem[m.u]])
  }

  lemma CopyPass(m: Machine, outwards: bool)
    requires InLoop(m, outwards)
    ensures Runs(m, 4, AfterPass(m, outwards))
  {
    LoadStep(m, outwards);
    var m1 := m.Step();
    StoreStep(m1, outwards);
    var m2 := m1.Step();
    CountStep(m2);
    var m3 := m2.Step();
    BranchStep(m3);
    var m4 := m3.Step();
    assert IsTrace([m, m1, m2, m3, m4], m, 4, m4);
  }

  lemma BlitFirst(mem: seq<byte>, at: nat, s: seq<byte>)
    requires s != [] && at + |s| <= |mem|
    ensures Blit(mem[at := s[0]], at + 1, s[1..]) == Blit(mem, at, s)
  {
  }

  /** What the loop leaves in memory. */
  function Copied(m: Machine, outwards: bool, n: nat): seq<byte>
    requires m.Valid() && m.x + n <= SNIPPET && m.u + n <= REGISTER_BASE
  {
    if outwards then Blit(m.mem, m.u, m.mem[m.x..m.x + n]) else Blit(m.mem, m.x, m.mem[m.u..m.u + n])
  }

  lemma CopiedOutAfterPass(m: Machine)
    requires InLoop(m, true) && m.x + m.b <= SNIPPET && m.u + m.b <= REGISTER_BASE
    ensures Copied(AfterPass(m, true), true, m.b - 1) == Copied(m, true, m.b)
  {
    var s := m.mem[m.x..m.x + m.b];
    BlitFirst(m.mem, m.u, s);
    var m' := AfterPass(m, true);
    assert m'.mem[m'.x..m'.x + m'.b] == s[1..];
  }

  lemma CopiedInAfterPass(m: Machine)
    requires InLoop(m, false) && m.x + m.b <= SNIPPET && m.u + m.b <= REGISTER_BASE
    ensures Copied(AfterPass(m, false), false, m.b - 1) == Copied(m, false, m.b)
  {
    var s := m.mem[m.u..m.u + m.b];
    BlitFirst(m.mem, m.x, s);
    var m' := AfterPass(m, false);
    assert m'.mem[m'.u..m'.u + m'.b] == s[1..];
  }

  lemma CopiedAfterPass(m: Machine, outwards: bool)
    requires InLoop(m, outwards) && m.x + m.b <= SNIPPET && m.u + m.b <= REGISTER_BASE
    ensures Copied(AfterPass(m, outwards), outwards, m.b - 1) == Copied(m, outwards, m.b)
    ensures LoopLoaded(AfterPass(m, outwards).mem, outwards)
  {
    if outwards {
      CopiedOutAfterPass(m);
    } else {
      CopiedInAfterPass(m);
    }
  }

  /** The loop is about to turn memory into `goal`. */
  predicate Heading(m: Machine, outwards: bool, goal: seq<byte>)
  {
    InLoop(m, outwards) && m.x + m.b <= SNIPPET && m.u + m.b <= REGISTER_BASE && Copied(m, outwards, m.b) == goal
  }

  /** The loop has done so. */
  predicate Arrived(r: Machine, outwards: bool, goal: seq<byte>)
  {
    r.mem == goal && r.progress == Executing && r.pc == 0xFFEF && r.Valid() && LoopLoaded(r.mem, outwards)
  }

  lemma NextPass(m: Machine, outwards: bool, goal: seq<byte>)
    requires Heading(m, outwards, goal)
    ensures var r := AfterPass(m, outwards);
      r.b == m.b - 1 && if m.b > 1 then Heading(r, outwards, goal) else Arrived(r, outwards, goal)
  {
    CopiedAfterPass(m, outwards);
    PassEnds(m, outwards);
  }

  lemma PassStores(m: Machine, outwards: bool)
    requires InLoop(m, outwards) && m.x < SNIPPET
    ensures var r := AfterPass(m, outwards);
      |r.mem| == MEMORY_SIZE && forall i :: SNIPPET <= i < MEMORY_SIZE ==> r.mem[i] == m.mem[i]
  {
  }

  lemma PassEnds(m: Machine, outwards: bool)
    requires InLoop(m, outwards) && m.x + m.b <= SNIPPET && m.u + m.b <= REGISTER_BASE
    ensures var r := AfterPass(m, outwards);
      && r.Valid() && LoopLoaded(r.mem, outwards) && (m.b > 1 ==> InLoop(r, outwards))
      && Copied(r, outwards, 0) == r.mem
  {
    PassStores(m, outwards);
    var r := AfterPass(m, outwards);
    assert LoopLoaded(r.mem, outwards);
    BlitNothing(r.mem, if outwards then r.u else r.x);
  }

  lemma BlitNothing(mem: seq<byte>, at: nat)
    requires at <= |mem|
    ensures Blit(mem, at, []) == mem
  {
  }

  lemma {:induction false} CopyLoop(m: Machine, outwards: bool, goal: seq<byte>) returns (r: Machine)
    requires Heading(m, outwards, goal)
    ensures Runs(m, 4 * m.b, r) && Arrived(r, outwards, goal)
    decreases m.b
  {
    CopyPass(m, outwards);
    NextPass(m, outwards, goal);
    var next := AfterPass(m, outwards);
    if m.b == 1 {
      return next;
    }
    r := CopyLoop(next, outwards, goal);
    RunsOn(m, 4, next, 4 * next.b, r);
  }

  lemma LdxStep(m: Machine)
    requires m.Valid() && m.progress == Executing && m.pc == 0xFFE0
    requires m.mem[0xFFE0] == 0x8E && m.mem[0xFFE1] == 0xFF && m.mem[0xFFE2] == 0xD0
    ensures m.Step() == m.(x := SHARED, zero := false, pc := 0xFFE3)
  {
  }

  lemma LduStep(m: Machine, address: nat)
    requires m.Valid() && m.progress == Executing && m.pc == 0xFFE3 && address < MEMORY_SIZE
    requires m.mem[0xFFE3] == 0xCE && m.mem[0xFFE4] == address / 256 && m.mem[0xFFE5] == address % 256
    ensures m.Step() == m.(u := address, zero := address == 0, pc := 0xFFE6)
  {
  }

  lemma LdbStep(m: Machine, count: byte)
    requires m.Valid() && m.progress == Executing && m.pc == 0xFFE6
    requires m.mem[0xFFE6] == 0xC6 && m.mem[0xFFE7] == count
    ensures m.Step() == m.(b := count, zero := count == 0, pc := 0xFFE8)
  {
  }

  lemma SyncStep(m: Machine)
    requires m.Valid() && m.progress == Executing && m.pc == 0xFFEF && m.mem[0xFFEF] == 0x13
    ensures m.Step() == m.(progress := AtSync)
  {
  }

  lemma Prologue(m: Machine, outwards: bool, address: nat, count: byte)
    requires m.Valid() && m.progress == Executing && m.pc == SNIPPET && address < MEMORY_SIZE
    requires CopyLoaded(m.mem, outwards, address, count)
    ensures Runs(m, 3, m.(x := SHARED, u := address, b := count, zero := count == 0, pc := 0xFFE8))
    ensures LoopLoaded(m.mem, outwards)
  {
    LdxStep(m);
    var m1 := m.Step();
    LduStep(m1, address);
    var m2 := m1.Step();
    LdbStep(m2, count);
    var m3 := m2.Step();
    assert IsTrace([m, m1, m2, m3], m, 3, m3);
  }

  function CopySteps(count: nat): nat { 4 + 4 * count }

  /** What a patched copy snippet leaves in memory: its bytes moved between the shared buffer and the
      patched address, and nothing else changed. */
  function Transferred(mem: seq<byte>, outwards: bool, address: nat, count: nat): seq<byte>
    requires |mem| == MEMORY_SIZE && count <= 16 && address + count <= REGISTER_BASE
  {
    if outwards then Blit(mem, address, mem[SHARED..SHARED + count])
    else Blit(mem, SHARED, mem[address..address + count])
  }

  lemma ThenSync(m: Machine, m1: Machine, n: nat, m2: Machine, r: Machine)
    requires Runs(m, 3, m1) && Runs(m1, n, m2) && r == m2.(progress := AtSync)
    requires m2.Valid() && m2.progress == Executing && m2.pc == 0xFFEF && m2.mem[0xFFEF] == 0x13
    ensures Runs(m, n + 4, r)
  {
    SyncStep(m2);
    RunsOne(m2, r);
    RunsOn(m1, n, m2, 1, r);
    RunsOn(m, 3, m1, n + 1, r);
  }

  /** Run from reset, a patched copy snippet reaches SYNC after 4 + 4n instructions with its n bytes moved. */
  lemma SnippetCopies(m: Machine, outwards: bool, address: nat, count: byte) returns (r: Machine)
    requires m.Valid() && m.progress == Executing && m.pc == SNIPPET
    requires 1 <= count <= 16 && address + count <= REGISTER_BASE
    requires CopyLoaded(m.mem, outwards, address, count)
    ensures Runs(m, CopySteps(count), r) && r.Valid()
    ensures r.progress == AtSync && r.mem == Transferred(m.mem, outwards, address, count)
  {
    Prologue(m, outwards, address, count);
    var m1 := m.(x := SHARED, u := address, b := count, zero := count == 0, pc := 0xFFE8);
    var m2 := CopyLoop(m1, outwards, Transferred(m.mem, outwards, address, count));
    r := m2.(progress := AtSync);
    ThenSync(m, m1, 4 * count, m2, r);
  }

  // ----- Fill -----

  predicate FillLoaded(mem: seq<byte>, v: byte, start: nat, end: nat)
    requires |mem| == MEMORY_SIZE && start < MEMORY_SIZE && end < MEMORY_SIZE
  {
    && mem[0xFFE0] == 0x86 && mem[0xFFE1] == v
    && mem[0xFFE2] == 0x8E && mem[0xFFE3] == start / 256 && mem[0xFFE4] == start % 256
    && FillLoopLoaded(mem, end)
  }

  predicate FillLoopLoaded(mem: seq<byte>, end: nat)
    requires |mem| == MEMORY_SIZE && end < MEMORY_SIZE
  {
    && mem[0xFFE5] == 0xA7 && mem[0xFFE6] == 0x80
    && mem[0xFFE7] == 0x8C && mem[0xFFE8] == end / 256 && mem[0xFFE9] == end % 256
    && mem[0xFFEA] == 0x26 && mem[0xFFEB] == 0xF9
    && mem[0xFFEC] == 0x13
  }

  predicate Filling(m: Machine, end: nat)
  {
    && m.Valid() && m.progress == Executing && m.pc == 0xFFE5
    && m.x < end <= REGISTER_BASE && FillLoopLoaded(m.mem, end)
  }

  lemma FillStore(m: Machine, end: nat)
    requires Filling(m, end)
    ensures m.Step() == m.(mem := m.mem[m.x := m.a], x := m.x + 1, zero := m.a == 0, pc := 0xFFE7)
  {
  }

  lemma FillCompare(m: Machine, end: nat)
    requires m.Valid() && m.progress == Executing && m.pc == 0xFFE7 && end < MEMORY_SIZE && FillLoopLoaded(m.mem, end)
    ensures m.Step() == m.(zero := m.x == end, pc := 0xFFEA)
  {
  }

  lemma FillBranch(m: Machine)
    requires m.Valid() && m.progress == Executing && m.pc == 0xFFEA && m.mem[0xFFEA] == 0x26 && m.mem[0xFFEB] == 0xF9
    ensures m.Step() == m.(pc := if m.zero then 0xFFEC else 0xFFE5)
  {
  }

  lemma FillPass(m: Machine, end: nat) returns (r: Machine)
    requires Filling(m, end)
    ensures Runs(m, 3, r) && r.Valid() && r.progress == Executing && FillLoopLoaded(r.mem, end)
    ensures r.mem == m.mem[m.x := m.a] && r.x == m.x + 1 && r.a == m.a
    ensures r.pc == if m.x + 1 == end then 0xFFEC else 0xFFE5
  {
    FillStore(m, end);
    var m1 := m.Step();
    FillCompare(m1, end);
    var m2 := m1.Step();
    FillBranch(m2);
    r := m2.Step();
    assert IsTrace([m, m1, m2, r], m, 3, r);
  }

  lemma {:induction false} FillLoop(m: Machine, end: nat, goal: seq<byte>) returns (r: Machine)
    requires Filling(m, end) && goal == Blit(m.mem, m.x, Copies(m.a, end - m.x))
    ensures Runs(m, 3 * (end - m.x), r)
    ensures r.mem == goal && r.progress == Executing && r.pc == 0xFFEC && r.Valid() && r.mem[0xFFEC] == 0x13
    decreases end - m.x
  {
    var m' := FillPass(m, end);
    var c := Copies(m.a, end - m.x);
    BlitFirst(m.mem, m.x, c);
    assert c[1..] == Copies(m.a, end - m.x - 1);
    if m.x + 1 == end {
      r := m';
      assert Blit(m'.mem, m'.x, []) == m'.mem;
    } else {
      r := FillLoop(m', end, goal);
      RunsOn(m, 3, m', 3 * (end - m'.x), r);
    }
  }

  lemma FillPrologue(m: Machine, v: byte, start: nat, end: nat)
    requires m.Valid() && m.progress == Executing && m.pc == SNIPPET && start < end <= REGISTER_BASE
    requires FillLoaded(m.mem, v, start, end)
    ensures Runs(m, 2, m.(a := v, x := start, zero := start == 0, pc := 0xFFE5))
  {
    var m1 := m.(a := v, zero := v == 0, pc := 0xFFE2);
    assert m.Step() == m1;
    var m2 := m1.(x := start, zero := start == 0, pc := 0xFFE5);
    assert m1.Step() == m2;
    assert IsTrace([m, m1, m2], m, 2, m2);
  }

  /** Run from reset with start < end, the patched Fill snippet reaches SYNC with its byte in exactly the
      addresses from `start` up to and not including `end`. */
  lemma SnippetFills(m: Machine, v: byte, start: nat, end: nat) returns (r: Machine)
    requires m.Valid() && m.progress == Executing && m.pc == SNIPPET && start < end <= REGISTER_BASE
    requires FillLoaded(m.mem, v, start, end)
    ensures Runs(m, 3 + 3 * (end - start), r) && r.progress == AtSync
    ensures r.mem == Blit(m.mem, start, Copies(v, end - start))
  {
    FillPrologue(m, v, start, end);
    var m1 := m.(a := v, x := start, zero := start == 0, pc := 0xFFE5);
    var m2 := FillLoop(m1, end, Blit(m.mem, start, Copies(v, end - start)));
    r := m2.(progress := AtSync);
    assert m2.Step() == r;
    RunsOne(m2, r);
    RunsOn(m1, 3 * (end - start), m2, 1, r);
    RunsOn(m, 2, m1, 3 * (end - start) + 1, r);
  }
}
