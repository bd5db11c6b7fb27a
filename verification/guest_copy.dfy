/** The host side of a memory transfer, src/pico_thing.cpp: patch a snippet, let the guest run it, repeat. */
module GuestCopy {
  import opened Bytes
  import opened Guest6809

  const CHUNK := 16

  lemma BlitOneMore(mem: seq<byte>, at: nat, s: seq<byte>, i: nat)
    requires at + |s| <= |mem| && i < |s|
    ensures Blit(mem, at, s[..i + 1]) == Blit(mem, at, s[..i])[at + i := s[i]]
  {
    assert s[..i + 1] == s[..i] + [s[i]];
  }

  /** The write half of memcpy between a buffer and the register block. */
  method Memcpy(dst: array<byte>, at: nat, src: seq<byte>)
    requires at + |src| <= dst.Length
    modifies dst
    ensures dst[..] == Blit(old(dst[..]), at, src)
  {
    ghost var was := dst[..];
    for i := 0 to |src|
      invariant dst[..] == Blit(was, at, src[..i])
    {
      BlitOneMore(was, at, src, i);
      dst[at + i] := src[i];
    }
    assert src[..|src|] == src;
  }

  /** A copy snippet is installed: everything but the patched bytes, and the reset vector. */
  predicate Installed(mem: seq<byte>, outwards: bool)
    requires |mem| == MEMORY_SIZE
  {
    && mem[0xFFE0] == 0x8E && mem[0xFFE1] == 0xFF && mem[0xFFE2] == 0xD0 && mem[0xFFE3] == 0xCE
    && mem[0xFFE6] == 0xC6 && LoopLoaded(mem, outwards)
    && mem[RESET_VECTOR] == 0xFF && mem[RESET_VECTOR + 1] == 0xE0
  }

  lemma SnippetInstalls(mem: seq<byte>, outwards: bool)
    requires |mem| == MEMORY_SIZE && mem[RESET_VECTOR] == 0xFF && mem[RESET_VECTOR + 1] == 0xE0
    requires mem[SNIPPET..SNIPPET + 16] == if outwards then COPY_OUT else COPY_IN
    ensures Installed(mem, outwards)
  {
    var code := mem[SNIPPET..SNIPPET + 16];
    assert mem[0xFFE0] == code[0] && mem[0xFFE1] == code[1] && mem[0xFFE2] == code[2] && mem[0xFFE3] == code[3];
    assert mem[0xFFE6] == code[6];
    assert mem[0xFFE8] == code[8] && mem[0xFFE9] == code[9] && mem[0xFFEA] == code[10] && mem[0xFFEB] == code[11];
    assert mem[0xFFEC] == code[12] && mem[0xFFED] == code[13] && mem[0xFFEE] == code[14] && mem[0xFFEF] == code[15];
  }

  /** A processor that stopped executing stays as it is. */
  lemma {:induction false} StuckStays(trace: seq<Machine>, m: Machine, n: nat, r: Machine, i: nat)
    requires IsTrace(trace, m, n, r) && i <= n && trace[i].progress != Executing
    ensures r == trace[i]
    decreases n - i
  {
    if i < n {
      StuckStays(trace, m, n, r, i + 1);
    }
  }

  /** The guest: its address space, in which the host reaches the register block, and its processor. */
  class Guest {
    const mem: array<byte>
    var a: byte
    var b: byte
    var x: nat
    var u: nat
    var pc: nat
    var zero: bool
    var progress: Progress
    /** The reset line is asserted and the bus observer has seen it. */
    var stopped: bool

    ghost predicate Valid()
      reads this
    {
      mem.Length == MEMORY_SIZE && x < MEMORY_SIZE && u < MEMORY_SIZE && pc < MEMORY_SIZE
    }

    ghost function State(): (m: Machine)
      requires Valid()
      reads this, mem
      ensures m.Valid()
    {
      Machine(mem[..], a, b, x, u, pc, zero, progress)
    }

    constructor ()
      ensures Valid() && stopped && fresh(mem)
    {
      mem := new byte[MEMORY_SIZE](_ => 0);
      a, b, x, u, pc, zero, progress, stopped := 0, 0, 0, 0, 0, false, Executing, true;
    }

    method StoreByte(at: nat, v: byte)
      requires Valid() && at < MEMORY_SIZE
      modifies mem
      ensures mem[..] == if REGISTER_BASE <= at < SHARED then old(mem[..]) else old(mem[..])[at := v]
    {
      if !(REGISTER_BASE <= at < SHARED) {
        mem[at] := v;
      }
    }

    method ExecuteImmediate(i: Instruction)
      requires Valid() && (i.LdaImm? || i.LdbImm? || i.LdxImm? || i.LduImm? || i.CmpxImm?)
      requires (i.LdxImm? || i.LduImm? ==> i.w < MEMORY_SIZE)
      modifies this
      ensures Valid() && State() == old(State()).Execute(i) && stopped == old(stopped)
    {
      match i
      case LdaImm(v) => a, zero, pc := v, v == 0, (pc + 2) % MEMORY_SIZE;
      case LdbImm(v) => b, zero, pc := v, v == 0, (pc + 2) % MEMORY_SIZE;
      case LdxImm(w) => x, zero, pc := w, w == 0, (pc + 3) % MEMORY_SIZE;
      case LduImm(w) => u, zero, pc := w, w == 0, (pc + 3) % MEMORY_SIZE;
      case CmpxImm(w) => zero, pc := x == w, (pc + 3) % MEMORY_SIZE;
    }

    method ExecuteLoad(i: Instruction)
      requires Valid() && (i.LdaX? || i.LdaU?)
      modifies this
      ensures Valid() && State() == old(State()).Execute(i) && stopped == old(stopped)
    {
      match i
      case LdaX => a, x, zero, pc := mem[x], (x + 1) % MEMORY_SIZE, mem[x] == 0, (pc + 2) % MEMORY_SIZE;
      case LdaU => a, u, zero, pc := mem[u], (u + 1) % MEMORY_SIZE, mem[u] == 0, (pc + 2) % MEMORY_SIZE;
    }

    method ExecuteStore(i: Instruction)
      requires Valid() && (i.StaX? || i.StaU?)
      modifies this, mem
      ensures Valid() && State() == old(State()).Execute(i) && stopped == old(stopped)
    {
      match i
      case StaX =>
        StoreByte(x, a);
        x, zero, pc := (x + 1) % MEMORY_SIZE, a == 0, (pc + 2) % MEMORY_SIZE;
      case StaU =>
        StoreByte(u, a);
        u, zero, pc := (u + 1) % MEMORY_SIZE, a == 0, (pc + 2) % MEMORY_SIZE;
    }

    method ExecuteControl(i: Instruction)
      requires Valid() && (i.Decb? || i.Bne? || i.Sync? || i.Unknown?)
      modifies this
      ensures Valid() && State() == old(State()).Execute(i) && stopped == old(stopped)
    {
      match i
      case Decb => b, zero, pc := (b + 255) % 256, b == 1, (pc + 1) % MEMORY_SIZE;
      case Bne(offset) => pc := (if zero then pc + 2 else pc + 2 + offset) % MEMORY_SIZE;
      case Sync => progress := AtSync;
      case Unknown => progress := Illegal;
    }

    /** One instruction. */
    method Step()
      requires Valid() && progress == Executing
      modifies this, mem
      ensures Valid() && State() == old(State()).Step() && stopped == old(stopped)
    {
      var i := Decode(mem[pc], mem[(pc + 1) % MEMORY_SIZE], mem[(pc + 2) % MEMORY_SIZE]);
      if i.LdaX? || i.LdaU? {
        ExecuteLoad(i);
      } else if i.StaX? || i.StaU? {
        ExecuteStore(i);
      } else if i.Decb? || i.Bne? || i.Sync? || i.Unknown? {
        ExecuteControl(i);
      } else {
        ExecuteImmediate(i);
      }
    }

    /** The processor as it comes out of reset. */
    ghost function Started(): Machine
      requires Valid()
      reads this, mem
    {
      State().(pc := Word(mem[RESET_VECTOR], mem[RESET_VECTOR + 1]), progress := Executing)
    }

    /** Release reset, wait for SYNC for at most `budget` instructions, assert reset. The ghost run says what
        the program does if it is given the time. */
    method StartWithTimeout(budget: nat, ghost n: nat, ghost r: Machine) returns (ok: bool)
      requires Valid() && Runs(Started(), n, r) && r.progress == AtSync
      modifies this, mem
      ensures Valid() && stopped == old(stopped)
      ensures ok ==> mem[..] == r.mem
      ensures old(stopped) && n <= budget ==> ok
    {
      if !stopped {
        return false;
      }
      ghost var trace :| IsTrace(trace, Started(), n, r);
      pc := Word(mem[RESET_VECTOR], mem[RESET_VECTOR + 1]);
      progress := Executing;
      var spent := 0;
      while spent < budget && progress == Executing
        invariant Valid() && 0 <= spent <= n && spent <= budget && stopped
        invariant State() == trace[spent]
        decreases budget - spent
      {
        Step();
        spent := spent + 1;
      }
      if progress != Executing {
        StuckStays(trace, trace[0], n, r, spent);
      }
      ok := progress == AtSync;
    }

    /** `snippet_copy`: install a copy snippet and point the reset vector at it. */
    method SnippetCopy(outwards: bool)
      requires Valid()
      modifies mem
      ensures Installed(mem[..], outwards)
      ensures mem[..REGISTER_BASE] == old(mem[..REGISTER_BASE])
    {
      Memcpy(mem, SNIPPET, if outwards then COPY_OUT else COPY_IN);
      ghost var snippet := mem[SNIPPET..SNIPPET + 16];
      assert snippet == if outwards then COPY_OUT else COPY_IN;
      assert mem[..REGISTER_BASE] == old(mem[..REGISTER_BASE]);
      mem[RESET_VECTOR], mem[RESET_VECTOR + 1] := 0xFF, 0xE0;
      assert mem[SNIPPET..SNIPPET + 16] == snippet;
      assert mem[..][SNIPPET..SNIPPET + 16] == mem[SNIPPET..SNIPPET + 16];
      SnippetInstalls(mem[..], outwards);
    }

    /** Patch the installed snippet at offsets 4 and 7 and run it. */
    method RunChunk(outwards: bool, start: nat, len: byte, budget: nat) returns (ok: bool)
      requires Valid() && Installed(mem[..], outwards)
      requires 1 <= len <= CHUNK && start + len <= REGISTER_BASE
      modifies this, mem
      ensures Valid() && stopped == old(stopped)
      ensures old(stopped) && CopySteps(len) <= budget ==> ok
      ensures ok && outwards ==>
        mem[..REGISTER_BASE] == Blit(old(mem[..REGISTER_BASE]), start, old(mem[SHARED..SHARED + len]))
      ensures ok && !outwards ==>
        && mem[..REGISTER_BASE] == old(mem[..REGISTER_BASE])
        && mem[SHARED..SHARED + len] == old(mem[start..start + len])
      ensures ok ==> Installed(mem[..], outwards)
    {
      mem[SNIPPET + 4], mem[SNIPPET + 5] := start / 256, start % 256;
      mem[SNIPPET + 7] := len;
      ghost var patched := mem[..];
      assert patched[..REGISTER_BASE] == old(mem[..REGISTER_BASE]);
      assert patched[SHARED..SHARED + len] == old(mem[SHARED..SHARED + len]);
      ghost var r := SnippetCopies(Started(), outwards, start, len);
      ok := StartWithTimeout(budget, CopySteps(len), r);
      if ok {
        TransferredParts(patched, outwards, start, len);
        assert mem[..] == Transferred(patched, outwards, start, len);
        assert mem[..][..REGISTER_BASE] == mem[..REGISTER_BASE];
        assert mem[..][SHARED..SHARED + len] == mem[SHARED..SHARED + len];
      }
    }

    /** One turn of the outward loop: fill the shared buffer and let the guest empty it. */
    method SendChunk(start: nat, chunk: seq<byte>, budget: nat) returns (ok: bool)
      requires Valid() && Installed(mem[..], true)
      requires 1 <= |chunk| <= CHUNK && start + |chunk| <= REGISTER_BASE
      modifies this, mem
      ensures Valid() && stopped == old(stopped)
      ensures old(stopped) && CopySteps(CHUNK) <= budget ==> ok
      ensures ok ==> Installed(mem[..], true)
      ensures ok ==> mem[..REGISTER_BASE] == Blit(old(mem[..REGISTER_BASE]), start, chunk)
    {
      ghost var before := mem[..];
      Memcpy(mem, SHARED, chunk);
      StaysInstalled(before, true, SHARED, chunk);
      assert mem[..REGISTER_BASE] == before[..REGISTER_BASE];
      assert mem[SHARED..SHARED + |chunk|] == chunk;
      ok := RunChunk(true, start, |chunk|, budget);
    }

    /** One turn of the inward loop: let the guest fill the shared buffer and take the bytes out. */
    method FetchChunk(start: nat, len: byte, budget: nat) returns (ok: bool, chunk: seq<byte>)
      requires Valid() && Installed(mem[..], false)
      requires 1 <= len <= CHUNK && start + len <= REGISTER_BASE
      modifies this, mem
      ensures Valid() && stopped == old(stopped)
      ensures old(stopped) && CopySteps(CHUNK) <= budget ==> ok
      ensures ok ==> Installed(mem[..], false) && mem[..REGISTER_BASE] == old(mem[..REGISTER_BASE])
      ensures ok ==> chunk == old(mem[..REGISTER_BASE])[start..start + len]
    {
      ghost var before := mem[start..start + len];
      assert before == mem[..REGISTER_BASE][start..start + len];
      ok := RunChunk(false, start, len, budget);
      chunk := mem[SHARED..SHARED + len];
    }

    /** `copy(OUTWARDS, ...)`: the bytes of `data` reach exactly the addresses from `address` on. */
    method CopyOut(count: nat, address: nat, data: seq<byte>, budget: nat) returns (ok: bool)
      requires Valid() && count <= |data| && address + count <= REGISTER_BASE
      modifies this, mem
      ensures Valid() && stopped == old(stopped)
      ensures old(stopped) && CopySteps(CHUNK) <= budget ==> ok
      ensures ok ==> mem[..REGISTER_BASE] == Blit(old(mem[..REGISTER_BASE]), address, data[..count])
    {
      var start, pos := address, 0;
      var end := (address + count) % MEMORY_SIZE;
      assert end == address + count;
      ghost var ram := mem[..REGISTER_BASE];
      SnippetCopy(true);
      while start != end
        invariant Valid() && Installed(mem[..], true) && stopped == old(stopped)
        invariant start == address + pos && pos <= count
        invariant Sent(mem[..REGISTER_BASE], ram, address, data, pos)
        decreases count - pos
      {
        var len := if end - start < CHUNK then end - start else CHUNK;
        ghost var before := mem[..REGISTER_BASE];
        ok := SendChunk(start, data[pos..pos + len], budget);
        if !ok {
          return;
        }
        SentMore(before, mem[..REGISTER_BASE], ram, address, data, pos, len);
        start := start + len;
        pos := pos + len;
      }
      return true;
    }

    /** The same, with the bytes put into the caller's buffer. */
    method FetchInto(start: nat, len: byte, data: array<byte>, pos: nat, budget: nat) returns (ok: bool)
      requires Valid() && Installed(mem[..], false) && data != mem
      requires 1 <= len <= CHUNK && start + len <= REGISTER_BASE && pos + len <= data.Length
      modifies this, mem, data
      ensures Valid() && stopped == old(stopped)
      ensures old(stopped) && CopySteps(CHUNK) <= budget ==> ok
      ensures ok ==> Installed(mem[..], false) && mem[..REGISTER_BASE] == old(mem[..REGISTER_BASE])
      ensures ok ==> data[..] == Blit(old(data[..]), pos, old(mem[..REGISTER_BASE])[start..start + len])
    {
      var chunk;
      ok, chunk := FetchChunk(start, len, budget);
      if ok {
        Memcpy(data, pos, chunk);
      }
    }

    /** `copy(INWARDS, ...)`: `data` receives the bytes from `address` on; the guest's memory is unchanged. */
    method CopyIn(count: nat, address: nat, data: array<byte>, budget: nat) returns (ok: bool)
      requires Valid() && count <= data.Length && address + count <= REGISTER_BASE && data != mem
      modifies this, mem, data
      ensures Valid() && stopped == old(stopped)
      ensures old(stopped) && CopySteps(CHUNK) <= budget ==> ok
      ensures ok ==> data[..] == Blit(old(data[..]), 0, old(mem[..REGISTER_BASE])[address..address + count])
      ensures ok ==> mem[..REGISTER_BASE] == old(mem[..REGISTER_BASE])
    {
      var start, pos := address, 0;
      var end := (address + count) % MEMORY_SIZE;
      assert end == address + count;
      ghost var ram, was := mem[..REGISTER_BASE], data[..];
      SnippetCopy(false);
      while start != end
        invariant Valid() && Installed(mem[..], false) && stopped == old(stopped)
        invariant start == address + pos && pos <= count
        invariant mem[..REGISTER_BASE] == ram
        invariant Fetched(data[..], was, ram, address, pos)
        decreases count - pos
      {
        var len: byte := if end - start < CHUNK then end - start else CHUNK;
        ghost var before := data[..];
        ok := FetchInto(start, len, data, pos, budget);
        if !ok {
          return;
        }
        FetchedMore(before, data[..], was, ram, address, pos, start, len);
        start := start + len;
        pos := pos + len;
      }
      return true;
    }
  }

  /** Memory `now` holds the first `n` bytes of `data` from `address` on, and else what it held before. */
  ghost predicate Sent(now: seq<byte>, was: seq<byte>, address: nat, data: seq<byte>, n: nat)
  {
    n <= |data| && address + n <= |was| && now == Blit(was, address, data[..n])
  }

  lemma SentMore(before: seq<byte>, now: seq<byte>, was: seq<byte>, address: nat, data: seq<byte>, n: nat, len: nat)
    requires Sent(before, was, address, data, n) && n + len <= |data| && address + n + len <= |was|
    requires now == Blit(before, address + n, data[n..n + len])
    ensures Sent(now, was, address, data, n + len)
  {
    BlitTwice(was, address, data[..n], data[n..n + len]);
    assert data[..n] + data[n..n + len] == data[..n + len];
  }

  /** The buffer `now` holds `n` bytes from `address` on, and else what it held before. */
  ghost predicate Fetched(now: seq<byte>, was: seq<byte>, ram: seq<byte>, address: nat, n: nat)
  {
    n <= |was| && address + n <= |ram| && now == Blit(was, 0, ram[address..address + n])
  }

  lemma FetchedMore(before: seq<byte>, now: seq<byte>, was: seq<byte>, ram: seq<byte>, address: nat, n: nat,
                    start: nat, len: nat)
    requires Fetched(before, was, ram, address, n) && n + len <= |was| && start + len <= |ram| && start == address + n
    requires now == Blit(before, n, ram[start..start + len])
    ensures Fetched(now, was, ram, address, n + len)
  {
    BlitTwice(was, 0, ram[address..start], ram[start..start + len]);
    assert ram[address..start] + ram[start..start + len] == ram[address..start + len];
  }

  /** Bytes written below the snippet leave it installed. */
  lemma StaysInstalled(mem: seq<byte>, outwards: bool, at: nat, s: seq<byte>)
    requires |mem| == MEMORY_SIZE && at + |s| <= SNIPPET && Installed(mem, outwards)
    ensures Installed(Blit(mem, at, s), outwards)
  {
    assert forall i :: SNIPPET <= i < MEMORY_SIZE ==> Blit(mem, at, s)[i] == mem[i];
  }

  lemma BlitPrefix(mem: seq<byte>, at: nat, s: seq<byte>, n: nat)
    requires at + |s| <= n <= |mem|
    ensures Blit(mem, at, s)[..n] == Blit(mem[..n], at, s)
  {
  }

  /** What a transfer does to the guest's memory proper, to the buffer, and to the installed snippet. */
  lemma TransferredParts(mem: seq<byte>, outwards: bool, start: nat, len: nat)
    requires |mem| == MEMORY_SIZE && len <= CHUNK && start + len <= REGISTER_BASE && Installed(mem, outwards)
    ensures var r := Transferred(mem, outwards, start, len);
      && Installed(r, outwards)
      && (outwards ==> r[..REGISTER_BASE] == Blit(mem[..REGISTER_BASE], start, mem[SHARED..SHARED + len]))
      && (!outwards ==>
            r[..REGISTER_BASE] == mem[..REGISTER_BASE] && r[SHARED..SHARED + len] == mem[start..start + len])
  {
    if outwards {
      var s := mem[SHARED..SHARED + len];
      StaysInstalled(mem, outwards, start, s);
      BlitPrefix(mem, start, s, REGISTER_BASE);
    } else {
      var s := mem[start..start + len];
      StaysInstalled(mem, outwards, SHARED, s);
      var r := Blit(mem, SHARED, s);
      assert r[..REGISTER_BASE] == mem[..REGISTER_BASE];
      assert r[SHARED..SHARED + len] == s;
    }
  }
}
