/**
 The monitor for virtual 8086 mode: far pointers, the emulated stack, and the emulation
 of the instructions that fault there.
 */
module Vm86 {
  import opened Common

  const MIB: nat := 0x10_0000  // MULTIBOOT_LOWER_MEMORY
  const HALF: nat := 0x1_0000

  type Half = h: nat | h < 0x1_0000
  type Word = w: nat | w < 0x1_0000_0000
  type Memory = m: seq<Byte> | |m| == 0x1_0000_0000 witness seq(0x1_0000_0000, _ => 0)

  const OPERAND_SIZE: Byte := 0x66
  const PUSHF: nat := 0x9C
  const POPF: nat := 0x9D
  const INT_3: nat := 0xCC
  const INT: nat := 0xCD
  const IRET: nat := 0xCF
  const CLI: nat := 0xFA
  const STI: nat := 0xFB

  // ----- far pointers

  datatype FarPtr = FarPtr(offset: Half, segment: Half)

  /** vm86_get_farptr: one segment per 64 KiB; addresses past the first MiB give a null pointer. */
  function GetFarPtr(addr: nat): FarPtr {
    if addr >= MIB then FarPtr(0, 0)
    else FarPtr(addr % HALF, (addr - addr % HALF) / 16)
  }

  function GetAddress(p: FarPtr): Word {
    p.segment * 16 + p.offset
  }

  /** The way there and back is exact below 1 MiB, and only there. */
  lemma FarRoundTrip(addr: nat)
    ensures GetAddress(GetFarPtr(addr)) == addr <==> addr < MIB
  {
    assert (addr - addr % HALF) / 16 == addr / HALF * 4096;
  }

  // ----- the state of a task and the emulated stack

  /** Memory and the registers the monitor touches. */
  datatype Vm = Vm(mem: Memory, eip: Word, cs: Half, eflags: Word, esp: Word, ss: Word)

  /** Storing 16 bits through a pointer to a 32-bit register leaves the upper half alone. */
  function SetLow(w: Word, h: Half): Word {
    w - w % HALF + h
  }

  /** The linear address of the stack pointer. */
  function Sp(v: Vm): Word {
    GetAddress(FarPtr(v.esp % HALF, v.ss % HALF))
  }

  /** The linear address of the instruction. */
  function Ip(v: Vm): Word {
    GetAddress(FarPtr(v.eip % HALF, v.cs))
  }

  function SetSp(v: Vm, p: FarPtr): Vm {
    v.(esp := SetLow(v.esp, p.offset), ss := SetLow(v.ss, p.segment))
  }

  function SetIp(v: Vm, p: FarPtr): Vm {
    v.(eip := SetLow(v.eip, p.offset), cs := p.segment)
  }

  function ReadHalf(m: Memory, a: Word): Half {
    var (low: nat, high: nat) := (m[a], m[(a + 1) % WORD]);
    low + 256 * high
  }

  function WriteHalf(m: Memory, a: Word, h: Half): Memory {
    m[a := h % 256][(a + 1) % WORD := h / 256]
  }

  /** vm86_push. */
  function Push(v: Vm, h: Half): Vm {
    var a := (Sp(v) + WORD - 2) % WORD;
    SetSp(v.(mem := WriteHalf(v.mem, a, h)), GetFarPtr(a))
  }

  /** vm86_pop. */
  function Pop(v: Vm): (Vm, Half) {
    (SetSp(v, GetFarPtr(Sp(v) + 2)), ReadHalf(v.mem, Sp(v)))
  }

  /** vm86_increment_eip. */
  function IncrementEip(v: Vm, inc: nat): Vm {
    SetIp(v, GetFarPtr(Ip(v) + inc))
  }

  lemma SetSpAddress(v: Vm, p: FarPtr)
    ensures var w := SetSp(v, p);
            && Sp(w) == GetAddress(p) && Ip(w) == Ip(v) && w.mem == v.mem
            && w.eip == v.eip && w.cs == v.cs && w.eflags == v.eflags
  {
    hide GetAddress;
    SetLowLow(v.esp, p.offset);
    SetLowLow(v.ss, p.segment);
  }

  lemma SetIpAddress(v: Vm, p: FarPtr)
    ensures var w := SetIp(v, p); Ip(w) == GetAddress(p) && Sp(w) == Sp(v) && w.mem == v.mem && w.eflags == v.eflags
  {
    hide GetAddress;
    SetLowLow(v.eip, p.offset);
  }

  lemma SetLowLow(w: Word, h: Half)
    ensures SetLow(w, h) % HALF == h
  {
    assert w - w % HALF == w / HALF * HALF;
  }

  lemma HalfRoundTrip(m: Memory, a: Word, h: Half)
    ensures ReadHalf(WriteHalf(m, a, h), a) == h
    ensures forall b: Word :: b != a && b != (a + 1) % WORD ==> WriteHalf(m, a, h)[b] == m[b]
  {
  }

  /** What a push does, on a stack that ends below 1 MiB. */
  lemma PushExact(v: Vm, h: Half)
    requires 2 <= Sp(v) < MIB
    ensures var w := Push(v, h);
            && Sp(w) == Sp(v) - 2 && ReadHalf(w.mem, Sp(w)) == h && Ip(w) == Ip(v)
            && (forall b: Word :: !(Sp(w) <= b < Sp(v)) ==> w.mem[b] == v.mem[b])
            && w.eip == v.eip && w.cs == v.cs && w.eflags == v.eflags
  {
    hide ReadHalf, WriteHalf, GetFarPtr, GetAddress, SetSp, Sp, Ip;
    var a := Sp(v) - 2;
    SameRegisters(v, WriteHalf(v.mem, a, h));
    HalfRoundTrip(v.mem, a, h);
    FarRoundTrip(a);
    SetSpAddress(v.(mem := WriteHalf(v.mem, a, h)), GetFarPtr(a));
  }

  lemma SameRegisters(v: Vm, m: Memory)
    ensures Ip(v.(mem := m)) == Ip(v) && Sp(v.(mem := m)) == Sp(v)
  {
  }

  lemma PopExact(v: Vm)
    ensures var (w, h) := Pop(v);
            && (Sp(w) == Sp(v) + 2 <==> Sp(v) + 2 < MIB) && w.mem == v.mem && Ip(w) == Ip(v)
            && w.eip == v.eip && w.cs == v.cs && w.eflags == v.eflags && h == ReadHalf(v.mem, Sp(v))
  {
    hide GetFarPtr, GetAddress, SetSp, Sp, Ip, ReadHalf;
    FarRoundTrip(Sp(v) + 2);
    SetSpAddress(v, GetFarPtr(Sp(v) + 2));
  }

  /** A pop after a push gives the value back; it restores the stack address exactly when that lies below 1 MiB. */
  lemma PopUndoesPush(v: Vm, h: Half)
    requires 2 <= Sp(v)
    ensures var (w, k) := Pop(Push(v, h));
            (Sp(w) == Sp(v) <==> Sp(v) < MIB) && (Sp(v) < MIB ==> k == h)
  {
    hide ReadHalf, WriteHalf, GetFarPtr, GetAddress, SetSp, Sp, Ip;
    var a := Sp(v) - 2;
    FarRoundTrip(a);
    SetSpAddress(v.(mem := WriteHalf(v.mem, a, h)), GetFarPtr(a));
    PopExact(Push(v, h));
    if Sp(v) < MIB {
      PushExact(v, h);
    } else if a >= MIB {
      TooHigh(a);
      assert Sp(Push(v, h)) == 0;
    }
  }

  lemma TooHigh(a: nat)
    requires a >= MIB
    ensures GetAddress(GetFarPtr(a)) == 0
  {
  }

  // ----- the monitor

  /** The instruction that faulted, with its operand size prefix if there is one. */
  function Opcode(v: Vm): nat {
    var b := v.mem[Ip(v)];
    if b == OPERAND_SIZE then OPERAND_SIZE * 256 + v.mem[(Ip(v) + 1) % WORD] else b
  }

  /** Entry n of the interrupt vector table at the start of memory. */
  function Vector(m: Memory, n: Byte): FarPtr {
    FarPtr(ReadHalf(m, 4 * n), ReadHalf(m, 4 * n + 2))
  }

  /** Lengths of the port instructions; what they do to ports and to EAX is not modelled. */
  function PortLength(opcode: nat): nat {
    if opcode in {0xE4, 0xE5, 0xE6, 0xE7} then 2
    else if opcode in {0x66E5, 0x66E7} then 3
    else if opcode in {0xEC, 0xED, 0xEE, 0xEF} then 1
    else if opcode in {0x66ED, 0x66EF} then 2
    else 0
  }

  function EmulateInt(v: Vm): Vm {
    var back := GetFarPtr(Ip(v) + 2);
    var w := Push(Push(Push(v, v.eflags % HALF), back.segment), back.offset);
    SetIp(w, Vector(w.mem, w.mem[(Ip(v) + 1) % WORD]))
  }

  function EmulateIret(v: Vm): Vm {
    var (v1, ip) := Pop(v);
    var (v2, cs) := Pop(v1.(eip := ip));
    Pop(v2.(cs := cs)).0
  }

  datatype Outcome = Resumed | Exited | Panicked

  function Monitor(v: Vm): (Vm, Outcome) {
    var op := Opcode(v);
    if op == PUSHF then (IncrementEip(Push(v, v.eflags % HALF), 1), Resumed)
    else if op == POPF then (IncrementEip(Pop(v).0, 1), Resumed)
    else if op == INT_3 then (v, Exited)
    else if op == INT then (EmulateInt(v), Resumed)
    else if op == IRET then (EmulateIret(v), Resumed)
    else if PortLength(op) > 0 then (IncrementEip(v, PortLength(op)), Resumed)
    else if op == CLI || op == STI then (IncrementEip(v, 1), Resumed)
    else (v, Panicked)
  }

  /** The length of an instruction after which the task simply goes on, by its first two bytes; 0 for the others. */
  function PlainLength(b: Byte, c: Byte): nat {
    match b
    case 0x9C => 1
    case 0x9D => 1
    case 0xFA => 1
    case 0xFB => 1
    case 0xE4 => 2
    case 0xE5 => 2
    case 0xE6 => 2
    case 0xE7 => 2
    case 0xEC => 1
    case 0xED => 1
    case 0xEE => 1
    case 0xEF => 1
    case 0x66 => if c == 0xE5 || c == 0xE7 then 3 else if c == 0xED || c == 0xEF then 2 else 0
    case _ => 0
  }

  /** The bytes at the instruction pointer. */
  predicate Fetches(v: Vm, at: Word, b: Byte, c: Byte) {
    at == v.cs * 16 + v.eip % 0x1_0000 && v.mem[at] == b && v.mem[(at + 1) % WORD] == c
  }

  predicate StackAt(v: Vm, sp: Word) {
    sp == v.ss % 0x1_0000 * 16 + v.esp % 0x1_0000
  }

  /** Memory holds the value at the address, low byte first. */
  predicate Holds(m: Memory, a: Word, h: nat) {
    m[a] == h % 256 && m[(a + 1) % WORD] == h / 256
  }

  lemma HoldsHalf(m: Memory, a: Word, h: Half)
    ensures Holds(m, a, h) <==> ReadHalf(m, a) == h
  {
  }

  lemma Locate(v: Vm, at: Word, b: Byte, c: Byte)
    requires Fetches(v, at, b, c)
    ensures Ip(v) == at && Opcode(v) == if b == 0x66 then 0x6600 + c else b
  {
    InstructionAt(v);
    hide Ip;
    var (b', c') := (v.mem[Ip(v)], v.mem[(Ip(v) + 1) % WORD]);
    assert b' == b && c' == c;
    assert OPERAND_SIZE * 256 + c == 0x6600 + c;
  }

  lemma InstructionAt(v: Vm)
    ensures Ip(v) == v.cs * 16 + v.eip % 0x1_0000
  {
  }

  lemma LocateStack(v: Vm, sp: Word)
    ensures StackAt(v, sp) <==> Sp(v) == sp
  {
  }

  lemma PlainOpcode(b: Byte, c: Byte)
    ensures var op := if b == 0x66 then 0x6600 + c else b;
            && (op == 0x9C <==> b == 0x9C) && (op == 0x9D <==> b == 0x9D) && (op == 0xCC <==> b == 0xCC)
            && (op == 0xCD <==> b == 0xCD) && (op == 0xCF <==> b == 0xCF)
            && (op == 0xFA || op == 0xFB <==> b == 0xFA || b == 0xFB)
            && PlainLength(b, c) == if op in {0x9C, 0x9D, 0xFA, 0xFB} then 1 else PortLength(op)
  {
  }

  /** The task goes on at the next instruction exactly when that lies below 1 MiB, its flags as they were. */
  predicate Stepped(v: Vm, w: Vm, at: Word, n: nat) {
    w.eflags == v.eflags && (Ip(w) == at + n <==> at + n < MIB)
  }

  /** Two bytes are pushed, and nothing else in memory changes. */
  ghost predicate Pushed(v: Vm, w: Vm, sp: nat, h: nat) {
    && 2 <= sp < MIB && StackAt(w, sp - 2) && Holds(w.mem, sp - 2, h)
    && forall a: Word :: !(sp - 2 <= a < sp) ==> w.mem[a] == v.mem[a]
  }

  /**
   A plain instruction is stepped over; PUSHF leaves the flags on the stack, POPF ignores
   them, the others leave the stack alone.
   */
  lemma PlainExact(v: Vm, at: Word, b: Byte, c: Byte, sp: Word)
    requires Fetches(v, at, b, c) && StackAt(v, sp) && PlainLength(b, c) > 0
    ensures Monitor(v).1 == Resumed && Stepped(v, Monitor(v).0, at, PlainLength(b, c))
    ensures b == 0x9C && 2 <= sp < MIB ==> Pushed(v, Monitor(v).0, sp, v.eflags % 0x1_0000)
    ensures b == 0x9D && sp + 2 < MIB ==> StackAt(Monitor(v).0, sp + 2)
    ensures b != 0x9C && b != 0x9D ==> StackAt(Monitor(v).0, sp)
    ensures b != 0x9C ==> Monitor(v).0.mem == v.mem
  {
    Locate(v, at, b, c);
    LocateStack(v, sp);
    PlainOpcode(b, c);
    hide Push, Pop, IncrementEip, Sp, Ip, Opcode, PlainLength, PortLength, Fetches, StackAt, Holds, ReadHalf, Stepped,
      Pushed;
    MonitorPlain(v);
    if b == 0x9C {
      PlainLengths(b, c);
      PushfExact(v, at, sp);
    } else if b == 0x9D {
      PlainLengths(b, c);
      PopfExact(v, at, sp);
    } else {
      NextExact(v, at, sp, PlainLength(b, c));
    }
  }

  lemma PlainLengths(b: Byte, c: Byte)
    ensures b == 0x9C || b == 0x9D ==> PlainLength(b, c) == 1
  {
  }

  lemma MonitorPlain(v: Vm)
    ensures Opcode(v) == PUSHF ==> Monitor(v) == (IncrementEip(Push(v, v.eflags % HALF), 1), Resumed)
    ensures Opcode(v) == POPF ==> Monitor(v) == (IncrementEip(Pop(v).0, 1), Resumed)
    ensures Opcode(v) == CLI || Opcode(v) == STI ==> Monitor(v) == (IncrementEip(v, 1), Resumed)
    ensures PortLength(Opcode(v)) > 0 ==> Monitor(v) == (IncrementEip(v, PortLength(Opcode(v))), Resumed)
  {
    hide Push, Pop, IncrementEip, Opcode, EmulateInt, EmulateIret;
  }

  lemma MonitorCalls(v: Vm)
    ensures Opcode(v) == INT ==> Monitor(v) == (EmulateInt(v), Resumed)
    ensures Opcode(v) == IRET ==> Monitor(v) == (EmulateIret(v), Resumed)
  {
    hide Push, Pop, IncrementEip, Opcode, EmulateInt, EmulateIret;
  }

  lemma PushfExact(v: Vm, at: Word, sp: Word)
    requires Ip(v) == at && Sp(v) == sp
    ensures var w := IncrementEip(Push(v, v.eflags % HALF), 1);
            Stepped(v, w, at, 1) && (2 <= sp < MIB ==> Pushed(v, w, sp, v.eflags % 0x1_0000))
  {
    hide Push, IncrementEip, Sp, Ip, StackAt, Holds, ReadHalf;
    var h := v.eflags % HALF;
    PushIp(v, h);
    Increment(Push(v, h), 1);
    if 2 <= sp < MIB {
      PushExact(v, h);
      HoldsHalf(Push(v, h).mem, sp - 2, h);
      LocateStack(IncrementEip(Push(v, h), 1), sp - 2);
    }
  }

  lemma PopfExact(v: Vm, at: Word, sp: Word)
    requires Ip(v) == at && Sp(v) == sp
    ensures var w := IncrementEip(Pop(v).0, 1);
            Stepped(v, w, at, 1) && w.mem == v.mem && (sp + 2 < MIB ==> StackAt(w, sp + 2))
  {
    hide Pop, IncrementEip, Sp, Ip, StackAt;
    PopExact(v);
    Increment(Pop(v).0, 1);
    if sp + 2 < MIB { LocateStack(IncrementEip(Pop(v).0, 1), sp + 2); }
  }

  lemma NextExact(v: Vm, at: Word, sp: Word, n: nat)
    requires Ip(v) == at && Sp(v) == sp
    ensures var w := IncrementEip(v, n);
            Stepped(v, w, at, n) && w.mem == v.mem && StackAt(w, sp)
  {
    hide IncrementEip, Sp, Ip, StackAt;
    Increment(v, n);
    LocateStack(IncrementEip(v, n), sp);
  }

  /** INT 3 ends the task, and bytes that start none of the emulated instructions are met with a panic. */
  lemma OutcomeExact(v: Vm, at: Word, b: Byte, c: Byte)
    requires Fetches(v, at, b, c)
    ensures var (w, o) := Monitor(v);
            && (o == Exited <==> b == 0xCC)
            && (o == Resumed <==> b == 0xCD || b == 0xCF || PlainLength(b, c) > 0)
            && (o != Resumed ==> w == v)
  {
    Locate(v, at, b, c);
    PlainOpcode(b, c);
    hide Push, Pop, IncrementEip, Ip, Opcode, PlainLength, PortLength, Fetches, EmulateInt, EmulateIret;
  }

  lemma PushIp(v: Vm, h: Half)
    ensures Ip(Push(v, h)) == Ip(v) && Push(v, h).eflags == v.eflags
  {
  }

  lemma Increment(v: Vm, inc: nat)
    ensures var w := IncrementEip(v, inc);
            Sp(w) == Sp(v) && w.mem == v.mem && w.eflags == v.eflags && (Ip(w) == Ip(v) + inc <==> Ip(v) + inc < MIB)
  {
    hide GetFarPtr, GetAddress, SetIp, Ip, Sp;
    FarRoundTrip(Ip(v) + inc);
    SetIpAddress(v, GetFarPtr(Ip(v) + inc));
  }

  // ----- nested calls

  /**
   What a task does: instructions of its own, of which only the state they lead to is
   given; an interrupt call up to its IRET; a PUSHF up to its POPF; one after the other.
   */
  datatype Code = Native(after: Vm) | Call(body: Code) | Flags(body: Code) | Then(first: Code, second: Code)

  /** No byte from the stack address up to the top of the stack differs. */
  ghost predicate SameStack(v: Vm, w: Vm, top: nat) {
    forall a: Word :: Sp(v) <= a < top ==> w.mem[a] == v.mem[a]
  }

  /**
   Runs code, the monitor handling each faulting instruction; None if another instruction
   than expected is met, if the stack pointer or the instruction pointer leaves the first
   MiB, or if the task's own instructions change the used part of the stack.
   */
  ghost function Exec(v: Vm, top: nat, c: Code): Option<Vm>
    decreases c
  {
    match c
    case Native(after) =>
      if Sp(after) == Sp(v) && SameStack(v, after, top) then Some(after) else None
    case Call(body) =>
      if v.mem[Ip(v)] == 0xCD && 6 <= Sp(v) < MIB && Ip(v) + 2 < MIB then
        var w := Exec(Monitor(v).0, top, body);
        if w.Some? && w.value.mem[Ip(w.value)] == 0xCF then Some(Monitor(w.value).0) else None
      else None
    case Flags(body) =>
      if v.mem[Ip(v)] == 0x9C && 2 <= Sp(v) < MIB then
        var w := Exec(Monitor(v).0, top, body);
        if w.Some? && w.value.mem[Ip(w.value)] == 0x9D then Some(Monitor(w.value).0) else None
      else None
    case Then(first, second) =>
      var w := Exec(v, top, first);
      if w.Some? then Exec(w.value, top, second) else None
  }

  /** The frame an emulated INT leaves on the stack. */
  ghost predicate Frame(v: Vm, back: FarPtr) {
    Sp(v) + 6 < MIB && ReadHalf(v.mem, Sp(v)) == back.offset && ReadHalf(v.mem, Sp(v) + 2) == back.segment
  }

  lemma FrameStays(v: Vm, h: Half)
    requires 2 <= Sp(v) && Sp(v) + 2 < MIB
    ensures forall a: Word :: Sp(v) <= a < MIB ==> ReadHalf(Push(v, h).mem, a) == ReadHalf(v.mem, a)
  {
    hide WriteHalf, Push, Sp;
    PushExact(v, h);
  }

  /** The instruction pointer is what entry n of the table at the start of memory says, offset first. */
  predicate Enters(w: Vm, n: nat)
    requires n < 256
  {
    Holds(w.mem, 4 * n, w.eip % 0x1_0000) && Holds(w.mem, 4 * n + 2, w.cs)
  }

  /**
   The flags and the far pointer of the instruction behind the INT are pushed, the task
   goes on at the entry of its number in the table at the start of memory, and nothing
   else in memory changes.
   */
  ghost predicate Interrupted(v: Vm, w: Vm, at: nat, sp: nat) {
    && 6 <= sp < MIB && at + 2 < MIB && w.eflags == v.eflags && StackAt(w, sp - 6)
    && Holds(w.mem, sp - 2, v.eflags % 0x1_0000)
    && Holds(w.mem, sp - 4, (at + 2) / 0x1_0000 * 0x1000) && Holds(w.mem, sp - 6, (at + 2) % 0x1_0000)
    && Enters(w, w.mem[at + 1])
    && (forall a: Word :: !(sp - 6 <= a < sp) ==> w.mem[a] == v.mem[a])
  }

  lemma IntExact(v: Vm, at: Word, n: Byte, sp: Word)
    requires Fetches(v, at, 0xCD, n) && StackAt(v, sp) && 6 <= sp < MIB && at + 2 < MIB
    ensures Monitor(v).1 == Resumed && Interrupted(v, Monitor(v).0, at, sp)
  {
    Locate(v, at, 0xCD, n);
    LocateStack(v, sp);
    hide Fetches, StackAt, Opcode, Ip, Sp, EmulateInt, Interrupted, Called, GetFarPtr;
    MonitorCalls(v);
    EmulateIntExact(v, at, sp);
    PushedFlags(v, EmulateInt(v), at, sp, GetFarPtr(at + 2));
  }

  /** The same in terms of the frame left on the stack. */
  ghost predicate Called(v: Vm, w: Vm, at: nat, sp: nat) {
    && 6 <= sp < MIB && at + 2 < MIB && w.eflags == v.eflags
    && Sp(w) == sp - 6 && Frame(w, GetFarPtr(at + 2)) && ReadHalf(w.mem, sp - 2) == v.eflags % HALF
    && Enters(w, w.mem[at + 1])
    && (forall a: Word :: !(sp - 6 <= a < sp) ==> w.mem[a] == v.mem[a])
  }

  lemma EmulateIntExact(v: Vm, at: Word, sp: Word)
    requires Ip(v) == at && Sp(v) == sp && 6 <= sp < MIB && at + 2 < MIB
    ensures Called(v, EmulateInt(v), at, sp)
  {
    hide GetAddress, GetFarPtr, WriteHalf, ReadHalf, Push, Sp, Ip, SetIp, SetLow, Vector, Holds, Enters;
    var back := GetFarPtr(at + 2);
    var h := v.eflags % HALF;
    var v1 := Push(v, h);
    var v2 := Push(v1, back.segment);
    var v3 := Push(v2, back.offset);
    PushExact(v, h);
    PushExact(v1, back.segment);
    PushExact(v2, back.offset);
    FrameStays(v1, back.segment);
    FrameStays(v2, back.offset);
    SetIpAddress(v3, Vector(v3.mem, v3.mem[at + 1]));
    VectorBytes(v3, v3.mem[at + 1]);
  }

  lemma PushedFlags(v: Vm, w: Vm, at: nat, sp: nat, back: FarPtr)
    requires 6 <= sp < MIB && at + 2 < MIB && back == GetFarPtr(at + 2)
    requires Called(v, w, at, sp)
    ensures Interrupted(v, w, at, sp)
  {
    FarParts(at + 2);
    hide GetFarPtr, Sp, ReadHalf, StackAt, Holds, Enters;
    LocateStack(w, sp - 6);
    HoldsHalf(w.mem, sp - 2, v.eflags % HALF);
    HoldsHalf(w.mem, sp - 4, back.segment);
    HoldsHalf(w.mem, sp - 6, back.offset);
  }

  lemma FarParts(a: nat)
    requires a < MIB
    ensures GetFarPtr(a) == FarPtr(a % 0x1_0000, a / 0x1_0000 * 0x1000)
  {
    assert a - a % HALF == a / HALF * HALF;
  }

  lemma VectorBytes(v: Vm, n: Byte)
    ensures var w := SetIp(v, Vector(v.mem, n));
            Enters(w, n) && w.eflags == v.eflags && w.mem == v.mem
  {
    hide SetLow, Holds, ReadHalf;
    SetLowLow(v.eip, Vector(v.mem, n).offset);
    HoldsHalf(v.mem, 4 * n, ReadHalf(v.mem, 4 * n));
    HoldsHalf(v.mem, 4 * n + 2, ReadHalf(v.mem, 4 * n + 2));
  }

  lemma EmulateIretExact(v: Vm)
    requires Sp(v) + 6 < MIB
    ensures var w := EmulateIret(v);
            && w.eflags == v.eflags && w.mem == v.mem && Sp(w) == Sp(v) + 6
            && w.eip == ReadHalf(v.mem, Sp(v)) && w.cs == ReadHalf(v.mem, Sp(v) + 2)
            && Ip(w) == GetAddress(FarPtr(w.eip, w.cs))
  {
    hide GetFarPtr, GetAddress, ReadHalf, Sp, Ip, Pop;
    var (v1, ip) := Pop(v);
    var (v2, cs) := Pop(v1.(eip := ip));
    PopExact(v);
    Resume(v1, ip, v1.cs);
    PopExact(v1.(eip := ip));
    Resume(v2, ip, cs);
    PopExact(v2.(cs := cs));
    Resume(Pop(v2.(cs := cs)).0, ip, cs);
  }

  lemma FrameParts(v: Vm, back: FarPtr)
    requires Frame(v, back) && Sp(v) + 6 < MIB
    ensures back == FarPtr(ReadHalf(v.mem, Sp(v)), ReadHalf(v.mem, Sp(v) + 2))
  {
    hide ReadHalf, Sp;
  }

  /** IRET takes the far pointer and, unread, the flags from the stack. */
  lemma IretExact(v: Vm, at: Word, c: Byte, sp: Word)
    requires Fetches(v, at, 0xCF, c) && StackAt(v, sp) && sp + 6 < MIB
    ensures var (w, o) := Monitor(v);
            && o == Resumed && w.eflags == v.eflags && w.mem == v.mem && StackAt(w, sp + 6)
            && Holds(v.mem, sp, w.eip) && Holds(v.mem, sp + 2, w.cs)
            && (forall back: FarPtr :: Frame(v, back) ==> Ip(w) == GetAddress(back))
  {
    Locate(v, at, 0xCF, c);
    LocateStack(v, sp);
    hide GetAddress, ReadHalf, Sp, Ip, Holds, StackAt, Fetches, Opcode, Monitor, EmulateIret, Frame;
    MonitorCalls(v);
    EmulateIretExact(v);
    var w := EmulateIret(v);
    forall back: FarPtr | Frame(v, back)
      ensures back == FarPtr(w.eip, w.cs)
    {
      FrameParts(v, back);
    }
    LocateStack(w, sp + 6);
    HoldsHalf(v.mem, sp, w.eip);
    HoldsHalf(v.mem, sp + 2, w.cs);
  }

  lemma Found(v: Vm)
    ensures Fetches(v, Ip(v), v.mem[Ip(v)], v.mem[(Ip(v) + 1) % WORD])
    ensures forall sp: Word :: StackAt(v, sp) <==> Sp(v) == sp
  {
  }

  lemma Resume(v: Vm, ip: Half, cs: Half)
    ensures var w := v.(eip := ip, cs := cs); Sp(w) == Sp(v) && Ip(w) == GetAddress(FarPtr(ip, cs))
  {
  }

  /**
   Whatever is nested in it, code leaves the stack where it was, and a call goes on at
   the instruction after its own INT.
   */
  lemma {:induction false} Nested(v: Vm, top: nat, c: Code)
    requires Exec(v, top, c).Some? && Sp(v) <= top
    ensures var w := Exec(v, top, c).value;
            && Sp(w) == Sp(v) && SameStack(v, w, top)
            && (c.Call? ==> Ip(w) == Ip(v) + 2)
    decreases c, 0
  {
    match c {
      case Native(after) =>
      case Call(body) => NestedCall(v, top, body);
      case Flags(body) => NestedFlags(v, top, body);
      case Then(first, second) =>
        Nested(v, top, first);
        Nested(Exec(v, top, first).value, top, second);
    }
  }

  lemma {:induction false} NestedCall(v: Vm, top: nat, body: Code)
    requires Exec(v, top, Call(body)).Some? && Sp(v) <= top
    ensures var w := Exec(v, top, Call(body)).value;
            Sp(w) == Sp(v) && SameStack(v, w, top) && Ip(w) == Ip(v) + 2
    decreases body, 1
  {
    Found(v);
    hide Monitor, GetFarPtr, Opcode, Sp, Ip, Vector, Fetches, StackAt, Holds, EmulateInt, ReadHalf, Enters;
    var back := GetFarPtr(Ip(v) + 2);
    Locate(v, Ip(v), v.mem[Ip(v)], v.mem[(Ip(v) + 1) % WORD]);
    MonitorCalls(v);
    EmulateIntExact(v, Ip(v), Sp(v));
    var v1 := Monitor(v).0;
    Nested(v1, top, body);
    var v2 := Exec(v1, top, body).value;
    FrameLeft(v1, v2, top, back);
    Found(v2);
    IretExact(v2, Ip(v2), v2.mem[(Ip(v2) + 1) % WORD], Sp(v2));
    Found(Monitor(v2).0);
    FarRoundTrip(Ip(v) + 2);
  }

  /** What is above the stack pointer stays, so does a frame there. */
  lemma FrameLeft(v: Vm, w: Vm, top: nat, back: FarPtr)
    requires Frame(v, back) && Sp(w) == Sp(v) && SameStack(v, w, top) && Sp(v) + 6 <= top
    ensures Frame(w, back)
  {
    hide Sp;
  }

  lemma {:induction false} NestedFlags(v: Vm, top: nat, body: Code)
    requires Exec(v, top, Flags(body)).Some? && Sp(v) <= top
    ensures var w := Exec(v, top, Flags(body)).value;
            Sp(w) == Sp(v) && SameStack(v, w, top)
    decreases body, 1
  {
    Found(v);
    hide Monitor, GetFarPtr, Push, Opcode, Ip, IncrementEip, Pop, Sp, Fetches, StackAt, ReadHalf, PortLength;
    Locate(v, Ip(v), v.mem[Ip(v)], v.mem[(Ip(v) + 1) % WORD]);
    MonitorPlain(v);
    var v0 := Push(v, v.eflags % HALF);
    PushExact(v, v.eflags % HALF);
    Increment(v0, 1);
    var v1 := Monitor(v).0;
    Nested(v1, top, body);
    var v2 := Exec(v1, top, body).value;
    Found(v2);
    Locate(v2, Ip(v2), v2.mem[Ip(v2)], v2.mem[(Ip(v2) + 1) % WORD]);
    MonitorPlain(v2);
    PopExact(v2);
    Increment(Pop(v2).0, 1);
  }

  // ----- the monitor as it runs

  class Vm86Task {
    var mem: Memory
    var eip: Word
    var cs: Half
    var eflags: Word
    var userEsp: Word
    var userSs: Word

    function State(): Vm
      reads this
    {
      Vm(mem, eip, cs, eflags, userEsp, userSs)
    }

    constructor (v: Vm)
      ensures State() == v
    {
      mem := v.mem;
      eip := v.eip;
      cs := v.cs;
      eflags := v.eflags;
      userEsp := v.esp;
      userSs := v.ss;
    }

    method WriteSp(p: FarPtr)
      modifies this`userEsp, this`userSs
      ensures State() == SetSp(old(State()), p)
    {
      userSs := SetLow(userSs, p.segment);
      userEsp := SetLow(userEsp, p.offset);
    }

    method WriteIp(p: FarPtr)
      modifies this`eip, this`cs
      ensures State() == SetIp(old(State()), p)
    {
      cs := p.segment;
      eip := SetLow(eip, p.offset);
    }

    method PushHalf(value: Half)
      modifies this`mem, this`userEsp, this`userSs
      ensures State() == Push(old(State()), value)
    {
      hide GetAddress, GetFarPtr, SetSp;
      var newEsp := (Sp(State()) + WORD - 2) % WORD;
      mem := mem[newEsp := value % 256];
      mem := mem[(newEsp + 1) % WORD := value / 256];
      WriteSp(GetFarPtr(newEsp));
    }

    method PopHalf() returns (value: Half)
      modifies this`userEsp, this`userSs
      ensures (State(), value) == Pop(old(State()))
    {
      hide GetAddress, GetFarPtr, SetSp, ReadHalf;
      var esp: nat := Sp(State());
      value := ReadHalf(mem, esp);
      WriteSp(GetFarPtr(esp + 2));
    }

    method Advance(inc: nat)
      modifies this`eip, this`cs
      ensures State() == IncrementEip(old(State()), inc)
    {
      WriteIp(GetFarPtr(Ip(State()) + inc));
    }

    /** vm86_monitor, called for a general protection fault of a VM86 task. */
    method HandleFault() returns (o: Outcome)
      modifies this
      ensures (State(), o) == Monitor(old(State()))
    {
      hide Push, Pop, IncrementEip, SetIp, GetAddress, GetFarPtr, ReadHalf, Opcode, Ip;
      var at := Ip(State());
      var opcode := Opcode(State());
      if opcode == PUSHF {
        PushHalf(eflags % HALF);
        Advance(1);
      } else if opcode == POPF {
        var flags := PopHalf();
        Advance(1);
      } else if opcode == INT_3 {
        return Exited;
      } else if opcode == INT {
        var back := GetFarPtr(at + 2);
        PushHalf(eflags % HALF);
        PushHalf(back.segment);
        PushHalf(back.offset);
        WriteIp(Vector(mem, mem[(at + 1) % WORD]));
      } else if opcode == IRET {
        eip := PopHalf();
        cs := PopHalf();
        var flags := PopHalf();
      } else if PortLength(opcode) > 0 {
        Advance(PortLength(opcode));
      } else if opcode == CLI || opcode == STI {
        Advance(1);
      } else {
        return Panicked;
      }
      return Resumed;
    }
  }
}
