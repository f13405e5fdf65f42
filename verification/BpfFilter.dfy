/** src/sources/bpf_filter.rs: the 21-instruction classic-BPF socket filter and
    the interpreter that gives it meaning, proved against a declarative reading
    of the Ethernet, 802.1Q, IPv4 and UDP headers for every frame and port. */
module BpfFilter {
  import opened Bytes

  datatype SockFilter = SockFilter(code: u16, jt: u8, jf: u8, k: u32)

  type Program = seq<SockFilter>

  const ACCEPT: u32 := 0xffff
  const DROP: u32 := 0

  function BuildBpfFilter(port: u16): Program {
    [ SockFilter(0x28, 0, 0, 12),        //  0: load the ethertype
      SockFilter(0x15, 3, 0, 0x0800),    //  1: IPv4: go to 5
      SockFilter(0x15, 0, 17, 0x8100),   //  2: not 802.1Q: go to 20
      SockFilter(0x28, 0, 0, 16),        //  3: load the inner ethertype
      SockFilter(0x15, 7, 15, 0x0800),   //  4: IPv4: go to 12, else 20
      SockFilter(0x30, 0, 0, 23),        //  5: untagged path, load the protocol
      SockFilter(0x15, 0, 13, 0x11),     //  6: not UDP: go to 20
      SockFilter(0x28, 0, 0, 20),        //  7: load flags and fragment offset
      SockFilter(0x45, 11, 0, 0x1fff),   //  8: later fragment: go to 20
      SockFilter(0xb1, 0, 0, 14),        //  9: X = header length
      SockFilter(0x48, 0, 0, 16),        // 10: load the destination port
      SockFilter(0x15, 7, 8, port),      // 11: go to 19 or 20
      SockFilter(0x30, 0, 0, 27),        // 12: tagged path, the same at +4
      SockFilter(0x15, 0, 6, 0x11),
      SockFilter(0x28, 0, 0, 24),
      SockFilter(0x45, 4, 0, 0x1fff),
      SockFilter(0xb1, 0, 0, 18),
      SockFilter(0x48, 0, 0, 20),
      SockFilter(0x15, 0, 1, port),
      SockFilter(0x06, 0, 0, 0xffff),    // 19: accept
      SockFilter(0x06, 0, 0, 0)          // 20: drop
    ]
  }

  // ---- The interpreter ----

  /** The interpreter's panics are explicit outcomes. The kernel drops a packet
      on a load outside it, so OutOfBounds reads as a drop there. */
  datatype Outcome = Returned(value: u32) | OutOfBounds | UnknownOpcode | RanOffEnd

  datatype Cpu = Cpu(pc: nat, a: nat, x: nat)

  datatype StepResult = Continue(cpu: Cpu) | Halt(outcome: Outcome)

  const RESET: Cpu := Cpu(0, 0, 0)

  function LoadHalf(packet: Buffer, at: nat, c: Cpu): StepResult {
    if at + 2 <= |packet| then Continue(Cpu(c.pc + 1, Be16(packet, at), c.x)) else Halt(OutOfBounds)
  }

  /** What one instruction does. */
  function Step(i: SockFilter, packet: Buffer, c: Cpu): (r: StepResult)
    ensures r.Continue? ==> c.pc < r.cpu.pc
  {
    match i.code
    case 0x28 => LoadHalf(packet, i.k, c)
    case 0x30 => if i.k < |packet| then Continue(Cpu(c.pc + 1, packet[i.k], c.x)) else Halt(OutOfBounds)
    case 0x15 => Continue(c.(pc := c.pc + 1 + if c.a == i.k then i.jt else i.jf))
    case 0x45 => Continue(c.(pc := c.pc + 1 + if BitAnd(c.a, i.k) != 0 then i.jt else i.jf))
    case 0xb1 =>
      if i.k < |packet| then Continue(Cpu(c.pc + 1, c.a, BitAnd(packet[i.k], 0x0f) * 4)) else Halt(OutOfBounds)
    case 0x48 => LoadHalf(packet, c.x + i.k, c)
    case 0x06 => Halt(Returned(i.k))
    case _ => Halt(UnknownOpcode)
  }

  datatype Result = Result(outcome: Outcome, executed: nat)

  /** The outcome of a program from a machine state on, and how many instructions it executed. */
  function Execute(program: Program, packet: Buffer, c: Cpu): Result
    decreases if c.pc < |program| then |program| - c.pc else 0
  {
    if c.pc >= |program| then Result(RanOffEnd, 0)
    else
      match Step(program[c.pc], packet, c)
      case Halt(outcome) => Result(outcome, 1)
      case Continue(next) =>
        var rest := Execute(program, packet, next);
        rest.(executed := rest.executed + 1)
  }

  /** The interpreter loop. */
  method RunCbpf(program: Program, packet: Buffer) returns (outcome: Outcome)
    ensures outcome == Execute(program, packet, RESET).outcome
  {
    var a: nat, x: nat, pc: nat := 0, 0, 0;
    while true
      invariant Execute(program, packet, RESET).outcome == Execute(program, packet, Cpu(pc, a, x)).outcome
      decreases |program| - pc
    {
      if pc >= |program| { return RanOffEnd; }
      var inst := program[pc];
      if inst.code == 0x28 {
        var k := inst.k;
        if k + 2 > |packet| { return OutOfBounds; }
        a := Be16(packet, k);
        pc := pc + 1;
      } else if inst.code == 0x30 {
        var k := inst.k;
        if k >= |packet| { return OutOfBounds; }
        a := packet[k];
        pc := pc + 1;
      } else if inst.code == 0x15 {
        if a == inst.k { pc := pc + 1 + inst.jt; } else { pc := pc + 1 + inst.jf; }
      } else if inst.code == 0x45 {
        if BitAnd(a, inst.k) != 0 { pc := pc + 1 + inst.jt; } else { pc := pc + 1 + inst.jf; }
      } else if inst.code == 0xb1 {
        var k := inst.k;
        if k >= |packet| { return OutOfBounds; }
        x := BitAnd(packet[k], 0x0f) * 4;
        pc := pc + 1;
      } else if inst.code == 0x48 {
        var off := x + inst.k;
        if off + 2 > |packet| { return OutOfBounds; }
        a := Be16(packet, off);
        pc := pc + 1;
      } else if inst.code == 0x06 {
        return Returned(inst.k);
      } else {
        return UnknownOpcode;
      }
    }
  }

  /** Classic BPF only jumps forward: any program stops within its own length. */
  lemma {:induction false} StopsWithinLength(program: Program, packet: Buffer, c: Cpu)
    ensures Execute(program, packet, c).executed <= SaturatingSub(|program|, c.pc)
    ensures c.pc < |program| ==> Execute(program, packet, c).executed >= 1
    decreases if c.pc < |program| then |program| - c.pc else 0
  {
    if c.pc >= |program| {
    } else {
      match Step(program[c.pc], packet, c)
      case Halt(_) =>
      case Continue(next) => StopsWithinLength(program, packet, next);
    }
  }

  // ---- What the filter is meant to accept ----

  /** The frame's IPv4 header starts at `ip`: directly after Ethernet, or after one 802.1Q tag. */
  predicate Ipv4At(f: Buffer, ip: nat) {
    || (ip == 14 && |f| >= 14 && Be16(f, 12) == 0x0800)
    || (ip == 18 && |f| >= 18 && Be16(f, 12) == 0x8100 && Be16(f, 16) == 0x0800)
  }

  /** IHL counts 32-bit words (section 3.1 of RFC 791). */
  function HeaderLength(f: Buffer, ip: nat): nat
    requires ip < |f|
  {
    4 * (f[ip] % 16)
  }

  /** A datagram, or the first fragment of one, that carries UDP. */
  predicate UnfragmentedUdp(f: Buffer, ip: nat) {
    |f| >= ip + 10 && f[ip + 9] == 17 && Be16(f, ip + 6) % 8192 == 0
  }

  predicate DestinationPort(f: Buffer, ip: nat, port: u16) {
    && ip < |f| && ip + HeaderLength(f, ip) + 4 <= |f|
    && Be16(f, ip + HeaderLength(f, ip) + 2) == port
  }

  ghost predicate Wanted(f: Buffer, port: u16) {
    exists ip: nat :: Ipv4At(f, ip) && UnfragmentedUdp(f, ip) && DestinationPort(f, ip, port)
  }

  /** The frame ends before a field on which the verdict depends. */
  ghost predicate CutShort(f: Buffer) {
    || |f| < 14
    || (Be16(f, 12) == 0x8100 && |f| < 18)
    || exists ip: nat :: Ipv4At(f, ip) &&
         (|f| < ip + 10 || (UnfragmentedUdp(f, ip) && |f| < ip + HeaderLength(f, ip) + 4))
  }

  // ---- Correctness of the program ----

  lemma OneStep(p: Program, f: Buffer, c: Cpu, next: Cpu)
    requires c.pc < |p| && Step(p[c.pc], f, c) == Continue(next)
    ensures Execute(p, f, c).outcome == Execute(p, f, next).outcome
    ensures Execute(p, f, c).executed == Execute(p, f, next).executed + 1
  {
  }

  /** The seven instructions at `pc` check the IPv4 and UDP headers of a frame whose IP header is at `ip`. */
  predicate IpBlock(p: Program, pc: nat, ip: nat, port: u16) {
    && |p| == 21 && pc <= 12 && ip <= 18
    && p[pc] == SockFilter(0x30, 0, 0, ip + 9)
    && p[pc + 1] == SockFilter(0x15, 0, 20 - (pc + 2), 0x11)
    && p[pc + 2] == SockFilter(0x28, 0, 0, ip + 6)
    && p[pc + 3] == SockFilter(0x45, 20 - (pc + 4), 0, 0x1fff)
    && p[pc + 4] == SockFilter(0xb1, 0, 0, ip)
    && p[pc + 5] == SockFilter(0x48, 0, 0, ip + 2)
    && p[pc + 6] == SockFilter(0x15, 19 - (pc + 7), 20 - (pc + 7), port)
    && p[19] == SockFilter(0x06, 0, 0, ACCEPT)
    && p[20] == SockFilter(0x06, 0, 0, DROP)
  }

  lemma PortCheck(p: Program, port: u16, f: Buffer, ip: nat, c: Cpu)
    requires 5 <= c.pc && IpBlock(p, c.pc - 5, ip, port)
    requires ip < |f| && c.x == HeaderLength(f, ip)
    ensures Execute(p, f, c).executed <= 3
    ensures Execute(p, f, c).outcome ==
            if |f| < ip + HeaderLength(f, ip) + 4 then OutOfBounds
            else if DestinationPort(f, ip, port) then Returned(ACCEPT)
            else Returned(DROP)
  {
    if |f| >= ip + HeaderLength(f, ip) + 4 {
      var loaded := Cpu(c.pc + 1, Be16(f, c.x + ip + 2), c.x);
      OneStep(p, f, c, loaded);
      OneStep(p, f, loaded, loaded.(pc := if loaded.a == port then 19 else 20));
    }
  }

  lemma FragmentCheck(p: Program, port: u16, f: Buffer, ip: nat, c: Cpu)
    requires 2 <= c.pc && IpBlock(p, c.pc - 2, ip, port)
    requires |f| >= ip + 10 && f[ip + 9] == 17
    ensures Execute(p, f, c).executed <= 6
    ensures Execute(p, f, c).outcome ==
            if !UnfragmentedUdp(f, ip) then Returned(DROP)
            else if |f| < ip + HeaderLength(f, ip) + 4 then OutOfBounds
            else if DestinationPort(f, ip, port) then Returned(ACCEPT)
            else Returned(DROP)
  {
    var fragment := Cpu(c.pc + 1, Be16(f, ip + 6), c.x);
    OneStep(p, f, c, fragment);
    Masks(fragment.a);
    OneStep(p, f, fragment, fragment.(pc := if UnfragmentedUdp(f, ip) then c.pc + 2 else 20));
    if UnfragmentedUdp(f, ip) {
      Masks(f[ip]);
      var length := Cpu(c.pc + 3, fragment.a, HeaderLength(f, ip));
      OneStep(p, f, fragment.(pc := c.pc + 2), length);
      PortCheck(p, port, f, ip, length);
    }
  }

  lemma IpPath(p: Program, port: u16, f: Buffer, ip: nat, c: Cpu)
    requires IpBlock(p, c.pc, ip, port) && |f| >= ip
    ensures Execute(p, f, c).executed <= 8
    ensures Execute(p, f, c).outcome ==
            if |f| < ip + 10 then OutOfBounds
            else if !UnfragmentedUdp(f, ip) then Returned(DROP)
            else if |f| < ip + HeaderLength(f, ip) + 4 then OutOfBounds
            else if DestinationPort(f, ip, port) then Returned(ACCEPT)
            else Returned(DROP)
  {
    if |f| >= ip + 10 {
      var protocol := Cpu(c.pc + 1, f[ip + 9], c.x);
      OneStep(p, f, c, protocol);
      OneStep(p, f, protocol, protocol.(pc := if f[ip + 9] == 17 then c.pc + 2 else 20));
      if f[ip + 9] == 17 {
        FragmentCheck(p, port, f, ip, protocol.(pc := c.pc + 2));
      }
    }
  }

  lemma TagPath(p: Program, port: u16, f: Buffer, c: Cpu)
    requires p == BuildBpfFilter(port) && IpBlock(p, 12, 18, port)
    requires |f| >= 14 && c == Cpu(2, Be16(f, 12), 0) && c.a != 0x0800
    ensures Execute(p, f, c).outcome ==
            if CutShort(f) then OutOfBounds
            else if Wanted(f, port) then Returned(ACCEPT)
            else Returned(DROP)
    ensures Execute(p, f, c).executed <= 11
  {
    if c.a != 0x8100 {
      OneStep(p, f, c, c.(pc := 20));
    } else {
      OneStep(p, f, c, c.(pc := 3));
      if |f| >= 18 {
        var inner := Cpu(4, Be16(f, 16), 0);
        OneStep(p, f, c.(pc := 3), inner);
        OneStep(p, f, inner, inner.(pc := if inner.a == 0x0800 then 12 else 20));
        if inner.a == 0x0800 {
          assert Ipv4At(f, 18);
          IpPath(p, port, f, 18, inner.(pc := 12));
        }
      }
    }
  }

  lemma IpBlocks(port: u16)
    ensures IpBlock(BuildBpfFilter(port), 5, 14, port) && IpBlock(BuildBpfFilter(port), 12, 18, port)
  {
  }

  /** The first three instructions lead to the header checks of an untagged frame, or on to the tag. */
  lemma OuterType(port: u16, f: Buffer)
    requires |f| >= 14
    ensures var p, a := BuildBpfFilter(port), Be16(f, 12);
            var next := Cpu(if a == 0x0800 then 5 else 2, a, 0);
            && Execute(p, f, RESET).outcome == Execute(p, f, next).outcome
            && Execute(p, f, RESET).executed == Execute(p, f, next).executed + 2
  {
    var p := BuildBpfFilter(port);
    var outer := Cpu(1, Be16(f, 12), 0);
    OneStep(p, f, RESET, outer);
    OneStep(p, f, outer, outer.(pc := if outer.a == 0x0800 then 5 else 2));
  }

  /** For every port and frame: out of bounds exactly on a frame cut short,
      accepted exactly when wanted, dropped otherwise, within 13 instructions.
      It meets no unknown opcode and never runs off its end. */
  lemma FilterVerdict(port: u16, f: Buffer)
    ensures Execute(BuildBpfFilter(port), f, RESET).outcome ==
            if CutShort(f) then OutOfBounds
            else if Wanted(f, port) then Returned(ACCEPT)
            else Returned(DROP)
    ensures Execute(BuildBpfFilter(port), f, RESET).executed <= 13
  {
    var p := BuildBpfFilter(port);
    IpBlocks(port);
    if |f| >= 14 {
      OuterType(port, f);
      hide IpBlock;
      if Be16(f, 12) == 0x0800 {
        assert Ipv4At(f, 14);
        IpPath(p, port, f, 14, Cpu(5, Be16(f, 12), 0));
      } else {
        TagPath(p, port, f, Cpu(2, Be16(f, 12), 0));
      }
    }
  }

  /** The verdict once the IPv4 header is located. */
  lemma VerdictAt(port: u16, f: Buffer, ip: nat)
    requires Ipv4At(f, ip)
    ensures Execute(BuildBpfFilter(port), f, RESET).outcome ==
            if |f| < ip + 10 then OutOfBounds
            else if !UnfragmentedUdp(f, ip) then Returned(DROP)
            else if |f| < ip + HeaderLength(f, ip) + 4 then OutOfBounds
            else if DestinationPort(f, ip, port) then Returned(ACCEPT)
            else Returned(DROP)
  {
    FilterVerdict(port, f);
    assert forall other: nat :: Ipv4At(f, other) ==> other == ip;
  }

  /** What SO_ATTACH_FILTER lets through: a non-zero return, no out-of-bounds load. */
  ghost predicate KernelPasses(port: u16, f: Buffer) {
    var outcome := Execute(BuildBpfFilter(port), f, RESET).outcome;
    outcome.Returned? && outcome.value != 0
  }

  /** The kernel passes exactly the wanted frames, cut short or not. */
  lemma KernelPassesWanted(port: u16, f: Buffer)
    ensures KernelPasses(port, f) <==> Wanted(f, port)
  {
    FilterVerdict(port, f);
  }

  /** The return value is also the number of bytes that the kernel keeps. */
  function Snapped(outcome: Outcome, f: Buffer): Buffer {
    if !outcome.Returned? then [] else if |f| <= outcome.value then f else f[..outcome.value]
  }

  /** Of a frame that passes, the kernel keeps the first 65,535 bytes. */
  lemma KernelKeeps(port: u16, f: Buffer)
    requires KernelPasses(port, f)
    ensures Snapped(Execute(BuildBpfFilter(port), f, RESET).outcome, f) == if |f| <= 65535 then f else f[..65535]
  {
    FilterVerdict(port, f);
  }
}
