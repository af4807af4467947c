/** The trap vector of the payload runtime: event frames become packets, packets become
system calls and breaks, and the runtime remembers the latest of each.

Addresses that a system call is given are trusted, as in the source: every address can
be read and written.  The answer of the one call that reaches the kernel, an anonymous
mapping, is a parameter.
*/
module Traps {
  import opened Words
  import opened Iov

  const EVENT_MAGIC: u64 := 0x3254_5645_594c_4f50
  const EVENT_BYTES: nat := 512
  const EVENT_VERSION: nat := 2
  const EVENT_HEADER_BYTES: nat := 16
  const ARG_COUNT: nat := 8

  const REASON_SYSCALL: u64 := 1
  const REASON_BREAK: u64 := 2

  /** The fields of an event frame that the runtime looks at. */
  datatype EventFrame = EventFrame(
    magic: u64, bytes: u32, version: u16, headerBytes: u16, argCount: u16, sequence: u64,
    frontend: u32, kind: u16, selector: u64, faultStatus: u64, insnPc: u64, resumePc: u64, args: seq<u64>)

  datatype Packet = Packet(
    reason: u64, mode: u64, number: u64, selector: u64, pc: u64, resumePc: u64, args: seq<u64>)

  const NO_PACKET: Packet := Packet(0, 0, 0, 0, 0, 0, seq(8, _ => 0))

  predicate RawMode(mode: u64) { mode == 1 || mode == 2 }

  /** A negative error number as the 64-bit word it is returned in. */
  function Errno(n: nat): u64
    requires 0 < n < 4096
  {
    TWO_64 - n
  }

  /** The word is the negative number in two's complement. */
  lemma ErrnoMeans(n: nat)
    requires 0 < n < 4096
    ensures Add64(Errno(n), n) == 0 && Errno(n) >= 0xffff_ffff_ffff_f001
  {
  }

  predicate ValidFrame(f: EventFrame) {
    && f.magic == EVENT_MAGIC && f.bytes == EVENT_BYTES && f.version == EVENT_VERSION
    && f.headerBytes == EVENT_HEADER_BYTES && f.argCount == ARG_COUNT
    && f.sequence != 0 && f.resumePc != 0 && RawMode(f.frontend)
    && (f.kind == 1 || f.kind == 2)
  }

  function ToPacket(f: EventFrame): Option<Packet> {
    if ValidFrame(f) then
      Some(Packet(if f.kind == 1 then REASON_SYSCALL else REASON_BREAK,
                  f.frontend, f.selector, f.faultStatus, f.insnPc, f.resumePc, f.args))
    else None
  }

  // ----- system calls -----

  datatype Group = Scalar | File | MemoryCalls | Process

  /** A group declines a call, answers it, or ends the run. */
  datatype Effect = Declined | Answered(result: u64, cells: Cells) | Ended(result: u64)

  /** A call with its arguments, the memory it finds and the two things it depends on
      besides: whether a run is in progress, and what the kernel answers to a mapping. */
  datatype Call = Call(number: u64, args: seq<u64>, cells: Cells, armed: bool, mapping: u64)

  type SysCall = c: Call | |c.args| == 8 witness Call(0, seq(8, _ => 0), map[], false, 0)

  function Two(c: SysCall, a: u64, x: u64, y: u64): Effect {
    Answered(0, Store(Store(c.cells, a, BytesOf(x, 8)), Add64(a, 8), BytesOf(y, 8)))
  }

  function ScalarCall(c: SysCall): Effect {
    var n := c.number;
    if n in {25, 29, 48, 98, 99, 134, 135, 233, 293} then Answered(0, c.cells)
    else if n in {96, 178} then Answered(4243, c.cells)
    else if n in {155, 156} then if c.args[0] != 0 then Declined else Answered(4242, c.cells)
    else if n == 172 then Answered(4242, c.cells)
    else if n == 173 then Answered(4241, c.cells)
    else if n in {174, 175, 176, 177} then Answered(1000, c.cells)
    else Declined
  }

  const CWD: seq<u8> := [0x2f, 0x70, 0x6f, 0x6c, 0x79, 0]
  const POLY_NAME: seq<u8> := [0x70, 0x6f, 0x6c, 0x79, 0x21, 0]
  const SYSNAME: seq<u8> := [0x4c, 0x69, 0x6e, 0x75, 0x78, 0]
  const STAT_MAGIC: seq<u8> := [0x50, 0x53, 0x54, 0x41, 0x54, 0x21, 0x21, 0]
  const RANDOM_DATA: seq<u8> := [0x50, 0x52, 0x4e, 0x44, 0x21, 0x21, 0, 0]

  /** What a read yields: standard input and the open file answer differently. */
  function ReadInput(fd: u64, second: u8): (s: seq<u8>)
    ensures |s| == 4
  {
    [if fd == 3 then 0x46 else 0x52, second, 0x21, 0x21]
  }

  function Dirent(m: Cells, a: u64): Cells {
    Store(Store(Store(m, a, BytesOf(1, 8)), Add64(a, 8), BytesOf(1, 8)),
          Add64(a, 16), [24, 0, 4, 0x2e, 0])
  }

  function FileCall(c: SysCall): Effect {
    var n, a, m := c.number, c.args, c.cells;
    if n == 17 then
      if a[1] < 6 then Answered(Errno(34), m) else Answered(6, Store(m, a[0], CWD))
    else if n == 56 then
      Answered(if a[1] != 0 && Slice(m, a[1], 6) == POLY_NAME then 3 else Errno(2), m)
    else if n == 57 then Answered(if a[0] == 3 then 0 else Errno(9), m)
    else if n == 61 then
      if a[1] != 0 && a[2] >= 24 && a[0] <= 3 then Answered(24, Dirent(m, a[1])) else Declined
    else if n == 62 then Answered(if a[0] == 3 && a[2] <= 2 then a[1] else Errno(9), m)
    else if n == 63 then
      if a[0] == 0 || a[0] == 3 then
        var count := Min(a[2], 4);
        Answered(count, Store(m, a[1], ReadInput(a[0], if a[0] == 3 then 0x44 else 0x58)[..count]))
      else Declined
    else if n == 64 then if a[0] == 1 then Answered(a[2], m) else Declined
    else if n == 65 then
      if a[0] == 0 || a[0] == 3 then
        var r := Scatter(m, a[1], 0, Min(a[2], MAX_ENTRIES), ReadInput(a[0], 0x56));
        Answered(r.1, r.0)
      else Declined
    else if n == 66 then
      if a[0] == 1 || a[0] == 2 then
        Answered(TotalLen(Dests(m, a[1], 0, Min(a[2], MAX_ENTRIES))) % TWO_64, m)
      else Declined
    else if n == 78 then
      if a[2] != 0 && a[3] != 0 then
        var count := Min(5, a[3]);
        Answered(count, Store(m, a[2], POLY_NAME[..count]))
      else Declined
    else if n == 79 then
      if a[2] != 0 then Answered(0, Store(m, a[2], STAT_MAGIC)) else Declined
    else if n == 80 then
      if a[1] != 0 && a[0] <= 3 then Answered(0, Store(m, a[1], STAT_MAGIC)) else Declined
    else if n == 160 then Answered(0, Store(m, a[0], SYSNAME))
    else Declined
  }

  function MemoryCall(c: SysCall): Effect {
    var n, a, m := c.number, c.args, c.cells;
    if n == 113 then if a[0] == 0 && a[1] != 0 then Two(c, a[1], 123, 456789) else Declined
    else if n == 165 then if a[0] == 0 && a[1] != 0 then Two(c, a[1], 321, 654321) else Declined
    else if n == 168 then
      if a[0] != 0 && a[1] != 0 then
        Answered(0, Store(Store(m, a[0], BytesOf(12, 8)), a[1], BytesOf(34, 8)))
      else Declined
    else if n == 169 then if a[0] != 0 && a[1] == 0 then Two(c, a[0], 246, 13579) else Declined
    else if n == 179 then if a[0] != 0 then Two(c, a[0], 98765, 111) else Declined
    else if n == 214 then Answered(if a[0] != 0 then a[0] else a[1], m)
    else if n == 215 || n == 226 then if a[0] != 0 && a[1] != 0 then Answered(0, m) else Declined
    else if n == 222 then
      if a[0] == 0 && a[1] >= 4096 && a[2] == 3 && a[3] == 34 && a[4] == TWO_64 - 1 && a[5] == 0 then
        Answered(c.mapping, m)
      else if a[0] == 0 then
        Answered(if a[3] == 34 && a[4] == 5 && a[5] == 7
                 then (a[1] + a[2] + a[3] + a[4] + a[5]) % TWO_64 else a[1], m)
      else Declined
    else if n == 261 then if a[3] != 0 then Two(c, a[3], 8388608, TWO_64 - 1) else Declined
    else if n == 278 then
      if a[0] != 0 then
        var count := Min(a[1], 8);
        Answered(count, Store(m, a[0], RANDOM_DATA[..count]))
      else Declined
    else Declined
  }

  function ProcessCall(c: SysCall): Effect {
    if c.number == 93 || c.number == 94 then
      if c.armed then Ended(c.args[0]) else Answered(c.args[0], c.cells)
    else Declined
  }

  function GroupCall(g: Group, c: SysCall): Effect {
    match g
    case Scalar => ScalarCall(c)
    case File => FileCall(c)
    case MemoryCalls => MemoryCall(c)
    case Process => ProcessCall(c)
  }

  function UnknownCall(mode: u64, number: u64): u64 {
    Or64(Or64(0x5300_0000, number * 256 % TWO_64), mode)
  }

  /** The groups are asked one after the other. */
  function Ask(order: seq<Group>, c: SysCall): Effect {
    if order == [] then Declined
    else if GroupCall(order[0], c).Declined? then Ask(order[1..], c)
    else GroupCall(order[0], c)
  }

  const SOURCE_ORDER: seq<Group> := [Scalar, File, MemoryCalls, Process]

  // ----- the groups are disjoint -----

  /** The one group whose numbers include this one. */
  function GroupOf(n: u64): Option<Group> {
    if n in {25, 29, 48, 96, 98, 99, 134, 135, 155, 156, 172, 173, 174, 175, 176, 177, 178, 233, 293} then Some(Scalar)
    else if n in {17, 56, 57, 61, 62, 63, 64, 65, 66, 78, 79, 80, 160} then Some(File)
    else if n in {113, 165, 168, 169, 179, 214, 215, 222, 226, 261, 278} then Some(MemoryCalls)
    else if n in {93, 94} then Some(Process)
    else None
  }

  lemma OnlyItsGroupAnswers(g: Group, c: SysCall)
    ensures !GroupCall(g, c).Declined? ==> GroupOf(c.number) == Some(g)
  {
    hide Store, Scatter, Dests, TotalLen, Slice;
  }

  lemma {:induction false} AskMeans(order: seq<Group>, c: SysCall)
    ensures Ask(order, c) ==
      if GroupOf(c.number).Some? && GroupOf(c.number).value in order
      then GroupCall(GroupOf(c.number).value, c) else Declined
  {
    hide GroupCall, GroupOf;
    if order != [] {
      OnlyItsGroupAnswers(order[0], c);
      AskMeans(order[1..], c);
      assert order == [order[0]] + order[1..];
    }
  }

  /** Asking the groups in another order never changes an outcome. */
  lemma OrderDoesNotMatter(order: seq<Group>, c: SysCall)
    requires forall g: Group :: g in order
    ensures Ask(order, c) == Ask(SOURCE_ORDER, c)
  {
    hide GroupCall, GroupOf, Ask;
    AskMeans(order, c);
    AskMeans(SOURCE_ORDER, c);
    forall g: Group ensures g in SOURCE_ORDER {
      OrderHasAll(g);
    }
    assert GroupOf(c.number).Some? ==> GroupOf(c.number).value in order;
  }

  // ----- the runtime -----

  datatype State = State(lastSyscall: Packet, lastBreak: Packet, cells: Cells)

  /** What the trapped program gets back, or the end of the run. */
  datatype Outcome = Resumed(value: u64) | Exited(value: u64)

  /** One trap: the frame the hardware has written, and the kernel's answer should the
      call be a mapping. */
  datatype Trap = Trap(frame: EventFrame, mapping: u64)

  type Event = t: Trap | |t.frame.args| == 8
    witness Trap(EventFrame(0, 0, 0, 0, 0, 0, 0, 0, 0, 0, 0, 0, seq(8, _ => 0)), 0)

  /** The system call that a packet asks for. */
  function CallOf(p: Packet, cells: Cells, armed: bool, mapping: u64): SysCall
    requires |p.args| == ARG_COUNT
  {
    Call(p.number, p.args, cells, armed, mapping)
  }

  function BreakValue(mode: u64, number: u64): u64 {
    Or64(Or64(0x4c00_0000, mode * 256 % TWO_64), number)
  }

  class Runtime {
    var lastSyscall: Packet
    var lastBreak: Packet
    var cells: Cells
    var armed: bool

    ghost function Current(): State
      reads this
    {
      State(lastSyscall, lastBreak, cells)
    }

    /** The state at the start of a run: both packets zeroed, exits armed. */
    constructor (memory: Cells)
      ensures Current() == State(NO_PACKET, NO_PACKET, memory) && armed
    {
      lastSyscall := NO_PACKET;
      lastBreak := NO_PACKET;
      cells := memory;
      armed := true;
    }

    method Dispatch(t: Event) returns (outcome: Outcome)
      modifies this`lastSyscall, this`lastBreak, this`cells
      ensures (Current(), outcome) == Handle(old(Current()), t, armed)
    {
      hide GroupCall, Or64;
      var decoded := ToPacket(t.frame);
      if decoded.None? {
        return Resumed(Errno(38));
      }
      var packet := decoded.value;
      if !RawMode(packet.mode) {
        // the second test of the mode
        assert false;
      }
      if packet.reason == REASON_BREAK {
        lastBreak := packet;
        return Resumed(BreakValue(packet.mode, packet.number));
      }
      if packet.reason == REASON_SYSCALL {
        lastSyscall := packet;
        var call := CallOf(packet, cells, armed, t.mapping);
        var effect := Ask(SOURCE_ORDER, call);
        match effect
        case Declined =>
          return Resumed(UnknownCall(packet.mode, packet.number));
        case Answered(result, after) =>
          cells := after;
          return Resumed(result);
        case Ended(result) =>
          return Exited(result);
      }
      assert false;
    }
  }

  /** The specification of one dispatch. */
  function Handle(s: State, t: Event, armed: bool): (State, Outcome) {
    match ToPacket(t.frame)
    case None => (s, Resumed(Errno(38)))
    case Some(p) =>
      if p.reason == REASON_BREAK then (s.(lastBreak := p), Resumed(BreakValue(p.mode, p.number)))
      else
        var s1 := s.(lastSyscall := p);
        match Ask(SOURCE_ORDER, CallOf(p, s.cells, armed, t.mapping))
        case Declined => (s1, Resumed(UnknownCall(p.mode, p.number)))
        case Answered(result, after) => (s1.(cells := after), Resumed(result))
        case Ended(result) => (s1, Exited(result))
  }

  datatype Kind = Syscall | Break

  predicate IsKind(t: Event, kind: Kind) {
    ValidFrame(t.frame) && t.frame.kind == (if kind.Syscall? then 1 else 2)
  }

  function Saved(s: State, kind: Kind): Packet {
    if kind.Syscall? then s.lastSyscall else s.lastBreak
  }

  predicate IsExit(t: Event) { IsKind(t, Syscall) && (t.frame.selector == 93 || t.frame.selector == 94) }

  /** The packet says what the frame says: the frame's selector is the number of the call or
      break, its fault status is the packet's selector, and so on. */
  ghost predicate Reports(p: Packet, f: EventFrame) {
    && p.reason == f.kind && p.mode == f.frontend && p.number == f.selector && p.selector == f.faultStatus
    && p.pc == f.insnPc && p.resumePc == f.resumePc && |p.args| == |f.args| == 8
    && forall i :: 0 <= i < 8 ==> p.args[i] == f.args[i]
  }

  /** What one trap does, in terms of the frame the hardware wrote. */
  lemma HandleMeans(s: State, t: Event)
    ensures var (after, outcome), f := Handle(s, t, true), t.frame;
      && (IsExit(t) <==> outcome.Exited?) && (IsExit(t) ==> outcome.value == f.args[0])
      && (forall kind ::
            if IsKind(t, kind) then Reports(Saved(after, kind), f) else Saved(after, kind) == Saved(s, kind))
      && (!ValidFrame(f) ==> after == s && outcome == Resumed(0xffff_ffff_ffff_ffda))
      && (IsKind(t, Break) || GroupOf(f.selector).None? ==> after.cells == s.cells)
      && (IsKind(t, Break) ==>
          outcome == Resumed(Or64(Or64(0x4c00_0000, f.frontend * 256), f.selector)))
      && (IsKind(t, Syscall) && GroupOf(f.selector).None? ==>
          outcome == Resumed(Or64(Or64(0x5300_0000, f.selector * 256 % TWO_64), f.frontend)))
  {
    hide Ask, GroupCall, Or64, GroupOf;
    if ValidFrame(t.frame) {
      var c := CallOf(ToPacket(t.frame).value, s.cells, true, t.mapping);
      AskMeans(SOURCE_ORDER, c);
      ProcessEnds(c);
    }
  }

  /** A call that its group answers gets the group's result and leaves the group's memory. */
  lemma AnsweredCall(s: State, t: Event, g: Group)
    requires IsKind(t, Syscall) && GroupOf(t.frame.selector) == Some(g)
    ensures var (after, outcome) := Handle(s, t, true);
      var effect := GroupCall(g, Call(t.frame.selector, t.frame.args, s.cells, true, t.mapping));
      effect.Answered? ==> outcome == Resumed(effect.result) && after.cells == effect.cells
  {
    hide Ask, GroupCall, Or64, GroupOf;
    var c := CallOf(ToPacket(t.frame).value, s.cells, true, t.mapping);
    AskMeans(SOURCE_ORDER, c);
    OrderHasAll(g);
  }

  lemma OrderHasAll(g: Group)
    ensures g in SOURCE_ORDER
  {
    match g
    case Scalar => assert SOURCE_ORDER[0] == g;
    case File => assert SOURCE_ORDER[1] == g;
    case MemoryCalls => assert SOURCE_ORDER[2] == g;
    case Process => assert SOURCE_ORDER[3] == g;
  }

  /** In the answers to small numbers mode and number stand side by side. */
  lemma AnswersSpell(mode: u64, number: u64)
    requires mode < 256
    ensures number < 256 ==> Or64(Or64(0x4c00_0000, mode * 256), number) == 0x4c00_0000 + mode * 256 + number
    ensures number < 0x1_0000 ==>
      Or64(Or64(0x5300_0000, number * 256 % TWO_64), mode) == 0x5300_0000 + number * 256 + mode
  {
    hide Or, Pow2;
    Pow2Values();
    Pow2Byte(1);
    if number < 256 {
      OrShifted(0x4c00, 16, mode * 256);
      OrShifted(0x4c_0000 + mode, 8, number);
    }
    if number < 0x1_0000 {
      Field(number * 256, 0, TWO_64, number * 256);
      OrShifted(0x53, 24, number * 256);
      OrShifted(0x53_0000 + number, 8, mode);
    }
  }

  /** Which fields decide whether a frame is valid, and how; changing any other field of a
      valid frame leaves it valid. */
  lemma ValidFields(f: EventFrame, x: u64, h: u16, w: u32)
    requires ValidFrame(f)
    ensures ValidFrame(f.(magic := x)) <==> x == f.magic == 0x3254_5645_594c_4f50
    ensures ValidFrame(f.(bytes := w)) <==> w == 512
    ensures ValidFrame(f.(version := h)) <==> h == 2
    ensures ValidFrame(f.(headerBytes := h)) <==> h == 16
    ensures ValidFrame(f.(argCount := h)) <==> h == 8
    ensures ValidFrame(f.(sequence := x)) <==> x != 0
    ensures ValidFrame(f.(resumePc := x)) <==> x != 0
    ensures ValidFrame(f.(frontend := w)) <==> w == 1 || w == 2
    ensures ValidFrame(f.(kind := h)) <==> h == 1 || h == 2
    ensures ValidFrame(f.(selector := x, faultStatus := x, insnPc := x))
  {
  }

  /** An armed runtime ends the run exactly on the two exit calls. */
  lemma ProcessEnds(c: SysCall)
    requires c.armed
    ensures Ask(SOURCE_ORDER, c).Ended? <==> c.number == 93 || c.number == 94
    ensures Ask(SOURCE_ORDER, c).Ended? ==> Ask(SOURCE_ORDER, c).result == c.args[0]
  {
    hide Store, Scatter, Dests, TotalLen, Slice, Ask;
    AskMeans(SOURCE_ORDER, c);
    assert SOURCE_ORDER[3] == Process;
  }

  // ----- whole runs -----

  /** What a run leaves: the state, the values handed back, and the exit value if any. */
  datatype Finished = Finished(state: State, values: seq<u64>, exit: Option<u64>)

  function RunAll(s: State, events: seq<Event>): Finished
    decreases events
  {
    if events == [] then Finished(s, [], None) else
      var (after, outcome) := Handle(s, events[0], true);
      match outcome
      case Exited(v) => Finished(after, [], Some(v))
      case Resumed(v) =>
        var rest := RunAll(after, events[1..]);
        rest.(values := [v] + rest.values)
  }

  /** A run ends at the first exit call, with its first argument, and not otherwise. */
  lemma {:induction false} RunEndsAtFirstExit(s: State, events: seq<Event>)
    ensures var r := RunAll(s, events);
      var n := |r.values|;
      && n <= |events| && (forall k :: 0 <= k < n ==> !IsExit(events[k]))
      && (r.exit.Some? <==> n < |events|)
      && (r.exit.Some? ==> IsExit(events[n]) && r.exit.value == events[n].frame.args[0])
    decreases events
  {
    hide Handle, IsExit;
    if events != [] {
      HandleMeans(s, events[0]);
      var (after, outcome) := Handle(s, events[0], true);
      if outcome.Resumed? {
        RunEndsAtFirstExit(after, events[1..]);
        var rest := RunAll(after, events[1..]);
        forall k | 0 <= k < |rest.values| + 1 ensures !IsExit(events[k]) {
          if k > 0 {
            assert events[k] == events[1..][k - 1];
          }
        }
      }
    }
  }

  /** The number of events a run looks at. */
  ghost function Seen(s: State, events: seq<Event>): (n: nat)
    ensures n <= |events|
  {
    RunEndsAtFirstExit(s, events);
    var r := RunAll(s, events);
    |r.values| + (if r.exit.Some? then 1 else 0)
  }

  /** Event `j` is the latest of its kind among the first `n`. */
  ghost predicate Latest(events: seq<Event>, kind: Kind, j: nat, n: nat)
    requires j < n <= |events|
  {
    IsKind(events[j], kind) && forall k :: j < k < n ==> !IsKind(events[k], kind)
  }

  /** After any run each saved packet is that of the latest valid event of its kind among
      the events the run has seen, or the initial one if there was none. */
  lemma {:induction false} PacketIsLatest(s: State, events: seq<Event>, kind: Kind)
    ensures var last, n := Saved(RunAll(s, events).state, kind), Seen(s, events);
      || (last == Saved(s, kind) && forall k :: 0 <= k < n ==> !IsKind(events[k], kind))
      || exists j :: 0 <= j < n && Latest(events, kind, j, n) && Reports(last, events[j].frame)
    decreases events
  {
    hide Handle, IsKind, Reports, IsExit, Saved, ValidFrame, GroupOf, Or64;
    if events != [] {
      HandleMeans(s, events[0]);
      var (after, outcome) := Handle(s, events[0], true);
      if outcome.Resumed? {
        var rest := events[1..];
        PacketIsLatest(after, rest, kind);
        var n := Seen(after, rest);
        assert Seen(s, events) == n + 1;
        assert forall k :: 0 <= k < n ==> rest[k] == events[k + 1];
        if j :| 0 <= j < n && Latest(rest, kind, j, n)
                && Reports(Saved(RunAll(after, rest).state, kind), rest[j].frame) {
          assert Latest(events, kind, j + 1, n + 1);
        } else if IsKind(events[0], kind) {
          assert Latest(events, kind, 0, n + 1);
        }
      } else if IsKind(events[0], kind) {
        assert Latest(events, kind, 0, 1);
      }
    }
  }

  lemma RunAllFirst(s: State, t: Event, rest: seq<Event>)
    ensures var (after, outcome) := Handle(s, t, true);
      var r := RunAll(after, rest);
      RunAll(s, [t] + rest) == if outcome.Exited? then Finished(after, [], Some(outcome.value))
                               else r.(values := [outcome.value] + r.values)
  {
    hide Handle;
    assert ([t] + rest)[1..] == rest;
  }

  /** `values` with one more value at `n`. */
  function Inserted(values: seq<u64>, n: nat, v: u64): seq<u64>
    requires n <= |values|
  {
    values[..n] + [v] + values[n..]
  }

  lemma InsertedAfter(first: u64, values: seq<u64>, n: nat, v: u64)
    requires n <= |values|
    ensures [first] + Inserted(values, n, v) == Inserted([first] + values, n + 1, v)
  {
    assert ([first] + values)[..n + 1] == [first] + values[..n];
    assert ([first] + values)[n + 1..] == values[n..];
  }

  /** A frame that does not validate can be left out of a run, wherever it comes: it is
      answered with the error for an unknown call and changes nothing else. */
  lemma {:induction false} InvalidFramesDoNothing(s: State, before: seq<Event>, t: Event, rest: seq<Event>)
    requires !ValidFrame(t.frame)
    ensures var r := RunAll(s, before + rest);
      if RunAll(s, before).exit.Some? then RunAll(s, before + [t] + rest) == r
      else |r.values| >= |before| && RunAll(s, before + [t] + rest)
           == r.(values := Inserted(r.values, |before|, Errno(38)))
    decreases before
  {
    hide Handle, ValidFrame, IsExit, IsKind, Saved, ToPacket, RunAll, Inserted;
    if before == [] {
      HandleMeans(s, t);
      RunAllFirst(s, t, rest);
      RunAllNone(s);
      assert before + [t] + rest == [t] + rest && before + rest == rest;
      var values := RunAll(s, rest).values;
      InsertedFirst(values, Errno(38));
    } else {
      var (after, outcome) := Handle(s, before[0], true);
      var more := before[1..];
      assert before == [before[0]] + more;
      assert before + [t] + rest == [before[0]] + (more + [t] + rest);
      assert before + rest == [before[0]] + (more + rest);
      RunAllFirst(s, before[0], more);
      RunAllFirst(s, before[0], more + [t] + rest);
      RunAllFirst(s, before[0], more + rest);
      if outcome.Resumed? {
        InvalidFramesDoNothing(after, more, t, rest);
        if RunAll(after, more).exit.None? {
          InsertedAfter(outcome.value, RunAll(after, more + rest).values, |more|, Errno(38));
        }
      }
    }
  }

  lemma RunAllNone(s: State)
    ensures RunAll(s, []) == Finished(s, [], None)
  {
  }

  lemma InsertedFirst(values: seq<u64>, v: u64)
    ensures Inserted(values, 0, v) == [v] + values
  {
  }
}
