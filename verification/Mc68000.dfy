/**
 The slice of the MC68000 that the fixture ROMs' upload code uses: a step function over a byte memory
 behind a 24-bit bus (section 4 of the M68000 Family Programmer's Reference Manual).
 */
module Mc68000 {
  import opened Basics

  const BUS: nat := 0x100_0000

  type Memory = map<nat, Byte>

  /** Registers the upload code touches, the Z flag, the program counter and memory. */
  datatype Cpu = Cpu(d0: nat, d1: nat, d2: nat, a0: nat, a1: nat, z: bool, pc: nat, mem: Memory)

  function Read(mem: Memory, address: nat): Byte {
    if address % BUS in mem then mem[address % BUS] else 0
  }

  function Store(mem: Memory, address: nat, v: Byte): Memory {
    mem[address % BUS := v]
  }

  function ReadWord(mem: Memory, address: nat): (w: nat)
    ensures w < 0x1_0000
  {
    Read(mem, address) * 256 + Read(mem, address + 1)
  }

  function ReadLong(mem: Memory, address: nat): nat {
    ReadWord(mem, address) * 0x1_0000 + ReadWord(mem, address + 2)
  }

  function Signed(w: nat): int {
    if w >= 0x8000 then w - 0x1_0000 else w
  }

  function WithLowByte(r: nat, v: Byte): (n: nat)
    ensures LowByte(n) == v
  {
    r / 256 * 256 + v
  }

  function Wrap(v: int): (r: nat)
    ensures 0 <= v < 0x1_0000_0000 ==> r == v
  {
    v % 0x1_0000_0000
  }

  /** The target of a PC-relative operand: relative to the address of its extension word. */
  function Relative(s: Cpu): nat {
    Wrap(s.pc + 2 + Signed(ReadWord(s.mem, s.pc + 2)))
  }

  function XorBits(a: nat, b: nat, width: nat): (x: nat)
    decreases width
  {
    if width == 0 then 0 else (a % 2 + b % 2) % 2 + 2 * XorBits(a / 2, b / 2, width - 1)
  }

  lemma {:induction false} XorRange(a: nat, b: nat, width: nat)
    ensures XorBits(a, b, width) < Pow2(width)
    decreases width
  {
    if width > 0 {
      XorRange(a / 2, b / 2, width - 1);
    }
  }

  function Xor(a: Byte, b: Byte): Byte {
    XorRange(a, b, 8);
    assert Pow2(8) == 256;
    XorBits(a, b, 8)
  }

  lemma {:induction false} XorBitsTwice(a: nat, b: nat, width: nat)
    requires a < Pow2(width)
    ensures XorBits(XorBits(a, b, width), b, width) == a
    decreases width
  {
    if width > 0 {
      hide XorBits;
      XorBitsTwice(a / 2, b / 2, width - 1);
      XorParts(a, b, width);
      XorParts(XorBits(a, b, width), b, width);
    }
  }

  lemma XorParts(a: nat, b: nat, width: nat)
    requires width > 0
    ensures XorBits(a, b, width) / 2 == XorBits(a / 2, b / 2, width - 1)
    ensures XorBits(a, b, width) % 2 == (a % 2 + b % 2) % 2
  {
  }

  /** Exclusive or with the same key twice is the identity. */
  lemma XorTwice(a: Byte, key: Byte)
    ensures Xor(Xor(a, key), key) == a
  {
    assert Pow2(8) == 256;
    XorBitsTwice(a, key, 8);
  }

  // ----- the instructions --------------------------------------------------------------------------

  function LeaPcA0(s: Cpu): Cpu { s.(a0 := Relative(s), pc := Wrap(s.pc + 4)) }

  function LeaLongA1(s: Cpu): Cpu { s.(a1 := ReadLong(s.mem, s.pc + 2), pc := Wrap(s.pc + 6)) }

  function MoveWordD0(s: Cpu): Cpu {
    var imm := ReadWord(s.mem, s.pc + 2);
    s.(d0 := s.d0 / 0x1_0000 * 0x1_0000 + imm, z := imm == 0, pc := Wrap(s.pc + 4))
  }

  function MoveLongD1(s: Cpu): Cpu {
    var imm := ReadLong(s.mem, s.pc + 2);
    s.(d1 := imm, z := imm == 0, pc := Wrap(s.pc + 6))
  }

  function SubqD1(s: Cpu): Cpu { s.(d1 := Wrap(s.d1 - 1), z := s.d1 == 1, pc := Wrap(s.pc + 2)) }

  function MoveByte(s: Cpu): Cpu {
    var v := Read(s.mem, s.a0);
    s.(mem := Store(s.mem, s.a1, v), a0 := Wrap(s.a0 + 1), a1 := Wrap(s.a1 + 1), z := v == 0, pc := Wrap(s.pc + 2))
  }

  function LoadByteD2(s: Cpu): Cpu {
    var v := Read(s.mem, s.a0);
    s.(d2 := WithLowByte(s.d2, v), a0 := Wrap(s.a0 + 1), z := v == 0, pc := Wrap(s.pc + 2))
  }

  /** The immediate is the low byte of the extension word. */
  function EoriByteD2(s: Cpu): Cpu {
    var v := Xor(LowByte(s.d2), LowByte(ReadWord(s.mem, s.pc + 2)));
    s.(d2 := WithLowByte(s.d2, v), z := v == 0, pc := Wrap(s.pc + 4))
  }

  function StoreByteD2(s: Cpu): Cpu {
    var v := LowByte(s.d2);
    s.(mem := Store(s.mem, s.a1, v), a1 := Wrap(s.a1 + 1), z := v == 0, pc := Wrap(s.pc + 2))
  }

  /** Decrement the low word; fall through when it was zero. */
  function DbraD0(s: Cpu): Cpu {
    if s.d0 % 0x1_0000 == 0 then s.(d0 := s.d0 + 0xFFFF, pc := Wrap(s.pc + 4))
    else s.(d0 := s.d0 - 1, pc := Relative(s))
  }

  function Bne(s: Cpu): Cpu { s.(pc := if s.z then Wrap(s.pc + 4) else Relative(s)) }

  function Bra(s: Cpu): Cpu { s.(pc := Relative(s)) }

  /** One instruction; `None` for any opcode outside the modelled slice. */
  function Step(s: Cpu): Option<Cpu> {
    var op := ReadWord(s.mem, s.pc);
    if op == 0x41FA then Some(LeaPcA0(s))            // LEA d16(PC),A0
    else if op == 0x43F9 then Some(LeaLongA1(s))     // LEA (xxx).L,A1
    else if op == 0x303C then Some(MoveWordD0(s))    // MOVE.W #imm,D0
    else if op == 0x223C then Some(MoveLongD1(s))    // MOVE.L #imm,D1
    else if op == 0x5381 then Some(SubqD1(s))        // SUBQ.L #1,D1
    else if op == 0x12D8 then Some(MoveByte(s))      // MOVE.B (A0)+,(A1)+
    else if op == 0x1418 then Some(LoadByteD2(s))    // MOVE.B (A0)+,D2
    else if op == 0x0A02 then Some(EoriByteD2(s))    // EORI.B #imm,D2
    else if op == 0x12C2 then Some(StoreByteD2(s))   // MOVE.B D2,(A1)+
    else if op == 0x51C8 then Some(DbraD0(s))        // DBRA D0
    else if op == 0x6600 then Some(Bne(s))           // BNE.W
    else if op == 0x6000 then Some(Bra(s))           // BRA.W
    else None
  }

  function Run(s: Cpu, steps: nat): Option<Cpu>
    decreases steps
  {
    if steps == 0 then Some(s)
    else
      match Step(s)
      case None => None
      case Some(t) => Run(t, steps - 1)
  }

  lemma {:induction false} RunSplits(s: Cpu, m: nat, n: nat)
    requires Run(s, m).Some?
    ensures Run(s, m + n) == Run(Run(s, m).value, n)
    decreases m
  {
    hide Step;
    if m > 0 {
      RunSplits(Step(s).value, m - 1, n);
    }
  }

  /** The bus address the next instruction stores a byte to, if it stores one. */
  ghost function StoreTarget(s: Cpu): set<nat> {
    if ReadWord(s.mem, s.pc) == 0x12D8 || ReadWord(s.mem, s.pc) == 0x12C2 then {s.a1 % BUS} else {}
  }

  /** All addresses stored to in a run. */
  ghost function Touched(s: Cpu, steps: nat): set<nat>
    requires Run(s, steps).Some?
    decreases steps
  {
    if steps == 0 then {} else StoreTarget(s) + Touched(Step(s).value, steps - 1)
  }

  lemma {:induction false} TouchedSplits(s: Cpu, m: nat, n: nat)
    requires Run(s, m).Some? && Run(s, m + n).Some? && Run(Run(s, m).value, n).Some?
    ensures Touched(s, m + n) == Touched(s, m) + Touched(Run(s, m).value, n)
    decreases m
  {
    hide Step, StoreTarget;
    if m > 0 {
      TouchedSplits(Step(s).value, m - 1, n);
    }
  }

  /** Only touched bytes change: the stores are the only writes of the modelled instructions. */
  lemma {:induction false} UntouchedStays(s: Cpu, steps: nat, x: nat)
    requires Run(s, steps).Some? && x < BUS && x !in Touched(s, steps)
    ensures Read(Run(s, steps).value.mem, x) == Read(s.mem, x)
    decreases steps
  {
    if steps > 0 {
      StepStores(s, x);
      UntouchedStays(Step(s).value, steps - 1, x);
    }
  }

  lemma StepStores(s: Cpu, x: nat)
    requires Step(s).Some? && x < BUS && x !in StoreTarget(s)
    ensures Read(Step(s).value.mem, x) == Read(s.mem, x)
  {
    hide ReadWord, ReadLong, Xor, WithLowByte;
  }

  /** The addresses from .. from + count - 1. */
  ghost function Span(from: nat, count: nat): (r: set<nat>)
    ensures forall x: nat :: x in r <==> from <= x < from + count
  {
    if count == 0 then {} else Span(from, count - 1) + {from + count - 1}
  }

  lemma SpanHead(from: nat, count: nat)
    ensures Span(from, count + 1) == {from} + Span(from + 1, count) && Span(from, 0) == {}
    ensures Span(from, 1) == {from}
  {
  }

  // ----- code and data blocks in memory --------------------------------------------------------------

  /** `words` stand at `address`, high byte first. */
  ghost predicate Holds(mem: Memory, address: nat, words: seq<nat>) {
    forall i :: 0 <= i < |words| ==> HoldsAt(mem, address, words, i)
  }

  ghost predicate HoldsAt(mem: Memory, address: nat, words: seq<nat>, i: nat)
    requires i < |words|
  {
    ReadWord(mem, address + 2 * i) == words[i]
  }

  /** Two memories agree on the bus outside [from, from + count). */
  ghost predicate SameOutside(m: Memory, n: Memory, from: nat, count: nat) {
    forall x :: 0 <= x < BUS && !(from <= x < from + count) ==> Read(m, x) == Read(n, x)
  }

  lemma StoreIsLocal(mem: Memory, address: nat, v: Byte)
    requires address < BUS
    ensures Read(Store(mem, address, v), address) == v
    ensures SameOutside(Store(mem, address, v), mem, address, 1)
  {
  }

  /** Code outside the written block survives. */
  lemma HoldsSurvives(m: Memory, n: Memory, from: nat, count: nat, address: nat, words: seq<nat>)
    requires Holds(m, address, words) && SameOutside(n, m, from, count)
    requires address + 2 * |words| <= BUS
    requires address + 2 * |words| <= from || from + count <= address
    ensures Holds(n, address, words)
  {
    forall i | 0 <= i < |words| ensures HoldsAt(n, address, words, i) {
      assert HoldsAt(m, address, words, i);
      assert Read(n, address + 2 * i) == Read(m, address + 2 * i);
      assert Read(n, address + 2 * i + 1) == Read(m, address + 2 * i + 1);
    }
  }

  // ----- the two upload loops --------------------------------------------------------------------------

  const COPY_LOOP: seq<nat> := [0x12D8, 0x51C8, 0xFFFC]

  function DecodeLoop(key: Byte): seq<nat> { [0x1418, 0x0A02, key as nat, 0x12C2, 0x51C8, 0xFFF6] }

  /** Byte `i` of the block went from source to destination through the key. */
  ghost predicate Transferred(m: Memory, n: Memory, src: nat, dst: nat, key: Byte, i: nat) {
    Read(n, dst + i) == Xor(Read(m, src + i), key)
  }

  /** `t` is `s` after a loop of `length` code bytes that stored `count` source bytes and ran through. */
  ghost predicate Uploaded(s: Cpu, t: Cpu, count: nat, key: Byte, length: nat) {
    && t.pc == s.pc + length && t.d1 == s.d1
    && SameOutside(t.mem, s.mem, s.a1, count)
    && (forall i :: 0 <= i < count ==> Transferred(s.mem, t.mem, s.a0, s.a1, key, i))
  }

  /** Code, source and destination lie inside the bus and the destination overlaps neither of the others. */
  ghost predicate Ready(s: Cpu, count: nat, length: nat) {
    && s.pc + length <= BUS && s.a0 + count <= BUS && s.a1 + count <= BUS
    && (s.pc + length <= s.a1 || s.a1 + count <= s.pc)
    && (s.a0 + count <= s.a1 || s.a1 + count <= s.a0)
  }

  lemma XorZero(a: Byte)
    ensures Xor(a, 0) == a
  {
    assert Pow2(8) == 256;
    XorBitsZero(a, 8);
  }

  lemma {:induction false} XorBitsZero(a: nat, width: nat)
    requires a < Pow2(width)
    ensures XorBits(a, 0, width) == a
    decreases width
  {
    if width > 0 {
      XorBitsZero(a / 2, width - 1);
    }
  }

  /** What one turn of a loop does: one byte, both pointers, the counter and the branch. */
  ghost predicate Turned(s: Cpu, t: Cpu, v: Byte, length: nat) {
    && t.mem == Store(s.mem, s.a1, v) && t.d1 == s.d1
    && t.a0 == s.a0 + 1 && t.a1 == s.a1 + 1
    && (if s.d0 % 0x1_0000 == 0 then t.pc == s.pc + length else t.pc == s.pc && t.d0 == s.d0 - 1)
  }

  lemma CopySteps(s: Cpu)
    requires Holds(s.mem, s.pc, COPY_LOOP) && Ready(s, 1, 6)
    ensures var u := MoveByte(s);
      && Step(s) == Some(u) && Step(u) == Some(DbraD0(u))
      && StoreTarget(s) == {s.a1} && StoreTarget(u) == {}
      && Turned(s, DbraD0(u), Read(s.mem, s.a0), 6)
  {
    hide Xor, Store, Read, ReadWord;
    assert HoldsAt(s.mem, s.pc, COPY_LOOP, 0);
    var u := MoveByte(s);
    StoreIsLocal(s.mem, s.a1, Read(s.mem, s.a0));
    HoldsSurvives(s.mem, u.mem, s.a1, 1, s.pc, COPY_LOOP);
    assert HoldsAt(u.mem, s.pc, COPY_LOOP, 1) && HoldsAt(u.mem, s.pc, COPY_LOOP, 2);
  }

  lemma CopyTurn(s: Cpu)
    requires Holds(s.mem, s.pc, COPY_LOOP) && Ready(s, 1, 6)
    ensures Run(s, 2).Some? && Turned(s, Run(s, 2).value, Read(s.mem, s.a0), 6)
    ensures Touched(s, 2) == {s.a1}
  {
    hide Step, StoreTarget, Store, Read, MoveByte, DbraD0, Holds;
    CopySteps(s);
    TwoSteps(s, MoveByte(s), DbraD0(MoveByte(s)));
  }

  lemma TwoSteps(s: Cpu, u: Cpu, t: Cpu)
    requires Step(s) == Some(u) && Step(u) == Some(t)
    ensures Run(s, 2) == Some(t) && Touched(s, 2) == StoreTarget(s) + StoreTarget(u)
  {
    hide Step, StoreTarget;
    assert Run(u, 1) == Some(t) && Touched(u, 1) == StoreTarget(u);
  }

  /** MOVE.B (A0)+,D2 and EORI.B #key,D2: the low byte of D2 is the decoded byte. */
  lemma DecodeByte(s: Cpu, key: Byte)
    requires Holds(s.mem, s.pc, DecodeLoop(key)) && Ready(s, 1, 12)
    ensures Step(s) == Some(LoadByteD2(s)) && Step(LoadByteD2(s)) == Some(EoriByteD2(LoadByteD2(s)))
    ensures StoreTarget(s) == {} && StoreTarget(LoadByteD2(s)) == {}
    ensures var u := EoriByteD2(LoadByteD2(s));
      && LowByte(u.d2) == Xor(Read(s.mem, s.a0), key) && u.pc == s.pc + 6 && u.mem == s.mem
      && u.a0 == s.a0 + 1 && u.a1 == s.a1 && u.d0 == s.d0 && u.d1 == s.d1
  {
    hide Xor, Read, ReadWord, WithLowByte;
    var code := DecodeLoop(key);
    assert HoldsAt(s.mem, s.pc, code, 0) && HoldsAt(s.mem, s.pc, code, 1) && HoldsAt(s.mem, s.pc, code, 2);
    var u := LoadByteD2(s);
    assert LowByte(u.d2) == Read(s.mem, s.a0);
    assert LowByte(ReadWord(u.mem, u.pc + 2)) == key;
  }

  /** MOVE.B D2,(A1)+ and DBRA, from the store instruction of a decode loop that begins at `start`. */
  lemma StoreTurn(u: Cpu, start: nat, key: Byte)
    requires Holds(u.mem, start, DecodeLoop(key)) && u.pc == start + 6
    requires start + 12 <= BUS && u.a1 + 1 <= BUS && (start + 12 <= u.a1 || u.a1 + 1 <= start)
    ensures Step(u) == Some(StoreByteD2(u)) && Step(StoreByteD2(u)) == Some(DbraD0(StoreByteD2(u)))
    ensures StoreTarget(u) == {u.a1} && StoreTarget(StoreByteD2(u)) == {}
    ensures var t := DbraD0(StoreByteD2(u));
      && t.mem == Store(u.mem, u.a1, LowByte(u.d2)) && t.d1 == u.d1 && t.a0 == u.a0 && t.a1 == Wrap(u.a1 + 1)
      && (if u.d0 % 0x1_0000 == 0 then t.pc == start + 12 else t.pc == start && t.d0 == u.d0 - 1)
  {
    hide Xor, Store, Read, ReadWord, LowByte;
    var code := DecodeLoop(key);
    assert HoldsAt(u.mem, start, code, 3);
    var v := StoreByteD2(u);
    StoreIsLocal(u.mem, u.a1, LowByte(u.d2));
    HoldsSurvives(u.mem, v.mem, u.a1, 1, start, code);
    assert HoldsAt(v.mem, start, code, 4) && HoldsAt(v.mem, start, code, 5);
  }

  lemma DecodeTurn(s: Cpu, key: Byte)
    requires Holds(s.mem, s.pc, DecodeLoop(key)) && Ready(s, 1, 12)
    ensures Run(s, 4).Some? && Turned(s, Run(s, 4).value, Xor(Read(s.mem, s.a0), key), 12)
    ensures Touched(s, 4) == {s.a1}
  {
    hide StoreTarget, Step, Xor, Store, Read, LowByte, LoadByteD2, EoriByteD2, StoreByteD2, DbraD0, Holds;
    DecodeByte(s, key);
    var u := EoriByteD2(LoadByteD2(s));
    StoreTurn(u, s.pc, key);
    FourSteps(s, LoadByteD2(s), u, StoreByteD2(u), DbraD0(StoreByteD2(u)));
  }

  lemma FourSteps(s: Cpu, u1: Cpu, u2: Cpu, u3: Cpu, u4: Cpu)
    requires Step(s) == Some(u1) && Step(u1) == Some(u2) && Step(u2) == Some(u3) && Step(u3) == Some(u4)
    ensures Run(s, 4) == Some(u4)
    ensures Touched(s, 4) == StoreTarget(s) + StoreTarget(u1) + StoreTarget(u2) + StoreTarget(u3)
  {
    hide Step, StoreTarget;
    assert Run(u3, 1) == Some(u4) && Touched(u3, 1) == StoreTarget(u3);
    assert Run(u2, 2) == Some(u4) && Touched(u2, 2) == StoreTarget(u2) + StoreTarget(u3);
    assert Run(u1, 3) == Some(u4) && Touched(u1, 3) == StoreTarget(u1) + StoreTarget(u2) + StoreTarget(u3);
  }

  /** One turn, whichever loop it is: `key` = None is the copy loop. */
  ghost function LoopCode(key: Option<Byte>): seq<nat> {
    if key.None? then COPY_LOOP else DecodeLoop(key.value)
  }

  ghost function LoopLength(key: Option<Byte>): nat { 2 * |LoopCode(key)| }

  ghost function TurnSteps(key: Option<Byte>): nat { if key.None? then 2 else 4 }

  ghost function KeyOf(key: Option<Byte>): Byte { if key.None? then 0 else key.value }

  lemma Turn(s: Cpu, key: Option<Byte>)
    requires Holds(s.mem, s.pc, LoopCode(key)) && Ready(s, 1, LoopLength(key))
    ensures Run(s, TurnSteps(key)).Some?
    ensures Turned(s, Run(s, TurnSteps(key)).value, Xor(Read(s.mem, s.a0), KeyOf(key)), LoopLength(key))
    ensures Touched(s, TurnSteps(key)) == {s.a1}
  {
    if key.None? {
      CopyTurn(s);
      XorZero(Read(s.mem, s.a0));
    } else {
      DecodeTurn(s, key.value);
    }
  }

  /** First byte, then the rest: two block transfers in a row are one. */
  lemma TransferSplits(s: Cpu, u: Cpu, t: Cpu, count: nat, key: Byte, length: nat)
    requires count >= 1 && Ready(s, count, length)
    requires u.mem == Store(s.mem, s.a1, Xor(Read(s.mem, s.a0), key))
    requires u.pc == s.pc && u.d1 == s.d1 && u.a0 == s.a0 + 1 && u.a1 == s.a1 + 1
    requires Uploaded(u, t, count - 1, key, length)
    ensures Uploaded(s, t, count, key, length)
  {
    hide Xor, Store;
    StoreIsLocal(s.mem, s.a1, Xor(Read(s.mem, s.a0), key));
    assert Read(t.mem, s.a1) == Read(u.mem, s.a1);
    forall i | 0 <= i < count ensures Transferred(s.mem, t.mem, s.a0, s.a1, key, i) {
      if i > 0 {
        assert Transferred(u.mem, t.mem, u.a0, u.a1, key, i - 1);
        assert Read(u.mem, s.a0 + i) == Read(s.mem, s.a0 + i);
      }
    }
  }

  /** The whole loop: the low word of D0 plus one bytes are transferred, and control falls through. */
  lemma {:induction false} LoopUploads(s: Cpu, key: Option<Byte>)
    requires Holds(s.mem, s.pc, LoopCode(key))
    requires Ready(s, s.d0 % 0x1_0000 + 1, LoopLength(key))
    ensures var count := s.d0 % 0x1_0000 + 1;
      && Run(s, TurnSteps(key) * count).Some?
      && Uploaded(s, Run(s, TurnSteps(key) * count).value, count, KeyOf(key), LoopLength(key))
      && Touched(s, TurnSteps(key) * count) == Span(s.a1, count)
    decreases s.d0 % 0x1_0000
  {
    hide Xor, Store, Read, Step, Holds, StoreTarget, Touched, Run, LoopCode, Span, TurnSteps;
    SpanHead(s.a1, 0);
    var left, k := s.d0 % 0x1_0000, TurnSteps(key);
    Turn(s, key);
    var u := Run(s, k).value;
    var v := Xor(Read(s.mem, s.a0), KeyOf(key));
    StoreIsLocal(s.mem, s.a1, v);
    if left == 0 {
      LastByte(s, u, KeyOf(key), LoopLength(key));
    } else {
      HoldsSurvives(s.mem, u.mem, s.a1, 1, s.pc, LoopCode(key));
      assert u.d0 % 0x1_0000 == left - 1;
      LoopUploads(u, key);
      var t := Run(u, k * left).value;
      RunSplits(s, k, k * left);
      TouchedSplits(s, k, k * left);
      SpanHead(s.a1, left);
      assert k * (left + 1) == k + k * left;
      TransferSplits(s, u, t, left + 1, KeyOf(key), LoopLength(key));
    }
  }

  lemma LastByte(s: Cpu, u: Cpu, key: Byte, length: nat)
    requires s.a1 < BUS && u.mem == Store(s.mem, s.a1, Xor(Read(s.mem, s.a0), key))
    requires u.pc == s.pc + length && u.d1 == s.d1
    ensures Uploaded(s, u, 1, key, length)
  {
    hide Xor;
    StoreIsLocal(s.mem, s.a1, Xor(Read(s.mem, s.a0), key));
  }

  // ----- the delay loop ----------------------------------------------------------------------------------

  const DELAY_LOOP: seq<nat> := [0x5381, 0x6600, 0xFFFC]

  /** A counter of `n` spins `n` times (2^32 times for 0) and changes nothing but D1 and Z. */
  lemma {:induction false} DelaySpins(s: Cpu)
    requires Holds(s.mem, s.pc, DELAY_LOOP) && s.pc + 6 <= BUS && s.d1 < 0x1_0000_0000
    ensures var turns := Wrap(s.d1 - 1) + 1;
      Run(s, 2 * turns) == Some(s.(d1 := 0, z := true, pc := s.pc + 6))
    decreases Wrap(s.d1 - 1)
  {
    hide Read, ReadWord;
    assert HoldsAt(s.mem, s.pc, DELAY_LOOP, 0) && HoldsAt(s.mem, s.pc, DELAY_LOOP, 1) && HoldsAt(s.mem, s.pc, DELAY_LOOP, 2);
    var u := SubqD1(s);
    assert Step(s) == Some(u);
    var t := Bne(u);
    assert Step(u) == Some(t);
    assert Run(u, 1) == Some(t);
    assert Run(s, 2) == Some(t);
    if s.d1 != 1 {
      DelaySpins(t);
      var more := 2 * (Wrap(t.d1 - 1) + 1);
      RunSplits(s, 2, more);
    }
  }
}
