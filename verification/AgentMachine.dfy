/**
 * The agent-expression bytecode, twice: a reference semantics written the way the GDB manual
 * (Appendix F, section F.2 "Bytecode Descriptions") lists it, operand bytes, items popped, items
 * pushed, and the mutable `ExpressionState` whose `Step` is proved to compute it. The mutable
 * machine carries on after an error with sentinel values; the reference simply fails.
 */
module AgentMachine {
  import opened Prelude
  import opened Words

  const OP_ADD: byte := 0x02
  const OP_SUB: byte := 0x03
  const OP_MUL: byte := 0x04
  const OP_DIV_SIGNED: byte := 0x05
  const OP_DIV_UNSIGNED: byte := 0x06
  const OP_REM_SIGNED: byte := 0x07
  const OP_REM_UNSIGNED: byte := 0x08
  const OP_LSH: byte := 0x09
  const OP_RSH_SIGNED: byte := 0x0a
  const OP_RSH_UNSIGNED: byte := 0x0b
  const OP_LOG_NOT: byte := 0x0e
  const OP_BIT_AND: byte := 0x0f
  const OP_BIT_OR: byte := 0x10
  const OP_BIT_XOR: byte := 0x11
  const OP_BIT_NOT: byte := 0x12
  const OP_EQUAL: byte := 0x13
  const OP_LESS_SIGNED: byte := 0x14
  const OP_LESS_UNSIGNED: byte := 0x15
  const OP_EXT: byte := 0x16
  const OP_REF8: byte := 0x17
  const OP_REF16: byte := 0x18
  const OP_REF32: byte := 0x19
  const OP_REF64: byte := 0x1a
  const OP_IF_GOTO: byte := 0x20
  const OP_GOTO: byte := 0x21
  const OP_CONST8: byte := 0x22
  const OP_CONST16: byte := 0x23
  const OP_CONST32: byte := 0x24
  const OP_CONST64: byte := 0x25
  const OP_REG: byte := 0x26
  const OP_END: byte := 0x27
  const OP_DUP: byte := 0x28
  const OP_POP: byte := 0x29
  const OP_ZERO_EXT: byte := 0x2a
  const OP_SWAP: byte := 0x2b
  const OP_PICK: byte := 0x32
  const OP_ROT: byte := 0x33

  datatype Register = Register(size: nat, value: nat)

  /**
   * What the machine asks of the tracee, and what the compiler made of operations C++ leaves
   * undefined (signed overflow, out-of-range shift counts): any functions at all.
   */
  datatype Target = Target(
    memory: (nat, nat) -> Option<nat>,
    register: nat -> Option<Register>,
    undefined: (byte, Word, Word) -> Word)

  // ---- reference semantics

  function OperandBytes(op: byte): nat {
    if op == OP_EXT || op == OP_ZERO_EXT || op == OP_PICK || op == OP_CONST8 then 1
    else if op == OP_IF_GOTO || op == OP_GOTO || op == OP_CONST16 || op == OP_REG then 2
    else if op == OP_CONST32 then 4
    else if op == OP_CONST64 then 8
    else 0
  }

  function BigEndian(bytes: seq<byte>): nat {
    if bytes == [] then 0 else BigEndian(bytes[..|bytes| - 1]) * 256 + bytes[|bytes| - 1]
  }

  /** The sentinel `T(-1)` of a failed fetch. */
  function AllOnes(size: nat): nat {
    if size == 0 then 0 else AllOnes(size - 1) * 256 + 255
  }

  predicate IsBinary(op: byte) {
    OP_ADD <= op <= OP_RSH_UNSIGNED || OP_BIT_AND <= op <= OP_BIT_XOR || OP_EQUAL <= op <= OP_LESS_UNSIGNED
  }

  predicate IsLoad(op: byte) { OP_REF8 <= op <= OP_REF64 }

  predicate IsConstant(op: byte) { OP_CONST8 <= op <= OP_CONST64 }

  function LoadSize(op: byte): nat {
    if op == OP_REF8 then 1 else if op == OP_REF16 then 2 else if op == OP_REF32 then 4 else 8
  }

  function BitNot(a: int): int { -a - 1 }

  function Truth(p: bool): Word { if p then 1 else 0 }

  function Checked(t: Target, op: byte, a: Word, b: Word, exact: int): Word {
    if InRange(exact) then exact else t.undefined(op, a, b)
  }

  /** Division rounding toward zero. */
  function Quotient(a: int, b: int): int
    requires b != 0
  {
    if a >= 0 then a / b else -((-a) / b)
  }

  function Remainder(a: int, b: int): int
    requires b != 0
  {
    a - b * Quotient(a, b)
  }

  /** The remainder is as small as it can be and has the dividend's sign. */
  lemma RoundsTowardZero(a: int, b: int)
    requires b != 0
    ensures Remainder(a, b) == if a >= 0 then a % b else -((-a) % b)
  {
    if a < 0 {
      assert -a == b * ((-a) / b) + (-a) % b;
      assert b * Quotient(a, b) == -(b * ((-a) / b));
    }
  }

  function Shift(t: Target, op: byte, a: Word, b: Word): Word {
    if !(0 <= b < 64) then t.undefined(op, a, b)
    else if op == OP_LSH then Signed(a * Pow2(b))
    else if op == OP_RSH_SIGNED then Signed(ShiftRight(a, b))
    else Signed(Unsigned(a) / Pow2(b))
  }

  /** `a b => a op b`; `None` for a zero divisor. */
  function Apply(t: Target, op: byte, a: Word, b: Word): Option<Word> {
    if OP_DIV_SIGNED <= op <= OP_REM_UNSIGNED && b == 0 then None
    else Some(
           if op == OP_ADD then Checked(t, op, a, b, a + b)
           else if op == OP_SUB then Checked(t, op, a, b, a - b)
           else if op == OP_MUL then Checked(t, op, a, b, a * b)
           else if op == OP_DIV_SIGNED then Checked(t, op, a, b, Quotient(a, b))
           else if op == OP_DIV_UNSIGNED then Signed(Unsigned(a) / Divisor(b))
           else if op == OP_REM_SIGNED then
             (if InRange(Quotient(a, b)) then Signed(Remainder(a, b)) else t.undefined(op, a, b))
           else if op == OP_REM_UNSIGNED then Signed(Unsigned(a) % Divisor(b))
           else if OP_LSH <= op <= OP_RSH_UNSIGNED then Shift(t, op, a, b)
           else if op == OP_BIT_AND then Bitwise(Both, a, b)
           else if op == OP_BIT_OR then Bitwise(Either, a, b)
           else if op == OP_BIT_XOR then Bitwise(Differ, a, b)
           else if op == OP_EQUAL then Truth(a == b)
           else if op == OP_LESS_SIGNED then Truth(a < b)
           else Truth(Unsigned(a) < Unsigned(b)))
  }

  function Divisor(b: Word): (r: nat)
    requires b != 0
    ensures r != 0
  {
    Unsigned(b)
  }

  function Pops(op: byte, n: nat): nat {
    if IsBinary(op) || op == OP_SWAP then 2
    else if op == OP_EXT || op == OP_ZERO_EXT then (if n < 64 then 1 else 0)
    else if op in {OP_LOG_NOT, OP_BIT_NOT, OP_DUP, OP_POP, OP_IF_GOTO} || IsLoad(op) then 1
    else if op == OP_PICK then n + 1
    else if op == OP_ROT then 3
    else 0
  }

  /** What replaces the popped items, deepest first. */
  function Effect(t: Target, op: byte, n: nat, s: seq<Word>): Option<seq<Word>>
    requires |s| == Pops(op, n)
  {
    if IsBinary(op) then Replace(Apply(t, op, s[0], s[1]))
    else if op == OP_LOG_NOT then Some([Truth(s[0] == 0)])
    else if op == OP_BIT_NOT then Some([BitNot(s[0])])
    else if op == OP_EXT then (if n == 0 then None else if n >= 64 then Some([]) else Some([SignExtend(s[0], n)]))
    else if op == OP_ZERO_EXT then (if n >= 64 then Some([]) else Some([ZeroExtend(s[0], n)]))
    else if IsLoad(op) then Replace(Load(t, LoadSize(op), s[0]))
    else if op == OP_DUP || op == OP_PICK then Some(s + [s[0]])
    else if op == OP_SWAP then Some([s[1], s[0]])
    else if op == OP_ROT then Some([s[2], s[1], s[0]])
    else if op == OP_POP || op == OP_IF_GOTO || op == OP_GOTO || op == OP_END then Some([])
    else if IsConstant(op) then Some([Signed(n)])
    else if op == OP_REG then Replace(ReadRegister(t, n))
    else None
  }

  function Replace(v: Option<Word>): Option<seq<Word>> {
    match v case None => None case Some(w) => Some([w])
  }

  function Load(t: Target, size: nat, addr: Word): Option<Word> {
    match t.memory(Unsigned(addr), size) case None => None case Some(v) => Some(Signed(v))
  }

  function ReadRegister(t: Target, n: nat): Option<Word> {
    match t.register(n)
    case None => None
    case Some(r) => if r.size in {1, 2, 4, 8} then Some(Signed(r.value)) else None
  }

  datatype Outcome = Fail | Go(pc: nat, stack: seq<Word>) | Done(stack: seq<Word>)

  function JumpOr(op: byte, n: nat, s: seq<Word>, after: nat): nat {
    if op == OP_GOTO || (op == OP_IF_GOTO && s != [] && s[0] != 0) then n else after
  }

  /** One instruction. */
  function Next(t: Target, code: seq<byte>, pc: nat, stack: seq<Word>): Outcome {
    if |code| <= pc || |code| < pc + 1 + OperandBytes(code[pc]) then Fail
    else
      var op, after := code[pc], pc + 1 + OperandBytes(code[pc]);
      Execute(t, op, BigEndian(code[pc + 1..after]), after, stack)
  }

  function Execute(t: Target, op: byte, n: nat, after: nat, stack: seq<Word>): Outcome {
    if |stack| < Pops(op, n) then Fail
    else
      var k := |stack| - Pops(op, n);
      match Effect(t, op, n, stack[k..])
      case None => Fail
      case Some(pushed) =>
        if op == OP_END then Done(stack) else Go(JumpOr(op, n, stack[k..], after), stack[..k] + pushed)
  }

  // ---- the mutable machine

  class ExpressionState {
    const bytecode: seq<byte>
    var stack: seq<Word>
    var pc: nat
    var error: bool
    var end: bool

    constructor (code: seq<byte>)
      ensures bytecode == code && stack == [] && pc == 0 && !error && !end
    {
      bytecode, stack, pc, error, end := code, [], 0, false, false;
    }

    /** After the call the machine stands where `outcome` says; an error leaves the rest open. */
    ghost predicate Reached(outcome: Outcome)
      reads this
    {
      match outcome
      case Fail => error && !end
      case Go(pc', stack') => !error && !end && pc == pc' && stack == stack'
      case Done(stack') => !error && end && stack == stack'
    }

    method Pop() returns (v: Word)
      modifies `stack, `error
      ensures old(stack) == [] ==> error && v == -1 && stack == []
      ensures old(stack) != [] ==> error == old(error) && old(stack) == stack + [v]
    {
      if stack == [] {
        error := true;
        return -1;
      }
      v := stack[|stack| - 1];
      stack := stack[..|stack| - 1];
    }

    method PopAB() returns (a: Word, b: Word)
      modifies `stack, `error
      ensures |old(stack)| < 2 ==> error
      ensures |old(stack)| >= 2 ==> error == old(error) && old(stack) == stack + [a, b]
    {
      b := Pop();
      a := Pop();
    }

    method Push(v: Word)
      modifies `stack
      ensures stack == old(stack) + [v]
    {
      stack := stack + [v];
    }

    method Nonzero(v: Word) returns (r: Word)
      modifies `error
      ensures error == (old(error) || v == 0)
      ensures r != 0 && (v != 0 ==> r == v)
    {
      if v == 0 {
        error := true;
        return 1;
      }
      return v;
    }

    method Fetch(size: nat) returns (v: nat)
      modifies `pc, `error
      ensures |bytecode| < old(pc) + size ==> error && pc == old(pc) && v == AllOnes(size)
      ensures old(pc) + size <= |bytecode| ==>
                error == old(error) && pc == old(pc) + size && v == BigEndian(bytecode[old(pc)..pc])
    {
      v := 0;
      if |bytecode| < pc + size {
        error := true;
        for i := 0 to size
          invariant v == AllOnes(i)
        {
          v := v * 256 + 255;
        }
        return;
      }
      for i := 0 to size
        invariant v == BigEndian(bytecode[pc..pc + i])
      {
        assert bytecode[pc..pc + i + 1][..i] == bytecode[pc..pc + i];
        v := v * 256 + bytecode[pc + i];
      }
      pc := pc + size;
    }

    method LoadStep(t: Target, size: nat)
      modifies `stack, `error
      ensures old(error) ==> error
      ensures !old(error) ==>
                if old(stack) == [] then error
                else match Load(t, size, old(stack)[|old(stack)| - 1])
                     case None => error
                     case Some(w) => !error && stack == old(stack)[..|old(stack)| - 1] + [w]
    {
      var addr := Pop();
      if error {
        return;
      }
      match t.memory(Unsigned(addr), size) {
        case None => error := true;
        case Some(v) => Push(Signed(v));
      }
    }

    method Pick(offset: nat)
      modifies `stack, `error
      ensures |old(stack)| <= offset ==> error
      ensures offset < |old(stack)| ==>
                error == old(error) && stack == old(stack) + [old(stack)[|old(stack)| - 1 - offset]]
    {
      if |stack| <= offset {
        error := true;
        return;
      }
      Push(stack[|stack| - 1 - offset]);
    }

    method Arithmetic(t: Target, op: byte)
      requires IsBinary(op)
      modifies `stack, `error
      ensures |old(stack)| < 2 ==> error
      ensures |old(stack)| >= 2 && !old(error) ==>
                var k := |old(stack)| - 2;
                match Apply(t, op, old(stack)[k], old(stack)[k + 1])
                case None => error
                case Some(w) => !error && stack == old(stack)[..k] + [w]
    {
      hide Signed, Unsigned, Bitwise, Shift, Checked, Quotient, Remainder;
      var a, b := PopAB();
      var d := b;
      if OP_DIV_SIGNED <= op <= OP_REM_UNSIGNED {
        d := Nonzero(b);
      }
      if op == OP_ADD { Push(Checked(t, op, a, b, (a as int) + b)); }
      else if op == OP_SUB { Push(Checked(t, op, a, b, (a as int) - b)); }
      else if op == OP_MUL { Push(Checked(t, op, a, b, (a as int) * b)); }
      else if op == OP_DIV_SIGNED { Push(Checked(t, op, a, d, Quotient(a, d))); }
      else if op == OP_DIV_UNSIGNED { Push(Signed(Unsigned(a) / Divisor(d))); }
      else if op == OP_REM_SIGNED {
        Push(if InRange(Quotient(a, d)) then Signed(Remainder(a, d)) else t.undefined(op, a, d));
      }
      else if op == OP_REM_UNSIGNED { Push(Signed(Unsigned(a) % Divisor(d))); }
      else if OP_LSH <= op <= OP_RSH_UNSIGNED { Push(Shift(t, op, a, b)); }
      else if op == OP_BIT_AND { Push(Bitwise(Both, a, b)); }
      else if op == OP_BIT_OR { Push(Bitwise(Either, a, b)); }
      else if op == OP_BIT_XOR { Push(Bitwise(Differ, a, b)); }
      else if op == OP_EQUAL { Push(Truth(a == b)); }
      else if op == OP_LESS_SIGNED { Push(Truth(a < b)); }
      else { Push(Truth(Unsigned(a) < Unsigned(b))); }
    }

    /** The instructions without operand bytes. */
    method Plain(t: Target, op: byte)
      requires !error && !end && OperandBytes(op) == 0
      modifies `stack, `error, `end
      ensures Reached(Execute(t, op, 0, pc, old(stack)))
    {
      hide Apply, Signed, Unsigned;
      if IsBinary(op) {
        Arithmetic(t, op);
      } else if op == OP_LOG_NOT {
        var a := Pop();
        Push(Truth(a == 0));
      } else if op == OP_BIT_NOT {
        var a := Pop();
        Push(BitNot(a));
      } else if IsLoad(op) {
        LoadStep(t, LoadSize(op));
      } else {
        Shuffle(t, op);
      }
    }

    method Shuffle(t: Target, op: byte)
      requires !error && !end && OperandBytes(op) == 0
      requires !IsBinary(op) && op != OP_LOG_NOT && op != OP_BIT_NOT && !IsLoad(op)
      modifies `stack, `error, `end
      ensures Reached(Execute(t, op, 0, pc, old(stack)))
    {
      if op == OP_DUP {
        Pick(0);
      } else if op == OP_SWAP {
        var a, b := PopAB();
        Push(b);
        Push(a);
      } else if op == OP_POP {
        var _ := Pop();
      } else if op == OP_ROT {
        var c := Pop();
        var b := Pop();
        var a := Pop();
        Push(c);
        Push(b);
        Push(a);
      } else if op == OP_END {
        end := true;
      } else {
        error := true;
      }
    }

    /** What a fetch of the operand and the rest of the instruction amount to. */
    ghost function Fetched(t: Target, op: byte, at: nat, s: seq<Word>): Outcome
    {
      var after := at + OperandBytes(op);
      if |bytecode| < after then Fail else Execute(t, op, BigEndian(bytecode[at..after]), after, s)
    }

    method Extension(t: Target, op: byte)
      requires !error && !end && (op == OP_EXT || op == OP_ZERO_EXT)
      modifies `stack, `pc, `error
      ensures Reached(Fetched(t, op, old(pc), old(stack)))
    {
      hide SignExtend, ZeroExtend, BigEndian;
      var n := Fetch(1);
      if op == OP_EXT && n == 0 {
        error := true;
        n := 1;
      }
      if n >= 64 {
        return;
      }
      var a := Pop();
      Push(if op == OP_EXT then SignExtend(a, n) else ZeroExtend(a, n));
    }

    method Jump(t: Target, op: byte)
      requires !error && !end && (op == OP_IF_GOTO || op == OP_GOTO)
      modifies `stack, `pc, `error
      ensures Reached(Fetched(t, op, old(pc), old(stack)))
    {
      hide BigEndian;
      var offset := Fetch(2);
      if op == OP_GOTO {
        pc := offset;
        return;
      }
      var a := Pop();
      if a != 0 {
        pc := offset;
      }
    }

    method Operand(t: Target, op: byte)
      requires !error && !end && (op == OP_PICK || IsConstant(op) || op == OP_REG)
      modifies `stack, `pc, `error
      ensures Reached(Fetched(t, op, old(pc), old(stack)))
    {
      hide BigEndian, Signed;
      var n := Fetch(OperandBytes(op));
      if op == OP_PICK {
        Pick(n);
      } else if op == OP_REG {
        match t.register(n) {
          case None => error := true;
          case Some(r) =>
            if r.size in {1, 2, 4, 8} {
              Push(Signed(r.value));
            } else {
              error := true;
            }
        }
      } else {
        Push(Signed(n));
      }
    }

    /** The mutable step computes the reference step. */
    method Step(t: Target)
      requires !error && !end
      modifies `stack, `pc, `error, `end
      ensures Reached(Next(t, bytecode, old(pc), old(stack)))
    {
      hide Execute, BigEndian;
      FirstByte(t, bytecode, pc, stack);
      var op := Fetch(1);
      if op == OP_EXT || op == OP_ZERO_EXT {
        Extension(t, op);
      } else if op == OP_IF_GOTO || op == OP_GOTO {
        Jump(t, op);
      } else if op == OP_PICK || IsConstant(op) || op == OP_REG {
        Operand(t, op);
      } else if op == 0xFF {
        error := true;
      } else {
        Plain(t, op);
      }
    }
  }

  lemma FirstByte(t: Target, code: seq<byte>, pc: nat, stack: seq<Word>)
    ensures pc < |code| ==> BigEndian(code[pc..pc + 1]) == code[pc] && BigEndian(code[pc + 1..pc + 1]) == 0
    ensures AllOnes(1) == 0xFF
    ensures Execute(t, 0xFF, 0, pc + 1, stack) == Fail
  {
    if pc < |code| {
      assert code[pc..pc + 1] == [code[pc]];
      assert code[pc..pc + 1][..0] == [];
      assert code[pc + 1..pc + 1] == [];
    }
  }
}
