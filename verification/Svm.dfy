/** The growing buffers and the loop of the stack virtual machine: lib/svm/chunk.c, lib/svm/svm.c and the value arrays
    of include/pi/runtime/value.h. */
module Svm {
  import opened Bits
  import opened Values
  import opened Bytecode

  const PI_INLINE_STACK_SIZE := 4
  const PI_DEFAULT_ARRAY_CAP := 8

  /** Code capacities quadruple in 32 bits. */
  const CODE_MAX := 0x4000_0000

  /** PiValueArray. */
  class ValueArray {
    const inlineBuffer: array<nat>
    var data: array<nat>
    var count: nat
    var cap: nat

    ghost function Repr(): set<object>
      reads this
    {
      {this, inlineBuffer, data}
    }

    ghost predicate Valid()
      reads this
    {
      && inlineBuffer.Length == PI_INLINE_STACK_SIZE
      && data.Length == cap && count <= cap
    }

    ghost function Contents(): seq<nat>
      requires Valid()
      reads this, data
    {
      data[..count]
    }

    /** piInitValueArray. */
    constructor (initCap: nat)
      ensures Valid() && Contents() == [] && fresh(Repr())
      ensures cap == if initCap > PI_INLINE_STACK_SIZE then initCap else PI_INLINE_STACK_SIZE
    {
      var inline := new nat[PI_INLINE_STACK_SIZE];
      inlineBuffer, data := inline, inline;
      count, cap := 0, PI_INLINE_STACK_SIZE;
      if initCap > PI_INLINE_STACK_SIZE {
        data := new nat[initCap](_ => 0);
        cap := initCap;
      }
    }

    /** piValueArrayResize: a first buffer copies the inline one, which must fit; later buffers are reallocated. */
    method Resize(newCap: nat)
      requires Valid() && (data == inlineBuffer ==> count <= newCap) && (newCap == 0 ==> count == 0)
      modifies this
      ensures Valid() && cap == newCap && fresh(data)
      ensures Contents() == if old(count) > newCap then old(Contents())[..newCap - 1] else old(Contents())
    {
      var oldCap := cap;
      var newData := new nat[newCap](_ => 0);
      var kept := if data == inlineBuffer then count else if oldCap < newCap then oldCap else newCap;
      var i := 0;
      while i < kept && i < oldCap
        invariant 0 <= i <= kept && unchanged(this) && newData[..i] == data[..i]
      {
        newData[i] := data[i];
        i := i + 1;
      }
      assert old(Contents()) == data[..count];
      data := newData;
      if count > newCap { count := newCap - 1; }
      cap := newCap;
      assert forall j :: 0 <= j < count ==> data[j] == newData[..i][j];
    }

    /** piValueArrayPush: the index of the new item. */
    method Push(value: nat) returns (index: nat)
      requires Valid() && (count == cap ==> cap < 0x8000_0000)
      modifies this, data
      ensures Valid() && Contents() == old(Contents()) + [value]
      ensures index == old(count)
      ensures data == old(data) || fresh(data)
      ensures cap ==
        if old(count) < old(cap) then old(cap) else if old(cap) == 0 then PI_DEFAULT_ARRAY_CAP else 2 * old(cap)
    {
      if 1 > cap - count { Resize(if cap != 0 then cap * 2 else PI_DEFAULT_ARRAY_CAP); }
      data[count] := value;
      index := count;
      count := count + 1;
    }

    method Top() returns (value: nat)
      requires Valid() && count > 0
      ensures value == Contents()[count - 1]
    {
      value := data[count - 1];
    }

    method Pop() returns (value: nat)
      requires Valid() && count > 0
      modifies this`count
      ensures Valid() && Contents() == old(Contents())[..old(count) - 1] && value == old(Contents())[old(count) - 1]
    {
      count := count - 1;
      value := data[count];
    }

    method Get(index: nat) returns (value: nat)
      requires Valid() && index < count
      ensures value == Contents()[index]
    {
      value := data[index];
    }
  }

  /** The bytes emitted for a line end at `offset`. */
  datatype LineInfo = LineInfo(text: string, line: nat, offset: nat)

  /** Line ends never go back, and the newest is the end of the code. */
  ghost predicate Ends(lines: seq<LineInfo>, count: nat) {
    && (forall i, j :: 0 <= i < j < |lines| ==> lines[i].offset <= lines[j].offset)
    && (lines != [] ==> lines[|lines| - 1].offset == count)
  }

  /** The newest line end, moved by n bytes. */
  ghost function Moved(lines: seq<LineInfo>, n: nat): seq<LineInfo> {
    if lines == [] then [] else
      var last := lines[|lines| - 1];
      lines[|lines| - 1 := last.(offset := last.offset + n)]
  }

  /** PiSvmChunk. The newest line info is the last one. */
  class Chunk {
    var code: array<byte>
    var count: nat
    var cap: nat
    const data: ValueArray
    var lines: seq<LineInfo>

    ghost function Repr(): set<object>
      reads this, data
    {
      {this, code} + data.Repr()
    }

    ghost predicate Valid()
      reads this, data
    {
      && code.Length == cap && count <= cap && data.Valid() && Ends(lines, count)
      && (cap == 0 || cap >= 8) && cap <= 4 * count + 8
      && code as object !in data.Repr() && this as object !in data.Repr()
    }

    ghost function Code(): seq<byte>
      requires Valid()
      reads this, data, code
    {
      code[..count]
    }

    ghost function Pool(): seq<nat>
      requires Valid()
      reads this, data, data.data
    {
      data.Contents()
    }

    /** piInitSvmChunk. */
    constructor ()
      ensures Valid() && Code() == [] && Pool() == [] && lines == [] && fresh(Repr())
      ensures cap == 0 && data.cap == PI_INLINE_STACK_SIZE
    {
      code := new byte[0];
      count, cap, lines := 0, 0, [];
      data := new ValueArray(0);
    }

    /** piSvmChunkPushLine. */
    method PushLine(lineNumber: nat, text: string)
      requires Valid()
      modifies this`lines
      ensures Valid() && lines == old(lines) + [LineInfo(text, lineNumber, count)]
    {
      lines := lines + [LineInfo(text, lineNumber, count)];
    }

    /** pi_SvmChunkGrow. */
    method Grow()
      requires Valid() && cap < CODE_MAX && cap <= count + 1
      modifies this`code, this`cap
      ensures Valid() && fresh(code) && Code() == old(Code()) && cap == if old(cap) < 8 then 8 else 4 * old(cap)
    {
      var newCap := if cap < 8 then 8 else cap * 4;
      var newCode := new byte[newCap](_ => 0);
      var i := 0;
      while i < cap
        invariant 0 <= i <= cap && unchanged(this) && newCode[..i] == code[..i]
      {
        newCode[i] := code[i];
        i := i + 1;
      }
      assert forall j :: 0 <= j < count ==> newCode[j] == newCode[..i][j];
      code, cap := newCode, newCap;
    }

    method MoveLine(n: nat)
      modifies this`lines
      ensures lines == Moved(old(lines), n)
    {
      if lines != [] {
        var last := lines[|lines| - 1];
        lines := lines[|lines| - 1 := last.(offset := last.offset + n)];
      }
    }

    /** piSvmChunkWriteOp. */
    method WriteOp(opcode: byte)
      requires Valid() && (count + 1 > cap ==> cap < CODE_MAX)
      modifies this`code, this`count, this`cap, this`lines, code
      ensures Valid() && Code() == old(Code()) + [opcode]
      ensures lines == Moved(old(lines), 1)
      ensures code == old(code) || fresh(code)
    {
      if 1 > cap - count { Grow(); }
      code[count] := opcode;
      count := count + 1;
      MoveLine(1);
    }

    /** piSvmChunkWriteShortOp. */
    method WriteShortOp(opcode: byte, arg: byte)
      requires Valid() && (count + 2 > cap ==> cap < CODE_MAX)
      modifies this`code, this`count, this`cap, this`lines, code
      ensures Valid() && Code() == old(Code()) + [opcode, arg]
      ensures lines == Moved(old(lines), 2)
      ensures code == old(code) || fresh(code)
    {
      if 2 > cap - count { Grow(); }
      code[count] := opcode;
      count := count + 1;
      code[count] := arg;
      count := count + 1;
      MoveLine(2);
    }

    /** piSvmChunkAddConst. */
    method AddConst(value: nat) returns (index: nat)
      requires Valid() && (data.count == data.cap ==> data.cap < 0x8000_0000)
      modifies data, data.data
      ensures Valid() && Pool() == old(Pool()) + [value] && index == |old(Pool())|
      ensures data.data == old(data.data) || fresh(data.data)
    {
      index := data.Push(value);
    }

    /** piSvmChunkWriteLdC: the index of the constant is cut to one byte. */
    method WriteLdC(value: nat)
      requires Valid() && (count + 2 > cap ==> cap < CODE_MAX)
      requires data.count == data.cap ==> data.cap < 0x8000_0000
      modifies this`code, this`count, this`cap, this`lines, code, data, data.data
      ensures Valid() && Pool() == old(Pool()) + [value]
      ensures Code() == old(Code()) + [OP_LDC, |old(Pool())| % 256]
      ensures lines == Moved(old(lines), 2)
      ensures (code == old(code) || fresh(code)) && (data.data == old(data.data) || fresh(data.data))
      ensures data.cap == old(data.cap) || data.cap <= 2 * old(data.count) + 8
    {
      hide Ends;
      var index := data.Push(value);
      WriteShortOp(OP_LDC, index % 256);
    }

    /** piSvmChunkWriteLdI. */
    method WriteLdI(immediate: byte)
      requires Valid() && (count + 2 > cap ==> cap < CODE_MAX)
      modifies this`code, this`count, this`cap, this`lines, code
      ensures Valid() && Code() == old(Code()) + [OP_LDI, immediate]
      ensures lines == Moved(old(lines), 2)
      ensures code == old(code) || fresh(code)
    {
      WriteShortOp(OP_LDI, immediate);
    }
  }

  /** Emit the postfix code of an expression. */
  method Emit(chunk: Chunk, e: Expr)
    requires chunk.Valid() && chunk.count + |Postfix(e, chunk.data.count)| < CODE_MAX
    requires chunk.data.count + |Consts(e)| < CODE_MAX && chunk.data.cap <= 2 * chunk.data.count + 8
    modifies chunk`code, chunk`count, chunk`cap, chunk`lines, chunk.code, chunk.data, chunk.data.data
    ensures chunk.Valid() && chunk.Code() == old(chunk.Code()) + Postfix(e, old(chunk.data.count))
    ensures chunk.Pool() == old(chunk.Pool()) + Consts(e) && chunk.data.cap <= 2 * chunk.data.count + 8
    ensures chunk.code == old(chunk.code) || fresh(chunk.code)
    ensures chunk.data.data == old(chunk.data.data) || fresh(chunk.data.data)
    decreases e, 1
  {
    hide Ends, Moved, OpCode, PrefixCode, PiUInt, PiSInt;
    match e
    case Imm(b) => chunk.WriteLdI(b);
    case Const(u) => chunk.WriteLdC(PiUInt(u));
    case SignedConst(i) => chunk.WriteLdC(PiSInt(i));
    case Un(op, a) =>
      ghost var code := chunk.Code();
      Emit(chunk, a);
      chunk.WriteOp(PrefixCode(op));
      assert code + Postfix(a, old(chunk.data.count)) + [PrefixCode(op)] ==
             code + (Postfix(a, old(chunk.data.count)) + [PrefixCode(op)]);
    case Bin(op, l, r) => EmitBin(chunk, op, l, r);
    case Twice(op, a) => EmitTwice(chunk, op, a);
    case First(l, r, printed) => EmitFirst(chunk, l, r, printed);
  }

  method EmitTwice(chunk: Chunk, op: Operator, a: Expr)
    requires chunk.Valid() && chunk.count + |Postfix(Twice(op, a), chunk.data.count)| < CODE_MAX
    requires chunk.data.count + |Consts(a)| < CODE_MAX && chunk.data.cap <= 2 * chunk.data.count + 8
    modifies chunk`code, chunk`count, chunk`cap, chunk`lines, chunk.code, chunk.data, chunk.data.data
    ensures chunk.Valid() && chunk.Code() == old(chunk.Code()) + Postfix(Twice(op, a), old(chunk.data.count))
    ensures chunk.Pool() == old(chunk.Pool()) + Consts(a) && chunk.data.cap <= 2 * chunk.data.count + 8
    ensures chunk.code == old(chunk.code) || fresh(chunk.code)
    ensures chunk.data.data == old(chunk.data.data) || fresh(chunk.data.data)
    decreases Twice(op, a), 0
  {
    hide Ends, Moved, OpCode, Consts, Postfix;
    ghost var k, code := chunk.data.count, chunk.Code();
    TwiceOf(op, a, k);
    Emit(chunk, a);
    chunk.WriteOp(OP_DUP);
    chunk.WriteOp(OpCode(op));
    assert code + Postfix(a, k) + [OP_DUP] + [OpCode(op)] == code + (Postfix(a, k) + [OP_DUP, OpCode(op)]);
  }

  lemma TwiceOf(op: Operator, a: Expr, k: nat)
    ensures Postfix(Twice(op, a), k) == Postfix(a, k) + [OP_DUP, OpCode(op)]
  {
  }

  method EmitBin(chunk: Chunk, op: Operator, l: Expr, r: Expr)
    requires chunk.Valid() && chunk.count + |Postfix(Bin(op, l, r), chunk.data.count)| < CODE_MAX
    requires chunk.data.count + |Consts(l)| + |Consts(r)| < CODE_MAX && chunk.data.cap <= 2 * chunk.data.count + 8
    modifies chunk`code, chunk`count, chunk`cap, chunk`lines, chunk.code, chunk.data, chunk.data.data
    ensures chunk.Valid() && chunk.Code() == old(chunk.Code()) + Postfix(Bin(op, l, r), old(chunk.data.count))
    ensures chunk.Pool() == old(chunk.Pool()) + (Consts(l) + Consts(r)) && chunk.data.cap <= 2 * chunk.data.count + 8
    ensures chunk.code == old(chunk.code) || fresh(chunk.code)
    ensures chunk.data.data == old(chunk.data.data) || fresh(chunk.data.data)
    decreases Bin(op, l, r), 0
  {
    hide Ends, Moved, OpCode, PiUInt, Postfix, Consts;
    ghost var k := chunk.data.count;
    PostfixOf(op, l, r, k);
    ghost var code, pool := chunk.Code(), chunk.Pool();
    Emit(chunk, l);
    Emit(chunk, r);
    chunk.WriteOp(OpCode(op));
    assert chunk.Code() == code + Postfix(l, k) + Postfix(r, k + |Consts(l)|) + [OpCode(op)];
    Regroup(code, Postfix(l, k), Postfix(r, k + |Consts(l)|), [OpCode(op)]);
    assert pool + Consts(l) + Consts(r) == pool + (Consts(l) + Consts(r));
  }

  method EmitFirst(chunk: Chunk, l: Expr, r: Expr, printed: bool)
    requires chunk.Valid() && chunk.count + |Postfix(First(l, r, printed), chunk.data.count)| < CODE_MAX
    requires chunk.data.count + |Consts(l)| + |Consts(r)| < CODE_MAX && chunk.data.cap <= 2 * chunk.data.count + 8
    modifies chunk`code, chunk`count, chunk`cap, chunk`lines, chunk.code, chunk.data, chunk.data.data
    ensures chunk.Valid() && chunk.Code() == old(chunk.Code()) + Postfix(First(l, r, printed), old(chunk.data.count))
    ensures chunk.Pool() == old(chunk.Pool()) + (Consts(l) + Consts(r)) && chunk.data.cap <= 2 * chunk.data.count + 8
    ensures chunk.code == old(chunk.code) || fresh(chunk.code)
    ensures chunk.data.data == old(chunk.data.data) || fresh(chunk.data.data)
    decreases First(l, r, printed), 0
  {
    hide Ends, Moved, DropCode, PiUInt, Postfix, Consts;
    ghost var k := chunk.data.count;
    FirstOf(l, r, printed, k, []);
    ghost var code, pool := chunk.Code(), chunk.Pool();
    Emit(chunk, l);
    Emit(chunk, r);
    chunk.WriteOp(DropCode(printed));
    assert chunk.Code() == code + Postfix(l, k) + Postfix(r, k + |Consts(l)|) + [DropCode(printed)];
    Regroup(code, Postfix(l, k), Postfix(r, k + |Consts(l)|), [DropCode(printed)]);
    assert pool + Consts(l) + Consts(r) == pool + (Consts(l) + Consts(r));
  }

  lemma Regroup(a: seq<byte>, p: seq<byte>, q: seq<byte>, o: seq<byte>)
    ensures a + p + q + o == a + (p + q + o)
  {
  }

  // ---- The loop ----

  datatype Turned = Moves(ip: nat) | Stops(outcome: Outcome)

  /** The stack and the result of one turn are those of Bytecode.Turn. */
  ghost predicate Agrees(step: Step, turned: Turned, stack: seq<nat>) {
    match step
    case Next(ip, s) => turned == Moves(ip) && stack == s
    case Done(o) => turned == Stops(o) && (o.Exited? ==> stack == o.stack)
  }

  method PushAns(evalStack: ValueArray, ip: nat, ans: Answer) returns (turned: Turned)
    requires evalStack.Valid() && evalStack.cap < 0x8000_0000
    modifies evalStack, evalStack.data
    ensures evalStack.Valid() && (evalStack.data == old(evalStack.data) || fresh(evalStack.data))
    ensures evalStack.cap == old(evalStack.cap) || evalStack.cap <= 2 * old(evalStack.count) + 8
    ensures Agrees(Push(ip, old(evalStack.Contents()), ans), turned, evalStack.Contents())
  {
    if !ans.Value? { return Stops(Failed(ans)); }
    var _ := evalStack.Push(ans.value);
    return Moves(ip);
  }

  /** BNOT to BXOR, NOT to REM: operands off the stack, answer onto it. */
  method Operate(evalStack: ValueArray, op: byte, ip: nat) returns (turned: Turned)
    requires evalStack.Valid() && evalStack.cap < 0x8000_0000 && (IsUnary(op) || IsBinary(op))
    modifies evalStack, evalStack.data
    ensures evalStack.Valid() && (evalStack.data == old(evalStack.data) || fresh(evalStack.data))
    ensures evalStack.cap == old(evalStack.cap) || evalStack.cap <= 2 * old(evalStack.count) + 8
    ensures Agrees(Operation(op, ip, old(evalStack.Contents())), turned, evalStack.Contents())
  {
    hide Unary, Binary, Push;
    if evalStack.count == 0 { return Stops(Underflow); }
    if IsUnary(op) {
      var val := evalStack.Pop();
      turned := PushAns(evalStack, ip, Unary(op, val));
    } else {
      var rhs := evalStack.Pop();
      if evalStack.count == 0 { return Stops(Underflow); }
      var lhs := evalStack.Pop();
      assert evalStack.Contents() == old(evalStack.Contents())[..old(evalStack.count) - 2];
      turned := PushAns(evalStack, ip, Binary(op, lhs, rhs));
    }
  }

  /** LDC and LDI. */
  method LoadValue(chunk: Chunk, evalStack: ValueArray, op: byte, ip: nat) returns (turned: Turned)
    requires chunk.Valid() && evalStack.Valid() && evalStack.Repr() !! chunk.Repr()
    requires evalStack.cap < 0x8000_0000 && (op == OP_LDC || op == OP_LDI)
    modifies evalStack, evalStack.data
    ensures chunk.Valid() && evalStack.Valid() && (evalStack.data == old(evalStack.data) || fresh(evalStack.data))
    ensures evalStack.cap == old(evalStack.cap) || evalStack.cap <= 2 * old(evalStack.count) + 8
    ensures Agrees(Load(chunk.Code(), chunk.Pool(), op, ip, old(evalStack.Contents())), turned, evalStack.Contents())
  {
    hide PiUInt, Ends;
    if ip >= chunk.count { return Stops(PastEnd); }
    var operand := chunk.code[ip];
    if op == OP_LDI {
      var _ := evalStack.Push(PiUInt(operand));
    } else {
      if operand >= chunk.data.count { return Stops(NoSuchConstant); }
      var k := chunk.data.Get(operand);
      var _ := evalStack.Push(k);
    }
    return Moves(ip + 1);
  }

  /** POP, OUT and DUP. */
  method ShuffleStack(evalStack: ValueArray, op: byte, ip: nat) returns (turned: Turned)
    requires evalStack.Valid() && evalStack.cap < 0x8000_0000
    modifies evalStack, evalStack.data
    ensures evalStack.Valid() && (evalStack.data == old(evalStack.data) || fresh(evalStack.data))
    ensures evalStack.cap == old(evalStack.cap) || evalStack.cap <= 2 * old(evalStack.count) + 8
    ensures Agrees(Shuffle(op, ip, old(evalStack.Contents())), turned, evalStack.Contents())
  {
    if evalStack.count == 0 { return Stops(Underflow); }
    if op == OP_DUP {
      var top := evalStack.Top();
      var _ := evalStack.Push(top);
    } else {
      var _ := evalStack.Pop();
    }
    return Moves(ip);
  }

  /** RET. */
  method Ret(evalStack: ValueArray) returns (outcome: Outcome)
    requires evalStack.Valid()
    modifies evalStack`count
    ensures evalStack.Valid() && evalStack.count <= old(evalStack.count)
    ensures var s, n := old(evalStack.Contents()), |old(evalStack.Contents())|;
      && outcome == (if n == 0 then Exited(EXIT_SUCCESS, s) else Return(s[n - 1], s[..n - 1]))
      && (outcome.Exited? ==> evalStack.Contents() == outcome.stack)
  {
    ghost var s := evalStack.Contents();
    if evalStack.count == 0 { return Exited(EXIT_SUCCESS, []); }
    var val := evalStack.Pop();
    outcome := Return(val, evalStack.data[..evalStack.count]);
  }

  /** Fetch, decode and execute one instruction. */
  method Execute(chunk: Chunk, evalStack: ValueArray, start: nat) returns (turned: Turned)
    requires chunk.Valid() && evalStack.Valid() && evalStack.Repr() !! chunk.Repr()
    requires start < chunk.count && evalStack.cap < 0x8000_0000
    modifies evalStack, evalStack.data
    ensures chunk.Valid() && evalStack.Valid() && (evalStack.data == old(evalStack.data) || fresh(evalStack.data))
    ensures evalStack.cap == old(evalStack.cap) || evalStack.cap <= 2 * old(evalStack.count) + 8
    ensures Agrees(Turn(chunk.Code(), chunk.Pool(), start, old(evalStack.Contents())), turned, evalStack.Contents())
  {
    hide Load, Shuffle, Operation, Return, Ends, IsUnary, IsBinary;
    var ip := start;
    var op := chunk.code[ip];
    ip := ip + 1;
    if op == OP_NOP || op == OP_EQ {
      return Moves(ip);
    } else if op == OP_EXIT {
      if ip >= chunk.count { return Stops(PastEnd); }
      return Stops(Exited(chunk.code[ip], evalStack.data[..evalStack.count]));
    } else if op == OP_RET {
      var outcome := Ret(evalStack);
      return Stops(outcome);
    } else if op == OP_LDC || op == OP_LDI {
      turned := LoadValue(chunk, evalStack, op, ip);
    } else if op == OP_POP || op == OP_OUT || op == OP_DUP {
      turned := ShuffleStack(evalStack, op, ip);
    } else if IsUnary(op) || IsBinary(op) {
      turned := Operate(evalStack, op, ip);
    } else {
      return Stops(Exited(EXIT_FAILURE, evalStack.data[..evalStack.count]));
    }
  }

  lemma TurnAdvances(code: seq<byte>, pool: seq<nat>, ip: nat, stack: seq<nat>)
    requires ip < |code|
    ensures match Turn(code, pool, ip, stack)
      case Next(ip', stack') => ip < ip' <= |code| && |stack'| <= |stack| + 1
      case Done(_) => true
  {
    hide Unary, Binary, Return, PiUInt;
  }

  /** pi_SvmLoop. The stack has room to grow by one value per instruction. */
  method SvmLoop(chunk: Chunk, evalStack: ValueArray) returns (outcome: Outcome)
    requires chunk.Valid() && evalStack.Valid() && evalStack.Repr() !! chunk.Repr()
    requires chunk.count + evalStack.count + 4 < CODE_MAX && evalStack.cap <= 2 * evalStack.count + 8
    modifies evalStack, evalStack.data
    ensures outcome == Run(chunk.Code(), chunk.Pool(), 0, old(evalStack.Contents()))
    ensures outcome.Exited? ==> evalStack.Valid() && evalStack.Contents() == outcome.stack
  {
    hide Turn;
    var ip := 0;
    ghost var s0 := evalStack.Contents();
    while ip < chunk.count
      invariant chunk.Valid() && evalStack.Valid() && evalStack.Repr() !! chunk.Repr()
      invariant evalStack.data == old(evalStack.data) || fresh(evalStack.data)
      invariant chunk.count + old(evalStack.count) + 4 < CODE_MAX
      invariant evalStack.count <= old(evalStack.count) + ip && ip <= chunk.count
      invariant evalStack.cap <= 2 * (old(evalStack.count) + ip) + 8
      invariant Run(chunk.Code(), chunk.Pool(), ip, evalStack.Contents()) == Run(chunk.Code(), chunk.Pool(), 0, s0)
      decreases chunk.count - ip
    {
      TurnAdvances(chunk.Code(), chunk.Pool(), ip, evalStack.Contents());
      var turned := Execute(chunk, evalStack, ip);
      match turned
      case Moves(next) => ip := next;
      case Stops(o) => return o;
    }
    return PastEnd;
  }
}
