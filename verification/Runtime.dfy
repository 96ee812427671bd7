/** Running a chunk: piRunSvmChunk of lib/svm/svm.c, and a whole expression from its writers to its result. */
module Runtime {
  import opened Values
  import opened Bytecode
  import opened Svm
  import opened Gc

  /** piRunSvmChunk: run on a fresh stack, which is the collector's VM stack until the chunk returns. An error leaves
      through the error handler, before the stack is taken back. */
  method RunSvmChunk(env: Collector, chunk: Chunk) returns (outcome: Outcome)
    requires env.Valid() && chunk.Valid() && chunk.count + 4 < CODE_MAX
    modifies env`vmStack
    ensures env.Valid() && outcome == Run(chunk.Code(), chunk.Pool(), 0, [])
    ensures if outcome.Exited? then env.vmStack == null else env.vmStack != null && fresh(env.vmStack)
  {
    hide Run, Collector.Valid;
    var evalStack := new ValueArray(PI_DEFAULT_ARRAY_CAP);
    env.SetVmStack(evalStack);
    outcome := SvmLoop(chunk, evalStack);
    if outcome.Exited? { env.SetVmStack(null); }
  }

  /** A new chunk that returns the value of an expression. */
  method Compile(e: Expr) returns (chunk: Chunk)
    requires |Postfix(e, 0)| + 8 < CODE_MAX && |Consts(e)| <= 256
    ensures chunk.Valid() && chunk.Code() == Postfix(e, 0) + [OP_RET] && chunk.Pool() == Consts(e)
    ensures fresh(chunk) && chunk.count == |Postfix(e, 0)| + 1
  {
    hide Postfix, Consts;
    chunk := new Chunk();
    Emit(chunk, e);
    chunk.WriteOp(OP_RET);
  }

  /** Emit an expression, return from it, and run: the result is the value of the expression modulo 2^32, read as a
      signed integer, or signed overflow if one of its signed operations overflows, whatever the number of times the
      buffers had to grow. */
  method Evaluate(env: Collector, e: Expr) returns (outcome: Outcome)
    requires env.Valid() && |Postfix(e, 0)| + 8 < CODE_MAX && |Consts(e)| <= 256
    modifies env`vmStack
    ensures env.Valid() && (!Overflows(e) ==> env.vmStack == null)
    ensures outcome == if Overflows(e) then Failed(Overflow) else Exited(Signed32(Meaning(e)), [])
  {
    hide Run, Postfix, Consts, Meaning, Overflows, Signed32, Collector.Valid;
    var chunk := Compile(e);
    assert chunk.Pool()[0..0 + |Consts(e)|] == Consts(e);
    CompiledProgram(e, chunk.Pool(), []);
    outcome := RunSvmChunk(env, chunk);
  }
}
