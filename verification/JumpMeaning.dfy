// What tests and jumps do when they are executed (lsh/lua/src/lvm.c), and what patching a
// list of jumps means for them.
module JumpMeaning {
  import opened JumpLists

  // Lua values as far as tests can tell them apart.
  datatype Value = Nil | False | Other(id: nat)

  predicate IsFalse(v: Value) {
    v == Nil || v == False
  }

  type Registers = map<int, Value>

  // Where execution is, and the registers.
  datatype State = State(pc: int, regs: Registers)

  // OP_TEST and OP_TESTSET at p with the jump that follows: either the jump is skipped or it
  // is taken, by OP_TESTSET with the value it tested in its register.
  function RunTest(code: Code, p: int, regs: Registers): State
    requires 0 <= p && IsJump(code, p + 1) && code[p].ABC?
    requires code[p].op == OP_TESTSET ==> code[p].b in regs
    requires code[p].op == OP_TEST ==> code[p].a in regs
    requires code[p].op == OP_TEST || code[p].op == OP_TESTSET
  {
    var i := code[p];
    var tested := regs[if i.op == OP_TESTSET then i.b else i.a];
    if (if i.c != 0 then IsFalse(tested) else !IsFalse(tested)) then State(p + 2, regs)
    else if i.op == OP_TESTSET then State(p + 2 + code[p + 1].sbx, regs[i.a := tested])
    else State(p + 2 + code[p + 1].sbx, regs)
  }

  // OP_JMP
  function RunJump(code: Code, p: int, regs: Registers): State
    requires IsJump(code, p)
  {
    State(p + 1 + code[p].sbx, regs)
  }

  // A listed jump behind a TESTSET, patched: the test decides as before. When it does not skip
  // the jump, execution goes on at vtarget with the tested value in reg, if one is given.
  lemma ValueTestRuns(code: Code, code': Code, js: seq<int>, vtarget: int, reg: int, dtarget: int, j: int,
                      regs: Registers)
    requires Patched(code, code', js, vtarget, reg, dtarget) && j in js && j >= 1 && IsJump(code, j)
    requires code[j - 1].ABC? && code[j - 1].op == OP_TESTSET && code[j - 1].b in regs
    ensures IsJump(code', j) && code'[j - 1].ABC?
    ensures code'[j - 1].op == OP_TESTSET || code'[j - 1].op == OP_TEST
    ensures code'[j - 1].op == OP_TESTSET ==> code'[j - 1].b in regs
    ensures code'[j - 1].op == OP_TEST ==> code'[j - 1].a in regs
    ensures
      var tested := regs[code[j - 1].b];
      RunTest(code', j - 1, regs) ==
        if (if code[j - 1].c != 0 then IsFalse(tested) else !IsFalse(tested)) then State(j + 1, regs)
        else State(vtarget, if reg == NO_REG then regs else regs[reg := tested])
  {
    var tested := regs[code[j - 1].b];
    assert code'[j - 1] == PatchedAt(code, js, vtarget, reg, dtarget, j - 1);
    assert code'[j] == PatchedAt(code, js, vtarget, reg, dtarget, j);
    if reg == code[j - 1].b { assert regs[reg := tested] == regs; }
  }

  // A listed jump behind anything else, patched: what stands before it is unchanged, and the
  // jump leads to dtarget.
  lemma OtherJumpRuns(code: Code, code': Code, js: seq<int>, vtarget: int, reg: int, dtarget: int, j: int,
                      regs: Registers)
    requires Patched(code, code', js, vtarget, reg, dtarget) && j in js && IsJump(code, j)
    requires j == 0 || !(code[j - 1].ABC? && code[j - 1].op == OP_TESTSET)
    ensures IsJump(code', j) && RunJump(code', j, regs) == State(dtarget, regs)
    ensures j >= 1 && code[j - 1].ABC? ==> code'[j - 1] == code[j - 1]
  {
    assert code'[j] == PatchedAt(code, js, vtarget, reg, dtarget, j);
    if j >= 1 { assert code'[j - 1] == PatchedAt(code, js, vtarget, reg, dtarget, j - 1); }
  }

  // And nothing else is touched.
  lemma RestRuns(code: Code, code': Code, js: seq<int>, vtarget: int, reg: int, dtarget: int, p: int)
    requires Patched(code, code', js, vtarget, reg, dtarget) && 0 <= p < |code|
    requires p !in js && !(p + 1 in js && code[p].ABC? && code[p].op == OP_TESTSET)
    ensures |code'| == |code| && code'[p] == code[p]
  {
    assert code'[p] == PatchedAt(code, js, vtarget, reg, dtarget, p);
  }
}
