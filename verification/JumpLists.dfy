// lsh/lua/src/lcode.c: jumps whose destination is not known yet are chained
// through their own offset fields. This module: the instructions, and what a
// chain of them means.
module JumpLists {
  import opened Lists

  const NO_JUMP: int := -1
  const NO_REG: int := 255        // MAXARG_A
  const MAXARG_SBX: int := 131071

  datatype Op = OP_EQ | OP_LT | OP_LE | OP_TEST | OP_TESTSET | OP_OTHER(code: nat)
  datatype JumpOp = OP_JMP | OP_FORLOOP | OP_FORPREP | OP_TFORLOOP

  // The two instruction formats that matter here: iABC and iAsBx.
  datatype Instr =
    | ABC(op: Op, a: int, b: int, c: int)
    | AsBx(jop: JumpOp, ja: int, sbx: int)

  type Code = seq<Instr>

  // testTMode: the instruction is a test, so the next one must be a jump.
  predicate IsTest(i: Instr) {
    i.ABC? && !i.op.OP_OTHER?
  }

  predicate IsJump(code: Code, p: int) {
    0 <= p < |code| && code[p].AsBx?
  }

  // ------------------------------------------------------ lists

  // getjump
  function GetJump(code: Code, p: int): int
    requires IsJump(code, p)
  {
    if code[p].sbx == NO_JUMP then NO_JUMP else p + 1 + code[p].sbx
  }

  // Where the instruction at p jumps when it is executed.
  function Dest(code: Code, p: int): int
    requires IsJump(code, p)
  {
    p + 1 + code[p].sbx
  }

  // Following the chain from `head` visits exactly the jumps js, in that order.
  ghost predicate IsList(code: Code, head: int, js: seq<int>)
    decreases |js|
  {
    if js == [] then head == NO_JUMP
    else head == js[0] && IsJump(code, head) && IsList(code, GetJump(code, head), js[1..])
  }

  // A chain depends on nothing but its own jumps.
  lemma {:induction false} ListFrame(code: Code, code': Code, head: int, js: seq<int>)
    requires IsList(code, head, js) && |code| <= |code'|
    requires forall j :: j in js && 0 <= j < |code| ==> code'[j] == code[j]
    ensures IsList(code', head, js)
    decreases |js|
  {
    if js != [] {
      assert js == [js[0]] + js[1..];
      ListFrame(code, code', GetJump(code, head), js[1..]);
    }
  }

  lemma {:induction false} ListUnique(code: Code, head: int, js: seq<int>, js': seq<int>)
    requires IsList(code, head, js) && IsList(code, head, js')
    ensures js == js'
    decreases |js|
  {
    if js != [] && js' != [] {
      ListUnique(code, GetJump(code, head), js[1..], js'[1..]);
      assert js == [js[0]] + js[1..] && js' == [js'[0]] + js'[1..];
    }
  }

  lemma {:induction false} ListSuffix(code: Code, head: int, js: seq<int>, k: nat)
    requires IsList(code, head, js) && k < |js|
    ensures IsJump(code, js[k]) && IsList(code, js[k], js[k..])
    ensures GetJump(code, js[k]) == if k + 1 < |js| then js[k + 1] else NO_JUMP
    decreases k
  {
    if k > 0 {
      ListSuffix(code, GetJump(code, head), js[1..], k - 1);
      assert js[1..][k - 1..] == js[k..];
    }
  }

  // A chain that ends never meets a jump twice.
  lemma ListDistinct(code: Code, head: int, js: seq<int>)
    requires IsList(code, head, js)
    ensures Distinct(js)
    ensures forall j :: j in js ==> IsJump(code, j)
  {
    forall a, b | 0 <= a < b < |js|
      ensures js[a] != js[b]
    {
      ListSuffix(code, head, js, a);
      ListSuffix(code, head, js, b);
      if js[a] == js[b] {
        ListUnique(code, js[a], js[a..], js[b..]);
        assert false;
      }
    }
    forall j | j in js
      ensures IsJump(code, j)
    {
      var k :| 0 <= k < |js| && js[k] == j;
      ListSuffix(code, head, js, k);
    }
  }

  lemma {:induction false} ListAppend(code: Code, head: int, js: seq<int>, js': seq<int>, code': Code, head': int)
    requires js != [] && IsList(code, head, js) && IsList(code', head', js') && |code'| == |code|
    requires js'!= []
    requires forall j :: j in js[..|js| - 1] && 0 <= j < |code| ==> code'[j] == code[j]
    requires IsJump(code', js[|js| - 1]) && GetJump(code', js[|js| - 1]) == head'
    ensures IsList(code', head, js + js')
    decreases |js|
  {
    if |js| == 1 {
      assert (js + js')[1..] == js';
    } else {
      assert js[..|js| - 1][0] == js[0];
      assert js[1..][..|js[1..]| - 1] == js[..|js| - 1][1..];
      ListAppend(code, GetJump(code, head), js[1..], js', code', head');
      assert (js + js')[1..] == js[1..] + js';
    }
  }

  // ------------------------------------------------------ patching

  predicate Fits(p: int, dest: int) {
    -MAXARG_SBX <= dest - (p + 1) <= MAXARG_SBX
  }

  // The jump at p is controlled by a TESTSET (getjumpcontrol finds one).
  predicate ProducesValue(code: Code, p: int) {
    1 <= p <= |code| && code[p - 1].ABC? && code[p - 1].op == OP_TESTSET
  }

  // What patchtestreg makes of a TESTSET: it stores into reg, or only tests.
  function Retarget(i: Instr, reg: int): Instr
    requires i.ABC?
  {
    if reg != NO_REG && reg != i.b then i.(a := reg) else ABC(OP_TEST, i.b, 0, i.c)
  }

  function Target(code: Code, p: int, vtarget: int, dtarget: int): int {
    if ProducesValue(code, p) then vtarget else dtarget
  }

  // The instruction at p once the jumps js have been patched: those jumps get
  // their destination, their TESTSETs a register, and nothing else changes.
  function PatchedAt(code: Code, js: seq<int>, vtarget: int, reg: int, dtarget: int, p: int): Instr
    requires 0 <= p < |code|
  {
    if p in js && code[p].AsBx? then code[p].(sbx := Target(code, p, vtarget, dtarget) - (p + 1))
    else if p + 1 in js && ProducesValue(code, p + 1) then Retarget(code[p], reg)
    else code[p]
  }

  ghost predicate Patched(code: Code, code': Code, js: seq<int>, vtarget: int, reg: int, dtarget: int) {
    && |code'| == |code|
    && forall p :: 0 <= p < |code| ==> code'[p] == PatchedAt(code, js, vtarget, reg, dtarget, p)
  }
}
