/**
 * Test parameters and machine states (state.h) and the comparison of an
 * expected state with an emulated one (state.cpp).
 */
module State {

  type U8 = x: int | 0 <= x < 0x100
  type U32 = x: int | 0 <= x < 0x1_0000_0000
  type U64 = x: int | 0 <= x < 0x1_0000_0000_0000_0000

  /** TEST_STATE: register name -> 32-bit value, and sparse byte memory. */
  datatype TestState = TestState(registers: map<string, U32>, memory: map<U64, U8>)

  /**
   * TEST_PARAMS. The fields are assigned in place by the command line,
   * by default_test_params and, in the parallel backend, by the end-index
   * clamp. `endTest` and `numThreads` are read by backends/sla_emulator.cpp.
   */
  class TestParams {
    var jsonFilename: string
    var slaFilename: string
    var registerMapFilename: string
    var programCounter: string
    var maxFailures: U32
    var startTest: U32
    var endTest: U32
    var numThreads: U32
    var wordSize: U32
    var registerMap: map<string, string>
  }

  /** `m[k]` of a std::map read through operator[]: an absent key reads as 0. */
  function RegisterOr0(m: map<string, U32>, k: string): U32 {
    if k in m then m[k] else 0
  }

  function ByteOr0(m: map<U64, U8>, a: U64): U8 {
    if a in m then m[a] else 0
  }

  /** Every register expected in `a` has its value in `b` (absent reads as 0). */
  ghost predicate RegistersMatch(a: TestState, b: TestState) {
    forall k :: k in a.registers ==> a.registers[k] == RegisterOr0(b.registers, k)
  }

  /** Every address expected in `a` holds its byte in `b` (absent reads as 0). */
  ghost predicate MemoryMatches(a: TestState, b: TestState) {
    forall x :: x in a.memory ==> a.memory[x] == ByteOr0(b.memory, x)
  }

  /** The verdict of compare_state: only the keys of the expected state are checked. */
  ghost predicate Matches(a: TestState, b: TestState) {
    RegistersMatch(a, b) && MemoryMatches(a, b)
  }

  /**
   * compare_state(a, b). `b` is passed by reference and every operator[]
   * read of a key of `a` inserts it with value 0 when absent; `bAfter` is
   * `b` after the call. Every key of `a` is visited, also after a mismatch.
   * The source walks the maps in key order; the verdict and the new `b` do
   * not depend on the order, so the loops pick keys in any order.
   */
  method CompareState(a: TestState, b: TestState) returns (result: int, bAfter: TestState)
    ensures result == 0 || result == -1
    ensures result == 0 <==> Matches(a, b)
    ensures bAfter.registers.Keys == b.registers.Keys + a.registers.Keys
    ensures forall k :: k in bAfter.registers ==> bAfter.registers[k] == RegisterOr0(b.registers, k)
    ensures bAfter.memory.Keys == b.memory.Keys + a.memory.Keys
    ensures forall x :: x in bAfter.memory ==> bAfter.memory[x] == ByteOr0(b.memory, x)
  {
    result := 0;

    // validate registers
    var regs := b.registers;
    var todo := a.registers.Keys;
    while todo != {}
      invariant todo <= a.registers.Keys
      invariant regs.Keys == b.registers.Keys + (a.registers.Keys - todo)
      invariant forall k :: k in regs ==> regs[k] == RegisterOr0(b.registers, k)
      invariant result == 0 || result == -1
      invariant result == 0 <==>
        forall k :: k in a.registers && k !in todo ==> a.registers[k] == RegisterOr0(b.registers, k)
      decreases todo
    {
      var name :| name in todo;
      var regB := RegisterOr0(regs, name);
      regs := regs[name := regB];
      if a.registers[name] != regB {
        result := -1;
      }
      todo := todo - {name};
    }

    // validate memory
    ghost var registerResult := result;
    var mem := b.memory;
    var pending := a.memory.Keys;
    while pending != {}
      invariant pending <= a.memory.Keys
      invariant mem.Keys == b.memory.Keys + (a.memory.Keys - pending)
      invariant forall x :: x in mem ==> mem[x] == ByteOr0(b.memory, x)
      invariant result == 0 || result == -1
      invariant result == 0 <==> (registerResult == 0 &&
        forall x :: x in a.memory && x !in pending ==> a.memory[x] == ByteOr0(b.memory, x))
      decreases pending
    {
      var address :| address in pending;
      var memB := ByteOr0(mem, address);
      mem := mem[address := memB];
      if a.memory[address] != memB {
        result := -1;
      }
      pending := pending - {address};
    }

    bAfter := TestState(regs, mem);
  }

  /** Keys present only in the actual state are never examined. */
  lemma ExtraActualKeysIgnored(a: TestState, b: TestState, b2: TestState)
    requires forall k :: k in a.registers ==> RegisterOr0(b.registers, k) == RegisterOr0(b2.registers, k)
    requires forall x :: x in a.memory ==> ByteOr0(b.memory, x) == ByteOr0(b2.memory, x)
    ensures Matches(a, b) <==> Matches(a, b2)
  {
  }

  /** Adding a register absent from the expected state cannot turn a pass into a failure. */
  lemma ExtraRegisterKeepsPass(a: TestState, b: TestState, name: string, v: U32)
    requires Matches(a, b) && name !in a.registers
    ensures Matches(a, TestState(b.registers[name := v], b.memory))
  {
  }

  /** Adding a byte at an address absent from the expected state cannot turn a pass into a failure. */
  lemma ExtraByteKeepsPass(a: TestState, b: TestState, x: U64, w: U8)
    requires Matches(a, b) && x !in a.memory
    ensures Matches(a, TestState(b.registers, b.memory[x := w]))
  {
  }

  /**
   * An expected register of 0 matches an actual state that lacks it:
   * dropping it from the expected state does not change the verdict.
   */
  lemma MissingRegisterReadsAsZero(a: TestState, b: TestState, name: string)
    requires name in a.registers && a.registers[name] == 0 && name !in b.registers
    ensures Matches(a, b) <==> Matches(TestState(a.registers - {name}, a.memory), b)
  {
  }

  /**
   * An expected byte of 0 matches an actual state that lacks the address:
   * dropping it from the expected state does not change the verdict.
   */
  lemma MissingByteReadsAsZero(a: TestState, b: TestState, x: U64)
    requires x in a.memory && a.memory[x] == 0 && x !in b.memory
    ensures Matches(a, b) <==> Matches(TestState(a.registers, a.memory - {x}), b)
  {
  }
}
