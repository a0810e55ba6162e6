/**
 * The libsla backend (backends/sla_emulator.cpp): the load image that feeds
 * bytes to the translator, the state set-up and capture around one
 * emulated instruction, the per-task admission and counting, and the
 * submission and poll logic of the parallel run, taken as a single worker
 * that runs the queued tasks in submission order.
 */
module SlaEmulator {
  import opened Wrappers
  import opened State
  import opened Json

  const ADDRESS_SPACE_SIZE := 0x1_0000_0000_0000_0000

  /**
   * What the translator and emulator (Sleigh, MemoryState, EmulatePcodeCache)
   * do with a seeded state: either a set-up error (a register the processor
   * module does not know, or a BadDataError), or the register and byte
   * values memstate.getValue reports after one instruction. Faults inside
   * the instruction are swallowed by the source and show up only in these
   * values.
   */
  datatype StepResult = EmulatorError | Stepped(registerValue: string -> U64, byteValue: U64 -> U64)

  type Stepper = TestState -> StepResult

  /** The outcome of one test case. */
  datatype Verdict = SetupFailed | Pass | Fail

  /**
   * MyLoadImage::loadFill: `ptr[i]` is the byte at `start + i` (64-bit
   * wrap-around), 0 where the address space has none. The address space is
   * only read.
   */
  method LoadFill(ptr: array<U8>, size: int, start: U64, addressSpace: map<U64, U8>)
    requires size <= ptr.Length
    modifies ptr
    ensures forall i :: 0 <= i < size ==> ptr[i] == ByteOr0(addressSpace, (start + i) % ADDRESS_SPACE_SIZE)
    ensures forall i :: 0 <= i < ptr.Length && !(i < size) ==> ptr[i] == old(ptr[i])
  {
    var i := 0;
    while i < size
      invariant 0 <= i <= if size < 0 then 0 else size
      invariant forall j :: 0 <= j < i ==> ptr[j] == ByteOr0(addressSpace, (start + j) % ADDRESS_SPACE_SIZE)
      invariant forall j :: i <= j < ptr.Length ==> ptr[j] == old(ptr[j])
    {
      var value: U8 := 0;
      var curOffset: U64 := (start + i) % ADDRESS_SPACE_SIZE;
      // default to zero for addresses not in our map
      if curOffset in addressSpace {
        value := addressSpace[curOffset];
      }
      ptr[i] := value;
      i := i + 1;
    }
  }

  /** The emulator's address space is seeded with exactly the initial memory. */
  method SeedAddressSpace(memory: map<U64, U8>) returns (addressSpace: map<U64, U8>)
    ensures addressSpace == memory
  {
    addressSpace := map[];
    var todo := memory.Keys;
    while todo != {}
      invariant todo <= memory.Keys
      invariant addressSpace.Keys == memory.Keys - todo
      invariant forall a :: a in addressSpace ==> addressSpace[a] == memory[a]
      decreases todo
    {
      var address :| address in todo;
      addressSpace := addressSpace[address := memory[address]];
      todo := todo - {address};
    }
  }

  /** The capture starts with a 0 at every expected final address and nothing else. */
  method PreseedMemory(expected: map<U64, U8>) returns (memory: map<U64, U8>)
    ensures memory.Keys == expected.Keys
    ensures forall a :: a in memory ==> memory[a] == 0
  {
    memory := map[];
    var todo := expected.Keys;
    while todo != {}
      invariant todo <= expected.Keys
      invariant memory.Keys == expected.Keys - todo
      invariant forall a :: a in memory ==> memory[a] == 0
      decreases todo
    {
      var address :| address in todo;
      memory := memory[address := 0];
      todo := todo - {address};
    }
  }

  /**
   * Records the final registers: every register named in the initial state
   * gets the emulator's value, truncated to unsigned int.
   */
  method CaptureRegisters(initialRegisters: map<string, U32>, registers: map<string, U32>, registerValue: string -> U64)
    returns (registersAfter: map<string, U32>)
    ensures registersAfter.Keys == registers.Keys + initialRegisters.Keys
    ensures forall k :: k in registersAfter ==>
      registersAfter[k] == if k in initialRegisters then registerValue(k) % 0x1_0000_0000 else registers[k]
  {
    registersAfter := registers;
    var todo := initialRegisters.Keys;
    while todo != {}
      invariant todo <= initialRegisters.Keys
      invariant registersAfter.Keys == registers.Keys + (initialRegisters.Keys - todo)
      invariant forall k :: k in registersAfter ==>
        registersAfter[k] == if k in initialRegisters && k !in todo then registerValue(k) % 0x1_0000_0000 else registers[k]
      decreases todo
    {
      var name :| name in todo;
      registersAfter := registersAfter[name := registerValue(name) % 0x1_0000_0000];
      todo := todo - {name};
    }
  }

  /** Records the final memory at the addresses already present; no address is added. */
  method CaptureMemory(memory: map<U64, U8>, byteValue: U64 -> U64) returns (memoryAfter: map<U64, U8>)
    ensures memoryAfter.Keys == memory.Keys
    ensures forall a :: a in memoryAfter ==> memoryAfter[a] == byteValue(a) % 0x100
  {
    memoryAfter := memory;
    var todo := memory.Keys;
    while todo != {}
      invariant todo <= memory.Keys
      invariant memoryAfter.Keys == memory.Keys
      invariant forall a :: a in memoryAfter ==> memoryAfter[a] == if a in todo then memory[a] else byteValue(a) % 0x100
      decreases todo
    {
      var address :| address in todo;
      memoryAfter := memoryAfter[address := byteValue(address) % 0x100];
      todo := todo - {address};
    }
  }

  /** The state the test compares: `pre` after the captures of sla_emulate. */
  function Captured(initial: TestState, pre: TestState, registerValue: string -> U64, byteValue: U64 -> U64): TestState {
    TestState(
      map k | k in pre.registers.Keys + initial.registers.Keys ::
        if k in initial.registers then registerValue(k) % 0x1_0000_0000 else pre.registers[k],
      map a | a in pre.memory :: byteValue(a) % 0x100)
  }

  /** The emulator state execute_test hands to sla_emulate: no registers, a 0 at each expected address. */
  function Preseeded(expected: TestState): TestState {
    TestState(map[], map a | a in expected.memory :: 0)
  }

  /**
   * sla_emulate: seeds the address space, runs the step, and captures into
   * `final` (passed by reference; `finalAfter` is it afterwards). -1 stands
   * both for the source's -1 return and for a BadDataError, which every
   * caller turns into -1.
   */
  method SlaEmulate(initial: TestState, final: TestState, step: Stepper) returns (result: int, finalAfter: TestState)
    ensures result == 0 || result == -1
    ensures result == -1 <==> step(initial).EmulatorError?
    ensures result == -1 ==> finalAfter == final
    ensures result == 0 ==> finalAfter == Captured(initial, final, step(initial).registerValue, step(initial).byteValue)
  {
    var addressSpace := SeedAddressSpace(initial.memory);
    var outcome := step(TestState(initial.registers, addressSpace));
    if outcome.EmulatorError? {
      return -1, final;
    }
    var registers := CaptureRegisters(initial.registers, final.registers, outcome.registerValue);
    var memory := CaptureMemory(final.memory, outcome.byteValue);
    finalAfter := TestState(registers, memory);
    result := 0;
    assert finalAfter == Captured(initial, final, outcome.registerValue, outcome.byteValue);
  }

  /** The verdict of one test case: set-up error, or compare_state on the capture. */
  ghost function CaseVerdict(initial: TestState, expected: TestState, step: Stepper): Verdict {
    match step(initial)
    case EmulatorError => SetupFailed
    case Stepped(registerValue, byteValue) =>
      if Matches(expected, Captured(initial, Preseeded(expected), registerValue, byteValue)) then Pass else Fail
  }

  ghost function Verdicts(cases: seq<(TestState, TestState)>, step: Stepper): seq<Verdict> {
    seq(|cases|, k requires 0 <= k < |cases| => CaseVerdict(cases[k].0, cases[k].1, step))
  }

  /**
   * What a case checks: each expected register against the emulator's value
   * when the initial state names it and against 0 when it does not (it is
   * never captured), and each expected byte against the emulator's byte.
   */
  lemma CaseVerdictMeaning(initial: TestState, expected: TestState, step: Stepper)
    ensures CaseVerdict(initial, expected, step) == Pass <==>
      step(initial).Stepped? &&
      (forall k :: k in expected.registers ==>
         (expected.registers[k] == if k in initial.registers then step(initial).registerValue(k) % 0x1_0000_0000 else 0)) &&
      (forall a :: a in expected.memory ==> expected.memory[a] == step(initial).byteValue(a) % 0x100)
  {
  }

  /** The global counters completed_count and failure_count. */
  datatype Counters = Counters(completed: nat, failed: nat)

  /** One task of execute_test: not admitted once failures reach the maximum. */
  function Task(c: Counters, v: Verdict, maxFailures: nat): Counters {
    if c.failed >= maxFailures then c
    else Counters(c.completed + 1, if v == Fail then c.failed + 1 else c.failed)
  }

  /** The counters after a single worker runs the tasks of `vs` in order. */
  function Schedule(c: Counters, vs: seq<Verdict>, maxFailures: nat): Counters
    decreases |vs|
  {
    if vs == [] then c else Schedule(Task(c, vs[0], maxFailures), vs[1..], maxFailures)
  }

  /** The number of failing cases. */
  function Fails(vs: seq<Verdict>): nat
    decreases |vs|
  {
    if vs == [] then 0 else (if vs[0] == Fail then 1 else 0) + Fails(vs[1..])
  }

  datatype Decision = Abort | Finish | KeepPolling

  /** One round of parallelize_test's poll loop: the failure check comes before the finish check. */
  function PollDecision(c: Counters, submitted: nat, maxFailures: nat): Decision {
    if c.failed >= maxFailures then Abort
    else if c.completed >= submitted then Finish
    else KeepPolling
  }

  /** The clamped end index: never above the number of tests nor the requested end. */
  function ClampedEnd(endTest: nat, size: nat): (r: nat)
    ensures r <= size && r <= endTest
    ensures r == endTest || r == size
  {
    if endTest >= size then size else endTest
  }

  /** The verdicts of the cases [start, end). */
  function Range(vs: seq<Verdict>, start: nat, end: nat): seq<Verdict>
    requires end <= |vs|
  {
    if start < end then vs[start..end] else []
  }

  /** The submission loop: one task per index in [start, end), in increasing order. */
  method SubmitTasks(start: nat, end: nat) returns (queue: seq<nat>, casesSubmitted: nat)
    ensures casesSubmitted == |queue| == if start < end then end - start else 0
    ensures forall k :: 0 <= k < |queue| ==> queue[k] == start + k
  {
    queue, casesSubmitted := [], 0;
    var i := start;
    while i < end
      invariant start <= i && (start < end ==> i <= end) && (start >= end ==> i == start)
      invariant casesSubmitted == |queue| == i - start
      invariant forall k :: 0 <= k < |queue| ==> queue[k] == start + k
    {
      queue := queue + [i];
      casesSubmitted := casesSubmitted + 1;
      i := i + 1;
    }
  }

  /** The process-wide state of the parallel backend: its two atomic counters. */
  class Coordinator {
    var completedCount: nat
    var failureCount: nat

    constructor ()
      ensures completedCount == 0 && failureCount == 0
    {
      completedCount, failureCount := 0, 0;
    }

    function Stats(): Counters
      reads this
    {
      Counters(completedCount, failureCount)
    }

    /**
     * execute_test of the parallel backend. A task that is admitted counts
     * as completed before it emulates; a mismatch adds one failure; a set-up
     * error returns -1, which the thread pool discards.
     */
    method ExecuteTest(maxFailures: U32, testId: nat, initial: TestState, final: TestState, step: Stepper)
      returns (result: int)
      modifies this
      ensures Stats() == Task(old(Stats()), CaseVerdict(initial, final, step), maxFailures)
      ensures result == if old(failureCount) < maxFailures && step(initial).EmulatorError? then -1 else 0
    {
      // check if we hit the max number of test failures
      if failureCount >= maxFailures {
        return 0;
      }
      completedCount := completedCount + 1;
      var memory := PreseedMemory(final.memory);
      var emuFinal := TestState(map[], memory);
      assert emuFinal == Preseeded(final);
      var emulated;
      result, emulated := SlaEmulate(initial, emuFinal, step);
      if result != 0 {
        return;
      }
      var verdict, _ := CompareState(final, emulated);
      if verdict != 0 {
        failureCount := failureCount + 1;
      }
    }

    /** A single worker runs the queued tasks, in submission order. */
    method RunQueue(maxFailures: U32, queue: seq<nat>, initials: seq<TestState>, finals: seq<TestState>,
                    ghost vs: seq<Verdict>, step: Stepper)
      requires |queue| == |vs|
      requires forall k :: 0 <= k < |queue| ==> queue[k] < |initials| && queue[k] < |finals|
      requires forall k :: 0 <= k < |queue| ==> vs[k] == CaseVerdict(initials[queue[k]], finals[queue[k]], step)
      modifies this
      ensures Stats() == Schedule(old(Stats()), vs, maxFailures)
    {
      var k := 0;
      assert vs[0..] == vs;
      while k < |queue|
        invariant 0 <= k <= |queue|
        invariant Schedule(old(Stats()), vs, maxFailures) == Schedule(Stats(), vs[k..], maxFailures)
      {
        var i := queue[k];
        assert vs[k..][1..] == vs[k + 1..];
        var _ := ExecuteTest(maxFailures, i, initials[i], finals[i], step);
        k := k + 1;
      }
      assert vs[k..] == [];
    }

    /**
     * parallelize_test: loads the tests, clamps the end index in place,
     * submits one task per index, lets one worker run them in order, and
     * takes the poll loop's decision. It returns 0 whenever the tests load,
     * also after an abort.
     */
    method ParallelizeTest(p: TestParams, doc: JsonDocument, step: Stepper) returns (result: int, decision: Option<Decision>)
      modifies this, p`endTest
      ensures !Loads(doc, old(p.registerMap)) ==>
        result == -1 && decision.None? && Stats() == old(Stats()) && p.endTest == old(p.endTest)
      ensures Loads(doc, old(p.registerMap)) ==>
        && result == 0
        && p.endTest == ClampedEnd(old(p.endTest), |doc.records|)
        && Stats() == Schedule(old(Stats()), Range(Verdicts(Loaded(doc, p.registerMap), step), p.startTest, p.endTest), p.maxFailures)
        && decision == Some(PollDecision(Stats(), if p.startTest < p.endTest then p.endTest - p.startTest else 0, p.maxFailures))
    {
      var r, initials, finals := GetTests(p.registerMap, doc, [], []);
      if r != 0 {
        return -1, None;
      }
      ghost var cases := Loaded(doc, p.registerMap);
      assert |initials| == |cases| == |doc.records|;
      // can't have end test greater than the number of total tests
      if p.endTest >= |initials| {
        p.endTest := |initials|;
      }
      var queue, submitted := SubmitTasks(p.startTest, p.endTest);
      ghost var vs := Range(Verdicts(cases, step), p.startTest, p.endTest);
      forall k | 0 <= k < |queue|
        ensures queue[k] < |initials| && queue[k] < |finals|
        ensures vs[k] == CaseVerdict(initials[queue[k]], finals[queue[k]], step)
      {
      }
      RunQueue(p.maxFailures, queue, initials, finals, vs, step);
      decision := Some(PollDecision(Stats(), submitted, p.maxFailures));
      result := 0;
    }
  }

  /** Completions count admitted tasks; failures never exceed them nor the maximum. */
  lemma {:induction false} ScheduleBounds(c: Counters, vs: seq<Verdict>, maxFailures: nat)
    ensures c.completed <= Schedule(c, vs, maxFailures).completed <= c.completed + |vs|
    ensures c.failed <= Schedule(c, vs, maxFailures).failed
    ensures Schedule(c, vs, maxFailures).failed - c.failed <= Schedule(c, vs, maxFailures).completed - c.completed
    ensures Schedule(c, vs, maxFailures).failed <= if c.failed > maxFailures then c.failed else maxFailures
    decreases |vs|
  {
    if vs != [] {
      ScheduleBounds(Task(c, vs[0], maxFailures), vs[1..], maxFailures);
    }
  }

  /** Once failures reach the maximum, no further task is admitted. */
  lemma {:induction false} TrippedScheduleAdmitsNothing(c: Counters, vs: seq<Verdict>, maxFailures: nat)
    requires c.failed >= maxFailures
    ensures Schedule(c, vs, maxFailures) == c
    decreases |vs|
  {
    if vs != [] {
      TrippedScheduleAdmitsNothing(Task(c, vs[0], maxFailures), vs[1..], maxFailures);
    }
  }

  /** A run that ends below the failure maximum admitted every task. */
  lemma {:induction false} UntrippedScheduleAdmitsAll(c: Counters, vs: seq<Verdict>, maxFailures: nat)
    requires Schedule(c, vs, maxFailures).failed < maxFailures
    ensures Schedule(c, vs, maxFailures) == Counters(c.completed + |vs|, c.failed + Fails(vs))
    decreases |vs|
  {
    if vs != [] {
      if c.failed >= maxFailures {
        TrippedScheduleAdmitsNothing(c, vs, maxFailures);
        assert false;
      }
      UntrippedScheduleAdmitsAll(Task(c, vs[0], maxFailures), vs[1..], maxFailures);
    }
  }

  /** With fewer failing cases than the maximum, every submitted case completes. */
  lemma {:induction false} BudgetHoldsAllComplete(c: Counters, vs: seq<Verdict>, maxFailures: nat)
    requires c.failed + Fails(vs) < maxFailures
    ensures Schedule(c, vs, maxFailures) == Counters(c.completed + |vs|, c.failed + Fails(vs))
    decreases |vs|
  {
    if vs != [] {
      BudgetHoldsAllComplete(Task(c, vs[0], maxFailures), vs[1..], maxFailures);
    }
  }

  /** As many failing cases as the maximum allows bring the failure count to the maximum. */
  lemma {:induction false} ScheduleReachesMaximum(c: Counters, vs: seq<Verdict>, maxFailures: nat)
    requires c.failed + Fails(vs) >= maxFailures
    ensures Schedule(c, vs, maxFailures).failed >= maxFailures
    decreases |vs|
  {
    if c.failed >= maxFailures {
      TrippedScheduleAdmitsNothing(c, vs, maxFailures);
    } else if vs != [] {
      ScheduleReachesMaximum(Task(c, vs[0], maxFailures), vs[1..], maxFailures);
    }
  }

  /**
   * Once the single worker has run every submitted task from fresh counters,
   * the first poll ends the loop: it aborts or it finishes.
   */
  lemma DrainedRunDecides(vs: seq<Verdict>, maxFailures: nat)
    ensures PollDecision(Schedule(Counters(0, 0), vs, maxFailures), |vs|, maxFailures) != KeepPolling
  {
    var s := Schedule(Counters(0, 0), vs, maxFailures);
    if s.failed < maxFailures {
      UntrippedScheduleAdmitsAll(Counters(0, 0), vs, maxFailures);
    }
  }

  /**
   * Three cases, maximum 1, verdicts pass, fail, pass: the single worker
   * completes two (the third is not admitted), records one failure, and
   * the poll aborts.
   */
  lemma SingleWorkerScenario()
    ensures Schedule(Counters(0, 0), [Pass, Fail, Pass], 1) == Counters(2, 1)
    ensures PollDecision(Counters(2, 1), 3, 1) == Abort
  {
  }
}
