# Ghidra processor module verifier — a Dafny model of its bookkeeping

The Ghidra Processor Module Verifier runs single-instruction test vectors
against a compiled Sleigh processor module (.sla) and reports the cases where
the emulator disagrees with the expected final state. This project models
everything around the emulator itself, and proves properties of that model:

- loading the JSON test vectors into parallel vectors of initial and final
  states (`Json`), with register names renamed through the register map;
- the register map file parser and the sequential driver loop with its
  failure limit (`Harness`, main.cpp);
- the word-size probe of the .sla file (`SlaUtil`);
- the state comparison and its insert-on-read side effect (`State`);
- the libsla backend (`SlaEmulator`): the load image's `loadFill`, the
  seeding and capture of the emulator state, the per-task admission and
  counting, the end-index clamp, the submission loop and the poll decision.

The emulator step (Sleigh with `EmulatePcodeCache`) is a parameter
`step: TestState -> StepResult`. It returns either a set-up error or the
register and byte values the memory state reports after one instruction.

The modules are:

- `Wrappers`: `Option`.
- `State`: `TestState`, `TestParams` and `CompareState`.
- `Writes`: the "store under a key, later writes win" fold. The three
  loaders share it.
- `Json`, `SlaUtil`, `SlaEmulator`, `Harness`: one per source file.

Each modelled loop of the source is a method with loop invariants. Each method is
proved against a specification function, and further lemmas about those
functions state what the source promises.

## Model

| member | source | states |
|---|---|---|
| State.CompareState | state.cpp:33-68 | Returns 0 or -1. It returns 0 exactly when every expected register and every expected byte equals its value in the actual state, where an absent actual key reads as 0. Afterwards the actual state holds the keys of both states: its old entries are unchanged and the inserted ones are 0. |
| State.ExtraActualKeysIgnored | state.cpp:37-46 | Two actual states that agree on the expected keys get the same verdict. |
| State.ExtraRegisterKeepsPass | state.cpp:43-46 | Adding to the actual state a register that the expected state lacks never turns a pass into a failure. |
| State.ExtraByteKeepsPass | state.cpp:56-59 | Adding to the actual state a byte at an address the expected state lacks never turns a pass into a failure. |
| State.MissingRegisterReadsAsZero | state.cpp:45-48 | An expected register of 0 matches an actual state without that register: dropping it from the expected state leaves the verdict unchanged. |
| State.MissingByteReadsAsZero | state.cpp:58-61 | An expected byte of 0 matches an actual state without that address: dropping it from the expected state leaves the verdict unchanged. |
| Json.ReadJsonRegisters | backends/json.cpp:61-88 | Succeeds exactly when every item other than "ram" converts to unsigned int. The result is the input map after writing each converted value, in item order, under its mapped name. |
| Json.ReadJsonMemory | backends/json.cpp:90-98 | A missing "ram" leaves memory unchanged. A list of pairs is written in order; one with no elements (null, `[]`, `{}`) writes nothing. A value whose first element cannot be indexed as a pair fails. |
| Json.EmptyRamLikeAbsent | backends/json.cpp:34 | A "ram" without elements reads exactly like an absent "ram": memory is unchanged. |
| Json.ReadRecord | backends/json.cpp:30-43 | Builds one initial and one final state. Both use the same register map. It fails when the record is not an object or when a conversion fails. |
| Json.GetTests | backends/json.cpp:20-59 | Returns 0 exactly when the document parses and every record loads. Both vectors grow by the records loaded before the first failure, in record order. |
| Json.LoadedPrefixSpec | backends/json.cpp:28-54 | The k-th loaded case is the k-th record's states. Loading stops exactly at the first record that fails. |
| Json.RegisterKeys | backends/json.cpp:65-84 | The register names after loading are the old ones plus the mapped name of every item other than "ram". |
| Json.RamItemIgnored | backends/json.cpp:67-70 | A "ram" item, wherever it stands, contributes no register. |
| Json.RegisterLastWins | backends/json.cpp:73-84 | Of several items that resolve to the same name, the last one gives the value. |
| Json.MemoryLastWins | backends/json.cpp:92-95 | Every pair's address is written. The last pair for an address gives its byte. |
| Json.MappedRegisterExample | backends/json.cpp:73-84 | R0 mapped to EAX stores the value under EAX only. |
| Json.DuplicateAddressExample | backends/json.cpp:92-95 | Two pairs at one address keep the second byte. |
| SlaUtil.SlaGetWordSize | sla_util.cpp:21-87 | Returns 0 or -1. It returns 0 exactly when the document was read, its version is 3 (missing reads as 0), the default space is non-empty and some `space` child of that name has a nonzero size. The new word size is the first such child's size modulo 2^32. On failure the word size is unchanged. |
| SlaUtil.FirstUsableUnique | sla_util.cpp:56-82 | Only one child is the first matching space with a nonzero size, so the document determines the word size. |
| SlaEmulator.LoadFill | backends/sla_emulator.cpp:62-82 | `ptr[i]` for `i < size` is the byte at `start + i` modulo 2^64, or 0 where the map has none. The rest of the buffer is unchanged. |
| SlaEmulator.SeedAddressSpace | backends/sla_emulator.cpp:92-95 | The emulator's address space equals the initial memory. |
| SlaEmulator.PreseedMemory | backends/sla_emulator.cpp:287-290 | The capture starts with exactly the expected final addresses, each with value 0. |
| SlaEmulator.CaptureRegisters | backends/sla_emulator.cpp:157-160 | Every register named in the initial state gets the emulator's value truncated to 32 bits. Other entries are unchanged. |
| SlaEmulator.CaptureMemory | backends/sla_emulator.cpp:163-166 | No address is added. Each present address gets the emulator's byte. |
| SlaEmulator.SlaEmulate | backends/sla_emulator.cpp:84-185 | Returns -1 exactly on a set-up error, leaving the final state untouched. Otherwise it returns 0 with the capture described above. |
| SlaEmulator.CaseVerdictMeaning | backends/sla_emulator.cpp:287-307 | A case passes exactly when the step succeeds and two checks hold. Each expected register equals the emulator's value if the initial state names it, and 0 otherwise. Each expected byte equals the emulator's byte. |
| SlaEmulator.ClampedEnd | backends/sla_emulator.cpp:208-211 | The clamped end is at most the number of tests. A smaller end is unchanged. |
| SlaEmulator.SubmitTasks | backends/sla_emulator.cpp:223-231 | One task per index in `[start, end)`, in increasing order. The count is `max(0, end - start)`. |
| SlaEmulator.Coordinator.constructor | backends/sla_emulator.cpp:24-25 | Both counters start at 0. |
| SlaEmulator.Coordinator.ExecuteTest | backends/sla_emulator.cpp:271-333 | A task is not admitted once failures reach the maximum. An admitted task counts as completed. A mismatch adds exactly one failure. A set-up error returns -1. |
| SlaEmulator.Coordinator.RunQueue | backends/sla_emulator.cpp:223-231 | The queued tasks run in submission order, and the counters follow `Schedule`. |
| SlaEmulator.Coordinator.ParallelizeTest | backends/sla_emulator.cpp:187-269 | A load failure gives -1 and changes nothing. Otherwise the end index is clamped in place, the counters are the schedule of the cases in `[start, end)`, the poll decision is taken on them, and the result is 0. |
| SlaEmulator.ScheduleBounds | backends/sla_emulator.cpp:278-326 | Completions grow by at most the number of tasks. New failures never exceed new completions. Failures stay at most the maximum, unless they started above it. |
| SlaEmulator.TrippedScheduleAdmitsNothing | backends/sla_emulator.cpp:278-283 | Once failures reach the maximum, no further task changes the counters. |
| SlaEmulator.UntrippedScheduleAdmitsAll | backends/sla_emulator.cpp:278-326 | A run that ends below the maximum admitted every task and counted every failing case. |
| SlaEmulator.BudgetHoldsAllComplete | backends/sla_emulator.cpp:278-326 | With fewer failing cases than the maximum allows, every task completes. |
| SlaEmulator.ScheduleReachesMaximum | backends/sla_emulator.cpp:278-326 | With at least as many failing cases as the maximum allows, failures reach the maximum. |
| SlaEmulator.DrainedRunDecides | backends/sla_emulator.cpp:245-257 | After every submitted task has run from fresh counters, the poll decision either aborts or finishes. |
| SlaEmulator.SingleWorkerScenario | backends/sla_emulator.cpp:245-257 | Verdicts pass, fail, pass with maximum 1: two tasks complete, one fails, and the poll aborts. |
| Harness.FindChar | main.cpp:167 | The first position of the character, or none exactly when it does not occur. |
| Harness.ParseLineSpec | main.cpp:155-183 | A line maps `t` to `g` exactly when it reads `t=g`, `t` is non-empty, starts with neither '#' nor '=' and contains no '=', and `g` is non-empty. `g` may contain '='. |
| Harness.ParseLineSkips | main.cpp:155-178 | The skipped lines are exactly these: empty lines, lines starting with '#' or '=', lines without '=', and lines whose first '=' is the last character. |
| Harness.ParseRegisterMapping | main.cpp:137-193 | An empty file name returns 0 and leaves the map unchanged. Otherwise the map receives the lines' writes in order, and the result is -1 exactly when the map is empty. |
| Harness.MappingLastLineWins | main.cpp:183 | When a test register repeats, the last line wins. |
| Harness.MappingKeys | main.cpp:180-183 | The mapped names are the old ones plus the text before '=' on every line that is kept. |
| Harness.MappingFileExample | main.cpp:155-183 | A comment, a line ending in '=' and `R0=EAX=1` give only R0 mapped to `EAX=1`. |
| Harness.AsWrittenKeepsLineWithoutEquals | main.cpp:142-181 | As written, a non-empty line without '=' that does not start with '#' is stored as itself mapped to itself. The intended reading skips it. |
| Harness.AsWrittenMisreadExample | main.cpp:142-192 | The file "FOO" yields `{FOO: FOO}` as written and an empty map as intended. |
| Harness.AsWrittenAgreesWithEquals | main.cpp:167-181 | On lines that contain '=', the as-written and intended readings agree. |
| Harness.DefaultTestParams | main.cpp:116-121 | The defaults are maximum failures 10, start test 0 and word size 0. No other field changes. |
| Harness.RunCase | main.cpp:213-235 | Returns -1 exactly on a set-up error. Otherwise it reports a pass exactly when the case's verdict is Pass. |
| Harness.ExecuteTest | main.cpp:195-268 | A load failure gives -1 and no reports. Otherwise the exit code and the per-case reports are those of `Drive` over the verdicts from `start_test`. |
| Harness.DriveMeaning | main.cpp:211-267 | The code is 0 or -1. It is 0 exactly when no remaining case has a set-up error and either no case fails or the failures stay below the maximum. |
| Harness.DriveReports | main.cpp:211-264 | The k-th report is about case `start + k`, in increasing order, and says whether it passed. A successful run reports every case. Nothing runs when the start is past the end. |
| Harness.SequentialAgreesWithParallel | main.cpp:252-257 | Assume no set-up errors and a positive maximum. Then the sequential driver succeeds exactly when a single parallel worker finishes. |
| Harness.ZeroMaximumExample | main.cpp:252-257 | With maximum 0, a passing case makes the sequential driver succeed, while the parallel schedule admits nothing and aborts. |
| Harness.RunVerifier | main.cpp:89-112 | When the word-size probe fails, the result is -1 with no reports, and neither the word size nor the register map changes. Otherwise the word size is the probed one and the register map is what the file produces. When the map is rejected, the result is -1 with no reports. Otherwise the code and the reports are those of the sequential test run over the new map. |

## Left out

- Threads:
  - The thread pool, `boost::asio::post`, the atomics, `thread_pool.stop`/`join` and the 100 ms sleep between polls are left out.
  - The parallel backend is modelled as one worker that runs the queued tasks in submission order, followed by one poll.
  - Interleavings of several workers, and tasks cut off by `stop`, are not modelled.
- Sleigh and libsla:
  - Sleigh, `ContextInternal`, `MemoryState`, the memory banks, `EmulatePcodeCache`, setting the program counter and the exceptions swallowed around the instruction are the step parameter.
  - The loop that sets the initial registers belongs to the step too. An unknown register there is its set-up error.
  - The step never sees the `word_size` and `DocumentStorage` arguments.
- Parsing:
  - JSON parsing (nlohmann), XML parsing (boost property_tree), opening files and getline are replaced by already parsed inputs.
  - A register-map file that cannot be opened reads as no lines.
  - A top-level JSON value that is not an array is represented by what the loop sees: no records when it is empty, a record that cannot be indexed otherwise.
  - A missing "initial" or "final" key reads as an empty object.
- Number narrowing:
  - Narrowing JSON values to `unsigned int`/`unsigned char` is library behaviour. The model takes the values as already narrowed.
  - A register value the conversion accepts is a `JNumber`. That covers numbers, and booleans as 0 or 1. Any other value fails to convert.
  - A "ram" value of null, `[]` or `{}` has no elements and is encoded as `JPairs([])`. Any other value that is not a pair list is `JOther`, and indexing it fails.
- Output and timing: the command-line parsing (main.cpp:30-87), `display_test_params`, `print_state`, every `cout` line and `boost::timer` are not modelled. The sequential driver's SUCCESS/FAIL lines become `CaseReport`s.
- Iteration order: the source walks `std::map` keys in order. The model's loops choose keys in any order, and every stated result is independent of the order. The JSON items are taken in the library's iteration order, given as a sequence.
- Counter width:
  - `fail_count`, `completed_count`, `failure_count` and `cases_submitted` are `nat`. They cannot wrap, because each is bounded by the number of test cases, and a corpus of 2^32 cases or more is not modelled.
  - `Harness.ExecuteTest`'s index is a `nat` for the same reason.
- By-reference arguments: structs passed by reference (`compare_state`'s `b`, the out-vectors, `word_size`, the register map) are modelled as an input value and a returned new value. `TestParams` is a class, since its fields are assigned in place.
- SlaEmulator.Coordinator.ParallelizeTest:
  - It returns 0 also after the failure limit aborts the run. The model states this as the source does, rather than as a test failure.
  - A task's -1 from a set-up error is discarded by the pool, so a set-up error in the parallel backend does not stop the run.
- The `TEST_PARAMS` in state.h has no `end_test` and `num_threads`, but backends/sla_emulator.cpp reads both. The model's `TestParams` carries them.
- Harness.RunCase: main.cpp:222 calls a three-argument `sla_emulate`, while backends/sla_emulator.cpp:84 defines only the four-argument one, which takes a `DocumentStorage`. Both drivers are taken to use the same step, `SlaEmulator.SlaEmulate`.
- Harness.RunVerifier: the "help" and missing-argument exits are not modelled. It starts after the command line has been read.
- Harness.ParseLineAsWritten: lines of 2^32 characters or more are modelled with the same truncation, but no lemma is stated about them.

## Findings

| source | as written | input that shows it | evidently intended | confidence | as-written member | corrected member |
|---|---|---|---|---|---|---|
| main.cpp:142-181 | `line.find("=")` is stored in an `unsigned int`, so "not found" becomes 0xFFFFFFFF. That never equals the 64-bit `string::npos`, so the "didn't have =" skip does not fire. Then `substr(0, 0xFFFFFFFF)` is the whole line and `equal_pos + 1` wraps to 0. | A register map file holding the single line `FOO`: the map becomes `{FOO: FOO}` and the parse returns 0. | The line is skipped, the map stays empty and the parse returns -1. | high, not executed | Harness.ParseLineAsWritten (exhibited by Harness.AsWrittenMisreadExample and Harness.AsWrittenKeepsLineWithoutEquals) | Harness.ParseLine (characterised by Harness.ParseLineSpec and Harness.ParseLineSkips; used by Harness.ParseRegisterMapping) |
