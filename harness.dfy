/**
 * The sequential driver (main.cpp): the default parameters, the register
 * map file, the loop over the loaded test cases with its failure limit,
 * and the order of the start-up steps.
 */
module Harness {
  import opened Wrappers
  import opened State
  import opened Writes
  import opened Json
  import opened SlaUtil
  import opened SlaEmulator

  const NPOS := 0x1_0000_0000_0000_0000 - 1

  /** The first index of `c` in `s` (std::string::find for one character). */
  function FindChar(s: string, c: char): (r: Option<nat>)
    ensures r.None? <==> c !in s
    ensures r.Some? ==> r.value < |s| && s[r.value] == c && c !in s[..r.value]
    decreases |s|
  {
    if s == [] then None
    else if s[0] == c then Some(0)
    else match FindChar(s[1..], c)
      case None => None
      case Some(p) => assert s[..p + 1] == [s[0]] + s[1..][..p]; Some(p + 1)
  }

  /**
   * One line of the register map file, as the loop intends it: empty lines,
   * lines starting with '#' or '=', lines without '=' and lines ending in
   * the first '=' are skipped; otherwise the text before the first '=' is
   * the test register and the rest the processor module register.
   */
  function ParseLine(line: string): Option<(string, string)> {
    if |line| == 0 || line[0] == '#' || line[0] == '=' then None
    else match FindChar(line, '=')
      case None => None
      case Some(p) => if p == |line| - 1 then None else Some((line[..p], line[p + 1..]))
  }

  /**
   * The same line as the loop treats it: the position returned by find is
   * stored into an unsigned int, so "not found" becomes 0xFFFFFFFF, which
   * differs from npos; substr clamps its count, and `equal_pos + 1` wraps
   * to 0 in unsigned int arithmetic.
   */
  function ParseLineAsWritten(line: string): Option<(string, string)> {
    if |line| == 0 || line[0] == '#' || line[0] == '=' then None
    else
      var found := match FindChar(line, '=') case Some(p) => p case None => NPOS;
      var equalPos := found % 0x1_0000_0000;
      if equalPos == NPOS then None
      else if equalPos == |line| - 1 then None
      else
        var count := if equalPos < |line| then equalPos else |line|;
        var next := (equalPos + 1) % 0x1_0000_0000;
        assert next <= |line|;
        Some((line[..count], line[next..]))
  }

  /** The writes the loop performs on the map, one per line. */
  function LineWrites(lines: seq<string>): seq<Option<(string, string)>> {
    seq(|lines|, i requires 0 <= i < |lines| => ParseLine(lines[i]))
  }

  /** A line maps `t` to `g` exactly when it reads `t=g` with `t` a valid name and `g` non-empty. */
  lemma ParseLineSpec(line: string, t: string, g: string)
    ensures ParseLine(line) == Some((t, g)) <==>
      (line == t + "=" + g && |t| > 0 && t[0] != '#' && '=' !in t && |g| > 0)
  {
    if line == t + "=" + g && |t| > 0 && t[0] != '#' && '=' !in t && |g| > 0 {
      assert line[|t|] == '=';
      var p := FindChar(line, '=').value;
      assert line[..p] == t;
      assert line[p + 1..] == g;
    }
    if ParseLine(line) == Some((t, g)) {
      var p := FindChar(line, '=').value;
      assert line == line[..p] + "=" + line[p + 1..];
    }
  }

  /**
   * The skip rules of the loop, one disjunct each. The position of the
   * first '=' is given by FindChar's contract; ParseLineSpec states what
   * the lines that are not skipped map.
   */
  lemma ParseLineSkips(line: string)
    ensures ParseLine(line).None? <==>
      (|line| == 0 || line[0] == '#' || line[0] == '=' || '=' !in line || FindChar(line, '=').value == |line| - 1)
  {
  }

  /**
   * parse_register_mapping. `lines` are the lines getline yields from the
   * file (none when it cannot be opened); `registerMap` is the in/out map and
   * `registerMapAfter` its new value.
   */
  method ParseRegisterMapping(registerMapFilename: string, lines: seq<string>, registerMap: map<string, string>)
    returns (result: int, registerMapAfter: map<string, string>)
    ensures result == 0 || result == -1
    ensures registerMapFilename == "" ==> result == 0 && registerMapAfter == registerMap
    ensures registerMapFilename != "" ==> registerMapAfter == ApplyAll(registerMap, LineWrites(lines))
    ensures registerMapFilename != "" ==> (result == -1 <==> |registerMapAfter| == 0)
  {
    registerMapAfter := registerMap;
    if registerMapFilename == "" {
      // nothing to do
      return 0, registerMapAfter;
    }
    var ws := LineWrites(lines);
    var i := 0;
    while i < |lines|
      invariant 0 <= i <= |lines|
      invariant ApplyAll(registerMapAfter, ws[i..]) == ApplyAll(registerMap, ws)
    {
      ApplyAllAt(registerMapAfter, ws, i);
      var line := lines[i];
      i := i + 1;
      if |line| == 0 {
        continue;
      }
      if line[0] == '#' || line[0] == '=' {
        continue;
      }
      var equalPos := FindChar(line, '=');
      if equalPos.None? {
        continue;
      }
      if equalPos.value == |line| - 1 {
        continue;
      }
      var testReg := line[..equalPos.value];
      var ghidraReg := line[equalPos.value + 1..];
      registerMapAfter := registerMapAfter[testReg := ghidraReg];
    }
    assert ws[i..] == [];
    result := if |registerMapAfter| == 0 then -1 else 0;
  }

  /** Of several lines naming the same test register, the last one decides. */
  lemma MappingLastLineWins(registerMap: map<string, string>, lines: seq<string>, i: nat)
    requires i < |lines| && ParseLine(lines[i]).Some?
    requires forall j :: i < j < |lines| && ParseLine(lines[j]).Some? ==> ParseLine(lines[j]).value.0 != ParseLine(lines[i]).value.0
    ensures ParseLine(lines[i]).value.0 in ApplyAll(registerMap, LineWrites(lines))
    ensures ApplyAll(registerMap, LineWrites(lines))[ParseLine(lines[i]).value.0] == ParseLine(lines[i]).value.1
  {
    LastWriteWins(registerMap, LineWrites(lines), i);
  }

  /** The mapped names are exactly those given before an '=' on a line kept by the loop. */
  lemma MappingKeys(registerMap: map<string, string>, lines: seq<string>)
    ensures ApplyAll(registerMap, LineWrites(lines)).Keys ==
      registerMap.Keys + (set i | 0 <= i < |lines| && ParseLine(lines[i]).Some? :: ParseLine(lines[i]).value.0)
  {
    var ws := LineWrites(lines);
    var names := set i | 0 <= i < |lines| && ParseLine(lines[i]).Some? :: ParseLine(lines[i]).value.0;
    ApplyAllKeys(registerMap, ws);
    forall t | t in Written(ws) ensures t in names {
      var i :| 0 <= i < |ws| && ws[i].Some? && ws[i].value.0 == t;
      assert ParseLine(lines[i]) == ws[i];
    }
    forall t | t in names ensures t in Written(ws) {
      var i :| 0 <= i < |lines| && ParseLine(lines[i]).Some? && ParseLine(lines[i]).value.0 == t;
      assert ws[i] == ParseLine(lines[i]);
    }
  }

  /** A file of a comment, a line ending in '=', and one mapping (the value may hold '='). */
  lemma MappingFileExample()
    ensures ApplyAll(map[], LineWrites(["# comment", "R1=", "R0=EAX=1"])) == map["R0" := "EAX=1"]
  {
    var lines := ["# comment", "R1=", "R0=EAX=1"];
    var ws := LineWrites(lines);
    assert ws[0] == None;
    assert FindChar("R1=", '=') == Some(2);
    assert ws[1] == None;
    assert FindChar("R0=EAX=1", '=') == Some(2);
    assert "R0=EAX=1"[..2] == "R0" && "R0=EAX=1"[3..] == "EAX=1";
    assert ws[2] == Some(("R0", "EAX=1"));
    assert ws == [None, None, Some(("R0", "EAX=1"))];
    assert ws[1..] == [None, Some(("R0", "EAX=1"))];
    assert ws[1..][1..] == [Some(("R0", "EAX=1"))];
    var rest: seq<Option<(string, string)>> := ws[1..][1..][1..];
    assert |rest| == 0;
  }

  /**
   * The truncated position lets a line without '=' through: it is stored as
   * a mapping of the whole line to itself, where the intended loop skips it.
   */
  lemma AsWrittenKeepsLineWithoutEquals(line: string)
    requires 0 < |line| < 0x1_0000_0000 && line[0] != '#' && '=' !in line
    ensures ParseLineAsWritten(line) == Some((line, line))
    ensures ParseLine(line).None?
  {
    assert NPOS % 0x1_0000_0000 == 0xFFFF_FFFF;
    assert (0xFFFF_FFFF + 1) % 0x1_0000_0000 == 0;
    assert line[..|line|] == line && line[0..] == line;
  }

  /**
   * The file holding only "FOO": as written the map is {FOO: FOO} and the
   * parse succeeds; as intended the map stays empty and the parse fails.
   */
  lemma AsWrittenMisreadExample()
    ensures ApplyAll(map[], [ParseLineAsWritten("FOO")]) == map["FOO" := "FOO"]
    ensures ApplyAll(map[], LineWrites(["FOO"])) == map[]
  {
    AsWrittenKeepsLineWithoutEquals("FOO");
    var ws := LineWrites(["FOO"]);
    assert ws == [None];
    var rest: seq<Option<(string, string)>> := ws[1..];
    assert |rest| == 0;
    var asWritten := [ParseLineAsWritten("FOO")];
    var restAsWritten: seq<Option<(string, string)>> := asWritten[1..];
    assert |restAsWritten| == 0;
  }

  /** On every line that has an '=' the two readings agree. */
  lemma AsWrittenAgreesWithEquals(line: string)
    requires |line| < 0x1_0000_0000 && '=' in line
    ensures ParseLineAsWritten(line) == ParseLine(line)
  {
  }

  /** default_test_params: the optional parameters get their defaults; nothing else changes. */
  method DefaultTestParams(p: TestParams)
    modifies p`maxFailures, p`startTest, p`wordSize
    ensures p.maxFailures == 10 && p.startTest == 0 && p.wordSize == 0
  {
    p.maxFailures := 10;
    p.startTest := 0;
    p.wordSize := 0;
  }

  /** One "i) SUCCESS" or "i) FAIL" line of the sequential driver. */
  datatype CaseReport = CaseReport(index: nat, passed: bool)

  /** The exit code of execute_test and the case lines it reported. */
  datatype RunResult = RunResult(code: int, reports: seq<CaseReport>)

  function Prepend(r: CaseReport, rest: RunResult): RunResult {
    RunResult(rest.code, [r] + rest.reports)
  }

  /**
   * The sequential loop from case `i` with `failCount` failures so far: a
   * set-up error ends the run with -1; a failure that brings the count to
   * the maximum ends it with -1 after its report.
   */
  function Drive(vs: seq<Verdict>, i: nat, failCount: nat, maxFailures: nat): RunResult
    decreases |vs| - i
  {
    if i >= |vs| then RunResult(0, [])
    else match vs[i]
      case SetupFailed => RunResult(-1, [])
      case Pass => Prepend(CaseReport(i, true), Drive(vs, i + 1, failCount, maxFailures))
      case Fail =>
        if failCount + 1 >= maxFailures then RunResult(-1, [CaseReport(i, false)])
        else Prepend(CaseReport(i, false), Drive(vs, i + 1, failCount + 1, maxFailures))
  }

  /**
   * The body of the loop for one case: a fresh emulator state pre-seeded
   * with the expected addresses, sla_emulate, then compare_state.
   */
  method RunCase(initial: TestState, final: TestState, step: Stepper) returns (result: int, passed: bool)
    ensures result == -1 <==> CaseVerdict(initial, final, step) == SetupFailed
    ensures result == 0 <==> CaseVerdict(initial, final, step) != SetupFailed
    ensures result == 0 ==> (passed <==> CaseVerdict(initial, final, step) == Pass)
  {
    var memory := PreseedMemory(final.memory);
    var emuFinal := TestState(map[], memory);
    assert emuFinal == Preseeded(final);
    var emulated;
    result, emulated := SlaEmulate(initial, emuFinal, step);
    passed := false;
    if result != 0 {
      return;
    }
    var verdict, _ := CompareState(final, emulated);
    passed := verdict == 0;
  }

  /** The run `rest` after the cases already reported in `reports`. */
  function After(reports: seq<CaseReport>, rest: RunResult): RunResult {
    RunResult(rest.code, reports + rest.reports)
  }

  lemma AfterPrepend(reports: seq<CaseReport>, r: CaseReport, rest: RunResult)
    ensures After(reports, Prepend(r, rest)) == After(reports + [r], rest)
  {
    assert reports + ([r] + rest.reports) == (reports + [r]) + rest.reports;
  }

  /** One step of Drive, as the loop takes it. */
  lemma DriveStep(vs: seq<Verdict>, i: nat, failCount: nat, maxFailures: nat)
    requires i < |vs|
    ensures vs[i] == SetupFailed ==> Drive(vs, i, failCount, maxFailures) == RunResult(-1, [])
    ensures vs[i] == Pass ==>
      Drive(vs, i, failCount, maxFailures) == Prepend(CaseReport(i, true), Drive(vs, i + 1, failCount, maxFailures))
    ensures vs[i] == Fail && failCount + 1 >= maxFailures ==>
      Drive(vs, i, failCount, maxFailures) == RunResult(-1, [CaseReport(i, false)])
    ensures vs[i] == Fail && failCount + 1 < maxFailures ==>
      Drive(vs, i, failCount, maxFailures) == Prepend(CaseReport(i, false), Drive(vs, i + 1, failCount + 1, maxFailures))
  {
  }

  /**
   * execute_test of main.cpp: the cases from `startTest` to the last loaded
   * one, each over a fresh emulator state pre-seeded with the expected
   * addresses.
   */
  method ExecuteTest(p: TestParams, doc: JsonDocument, step: Stepper) returns (result: int, reports: seq<CaseReport>)
    ensures result == 0 || result == -1
    ensures !Loads(doc, p.registerMap) ==> result == -1 && reports == []
    ensures Loads(doc, p.registerMap) ==>
      RunResult(result, reports) == Drive(Verdicts(Loaded(doc, p.registerMap), step), p.startTest, 0, p.maxFailures)
  {
    var r, initials, finals := GetTests(p.registerMap, doc, [], []);
    if r != 0 {
      return -1, [];
    }
    ghost var vs := Verdicts(Loaded(doc, p.registerMap), step);
    assert |vs| == |initials| == |finals|;
    assert forall k :: 0 <= k < |vs| ==> vs[k] == CaseVerdict(initials[k], finals[k], step);
    var maxFailures, startTest := p.maxFailures, p.startTest;
    var failCount: nat := 0;
    reports := [];
    var i: nat := startTest;
    while i < |initials|
      invariant Drive(vs, startTest, 0, maxFailures) == After(reports, Drive(vs, i, failCount, maxFailures))
      decreases |initials| - i
    {
      var passed;
      result, passed := RunCase(initials[i], finals[i], step);
      DriveStep(vs, i, failCount, maxFailures);
      if result != 0 {
        return;
      }
      if !passed {
        AfterPrepend(reports, CaseReport(i, false), Drive(vs, i + 1, failCount + 1, maxFailures));
        reports := reports + [CaseReport(i, false)];
        failCount := failCount + 1;
        if failCount >= maxFailures {
          return -1, reports;
        }
        i := i + 1;
        continue;
      }
      AfterPrepend(reports, CaseReport(i, true), Drive(vs, i + 1, failCount, maxFailures));
      reports := reports + [CaseReport(i, true)];
      i := i + 1;
    }
    result := 0;
  }

  /** The verdicts after position i, counted from i. */
  lemma {:induction false} DriveMeaning(vs: seq<Verdict>, i: nat, failCount: nat, maxFailures: nat)
    requires i <= |vs|
    ensures Drive(vs, i, failCount, maxFailures).code == 0 || Drive(vs, i, failCount, maxFailures).code == -1
    ensures Drive(vs, i, failCount, maxFailures).code == 0 <==>
      ((forall j :: i <= j < |vs| ==> vs[j] != SetupFailed) &&
       (Fails(vs[i..]) == 0 || failCount + Fails(vs[i..]) < maxFailures))
    decreases |vs| - i
  {
    if i < |vs| {
      assert vs[i..][1..] == vs[i + 1..];
      DriveMeaning(vs, i + 1, if vs[i] == Fail then failCount + 1 else failCount, maxFailures);
    }
  }

  /**
   * The cases run in increasing order from i: the k-th report is about case
   * i + k and says whether it passed, a run that succeeds reports every case,
   * and nothing runs when i is past the last case.
   */
  lemma {:induction false} DriveReports(vs: seq<Verdict>, i: nat, failCount: nat, maxFailures: nat)
    ensures i >= |vs| ==> Drive(vs, i, failCount, maxFailures) == RunResult(0, [])
    ensures i + |Drive(vs, i, failCount, maxFailures).reports| <= |vs| || Drive(vs, i, failCount, maxFailures).reports == []
    ensures forall k :: 0 <= k < |Drive(vs, i, failCount, maxFailures).reports| ==>
      Drive(vs, i, failCount, maxFailures).reports[k] == CaseReport(i + k, vs[i + k] == Pass)
    ensures Drive(vs, i, failCount, maxFailures).code == 0 && i <= |vs| ==> |Drive(vs, i, failCount, maxFailures).reports| == |vs| - i
    decreases |vs| - i
  {
    if i < |vs| {
      DriveReports(vs, i + 1, if vs[i] == Fail then failCount + 1 else failCount, maxFailures);
    }
  }

  /**
   * Without set-up errors and with a positive maximum, the sequential driver
   * succeeds exactly when a single parallel worker's run ends in Finish.
   */
  lemma SequentialAgreesWithParallel(vs: seq<Verdict>, maxFailures: nat)
    requires maxFailures > 0
    requires forall j :: 0 <= j < |vs| ==> vs[j] != SetupFailed
    ensures Drive(vs, 0, 0, maxFailures).code == 0 <==>
      PollDecision(Schedule(Counters(0, 0), vs, maxFailures), |vs|, maxFailures) == Finish
  {
    assert vs[0..] == vs;
    DriveMeaning(vs, 0, 0, maxFailures);
    if Fails(vs) < maxFailures {
      BudgetHoldsAllComplete(Counters(0, 0), vs, maxFailures);
    } else {
      ScheduleReachesMaximum(Counters(0, 0), vs, maxFailures);
    }
  }

  /**
   * With a maximum of 0 the two drivers part: the sequential one runs a
   * passing case and succeeds, the parallel one admits nothing and aborts.
   */
  lemma ZeroMaximumExample()
    ensures Drive([Pass], 0, 0, 0) == RunResult(0, [CaseReport(0, true)])
    ensures PollDecision(Schedule(Counters(0, 0), [Pass], 0), 1, 0) == Abort
  {
  }

  /** The register map after parse_register_mapping: unchanged without a file name. */
  function MappedRegisters(registerMapFilename: string, lines: seq<string>, registerMap: map<string, string>): map<string, string> {
    if registerMapFilename == "" then registerMap else ApplyAll(registerMap, LineWrites(lines))
  }

  /** parse_register_mapping returns 0: no file name, or a non-empty map. */
  predicate MappingAccepted(registerMapFilename: string, lines: seq<string>, registerMap: map<string, string>) {
    registerMapFilename == "" || |ApplyAll(registerMap, LineWrites(lines))| > 0
  }

  /**
   * The start-up order of main after the command line: the word size, then
   * the register map, then the test run. The first step that fails decides
   * the exit code (the register map failure as -1), and the later steps do
   * not run; the test run uses the register map the file produced.
   */
  method RunVerifier(p: TestParams, sla: Option<SlaDocument>, mappingLines: seq<string>, doc: JsonDocument, step: Stepper)
    returns (result: int, reports: seq<CaseReport>)
    modifies p`wordSize, p`registerMap
    ensures result == 0 || result == -1
    ensures !HasWordSize(sla) ==>
      result == -1 && reports == [] && p.wordSize == old(p.wordSize) && p.registerMap == old(p.registerMap)
    ensures HasWordSize(sla) ==>
      && (exists i :: FirstUsableAt(sla.value.spaces, DefaultSpaceOf(sla.value), i) &&
                      p.wordSize == sla.value.spaces[i].size.value % 0x1_0000_0000)
      && p.registerMap == MappedRegisters(p.registerMapFilename, mappingLines, old(p.registerMap))
    ensures HasWordSize(sla) && !MappingAccepted(p.registerMapFilename, mappingLines, old(p.registerMap)) ==>
      result == -1 && reports == []
    ensures HasWordSize(sla) && MappingAccepted(p.registerMapFilename, mappingLines, old(p.registerMap)) ==>
      && (!Loads(doc, p.registerMap) ==> result == -1 && reports == [])
      && (Loads(doc, p.registerMap) ==>
            RunResult(result, reports) == Drive(Verdicts(Loaded(doc, p.registerMap), step), p.startTest, 0, p.maxFailures))
  {
    reports := [];
    var wordSize;
    result, wordSize := SlaGetWordSize(sla, p.wordSize);
    p.wordSize := wordSize;
    if result != 0 {
      return;
    }
    var registerMap;
    result, registerMap := ParseRegisterMapping(p.registerMapFilename, mappingLines, p.registerMap);
    p.registerMap := registerMap;
    if result != 0 {
      return -1, reports;
    }
    result, reports := ExecuteTest(p, doc, step);
  }
}
