/**
 * Loading of the JSON test vectors (backends/json.cpp) over an already
 * parsed document. Each record has an "initial" and a "final" object; an
 * object maps register names to numbers and the key "ram" to a list of
 * [address, byte] pairs.
 */
module Json {
  import opened Wrappers
  import opened State
  import opened Writes

  /**
   * A JSON value as the loader sees it. `JNumber` is a value the conversion
   * to unsigned int accepts (a number, or a boolean as 0 or 1), already
   * converted. `JPairs` is a list of [address, byte] pairs, already
   * converted; null, `[]` and `{}` have no elements and are `JPairs([])`.
   * `JOther` is any other value: under a register key the conversion
   * throws, and as "ram" indexing its first element throws.
   */
  datatype JsonValue = JNumber(n: U32) | JPairs(pairs: seq<(U64, U8)>) | JOther

  /** The items of an object, in the library's iteration order. */
  type JsonObject = seq<(string, JsonValue)>

  /** One test: `NotAnObject` is a record that cannot be indexed by key. */
  datatype JsonRecord = Record(initial: JsonObject, final: JsonObject) | NotAnObject

  /** The result of json::parse: `Unparsable` when the parser throws. */
  datatype JsonDocument = Unparsable | Records(records: seq<JsonRecord>)

  const RAM_KEY := "ram"

  /** The name a test register is stored under: mapped if the map has it, else itself. */
  function TargetName(registerMap: map<string, string>, key: string): string {
    if key in registerMap then registerMap[key] else key
  }

  /** What read_json_registers does with one item: skip "ram", else store the number. */
  function ItemWrite(item: (string, JsonValue), registerMap: map<string, string>): Option<(string, U32)> {
    if item.0 == RAM_KEY || !item.1.JNumber? then None
    else Some((TargetName(registerMap, item.0), item.1.n))
  }

  function RegisterWrites(obj: JsonObject, registerMap: map<string, string>): seq<Option<(string, U32)>> {
    seq(|obj|, i requires 0 <= i < |obj| => ItemWrite(obj[i], registerMap))
  }

  /** Every item other than "ram" converts to unsigned int. */
  predicate Convertible(obj: JsonObject) {
    forall i :: 0 <= i < |obj| && obj[i].0 != RAM_KEY ==> obj[i].1.JNumber?
  }

  /** The register map after read_json_registers, or None when a conversion throws. */
  function ReadRegisters(registers: map<string, U32>, obj: JsonObject, registerMap: map<string, string>): Option<map<string, U32>> {
    if Convertible(obj) then Some(ApplyAll(registers, RegisterWrites(obj, registerMap))) else None
  }

  /** The value of the object's "ram" key; None when the key is absent (it then reads as null). */
  function RamOf(obj: JsonObject): Option<JsonValue>
    decreases |obj|
  {
    if obj == [] then None
    else if obj[0].0 == RAM_KEY then Some(obj[0].1)
    else RamOf(obj[1..])
  }

  function MemoryWrites(pairs: seq<(U64, U8)>): seq<Option<(U64, U8)>> {
    seq(|pairs|, i requires 0 <= i < |pairs| => Some(pairs[i]))
  }

  /**
   * The memory map after read_json_memory: null has no elements, a list of
   * pairs is written in order, anything else makes the indexing throw.
   */
  function ReadMemory(memory: map<U64, U8>, ram: Option<JsonValue>): Option<map<U64, U8>> {
    match ram
    case None => Some(memory)
    case Some(JPairs(pairs)) => Some(ApplyAll(memory, MemoryWrites(pairs)))
    case Some(_) => None
  }

  /** A "ram" with no elements (null, `[]`, `{}`) reads like an absent one. */
  lemma EmptyRamLikeAbsent(memory: map<U64, U8>)
    ensures ReadMemory(memory, Some(JPairs([]))) == ReadMemory(memory, None) == Some(memory)
  {
  }

  /** One record as get_tests builds it: initial and final use the same register map. */
  function LoadRecord(rec: JsonRecord, registerMap: map<string, string>): Option<(TestState, TestState)> {
    match rec
    case NotAnObject => None
    case Record(initial, final) =>
      match (ReadRegisters(map[], initial, registerMap), ReadRegisters(map[], final, registerMap),
             ReadMemory(map[], RamOf(initial)), ReadMemory(map[], RamOf(final)))
      case (Some(initialRegisters), Some(finalRegisters), Some(initialMemory), Some(finalMemory)) =>
        Some((TestState(initialRegisters, initialMemory), TestState(finalRegisters, finalMemory)))
      case _ => None
  }

  /** The records loaded before the first one that fails. */
  function LoadedPrefix(records: seq<JsonRecord>, registerMap: map<string, string>): seq<(TestState, TestState)>
    decreases |records|
  {
    if records == [] then []
    else match LoadRecord(records[0], registerMap)
      case None => []
      case Some(c) => [c] + LoadedPrefix(records[1..], registerMap)
  }

  /** The test cases get_tests appends, in record order. */
  function Loaded(doc: JsonDocument, registerMap: map<string, string>): seq<(TestState, TestState)> {
    if doc.Records? then LoadedPrefix(doc.records, registerMap) else []
  }

  /** get_tests succeeds: the document parses and every record loads. */
  predicate Loads(doc: JsonDocument, registerMap: map<string, string>) {
    doc.Records? && |LoadedPrefix(doc.records, registerMap)| == |doc.records|
  }

  function Initials(cases: seq<(TestState, TestState)>): seq<TestState> {
    seq(|cases|, k requires 0 <= k < |cases| => cases[k].0)
  }

  function Finals(cases: seq<(TestState, TestState)>): seq<TestState> {
    seq(|cases|, k requires 0 <= k < |cases| => cases[k].1)
  }

  /** read_json_registers: `registers` is the in/out map, `registersAfter` its new value. */
  method ReadJsonRegisters(obj: JsonObject, registers: map<string, U32>, registerMap: map<string, string>)
    returns (ok: bool, registersAfter: map<string, U32>)
    ensures ReadRegisters(registers, obj, registerMap) == if ok then Some(registersAfter) else None
  {
    ghost var ws := RegisterWrites(obj, registerMap);
    registersAfter := registers;
    var i := 0;
    assert ws[0..] == ws;
    while i < |obj|
      invariant 0 <= i <= |obj|
      invariant forall j :: 0 <= j < i && obj[j].0 != RAM_KEY ==> obj[j].1.JNumber?
      invariant ApplyAll(registersAfter, ws[i..]) == ApplyAll(registers, ws)
    {
      var (key, value) := obj[i];
      ApplyAllAt(registersAfter, ws, i);
      if key == RAM_KEY {
        i := i + 1;
        continue;
      }
      if !value.JNumber? {
        // converting the value to unsigned int throws
        return false, registersAfter;
      }
      var regName;
      if key in registerMap {
        regName := registerMap[key];
      } else {
        regName := key;
      }
      registersAfter := registersAfter[regName := value.n];
      i := i + 1;
    }
    ok := true;
  }

  /** read_json_memory: `memory` is the in/out map, `memoryAfter` its new value. */
  method ReadJsonMemory(ram: Option<JsonValue>, memory: map<U64, U8>) returns (ok: bool, memoryAfter: map<U64, U8>)
    ensures ReadMemory(memory, ram) == if ok then Some(memoryAfter) else None
  {
    memoryAfter := memory;
    if ram.None? {
      return true, memoryAfter;
    }
    if !ram.value.JPairs? {
      return false, memoryAfter;
    }
    var pairs := ram.value.pairs;
    ghost var ws := MemoryWrites(pairs);
    var i := 0;
    assert ws[0..] == ws;
    while i < |pairs|
      invariant 0 <= i <= |pairs|
      invariant ApplyAll(memoryAfter, ws[i..]) == ApplyAll(memory, ws)
    {
      ApplyAllAt(memoryAfter, ws, i);
      memoryAfter := memoryAfter[pairs[i].0 := pairs[i].1];
      i := i + 1;
    }
    ok := true;
  }

  /** The body of get_tests' loop for one record; `ok` is false where the library throws. */
  method ReadRecord(rec: JsonRecord, registerMap: map<string, string>)
    returns (ok: bool, initialState: TestState, finalState: TestState)
    ensures LoadRecord(rec, registerMap) == if ok then Some((initialState, finalState)) else None
  {
    initialState, finalState := TestState(map[], map[]), TestState(map[], map[]);
    if rec.NotAnObject? {
      return false, initialState, finalState;
    }
    var initialRegisters, finalRegisters, initialMemory, finalMemory;
    ok, initialRegisters := ReadJsonRegisters(rec.initial, map[], registerMap);
    if !ok {
      return;
    }
    ok, finalRegisters := ReadJsonRegisters(rec.final, map[], registerMap);
    if !ok {
      return;
    }
    ok, initialMemory := ReadJsonMemory(RamOf(rec.initial), map[]);
    if !ok {
      return;
    }
    ok, finalMemory := ReadJsonMemory(RamOf(rec.final), map[]);
    if !ok {
      return;
    }
    initialState := TestState(initialRegisters, initialMemory);
    finalState := TestState(finalRegisters, finalMemory);
  }

  /**
   * get_tests: appends one initial and one final state per record, in record
   * order. When a record fails, the ones before it stay appended and the
   * result is -1.
   */
  method GetTests(registerMap: map<string, string>, doc: JsonDocument, initials: seq<TestState>, finals: seq<TestState>)
    returns (result: int, initialsAfter: seq<TestState>, finalsAfter: seq<TestState>)
    ensures result == 0 || result == -1
    ensures result == 0 <==> Loads(doc, registerMap)
    ensures initialsAfter == initials + Initials(Loaded(doc, registerMap))
    ensures finalsAfter == finals + Finals(Loaded(doc, registerMap))
  {
    initialsAfter, finalsAfter := initials, finals;
    if doc.Unparsable? {
      return -1, initialsAfter, finalsAfter;
    }
    var records := doc.records;
    ghost var done: seq<(TestState, TestState)> := [];
    var i := 0;
    assert records[0..] == records;
    while i < |records|
      invariant 0 <= i <= |records|
      invariant LoadedPrefix(records, registerMap) == done + LoadedPrefix(records[i..], registerMap)
      invariant |done| == i
      invariant initialsAfter == initials + Initials(done)
      invariant finalsAfter == finals + Finals(done)
    {
      var ok, initialState, finalState := ReadRecord(records[i], registerMap);
      if !ok {
        PrefixStops(records, registerMap, i, done);
        return -1, initialsAfter, finalsAfter;
      }
      PrefixGrows(records, registerMap, i, done, (initialState, finalState));
      AppendCase(done, initialState, finalState);
      done := done + [(initialState, finalState)];
      initialsAfter := initialsAfter + [initialState];
      finalsAfter := finalsAfter + [finalState];
      i := i + 1;
    }
    assert records[i..] == [];
    assert LoadedPrefix(records, registerMap) == done + [];
    result := 0;
  }

  lemma PrefixStops(records: seq<JsonRecord>, registerMap: map<string, string>, i: nat, done: seq<(TestState, TestState)>)
    requires i < |records| && LoadRecord(records[i], registerMap).None?
    requires LoadedPrefix(records, registerMap) == done + LoadedPrefix(records[i..], registerMap)
    ensures LoadedPrefix(records, registerMap) == done
  {
    assert records[i..][0] == records[i];
    assert done + [] == done;
  }

  lemma PrefixGrows(records: seq<JsonRecord>, registerMap: map<string, string>, i: nat,
                    done: seq<(TestState, TestState)>, c: (TestState, TestState))
    requires i < |records| && LoadRecord(records[i], registerMap) == Some(c)
    requires LoadedPrefix(records, registerMap) == done + LoadedPrefix(records[i..], registerMap)
    ensures LoadedPrefix(records, registerMap) == (done + [c]) + LoadedPrefix(records[i + 1..], registerMap)
  {
    assert records[i..][0] == records[i];
    assert records[i..][1..] == records[i + 1..];
    assert done + ([c] + LoadedPrefix(records[i + 1..], registerMap)) == (done + [c]) + LoadedPrefix(records[i + 1..], registerMap);
  }

  lemma AppendCase(cases: seq<(TestState, TestState)>, initial: TestState, final: TestState)
    ensures Initials(cases + [(initial, final)]) == Initials(cases) + [initial]
    ensures Finals(cases + [(initial, final)]) == Finals(cases) + [final]
  {
  }

  /**
   * The loaded prefix is record by record what LoadRecord gives, and it
   * stops exactly at the first record that fails.
   */
  lemma {:induction false} LoadedPrefixSpec(records: seq<JsonRecord>, registerMap: map<string, string>)
    ensures |LoadedPrefix(records, registerMap)| <= |records|
    ensures forall k :: 0 <= k < |LoadedPrefix(records, registerMap)| ==>
      LoadRecord(records[k], registerMap) == Some(LoadedPrefix(records, registerMap)[k])
    ensures |LoadedPrefix(records, registerMap)| < |records| ==>
      LoadRecord(records[|LoadedPrefix(records, registerMap)|], registerMap).None?
    decreases |records|
  {
    if records != [] && LoadRecord(records[0], registerMap).Some? {
      LoadedPrefixSpec(records[1..], registerMap);
      var p := LoadedPrefix(records, registerMap);
      forall k | 0 <= k < |p| ensures LoadRecord(records[k], registerMap) == Some(p[k]) {
        if k > 0 { assert records[k] == records[1..][k - 1]; }
      }
    }
  }

  /** The registers a successful read holds: those it had and the target name of every non-"ram" item. */
  lemma RegisterKeys(registers: map<string, U32>, obj: JsonObject, registerMap: map<string, string>)
    requires Convertible(obj)
    ensures ReadRegisters(registers, obj, registerMap).value.Keys ==
      registers.Keys + (set i | 0 <= i < |obj| && obj[i].0 != RAM_KEY :: TargetName(registerMap, obj[i].0))
  {
    var ws := RegisterWrites(obj, registerMap);
    ApplyAllKeys(registers, ws);
    var names := set i | 0 <= i < |obj| && obj[i].0 != RAM_KEY :: TargetName(registerMap, obj[i].0);
    forall t | t in Written(ws) ensures t in names {
      var i :| 0 <= i < |ws| && ws[i].Some? && ws[i].value.0 == t;
    }
    forall t | t in names ensures t in Written(ws) {
      var i :| 0 <= i < |obj| && obj[i].0 != RAM_KEY && TargetName(registerMap, obj[i].0) == t;
      assert ws[i].Some?;
    }
  }

  /** An item keyed "ram", whatever its value, neither becomes a register nor makes the read fail. */
  lemma RamItemIgnored(registers: map<string, U32>, xs: JsonObject, ys: JsonObject, v: JsonValue, registerMap: map<string, string>)
    ensures ReadRegisters(registers, xs + [(RAM_KEY, v)] + ys, registerMap) == ReadRegisters(registers, xs + ys, registerMap)
  {
    var with := xs + [(RAM_KEY, v)] + ys;
    var without := xs + ys;
    assert Convertible(with) <==> Convertible(without) by {
      if Convertible(without) {
        forall i | 0 <= i < |with| && with[i].0 != RAM_KEY ensures with[i].1.JNumber? {
          if i < |xs| { assert with[i] == without[i]; }
          else if i > |xs| { assert with[i] == without[i - 1]; }
        }
      }
      if Convertible(with) {
        forall i | 0 <= i < |without| && without[i].0 != RAM_KEY ensures without[i].1.JNumber? {
          if i < |xs| { assert without[i] == with[i]; }
          else { assert without[i] == with[i + 1]; }
        }
      }
    }
    var wx, wy := RegisterWrites(xs, registerMap), RegisterWrites(ys, registerMap);
    assert RegisterWrites(with, registerMap) == wx + [None] + wy;
    assert RegisterWrites(without, registerMap) == wx + wy;
    SkipContributesNothing(registers, wx, wy);
  }

  /** When two items resolve to the same register, the later one is stored. */
  lemma RegisterLastWins(registers: map<string, U32>, obj: JsonObject, registerMap: map<string, string>, i: nat)
    requires Convertible(obj)
    requires i < |obj| && obj[i].0 != RAM_KEY
    requires forall j :: i < j < |obj| && obj[j].0 != RAM_KEY ==>
      TargetName(registerMap, obj[j].0) != TargetName(registerMap, obj[i].0)
    ensures TargetName(registerMap, obj[i].0) in ReadRegisters(registers, obj, registerMap).value
    ensures ReadRegisters(registers, obj, registerMap).value[TargetName(registerMap, obj[i].0)] == obj[i].1.n
  {
    LastWriteWins(registers, RegisterWrites(obj, registerMap), i);
  }

  /** Every [address, byte] pair is written; the last write to an address wins. */
  lemma MemoryLastWins(memory: map<U64, U8>, pairs: seq<(U64, U8)>, i: nat)
    requires i < |pairs|
    requires forall j :: i < j < |pairs| ==> pairs[j].0 != pairs[i].0
    ensures ReadMemory(memory, Some(JPairs(pairs))).value.Keys == memory.Keys + (set j | 0 <= j < |pairs| :: pairs[j].0)
    ensures ReadMemory(memory, Some(JPairs(pairs))).value[pairs[i].0] == pairs[i].1
  {
    var ws := MemoryWrites(pairs);
    ApplyAllKeys(memory, ws);
    assert Written(ws) == set j | 0 <= j < |pairs| :: pairs[j].0 by {
      forall a | a in (set j | 0 <= j < |pairs| :: pairs[j].0) ensures a in Written(ws) {
        var j :| 0 <= j < |pairs| && pairs[j].0 == a;
        assert ws[j].value.0 == a;
      }
    }
    LastWriteWins(memory, ws, i);
  }

  /** {"R0" -> "EAX"} and R0 = 5 give EAX = 5 and no R0. */
  lemma MappedRegisterExample()
    ensures ReadRegisters(map[], [("R0", JNumber(5))], map["R0" := "EAX"]) == Some(map["EAX" := 5])
  {
    var ws := RegisterWrites([("R0", JNumber(5))], map["R0" := "EAX"]);
    assert ws == [Some(("EAX", 5))];
    assert |ws[1..]| == 0;
  }

  /** Pairs [[0x10, 0xAA], [0x10, 0xBB]] give memory[0x10] == 0xBB. */
  lemma DuplicateAddressExample()
    ensures ReadMemory(map[], Some(JPairs([(0x10, 0xAA), (0x10, 0xBB)]))) == Some(map[0x10 := 0xBB])
  {
    var pairs: seq<(U64, U8)> := [(0x10, 0xAA), (0x10, 0xBB)];
    var ws := MemoryWrites(pairs);
    assert ws == [Some((0x10, 0xAA)), Some((0x10, 0xBB))];
    var m1: map<U64, U8> := map[0x10 := 0xAA];
    assert ApplyAll(map[], ws) == ApplyAll(m1, ws[1..]);
    assert m1[0x10 := 0xBB] == map[0x10 := 0xBB];
    assert ApplyAll(m1, ws[1..]) == ApplyAll(map[0x10 := 0xBB], ws[1..][1..]);
    var rest: seq<Option<(U64, U8)>> := ws[1..][1..];
    assert |rest| == 0;
  }
}
