/**
 * The two workflow stores of the operator BFF: the in-memory one keyed by a concatenated string, and the SQL table
 * with its unique (operator, kind, key) constraint. Created and updated timestamps are not modelled.
 */
module WorkflowStore {
  import opened Wrappers
  import opened Text
  import opened StableSort

  // ---------- contracts ----------

  datatype Kind = ReadinessSnapshot

  datatype Status = Queued | Running | Succeeded | Failed

  datatype SnapshotResult = SnapshotResult(target: string, status: int, ok: bool, latencyMs: nat, observedAtUtc: string)

  datatype Record = Record(
    id: string, operatorId: string, idempotencyKey: string, kind: Kind, status: Status,
    result: Option<SnapshotResult>, errorCode: Option<string>)

  datatype Patch = Patch(result: Option<SnapshotResult>, errorCode: Option<string>)

  datatype Created = Created(record: Record, created: bool)

  datatype StoreError = DanglingIndex | NoSuchWorkflow | UnexpectedStatus(actual: Status) | MissingRow

  function NewRecord(id: string, operatorId: string, kind: Kind, key: string): Record {
    Record(id, operatorId, key, kind, Queued, None, None)
  }

  // ---------- the in-memory store ----------

  function KindText(kind: Kind): string {
    match kind
    case ReadinessSnapshot => "readiness_snapshot"
  }

  function IndexKey(operatorId: string, kind: Kind, key: string): string {
    operatorId + ":" + KindText(kind) + ":" + key
  }

  datatype Memory = Memory(records: map<string, Record>, index: map<string, string>)

  function MemCreateOrGet(m: Memory, operatorId: string, kind: Kind, key: string, freshId: string)
    : (Memory, Result<Created, StoreError>)
  {
    var k := IndexKey(operatorId, kind, key);
    if k in m.index && m.index[k] != "" then
      if m.index[k] in m.records then (m, Success(Created(m.records[m.index[k]], false)))
      else (m, Failure(DanglingIndex))
    else
      var record := NewRecord(freshId, operatorId, kind, key);
      (Memory(m.records[freshId := record], m.index[k := freshId]), Success(Created(record, true)))
  }

  function MemGet(m: Memory, id: string): Option<Record> {
    if id in m.records then Some(m.records[id]) else None
  }

  /** The patch is spread over the record: a field it does not carry keeps its value. */
  function Merged(r: Record, next: Status, p: Patch): Record {
    r.(status := next,
    result := if p.result.Some? then p.result else r.result,
    errorCode := if p.errorCode.Some? then p.errorCode else r.errorCode)
  }

  function MemTransition(m: Memory, id: string, expected: Status, next: Status, p: Patch)
    : (Memory, Result<Record, StoreError>)
  {
    if id !in m.records then (m, Failure(NoSuchWorkflow))
    else if m.records[id].status != expected then (m, Failure(UnexpectedStatus(m.records[id].status)))
    else
      var record := Merged(m.records[id], next, p);
      (m.(records := m.records[id := record]), Success(record))
  }

  class InMemoryWorkflowStore {
    var records: map<string, Record>
    var idempotencyIndex: map<string, string>

    ghost function Contents(): Memory
      reads this
    {
      Memory(records, idempotencyIndex)
    }

    constructor ()
      ensures Contents() == Memory(map[], map[])
    {
      records, idempotencyIndex := map[], map[];
    }

    method CreateOrGet(operatorId: string, kind: Kind, key: string, freshId: string)
      returns (r: Result<Created, StoreError>)
      modifies this
      ensures (Contents(), r) == MemCreateOrGet(old(Contents()), operatorId, kind, key, freshId)
    {
      var indexKey := operatorId + ":" + KindText(kind) + ":" + key;
      if indexKey in idempotencyIndex && idempotencyIndex[indexKey] != "" {
        var existingId := idempotencyIndex[indexKey];
        if existingId !in records {
          return Failure(DanglingIndex);
        }
        return Success(Created(records[existingId], false));
      }
      var record := NewRecord(freshId, operatorId, kind, key);
      records := records[record.id := record];
      idempotencyIndex := idempotencyIndex[indexKey := record.id];
      return Success(Created(record, true));
    }

    method Get(id: string) returns (r: Option<Record>)
      ensures r == MemGet(Contents(), id)
    {
      r := if id in records then Some(records[id]) else None;
    }

    method Transition(id: string, expected: Status, next: Status, patch: Patch) returns (r: Result<Record, StoreError>)
      modifies this`records
      ensures (Contents(), r) == MemTransition(old(Contents()), id, expected, next, patch)
    {
      if id !in records {
        return Failure(NoSuchWorkflow);
      }
      var current := records[id];
      if current.status != expected {
        return Failure(UnexpectedStatus(current.status));
      }
      var record := current.(status := next);
      if patch.result.Some? {
        record := record.(result := patch.result);
      }
      if patch.errorCode.Some? {
        record := record.(errorCode := patch.errorCode);
      }
      records := records[id := record];
      return Success(record);
    }
  }

  // ---------- the SQL store ----------

  datatype Row = Row(
    workflowId: string, operatorId: string, idempotencyKey: string, kind: Kind, status: Status,
    result: Option<SnapshotResult>, errorCode: Option<string>)

  /** An empty error_code column reads back as no error code. */
  function ToRecord(row: Row): Record {
    Record(row.workflowId, row.operatorId, row.idempotencyKey, row.kind, row.status, row.result,
           if row.errorCode == Some("") then None else row.errorCode)
  }

  predicate HoldsKey(row: Row, operatorId: string, kind: Kind, key: string) {
    row.operatorId == operatorId && row.kind == kind && row.idempotencyKey == key
  }

  /** The position of the first row that satisfies the WHERE clause, or the row count. */
  function Find(rows: seq<Row>, where: Row -> bool): (i: nat)
    ensures i <= |rows|
    ensures forall k :: 0 <= k < i ==> !where(rows[k])
    ensures i < |rows| ==> where(rows[i])
  {
    if rows == [] || where(rows[0]) then 0 else 1 + Find(rows[1..], where)
  }

  function FindKey(rows: seq<Row>, operatorId: string, kind: Kind, key: string): nat {
    Find(rows, (row: Row) => HoldsKey(row, operatorId, kind, key))
  }

  function FindId(rows: seq<Row>, id: string): nat {
    Find(rows, (row: Row) => row.workflowId == id)
  }

  function SqlCreateOrGet(rows: seq<Row>, operatorId: string, kind: Kind, key: string, freshId: string)
    : (seq<Row>, Result<Created, StoreError>)
  {
    var i := FindKey(rows, operatorId, kind, key);
    if i < |rows| then (rows, Success(Created(ToRecord(rows[i]), false)))
    else
      var row := Row(freshId, operatorId, key, kind, Queued, None, None);
      (rows + [row], Success(Created(ToRecord(row), true)))
  }

  function SqlGet(rows: seq<Row>, id: string): Option<Record> {
    var i := FindId(rows, id);
    if i < |rows| then Some(ToRecord(rows[i])) else None
  }

  /** The patch overwrites both columns: a field it does not carry becomes NULL. */
  function SqlTransition(rows: seq<Row>, id: string, expected: Status, next: Status, p: Patch)
    : (seq<Row>, Result<Record, StoreError>)
  {
    var i := FindId(rows, id);
    if i == |rows| then (rows, Failure(NoSuchWorkflow))
    else if rows[i].status != expected then (rows, Failure(UnexpectedStatus(rows[i].status)))
    else
      var row := rows[i].(status := next, result := p.result, errorCode := p.errorCode);
      (rows[i := row], Success(ToRecord(row)))
  }

  class PostgresWorkflowStore {
    var rows: seq<Row>

    constructor ()
      ensures rows == []
    {
      rows := [];
    }

    /** INSERT .. ON CONFLICT DO NOTHING, then SELECT by the unique key when nothing was inserted. */
    method CreateOrGet(operatorId: string, kind: Kind, key: string, workflowId: string)
      returns (r: Result<Created, StoreError>)
      modifies this
      ensures (rows, r) == SqlCreateOrGet(old(rows), operatorId, kind, key, workflowId)
    {
      var conflict := FindKey(rows, operatorId, kind, key);
      if conflict == |rows| {
        var inserted := Row(workflowId, operatorId, key, kind, Queued, None, None);
        rows := rows + [inserted];
        return Success(Created(ToRecord(inserted), true));
      }
      var existing := FindKey(rows, operatorId, kind, key);
      if existing == |rows| {
        return Failure(MissingRow);
      }
      return Success(Created(ToRecord(rows[existing]), false));
    }

    method Get(id: string) returns (r: Option<Record>)
      ensures r == SqlGet(rows, id)
    {
      var i := FindId(rows, id);
      r := if i < |rows| then Some(ToRecord(rows[i])) else None;
    }

    /** UPDATE .. WHERE id and status match; a miss is diagnosed by reading the row again. */
    method Transition(id: string, expected: Status, next: Status, patch: Patch) returns (r: Result<Record, StoreError>)
      modifies this
      ensures (rows, r) == SqlTransition(old(rows), id, expected, next, patch)
    {
      var i := FindId(rows, id);
      if i < |rows| && rows[i].status == expected {
        var row := rows[i].(status := next, result := patch.result, errorCode := patch.errorCode);
        rows := rows[i := row];
        return Success(ToRecord(row));
      }
      var current := Get(id);
      if current == None {
        return Failure(NoSuchWorkflow);
      }
      return Failure(UnexpectedStatus(current.value.status));
    }
  }

  // ---------- call sequences ----------

  datatype Call =
    | CreateOrGet(operatorId: string, kind: Kind, key: string, freshId: string)
    | Get(id: string)
    | Transition(id: string, expected: Status, next: Status, patch: Patch)

  datatype Answer =
    | Creation(creation: Result<Created, StoreError>)
    | Lookup(lookup: Option<Record>)
    | Moved(moved: Result<Record, StoreError>)

  function MemCall(m: Memory, call: Call): (Memory, Answer) {
    match call
    case CreateOrGet(op, kind, key, id) => var (n, r) := MemCreateOrGet(m, op, kind, key, id); (n, Creation(r))
    case Get(id) => (m, Lookup(MemGet(m, id)))
    case Transition(id, from, to, p) => var (n, r) := MemTransition(m, id, from, to, p); (n, Moved(r))
  }

  function SqlCall(rows: seq<Row>, call: Call): (seq<Row>, Answer) {
    match call
    case CreateOrGet(op, kind, key, id) => var (n, r) := SqlCreateOrGet(rows, op, kind, key, id); (n, Creation(r))
    case Get(id) => (rows, Lookup(SqlGet(rows, id)))
    case Transition(id, from, to, p) => var (n, r) := SqlTransition(rows, id, from, to, p); (n, Moved(r))
  }

  function MemRun(m: Memory, calls: seq<Call>): (answers: seq<Answer>)
    ensures |answers| == |calls|
    decreases |calls|
  {
    if calls == [] then [] else var (n, a) := MemCall(m, calls[0]); [a] + MemRun(n, calls[1..])
  }

  function SqlRun(rows: seq<Row>, calls: seq<Call>): (answers: seq<Answer>)
    ensures |answers| == |calls|
    decreases |calls|
  {
    if calls == [] then [] else var (n, a) := SqlCall(rows, calls[0]); [a] + SqlRun(n, calls[1..])
  }

  function MemAfter(m: Memory, calls: seq<Call>): Memory
    decreases |calls|
  {
    if calls == [] then m else MemAfter(MemCall(m, calls[0]).0, calls[1..])
  }

  function SqlAfter(rows: seq<Row>, calls: seq<Call>): seq<Row>
    decreases |calls|
  {
    if calls == [] then rows else SqlAfter(SqlCall(rows, calls[0]).0, calls[1..])
  }

  /** The ids that creations bring along. */
  function Ids(calls: seq<Call>): set<string> {
    set call | call in calls && call.CreateOrGet? :: call.freshId
  }

  // ---------- what one call does, field by field ----------

  /** The table answers the row of this operator, kind and key, and makes one, queued, exactly when there is none. */
  lemma SqlCreates(rows: seq<Row>, op: string, kind: Kind, key: string, id: string)
    ensures var (t, r) := SqlCreateOrGet(rows, op, kind, key, id);
            && r.Success?
            && r.value.record.operatorId == op && r.value.record.kind == kind && r.value.record.idempotencyKey == key
            && (r.value.created <==>
                forall i :: 0 <= i < |rows| ==>
                              !(rows[i].operatorId == op && rows[i].kind == kind && rows[i].idempotencyKey == key))
            && (if r.value.created
                then t == rows + [Row(id, op, key, kind, Queued, None, None)]
                     && r.value.record == Record(id, op, key, kind, Queued, None, None)
                else t == rows)
  {
    var i := FindKey(rows, op, kind, key);
    if i < |rows| {
      assert HoldsKey(rows[i], op, kind, key);
    }
    assert forall k :: 0 <= k < i ==> !HoldsKey(rows[k], op, kind, key);
  }

  /** The memory store goes by the text operator:readiness_snapshot:key and makes a record exactly when it is unused. */
  lemma MemCreates(m: Memory, op: string, key: string, id: string)
    ensures var (n, r) := MemCreateOrGet(m, op, ReadinessSnapshot, key, id);
            var text := op + ":readiness_snapshot:" + key;
            var used := text in m.index && m.index[text] != "";
            if used && m.index[text] !in m.records then n == m && r == Failure(DanglingIndex)
            else if used then n == m && r == Success(Created(m.records[m.index[text]], false))
            else
              var record := Record(id, op, key, ReadinessSnapshot, Queued, None, None);
              n == Memory(m.records[id := record], m.index[text := id]) && r == Success(Created(record, true))
  {
    IndexKeyShape(op, ReadinessSnapshot, key);
  }

  /**
   * A transition takes place exactly on a record in the expected status; it sets the status, keeps who and what the
   * record is for, and applies the patch: merged in memory, overwriting in the table.
   */
  lemma MemMoves(m: Memory, id: string, expected: Status, next: Status, p: Patch)
    ensures var (n, r) := MemTransition(m, id, expected, next, p);
            if id !in m.records then n == m && r == Failure(NoSuchWorkflow)
            else if m.records[id].status != expected then n == m && r == Failure(UnexpectedStatus(m.records[id].status))
            else
              var was := m.records[id];
              && r == Success(Record(was.id, was.operatorId, was.idempotencyKey, was.kind, next,
                                     if p.result.Some? then p.result else was.result,
                                     if p.errorCode.Some? then p.errorCode else was.errorCode))
              && n == Memory(m.records[id := r.value], m.index)
  {
  }

  lemma SqlMoves(rows: seq<Row>, i: nat, expected: Status, next: Status, p: Patch)
    requires i < |rows| && forall j, k :: 0 <= j < k < |rows| ==> rows[j].workflowId != rows[k].workflowId
    ensures var (t, r) := SqlTransition(rows, rows[i].workflowId, expected, next, p);
            var row := rows[i];
            if row.status != expected then t == rows && r == Failure(UnexpectedStatus(row.status))
            else
              && t == rows[i := Row(row.workflowId, row.operatorId, row.idempotencyKey, row.kind, next, p.result,
                                    p.errorCode)]
              && r == Success(Record(row.workflowId, row.operatorId, row.idempotencyKey, row.kind, next, p.result,
                                     if p.errorCode == Some("") then None else p.errorCode))
  {
    FindIdOf(rows, i);
  }

  // ---------- lookups read back what was stored ----------

  /** An index entry leads to a record of the memory. */
  ghost predicate IndexKept(m: Memory) {
    forall k :: k in m.index && m.index[k] != "" ==> m.index[k] in m.records && m.records[m.index[k]].id == m.index[k]
  }

  /**
   * After a creation under a fresh id or a transition, a lookup finds the record that was answered; other ids are as
   * before.
   */
  lemma MemGetReadsBack(m: Memory, call: Call, id: string)
    requires IndexKept(m) && forall i :: i in m.records ==> m.records[i].id == i
    ensures var (n, answer) := MemCall(m, call);
            && (answer.Creation? && answer.creation.Success? ==>
                  MemGet(n, answer.creation.value.record.id) == Some(answer.creation.value.record))
            && (answer.Moved? && answer.moved.Success? ==> MemGet(n, answer.moved.value.id) == Some(answer.moved.value))
            && (answer.Lookup? ==> n == m)
            && (call.CreateOrGet? && id != call.freshId ==> MemGet(n, id) == MemGet(m, id))
            && (call.Transition? && id != call.id ==> MemGet(n, id) == MemGet(m, id))
  {
  }

  lemma FindIdOf(rows: seq<Row>, i: nat)
    requires i < |rows| && forall j, k :: 0 <= j < k < |rows| ==> rows[j].workflowId != rows[k].workflowId
    ensures FindId(rows, rows[i].workflowId) == i
  {
  }

  lemma {:induction false} FindIn(rows: seq<Row>, t: seq<Row>, where: Row -> bool)
    requires |rows| <= |t| && forall i :: 0 <= i < |rows| ==> where(t[i]) == where(rows[i])
    requires forall i :: |rows| <= i < |t| ==> !where(t[i])
    ensures Find(rows, where) < |rows| ==> Find(t, where) == Find(rows, where)
    ensures Find(rows, where) == |rows| ==> Find(t, where) == |t|
  {
  }

  /** The same of the table, whose rows have distinct ids. */
  lemma SqlGetReadsBack(rows: seq<Row>, call: Call, id: string)
    requires forall j, k :: 0 <= j < k < |rows| ==> rows[j].workflowId != rows[k].workflowId
    requires call.CreateOrGet? ==> forall i :: 0 <= i < |rows| ==> rows[i].workflowId != call.freshId
    ensures var (t, answer) := SqlCall(rows, call);
            && (answer.Creation? && answer.creation.Success? ==>
                  SqlGet(t, answer.creation.value.record.id) == Some(answer.creation.value.record))
            && (answer.Moved? && answer.moved.Success? ==> SqlGet(t, answer.moved.value.id) == Some(answer.moved.value))
            && (answer.Lookup? ==> t == rows)
            && (call.CreateOrGet? && id != call.freshId ==> SqlGet(t, id) == SqlGet(rows, id))
            && (call.Transition? && id != call.id ==> SqlGet(t, id) == SqlGet(rows, id))
  {
    var t := SqlCall(rows, call).0;
    match call
    case CreateOrGet(op, kind, key, freshId) =>
      var i := FindKey(rows, op, kind, key);
      FindIdOf(t, i);
      if id != freshId {
        FindIn(rows, t, (row: Row) => row.workflowId == id);
      }
    case Transition(target, _, _, _) =>
      var i := FindId(rows, target);
      if i < |rows| {
        FindIdOf(t, i);
      }
      if id != target {
        FindIn(rows, t, (row: Row) => row.workflowId == id);
      }
    case Get(_) =>
  }

  // ---------- the transitions and ids of the service ----------

  /** The transitions the service issues: start, succeed with a result, fail with a non-empty error code. */
  predicate ServiceTransition(from: Status, to: Status, p: Patch) {
    || (from == Queued && to == Running && p == Patch(None, None))
    || (from == Running && to == Succeeded && p.result.Some? && p.errorCode == None)
    || (from == Running && to == Failed && p.result == None && p.errorCode.Some? && p.errorCode.value != "")
  }

  /** Calls for these operators under such keys, with any patches; generated ids are non-empty and new. */
  ghost predicate StoreCalls(calls: seq<Call>, operators: set<string>, keys: string -> bool, used: set<string>) {
    calls != [] ==>
      match calls[0]
      case CreateOrGet(op, _, key, id) =>
        op in operators && keys(key) && id != "" && id !in used
        && StoreCalls(calls[1..], operators, keys, used + {id})
      case _ => StoreCalls(calls[1..], operators, keys, used)
  }

  predicate ServiceTransitions(calls: seq<Call>) {
    forall i :: 0 <= i < |calls| && calls[i].Transition?
                ==> ServiceTransition(calls[i].expected, calls[i].next, calls[i].patch)
  }

  /** Calls the service can issue for these operators under such keys. */
  ghost predicate ServiceCalls(calls: seq<Call>, operators: set<string>, keys: string -> bool, used: set<string>) {
    StoreCalls(calls, operators, keys, used) && ServiceTransitions(calls)
  }

  // ---------- the keys the service admits ----------

  /** What JavaScript's String.trim removes. */
  predicate JsBlank(c: char) {
    '\t' <= c <= '\r' || c == ' ' || c == '\U{A0}' || c == '\U{1680}' || '\U{2000}' <= c <= '\U{200A}'
    || c == '\U{2028}' || c == '\U{2029}' || c == '\U{202F}' || c == '\U{205F}' || c == '\U{3000}' || c == '\U{FEFF}'
  }

  function JsTrim(s: string): string {
    if s != "" && JsBlank(s[0]) then JsTrim(s[1..])
    else if s != "" && JsBlank(s[|s| - 1]) then JsTrim(s[..|s| - 1])
    else s
  }

  /** JavaScript's String.length: UTF-16 code units. */
  function Units(s: string): nat {
    if s == "" then 0 else (if s[0] < '\U{10000}' then 1 else 2) + Units(s[1..])
  }

  /** The key a start call hands to the store, or None where the service refuses it. */
  function AdmitKey(raw: string): Option<string> {
    if 8 <= Units(JsTrim(raw)) <= 128 then Some(JsTrim(raw)) else None
  }

  predicate Admissible(key: string) {
    8 <= Units(key) <= 128 && !JsBlank(key[0]) && !JsBlank(key[|key| - 1])
  }

  /** The admissible keys are exactly those that some start call hands to the store. */
  lemma AdmitsAdmissible(raw: string)
    ensures AdmitKey(raw).Some? ==> Admissible(AdmitKey(raw).value)
    ensures Admissible(raw) ==> AdmitKey(raw) == Some(raw)
  {
    JsTrimShape(raw);
  }

  predicate AllJsBlank(s: string) {
    forall i :: 0 <= i < |s| ==> JsBlank(s[i])
  }

  /**
   * The key handed on is what is left when the blanks at both ends are dropped, of 8 to 128 UTF-16 units: one for a
   * character, two for a wide one beyond the basic plane.
   */
  lemma AdmitReads(raw: string, wide: char -> bool) returns (a: string, key: string, b: string)
    requires forall c :: wide(c) <==> c >= '\U{10000}'
    ensures raw == a + key + b && AllJsBlank(a) && AllJsBlank(b)
    ensures key != "" ==> !JsBlank(key[0]) && !JsBlank(key[|key| - 1])
    ensures AdmitKey(raw) == if 8 <= Units(key) <= 128 then Some(key) else None
    ensures Units(key) == |key| + |Filter(wide, key)|
  {
    key := JsTrim(raw);
    a, b := JsTrimDrops(raw);
    JsTrimShape(raw);
    UnitsOfWide(key, wide);
  }

  lemma {:induction false} JsTrimDrops(s: string) returns (a: string, b: string)
    ensures s == a + JsTrim(s) + b && AllJsBlank(a) && AllJsBlank(b)
    decreases |s|
  {
    if s != "" && JsBlank(s[0]) {
      var rest, end := JsTrimDrops(s[1..]);
      a, b := [s[0]] + rest, end;
    } else if s != "" && JsBlank(s[|s| - 1]) {
      var start, rest := JsTrimDrops(s[..|s| - 1]);
      a, b := start, rest + [s[|s| - 1]];
    } else {
      a, b := "", "";
    }
  }

  lemma {:induction false} UnitsOfWide(s: string, wide: char -> bool)
    requires forall c :: wide(c) <==> c >= '\U{10000}'
    ensures Units(s) == |s| + |Filter(wide, s)|
  {
    if s != "" {
      UnitsOfWide(s[1..], wide);
    }
  }

  lemma JsTrimShape(s: string)
    ensures JsTrim(s) != "" ==> !JsBlank(JsTrim(s)[0]) && !JsBlank(JsTrim(s)[|JsTrim(s)| - 1])
    ensures s != "" && !JsBlank(s[0]) && !JsBlank(s[|s| - 1]) ==> JsTrim(s) == s
  {
  }

  lemma {:induction false} UnitsAppend(s: string, t: string)
    ensures Units(s + t) == Units(s) + Units(t)
  {
    if s == "" {
      assert s + t == t;
    } else {
      assert (s + t)[1..] == s[1..] + t;
      UnitsAppend(s[1..], t);
    }
  }

  // ---------- when concatenated keys collide ----------

  const SEPARATOR := ":readiness_snapshot:"

  /** Some keys of the two operators concatenate to the same text. */
  ghost predicate Collide(a: string, b: string, keys: string -> bool) {
    a != b && exists x, y :: keys(x) && keys(y)
                             && IndexKey(a, ReadinessSnapshot, x) == IndexKey(b, ReadinessSnapshot, y)
  }

  ghost predicate CollisionFree(operators: set<string>, keys: string -> bool) {
    forall a, b :: a in operators && b in operators ==> !Collide(a, b, keys)
  }

  /** One operator and the separator run into the other. */
  predicate Overlapping(a: string, b: string) {
    a != b && (a + SEPARATOR <= b + ":" || b + SEPARATOR <= a + ":")
  }

  /**
   * a and the separator run into b, and what b adds leaves room in an admissible key and does not begin it with a
   * blank.
   */
  predicate RunsInto(a: string, b: string) {
    && a + SEPARATOR <= b + ":"
    && Units(b) + 8 <= Units(a) + 128
    && (|a| + |SEPARATOR| < |b| ==> !JsBlank(b[|a| + |SEPARATOR|]))
  }

  predicate Confusable(a: string, b: string) {
    a != b && (RunsInto(a, b) || RunsInto(b, a))
  }

  predicate Separable(operators: set<string>) {
    forall a, b :: a in operators && b in operators ==> !Confusable(a, b)
  }

  lemma IndexKeyShape(operatorId: string, kind: Kind, key: string)
    ensures IndexKey(operatorId, kind, key) == operatorId + SEPARATOR + key
  {
    assert KindText(kind) == "readiness_snapshot";
    assert SEPARATOR == ":" + "readiness_snapshot" + ":";
    assert operatorId + ":" + "readiness_snapshot" + ":" + key == operatorId + (":" + "readiness_snapshot" + ":") + key;
  }

  /** The separator overlaps itself in its outer colons only. */
  lemma SeparatorOverlap(k: nat)
    requires 0 < k < |SEPARATOR| && SEPARATOR[k..] <= SEPARATOR
    ensures k == |SEPARATOR| - 1
  {
    assert SEPARATOR[k] == SEPARATOR[k..][0] == SEPARATOR[0];
  }

  lemma SamePrefix(a: string, x: string, b: string, y: string)
    requires |a| == |b| && a + x == b + y
    ensures a == b
  {
    assert a == (a + x)[..|a|] && b == (b + y)[..|a|];
  }

  lemma CollisionOverlaps(a: string, x: string, b: string, y: string)
    requires a + SEPARATOR + x == b + SEPARATOR + y && |a| < |b|
    ensures a + SEPARATOR <= b + ":"
    ensures x == (b + SEPARATOR + y)[|a| + |SEPARATOR|..]
  {
    var s := a + SEPARATOR + x;
    var k := |b| - |a|;
    assert b == s[..|b|] && s[|b|..|b| + |SEPARATOR|] == SEPARATOR;
    assert a + SEPARATOR == s[..|a| + |SEPARATOR|];
    if k < |SEPARATOR| {
      assert SEPARATOR == s[|a|..|a| + |SEPARATOR|];
      assert SEPARATOR[k..] == s[|b|..|a| + |SEPARATOR|] == SEPARATOR[..|SEPARATOR| - k];
      SeparatorOverlap(k);
      assert b + ":" == s[..|b| + 1];
    }
  }

  /** The key a needs to collide with y under b. */
  lemma OverlapCollides(a: string, b: string, y: string) returns (x: string)
    requires a + SEPARATOR <= b + ":"
    ensures a + SEPARATOR + x == b + SEPARATOR + y
  {
    var t := b + SEPARATOR + y;
    assert b + ":" <= t by {
      assert SEPARATOR[0] == ':';
      assert (b + ":")[..|b|] == b == t[..|b|] && t[|b|] == ':';
    }
    x := t[|a| + |SEPARATOR|..];
    assert t[..|a| + |SEPARATOR|] == a + SEPARATOR;
  }

  lemma CollidingUnits(a: string, x: string, b: string, y: string)
    requires a + SEPARATOR + x == b + SEPARATOR + y
    ensures Units(a) + Units(x) == Units(b) + Units(y)
  {
    UnitsBalance(a, x, b, y, SEPARATOR);
  }

  lemma UnitsBalance(a: string, x: string, b: string, y: string, separator: string)
    requires a + separator + x == b + separator + y
    ensures Units(a) + Units(x) == Units(b) + Units(y)
  {
    UnitsAppend(a, separator);
    UnitsAppend(a + separator, x);
    UnitsAppend(b, separator);
    UnitsAppend(b + separator, y);
  }

  /** The colliding key begins where b goes on, or with the separator's tail, and ends as y does. */
  lemma CollidingEnds(a: string, x: string, b: string, y: string)
    requires a + SEPARATOR + x == b + SEPARATOR + y && a + SEPARATOR <= b + ":" && y != ""
    ensures |x| > |y| && x[|x| - 1] == y[|y| - 1]
    ensures |a| + |SEPARATOR| < |b| ==> x[0] == b[|a| + |SEPARATOR|]
    ensures |a| + |SEPARATOR| >= |b| ==> x[0] in {':', 'r'}
  {
    var s := a + SEPARATOR + x;
    assert x[0] == s[|a| + |SEPARATOR|] && x[|x| - 1] == s[|s| - 1];
    assert y[|y| - 1] == (b + SEPARATOR + y)[|s| - 1];
    if |a| + |SEPARATOR| >= |b| {
      assert x[0] == SEPARATOR[|a| + |SEPARATOR| - |b|];
    }
  }

  lemma RunsIntoIff(a: string, b: string)
    requires |a| < |b|
    ensures RunsInto(a, b) <==> exists x, y :: Admissible(x) && Admissible(y) && a + SEPARATOR + x == b + SEPARATOR + y
  {
    if x, y :| Admissible(x) && Admissible(y) && a + SEPARATOR + x == b + SEPARATOR + y {
      CollisionOverlaps(a, x, b, y);
      CollidingUnits(a, x, b, y);
      CollidingEnds(a, x, b, y);
    }
    if RunsInto(a, b) {
      var y := ShortKey();
      var x := OverlapCollides(a, b, y);
      RoomForKey(a, x, b, y);
    }
  }

  lemma RoomForKey(a: string, x: string, b: string, y: string)
    requires RunsInto(a, b) && a + SEPARATOR + x == b + SEPARATOR + y && Admissible(y) && Units(y) == 8 == |y|
    ensures Admissible(x)
  {
    CollidingUnits(a, x, b, y);
    CollidingEnds(a, x, b, y);
    UnitsAtLeastLength(x);
  }

  lemma ShortKey() returns (key: string)
    ensures Admissible(key) && Units(key) == 8 == |key|
  {
    UnitsAppend("1234", "5678");
    key := "1234" + "5678";
  }

  lemma SameLengthNoCollision(a: string, x: string, b: string, y: string)
    requires |a| == |b| && a + SEPARATOR + x == b + SEPARATOR + y
    ensures a == b
  {
    assert a + (SEPARATOR + x) == a + SEPARATOR + x && b + (SEPARATOR + y) == b + SEPARATOR + y;
    SamePrefix(a, SEPARATOR + x, b, SEPARATOR + y);
  }

  lemma UnitsAtLeastLength(s: string)
    ensures Units(s) >= |s|
  {
  }

  /** Two operators collide under keys the service admits exactly when one runs into the other. */
  lemma CollideIffConfusable(a: string, b: string)
    ensures Collide(a, b, Admissible) <==> Confusable(a, b)
  {
    forall x, y | IndexKey(a, ReadinessSnapshot, x) == IndexKey(b, ReadinessSnapshot, y)
      ensures a + SEPARATOR + x == b + SEPARATOR + y && b + SEPARATOR + y == a + SEPARATOR + x
    {
      IndexKeyShape(a, ReadinessSnapshot, x);
      IndexKeyShape(b, ReadinessSnapshot, y);
    }
    if Collide(a, b, Admissible) {
      var x, y :| Admissible(x) && Admissible(y)
                  && IndexKey(a, ReadinessSnapshot, x) == IndexKey(b, ReadinessSnapshot, y);
      if |a| < |b| {
        RunsIntoIff(a, b);
      } else if |b| < |a| {
        RunsIntoIff(b, a);
      } else {
        SameLengthNoCollision(a, x, b, y);
      }
    }
    if Confusable(a, b) {
      ConfusableCollide(a, b);
    }
  }

  lemma SeparableIffCollisionFree(operators: set<string>)
    ensures Separable(operators) <==> CollisionFree(operators, Admissible)
  {
    forall a, b | a in operators && b in operators ensures Collide(a, b, Admissible) <==> Confusable(a, b) {
      CollideIffConfusable(a, b);
    }
  }

  lemma ConfusableCollide(a: string, b: string)
    requires Confusable(a, b)
    ensures Collide(a, b, Admissible)
  {
    var x, y;
    if RunsInto(a, b) {
      RunsIntoIff(a, b);
      x, y :| Admissible(x) && Admissible(y) && a + SEPARATOR + x == b + SEPARATOR + y;
    } else {
      RunsIntoIff(b, a);
      y, x :| Admissible(y) && Admissible(x) && b + SEPARATOR + y == a + SEPARATOR + x;
    }
    IndexKeyShape(a, ReadinessSnapshot, x);
    IndexKeyShape(b, ReadinessSnapshot, y);
  }

  /** Whatever the keys, only overlapping operators collide. */
  lemma CollideOverlap(a: string, b: string, keys: string -> bool)
    requires Collide(a, b, keys)
    ensures Overlapping(a, b)
  {
    var x, y :| keys(x) && keys(y) && IndexKey(a, ReadinessSnapshot, x) == IndexKey(b, ReadinessSnapshot, y);
    IndexKeyShape(a, ReadinessSnapshot, x);
    IndexKeyShape(b, ReadinessSnapshot, y);
    if |a| < |b| {
      CollisionOverlaps(a, x, b, y);
    } else if |b| < |a| {
      CollisionOverlaps(b, y, a, x);
    } else {
      SameLengthNoCollision(a, x, b, y);
    }
  }

  lemma OverlapHasColon(a: string, b: string)
    requires a + SEPARATOR <= b + ":"
    ensures !ColonFree(b)
  {
    assert (a + SEPARATOR)[|a|] == ':' && |a| + |SEPARATOR| <= |b| + 1;
    assert b[|a|] == (b + ":")[|a|];
  }

  /** Colon-free operators never collide, whatever the keys. */
  lemma ColonFreeSeparable(operators: set<string>, keys: string -> bool)
    requires forall a :: a in operators ==> ColonFree(a)
    ensures CollisionFree(operators, keys)
  {
    forall a, b | a in operators && b in operators && Collide(a, b, keys) ensures false {
      CollideOverlap(a, b, keys);
      if a + SEPARATOR <= b + ":" {
        OverlapHasColon(a, b);
      } else {
        OverlapHasColon(b, a);
      }
    }
  }

  lemma IndexKeyInjective(operators: set<string>, keys: string -> bool, a: string, j: Kind, x: string, b: string,
                          k: Kind, y: string)
    requires CollisionFree(operators, keys) && a in operators && b in operators && keys(x) && keys(y)
    requires IndexKey(a, j, x) == IndexKey(b, k, y)
    ensures a == b && j == k && x == y
  {
    assert !Collide(a, b, keys);
    IndexKeyShape(a, j, x);
    IndexKeyShape(b, k, y);
    assert x == (a + SEPARATOR + x)[|a| + |SEPARATOR|..] && y == (b + SEPARATOR + y)[|a| + |SEPARATOR|..];
  }

  // ---------- the memory store refines the SQL store ----------

  function RowIndexKey(row: Row): string {
    IndexKey(row.operatorId, row.kind, row.idempotencyKey)
  }

  /** The memory store holds the row, under its id and under its index key. */
  predicate Mirrored(m: Memory, row: Row) {
    && row.workflowId in m.records && m.records[row.workflowId] == ToRecord(row)
    && RowIndexKey(row) in m.index && m.index[RowIndexKey(row)] == row.workflowId
  }

  predicate Issued(row: Row, operators: set<string>, keys: string -> bool, used: set<string>) {
    row.workflowId in used && row.workflowId != "" && row.operatorId in operators && keys(row.idempotencyKey)
  }

  ghost predicate HasId(rows: seq<Row>, id: string) {
    exists i :: 0 <= i < |rows| && rows[i].workflowId == id
  }

  ghost predicate HasIndexKey(rows: seq<Row>, k: string) {
    exists i :: 0 <= i < |rows| && RowIndexKey(rows[i]) == k
  }

  ghost predicate AllMirrored(m: Memory, rows: seq<Row>, operators: set<string>, keys: string -> bool,
                              used: set<string>) {
    forall i :: 0 <= i < |rows| ==> Issued(rows[i], operators, keys, used) && Mirrored(m, rows[i])
  }

  ghost predicate DistinctIds(rows: seq<Row>) {
    forall i, j :: 0 <= i < j < |rows| ==> rows[i].workflowId != rows[j].workflowId
  }

  ghost predicate Covered(m: Memory, rows: seq<Row>) {
    (forall id :: id in m.records ==> HasId(rows, id)) && (forall k :: k in m.index ==> HasIndexKey(rows, k))
  }

  ghost predicate Same(m: Memory, rows: seq<Row>, operators: set<string>, keys: string -> bool, used: set<string>) {
    AllMirrored(m, rows, operators, keys, used) && DistinctIds(rows) && Covered(m, rows)
  }

  /** The index always points to an existing record with that key. */
  lemma IndexPointsHome(m: Memory, rows: seq<Row>, operators: set<string>, keys: string -> bool, used: set<string>,
                        k: string)
    requires Same(m, rows, operators, keys, used) && k in m.index
    ensures m.index[k] in m.records
    ensures var r := m.records[m.index[k]]; r.id == m.index[k] && IndexKey(r.operatorId, r.kind, r.idempotencyKey) == k
  {
    assert HasIndexKey(rows, k);
    var i :| 0 <= i < |rows| && RowIndexKey(rows[i]) == k;
    assert Mirrored(m, rows[i]);
  }

  lemma CreateAgrees(m: Memory, rows: seq<Row>, operators: set<string>, keys: string -> bool, used: set<string>,
                     op: string, kind: Kind, key: string, id: string)
    requires Same(m, rows, operators, keys, used) && CollisionFree(operators, keys) && op in operators && keys(key)
             && id != "" && id !in used
    ensures var (n, a) := MemCreateOrGet(m, op, kind, key, id);
            var (t, b) := SqlCreateOrGet(rows, op, kind, key, id);
            a == b && Same(n, t, operators, keys, used + {id})
  {
    var k := IndexKey(op, kind, key);
    var i := FindKey(rows, op, kind, key);
    if i < |rows| {
      assert Mirrored(m, rows[i]) && Issued(rows[i], operators, keys, used);
      assert RowIndexKey(rows[i]) == k;
      assert Same(m, rows, operators, keys, used + {id});
    } else {
      if k in m.index {
        assert HasIndexKey(rows, k);
        var j :| 0 <= j < |rows| && RowIndexKey(rows[j]) == k;
        assert Issued(rows[j], operators, keys, used);
        IndexKeyInjective(operators, keys, rows[j].operatorId, rows[j].kind, rows[j].idempotencyKey, op, kind, key);
      }
      AppendAgrees(m, rows, operators, keys, used, Row(id, op, key, kind, Queued, None, None));
    }
  }

  lemma AppendAgrees(m: Memory, rows: seq<Row>, operators: set<string>, keys: string -> bool, used: set<string>,
                     row: Row)
    requires Same(m, rows, operators, keys, used) && row.operatorId in operators && keys(row.idempotencyKey)
    requires row.workflowId != "" && row.workflowId !in used && RowIndexKey(row) !in m.index
    ensures Same(Memory(m.records[row.workflowId := ToRecord(row)], m.index[RowIndexKey(row) := row.workflowId]),
                 rows + [row], operators, keys, used + {row.workflowId})
  {
    var n := Memory(m.records[row.workflowId := ToRecord(row)], m.index[RowIndexKey(row) := row.workflowId]);
    var t := rows + [row];
    forall i | 0 <= i < |t| ensures Issued(t[i], operators, keys, used + {row.workflowId}) && Mirrored(n, t[i]) {
      if i < |rows| {
        assert t[i] == rows[i] && Issued(rows[i], operators, keys, used) && Mirrored(m, rows[i]);
      }
    }
    forall i, j | 0 <= i < j < |t| ensures t[i].workflowId != t[j].workflowId {
      assert Issued(rows[i], operators, keys, used);
    }
    AppendCovered(m, rows, row);
  }

  lemma AppendCovered(m: Memory, rows: seq<Row>, row: Row)
    requires Covered(m, rows)
    ensures Covered(Memory(m.records[row.workflowId := ToRecord(row)], m.index[RowIndexKey(row) := row.workflowId]),
                    rows + [row])
  {
    var n := Memory(m.records[row.workflowId := ToRecord(row)], m.index[RowIndexKey(row) := row.workflowId]);
    var t := rows + [row];
    assert t[|rows|] == row;
    forall id | id in n.records ensures HasId(t, id) {
      if id != row.workflowId {
        HasIdInLonger(rows, t, id);
      }
    }
    forall k | k in n.index ensures HasIndexKey(t, k) {
      if k != RowIndexKey(row) {
        HasIndexKeyInLonger(rows, t, k);
      }
    }
  }

  lemma HasIdInLonger(rows: seq<Row>, t: seq<Row>, id: string)
    requires HasId(rows, id) && |rows| <= |t|
    requires forall i :: 0 <= i < |rows| ==> t[i].workflowId == rows[i].workflowId
    ensures HasId(t, id)
  {
    var i :| 0 <= i < |rows| && rows[i].workflowId == id;
    assert t[i].workflowId == id;
  }

  lemma HasIndexKeyInLonger(rows: seq<Row>, t: seq<Row>, k: string)
    requires HasIndexKey(rows, k) && |rows| <= |t|
    requires forall i :: 0 <= i < |rows| ==> RowIndexKey(t[i]) == RowIndexKey(rows[i])
    ensures HasIndexKey(t, k)
  {
    var i :| 0 <= i < |rows| && RowIndexKey(rows[i]) == k;
    assert RowIndexKey(t[i]) == k;
  }

  lemma GetAgrees(m: Memory, rows: seq<Row>, operators: set<string>, keys: string -> bool, used: set<string>,
                  id: string)
    requires Same(m, rows, operators, keys, used)
    ensures MemGet(m, id) == SqlGet(rows, id)
    ensures id in m.records <==> FindId(rows, id) < |rows|
  {
    var i := FindId(rows, id);
    if i < |rows| {
      assert Mirrored(m, rows[i]);
    }
    IdFound(rows, id);
  }

  lemma IdFound(rows: seq<Row>, id: string)
    ensures HasId(rows, id) ==> FindId(rows, id) < |rows|
  {
  }

  lemma UpdateMirrored(m: Memory, rows: seq<Row>, operators: set<string>, keys: string -> bool, used: set<string>,
                       i: nat, row: Row, j: nat)
    requires Same(m, rows, operators, keys, used) && i < |rows| && j < |rows|
    requires row == rows[i].(status := row.status, result := row.result, errorCode := row.errorCode)
    ensures Issued(rows[i := row][j], operators, keys, used)
    ensures Mirrored(m.(records := m.records[row.workflowId := ToRecord(row)]), rows[i := row][j])
  {
    assert Issued(rows[j], operators, keys, used) && Mirrored(m, rows[j]);
    assert i != j ==> rows[i].workflowId != rows[j].workflowId;
  }

  lemma UpdateCovered(m: Memory, rows: seq<Row>, i: nat, row: Row)
    requires Covered(m, rows) && i < |rows| && row.workflowId in m.records
    requires row == rows[i].(status := row.status, result := row.result, errorCode := row.errorCode)
    ensures Covered(m.(records := m.records[row.workflowId := ToRecord(row)]), rows[i := row])
  {
    var t, n := rows[i := row], m.(records := m.records[row.workflowId := ToRecord(row)]);
    forall id | id in n.records ensures HasId(t, id) {
      HasIdInLonger(rows, t, id);
    }
    forall k | k in n.index ensures HasIndexKey(t, k) {
      HasIndexKeyInLonger(rows, t, k);
    }
  }

  lemma UpdateAgrees(m: Memory, rows: seq<Row>, operators: set<string>, keys: string -> bool, used: set<string>,
                     i: nat, row: Row)
    requires Same(m, rows, operators, keys, used) && i < |rows|
    requires row == rows[i].(status := row.status, result := row.result, errorCode := row.errorCode)
    ensures Same(m.(records := m.records[row.workflowId := ToRecord(row)]), rows[i := row], operators, keys, used)
  {
    var t, n := rows[i := row], m.(records := m.records[row.workflowId := ToRecord(row)]);
    assert AllMirrored(n, t, operators, keys, used) by {
      forall j | 0 <= j < |t| ensures Issued(t[j], operators, keys, used) && Mirrored(n, t[j]) {
        UpdateMirrored(m, rows, operators, keys, used, i, row, j);
      }
    }
    assert Covered(n, t) by {
      assert Mirrored(m, rows[i]);
      UpdateCovered(m, rows, i, row);
    }
    UpdateDistinct(rows, i, row);
  }

  lemma UpdateDistinct(rows: seq<Row>, i: nat, row: Row)
    requires DistinctIds(rows) && i < |rows| && row.workflowId == rows[i].workflowId
    ensures DistinctIds(rows[i := row])
  {
  }

  // ---------- exactly when merged and overwritten patches agree ----------

  /** The patch brings whatever the record already holds, and no empty error code. */
  predicate Carries(p: Patch, r: Record) {
    (r.result.Some? ==> p.result.Some?) && (r.errorCode.Some? ==> p.errorCode.Some?) && p.errorCode != Some("")
  }

  function Overwritten(row: Row, next: Status, p: Patch): Row {
    row.(status := next, result := p.result, errorCode := p.errorCode)
  }

  lemma MergedIsOverwrittenIff(row: Row, next: Status, p: Patch)
    ensures Merged(ToRecord(row), next, p) == ToRecord(Overwritten(row, next, p)) <==> Carries(p, ToRecord(row))
  {
  }

  /** The transition finds its record in another status or not at all, or its patch carries what the record holds. */
  predicate CarriesAt(rows: seq<Row>, id: string, expected: Status, p: Patch) {
    var i := FindId(rows, id);
    i < |rows| && rows[i].status == expected ==> Carries(p, ToRecord(rows[i]))
  }

  /** Any transition gets one answer from both stores exactly when it carries on; then the stores match again. */
  lemma TransitionAgreesIff(m: Memory, rows: seq<Row>, operators: set<string>, keys: string -> bool, used: set<string>,
                            id: string, from: Status, to: Status, p: Patch)
    requires Same(m, rows, operators, keys, used)
    ensures var (n, a) := MemTransition(m, id, from, to, p);
            var (t, b) := SqlTransition(rows, id, from, to, p);
            (a == b <==> CarriesAt(rows, id, from, p)) && (a == b ==> Same(n, t, operators, keys, used))
  {
    var i := FindId(rows, id);
    GetAgrees(m, rows, operators, keys, used, id);
    if i < |rows| && rows[i].status == from {
      SwapAgreesIff(m, rows, operators, keys, used, i, to, p);
      TransitionSwaps(m, rows, i, to, p);
    } else {
      TransitionMisses(m, rows, id, from, to, p);
    }
  }

  lemma TransitionMisses(m: Memory, rows: seq<Row>, id: string, from: Status, to: Status, p: Patch)
    requires MemGet(m, id) == SqlGet(rows, id)
    requires FindId(rows, id) < |rows| ==> rows[FindId(rows, id)].status != from
    ensures MemTransition(m, id, from, to, p) == (m, SqlTransition(rows, id, from, to, p).1)
    ensures SqlTransition(rows, id, from, to, p).0 == rows && CarriesAt(rows, id, from, p)
  {
  }

  lemma TransitionSwaps(m: Memory, rows: seq<Row>, i: nat, to: Status, p: Patch)
    requires i < |rows| && FindId(rows, rows[i].workflowId) == i
    requires MemGet(m, rows[i].workflowId) == Some(ToRecord(rows[i]))
    ensures var merged, row := Merged(ToRecord(rows[i]), to, p), Overwritten(rows[i], to, p);
            && MemTransition(m, rows[i].workflowId, rows[i].status, to, p)
               == (m.(records := m.records[rows[i].workflowId := merged]), Success(merged))
            && SqlTransition(rows, rows[i].workflowId, rows[i].status, to, p)
               == (rows[i := row], Success(ToRecord(row)))
  {
  }

  lemma SwapAgreesIff(m: Memory, rows: seq<Row>, operators: set<string>, keys: string -> bool, used: set<string>,
                      i: nat, to: Status, p: Patch)
    requires Same(m, rows, operators, keys, used) && i < |rows|
    ensures var merged, row := Merged(ToRecord(rows[i]), to, p), Overwritten(rows[i], to, p);
            && (merged == ToRecord(row) <==> Carries(p, ToRecord(rows[i])))
            && (merged == ToRecord(row) ==>
                  Same(m.(records := m.records[rows[i].workflowId := merged]), rows[i := row], operators, keys, used))
  {
    MergedIsOverwrittenIff(rows[i], to, p);
    UpdateAgrees(m, rows, operators, keys, used, i, Overwritten(rows[i], to, p));
  }

  /** Every transition of the sequence carries on where it applies. */
  predicate CarriesAll(rows: seq<Row>, calls: seq<Call>)
    decreases |calls|
  {
    calls != [] ==>
      && (calls[0].Transition? ==> CarriesAt(rows, calls[0].id, calls[0].expected, calls[0].patch))
      && CarriesAll(SqlCall(rows, calls[0]).0, calls[1..])
  }

  /**
   * From matching states and for operators that do not collide, any call sequence, whatever its patches, gets the same
   * answers from both stores exactly when every transition carries on; then the stores match at its end.
   */
  lemma {:induction false} RunsAgreeIff(m: Memory, rows: seq<Row>, calls: seq<Call>, operators: set<string>,
                                        keys: string -> bool, used: set<string>)
    requires Same(m, rows, operators, keys, used) && CollisionFree(operators, keys)
    requires StoreCalls(calls, operators, keys, used)
    ensures MemRun(m, calls) == SqlRun(rows, calls) <==> CarriesAll(rows, calls)
    ensures CarriesAll(rows, calls) ==>
              Same(MemAfter(m, calls), SqlAfter(rows, calls), operators, keys, used + Ids(calls))
    decreases |calls|
  {
    if calls == [] {
      assert used + Ids(calls) == used;
    } else {
      var n, t := MemCall(m, calls[0]).0, SqlCall(rows, calls[0]).0;
      var more := used + Ids([calls[0]]);
      IdsSplit(calls);
      assert used + Ids(calls) == more + Ids(calls[1..]);
      StoreCallsSplit(calls, operators, keys, used);
      CallAgreesIff(m, rows, calls[0], operators, keys, used);
      RunsSplit(m, rows, calls);
      if MemCall(m, calls[0]).1 == SqlCall(rows, calls[0]).1 {
        RunsAgreeIff(n, t, calls[1..], operators, keys, more);
      }
    }
  }

  lemma IdsSplit(calls: seq<Call>)
    requires calls != []
    ensures Ids(calls) == Ids([calls[0]]) + Ids(calls[1..])
    ensures Ids([calls[0]]) == if calls[0].CreateOrGet? then {calls[0].freshId} else {}
  {
    assert calls == [calls[0]] + calls[1..];
  }

  lemma StoreCallsSplit(calls: seq<Call>, operators: set<string>, keys: string -> bool, used: set<string>)
    requires StoreCalls(calls, operators, keys, used) && calls != []
    ensures StoreCalls([calls[0]], operators, keys, used)
    ensures StoreCalls(calls[1..], operators, keys, used + Ids([calls[0]]))
  {
    IdsSplit(calls);
    assert used + {} == used;
  }

  lemma {:induction false} StoreCallsAppend(calls: seq<Call>, more: seq<Call>, operators: set<string>,
                                            keys: string -> bool, used: set<string>)
    requires StoreCalls(calls, operators, keys, used) && StoreCalls(more, operators, keys, used + Ids(calls))
    ensures StoreCalls(calls + more, operators, keys, used)
    decreases |calls|
  {
    if calls == [] {
      assert calls + more == more && used + Ids(calls) == used;
    } else {
      assert (calls + more)[1..] == calls[1..] + more;
      IdsSplit(calls);
      var next := used + Ids([calls[0]]);
      StoreCallsSplit(calls, operators, keys, used);
      assert used + Ids(calls) == next + Ids(calls[1..]) && used + {} == used;
      StoreCallsAppend(calls[1..], more, operators, keys, next);
    }
  }

  lemma ServiceCallsAppend(calls: seq<Call>, more: seq<Call>, operators: set<string>, keys: string -> bool,
                           used: set<string>)
    requires ServiceCalls(calls, operators, keys, used) && ServiceCalls(more, operators, keys, used + Ids(calls))
    ensures ServiceCalls(calls + more, operators, keys, used) && Ids(calls + more) == Ids(calls) + Ids(more)
  {
    StoreCallsAppend(calls, more, operators, keys, used);
  }

  lemma {:induction false} SqlAfterAppend(rows: seq<Row>, calls: seq<Call>, more: seq<Call>)
    ensures SqlAfter(rows, calls + more) == SqlAfter(SqlAfter(rows, calls), more)
    decreases |calls|
  {
    if calls == [] {
      assert calls + more == more;
    } else {
      assert (calls + more)[1..] == calls[1..] + more;
      SqlAfterAppend(SqlCall(rows, calls[0]).0, calls[1..], more);
    }
  }

  lemma RunsSplit(m: Memory, rows: seq<Row>, calls: seq<Call>)
    requires calls != []
    ensures var (n, a) := MemCall(m, calls[0]);
            var (t, b) := SqlCall(rows, calls[0]);
            MemRun(m, calls) == SqlRun(rows, calls) <==> a == b && MemRun(n, calls[1..]) == SqlRun(t, calls[1..])
  {
    var (n, a) := MemCall(m, calls[0]);
    var (t, b) := SqlCall(rows, calls[0]);
    assert MemRun(m, calls)[0] == a && SqlRun(rows, calls)[0] == b;
    assert MemRun(m, calls)[1..] == MemRun(n, calls[1..]) && SqlRun(rows, calls)[1..] == SqlRun(t, calls[1..]);
  }

  lemma CallAgreesIff(m: Memory, rows: seq<Row>, call: Call, operators: set<string>, keys: string -> bool,
                      used: set<string>)
    requires Same(m, rows, operators, keys, used) && CollisionFree(operators, keys)
    requires StoreCalls([call], operators, keys, used)
    ensures var (n, a) := MemCall(m, call);
            var (t, b) := SqlCall(rows, call);
            && (a == b <==> (call.Transition? ==> CarriesAt(rows, call.id, call.expected, call.patch)))
            && (a == b ==> Same(n, t, operators, keys, used + Ids([call])))
  {
    IdsSplit([call]);
    match call
    case CreateOrGet(op, kind, key, id) =>
      CreateAgrees(m, rows, operators, keys, used, op, kind, key, id);
    case Get(id) =>
      GetAgrees(m, rows, operators, keys, used, id);
      assert used + Ids([call]) == used;
    case Transition(id, from, to, p) =>
      TransitionAgreesIff(m, rows, operators, keys, used, id, from, to, p);
      assert used + Ids([call]) == used;
  }

  // ---------- the service's patches always carry on ----------

  /** Only terminal rows carry a result or an error code, each in its own status. */
  predicate WellKept(row: Row) {
    && (row.result.Some? ==> row.status == Succeeded)
    && (row.errorCode.Some? ==> row.status == Failed && row.errorCode.value != "")
  }

  predicate AllKept(rows: seq<Row>) {
    forall i :: 0 <= i < |rows| ==> WellKept(rows[i])
  }

  lemma ServiceCallKeeps(rows: seq<Row>, call: Call)
    requires AllKept(rows) && ServiceTransitions([call])
    ensures AllKept(SqlCall(rows, call).0)
    ensures call.Transition? ==> CarriesAt(rows, call.id, call.expected, call.patch)
  {
    assert call.Transition? ==> ServiceTransition([call][0].expected, [call][0].next, [call][0].patch);
  }

  lemma {:induction false} ServiceCarriesAll(rows: seq<Row>, calls: seq<Call>)
    requires AllKept(rows) && ServiceTransitions(calls)
    ensures CarriesAll(rows, calls)
    decreases |calls|
  {
    if calls != [] {
      ServiceCallKeeps(rows, calls[0]);
      ServiceCarriesAll(SqlCall(rows, calls[0]).0, calls[1..]);
    }
  }

  /** So the service gets the same answers from both stores, and leaves them matching. */
  lemma RunsAgree(m: Memory, rows: seq<Row>, calls: seq<Call>, operators: set<string>, keys: string -> bool,
                  used: set<string>)
    requires Same(m, rows, operators, keys, used) && CollisionFree(operators, keys) && AllKept(rows)
    requires ServiceCalls(calls, operators, keys, used)
    ensures MemRun(m, calls) == SqlRun(rows, calls)
    ensures Same(MemAfter(m, calls), SqlAfter(rows, calls), operators, keys, used + Ids(calls))
  {
    ServiceCarriesAll(rows, calls);
    RunsAgreeIff(m, rows, calls, operators, keys, used);
  }

  lemma CollidingRunsDiffer(a: string, b: string, operators: set<string>, keys: string -> bool)
    returns (calls: seq<Call>)
    requires a in operators && b in operators && Collide(a, b, keys)
    ensures ServiceCalls(calls, operators, keys, {}) && MemRun(Memory(map[], map[]), calls) != SqlRun([], calls)
  {
    var x, y :| keys(x) && keys(y) && IndexKey(a, ReadinessSnapshot, x) == IndexKey(b, ReadinessSnapshot, y);
    var first, second := CreateOrGet(a, ReadinessSnapshot, x, "1"), CreateOrGet(b, ReadinessSnapshot, y, "2");
    calls := [first, second];
    assert calls[1..] == [second] && calls[1..][1..] == [];
    var m := MemCall(Memory(map[], map[]), first).0;
    var rows := SqlCall([], first).0;
    assert rows == [Row("1", a, x, ReadinessSnapshot, Queued, None, None)];
    assert MemCall(m, second).1 == Creation(Success(Created(NewRecord("1", a, ReadinessSnapshot, x), false)));
    assert SqlCall(rows, second).1 == Creation(Success(Created(NewRecord("2", b, ReadinessSnapshot, y), true)));
    assert MemRun(Memory(map[], map[]), calls)[1] != SqlRun([], calls)[1];
  }

  /**
   * Under any rule for keys, the stores answer every service call sequence alike exactly when no two operators
   * collide.
   */
  lemma RefinesIffCollisionFree(operators: set<string>, keys: string -> bool)
    ensures CollisionFree(operators, keys) <==>
            forall calls :: ServiceCalls(calls, operators, keys, {}) ==>
                              MemRun(Memory(map[], map[]), calls) == SqlRun([], calls)
  {
    if CollisionFree(operators, keys) {
      forall calls | ServiceCalls(calls, operators, keys, {})
        ensures MemRun(Memory(map[], map[]), calls) == SqlRun([], calls)
      {
        RunsAgree(Memory(map[], map[]), [], calls, operators, keys, {});
      }
    } else {
      var a, b :| a in operators && b in operators && Collide(a, b, keys);
      var calls := CollidingRunsDiffer(a, b, operators, keys);
    }
  }

  /**
   * Under the keys the service admits, the stores answer every service call sequence of these operators alike exactly
   * when no two of them are confusable.
   */
  lemma MemoryRefinesSql(operators: set<string>)
    ensures Separable(operators) <==>
            forall calls :: ServiceCalls(calls, operators, Admissible, {}) ==>
                              MemRun(Memory(map[], map[]), calls) == SqlRun([], calls)
  {
    SeparableIffCollisionFree(operators);
    RefinesIffCollisionFree(operators, Admissible);
  }

  /** From empty stores, an uncarried patch is told apart: it clears a result in one store and keeps it in the other. */
  lemma MergeIsNotOverwrite(r: SnapshotResult) returns (calls: seq<Call>)
    ensures StoreCalls(calls, {"operator"}, Admissible, {}) && CollisionFree({"operator"}, Admissible)
    ensures MemRun(Memory(map[], map[]), calls) != SqlRun([], calls)
  {
    var key := ShortKey();
    var make := CreateOrGet("operator", ReadinessSnapshot, key, "1");
    var start := Transition("1", Queued, Running, Patch(Some(r), None));
    var clear := Transition("1", Running, Queued, Patch(None, None));
    calls := [make, start, clear];
    assert calls[1..] == [start, clear] && calls[1..][1..] == [clear];
    var row := Row("1", "operator", key, ReadinessSnapshot, Queued, None, None);
    var rows := SqlCall([], make).0;
    assert rows == [row];
    var rows' := SqlCall(rows, start).0;
    assert rows' == [row.(status := Running, result := Some(r))];
    assert {} + {"1"} == {"1"} && StoreCalls([clear], {"operator"}, Admissible, {"1"});
    assert StoreCalls([start, clear], {"operator"}, Admissible, {"1"});
    assert StoreCalls(calls, {"operator"}, Admissible, {});
    assert !CarriesAt(rows', "1", Running, Patch(None, None));
    assert !CarriesAll(rows', [clear]);
    assert !CarriesAll(rows, [start, clear]);
    RunsAgreeIff(Memory(map[], map[]), [], calls, {"operator"}, Admissible, {});
  }
}
