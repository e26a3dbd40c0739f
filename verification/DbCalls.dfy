/**
 * The four operations of Util/DBUtil.cpp as sequences of calls on the statement handle. An
 * operation stops with an exception at the first call that reports an error.
 */
module DbCalls {
  import opened Options
  import opened SqlText
  import opened StatementHandle
  import opened SqlObjects

  // ----- Calls until the first error -----

  /** Every call that is made meets C's demands. */
  predicate Attemptable(s: State, ops: seq<Op>)
    decreases ops
  {
    ops != [] ==>
      && Callable(s, ops[0])
      && var r := Step(s, ops[0]);
         r.ret != ResultError ==> Attemptable(r.state, ops[1..])
  }

  datatype Attempted = Attempted(state: State, ok: bool)

  function Attempt(s: State, ops: seq<Op>): Attempted
    requires Attemptable(s, ops)
    decreases ops
  {
    if ops == [] then Attempted(s, true)
    else
      var r := Step(s, ops[0]);
      if r.ret == ResultError then Attempted(r.state, false) else Attempt(r.state, ops[1..])
  }

  lemma {:induction false} AttemptAppend(s: State, a: seq<Op>, b: seq<Op>)
    requires Attemptable(s, a)
    ensures Attemptable(s, a + b) <==> (Attempt(s, a).ok ==> Attemptable(Attempt(s, a).state, b))
    ensures Attemptable(s, a + b) ==>
              Attempt(s, a + b) == if Attempt(s, a).ok then Attempt(Attempt(s, a).state, b) else Attempt(s, a)
    decreases a
  {
    if a == [] {
      assert a + b == b;
    } else {
      assert (a + b)[0] == a[0] && (a + b)[1..] == a[1..] + b;
      var r := Step(s, a[0]);
      if r.ret != ResultError {
        AttemptAppend(r.state, a[1..], b);
      }
    }
  }

  lemma AttemptFirst(s: State, op: Op, rest: seq<Op>)
    requires Callable(s, op)
    ensures Attemptable(s, [op] + rest) <==> (Step(s, op).ret != ResultError ==> Attemptable(Step(s, op).state, rest))
    ensures Attemptable(s, [op] + rest) ==>
              var r := Step(s, op);
              Attempt(s, [op] + rest)
              == if r.ret == ResultError then Attempted(r.state, false) else Attempt(r.state, rest)
  {
    assert ([op] + rest)[0] == op && ([op] + rest)[1..] == rest;
  }

  /** Whether one of the calls that are made overwrites an owned pointer. */
  predicate AttemptOverwrites(s: State, ops: seq<Op>)
    requires Attemptable(s, ops)
    decreases ops
  {
    ops != [] &&
    (Overwrites(s, ops[0]) ||
     var r := Step(s, ops[0]);
     r.ret != ResultError && AttemptOverwrites(r.state, ops[1..]))
  }

  lemma {:induction false} AttemptLeaksIff(s: State, ops: seq<Op>)
    requires Base(s) && Attemptable(s, ops)
    ensures Leaked(s) <= Leaked(Attempt(s, ops).state)
    ensures Leaked(s) == Leaked(Attempt(s, ops).state) <==> !AttemptOverwrites(s, ops)
    decreases ops
  {
    if ops != [] {
      StepKeepsBase(s, ops[0]);
      StepLeaksIff(s, ops[0]);
      var r := Step(s, ops[0]);
      if r.ret != ResultError {
        AttemptLeaksIff(r.state, ops[1..]);
      }
    }
  }

  // ----- Filling a slot array -----

  /** Store slots one after the other, from an index on. */
  function WriteSlots(s: State, p: Ptr, index: nat, slots: seq<Slot>): State
    requires slots != [] ==> index + |slots| <= |SlotsAt(s, p)|
    decreases slots
  {
    if slots == [] then s else WriteSlots(SetSlot(s, p, index, slots[0]), p, index + 1, slots[1..])
  }

  /** Exactly the slots from the index on are replaced, and nothing else changes. */
  lemma {:induction false} WrittenSlots(s: State, p: Ptr, index: nat, slots: seq<Slot>)
    requires slots != [] ==> index + |slots| <= |SlotsAt(s, p)|
    ensures var t, all := WriteSlots(s, p, index, slots), SlotsAt(s, p);
            && t == s.(live := t.live) && t.live.Keys == s.live.Keys
            && |SlotsAt(t, p)| == |all|
            && (index + |slots| <= |all| ==> SlotsAt(t, p) == all[..index] + slots + all[index + |slots|..])
            && (slots != [] ==> t.live == s.live[p := BindBlock(SlotsAt(t, p))])
            && (slots == [] ==> t == s)
    decreases slots
  {
    if slots != [] {
      var u, all := SetSlot(s, p, index, slots[0]), SlotsAt(s, p);
      WrittenSlots(u, p, index + 1, slots[1..]);
      assert SlotsAt(u, p) == all[index := slots[0]];
      Splice(all, index, slots);
    }
  }

  lemma Splice(all: seq<Slot>, index: nat, slots: seq<Slot>)
    requires slots != [] && index + |slots| <= |all|
    ensures var next := all[index := slots[0]];
            next[..index + 1] + slots[1..] + next[index + |slots|..] == all[..index] + slots + all[index + |slots|..]
  {
    var next := all[index := slots[0]];
    assert next[..index + 1] == all[..index] + [slots[0]];
    assert next[index + |slots|..] == all[index + |slots|..];
    assert [slots[0]] + slots[1..] == slots;
  }

  // ----- Binding parameters -----

  function SlotOf(a: Attr): Slot {
    Slot(a.buffer, a.nbytes, MySqlTypeOf(a.ftype))
  }

  function SlotsOf(fields: seq<Field>): (slots: seq<Slot>)
    ensures |slots| == |fields|
  {
    seq(|fields|, i requires 0 <= i < |fields| => SlotOf(fields[i].attr))
  }

  function BindAttr(index: nat, a: Attr): Op {
    BindParam(index, a.ftype, a.buffer, a.nbytes)
  }

  /** The binding loop of insert and update: one call for each altered field. */
  function BindOps(fields: seq<Field>, index: nat): seq<Op> {
    if fields == [] then []
    else if fields[0].attr.alterable then [BindAttr(index, fields[0].attr)] + BindOps(fields[1..], index + 1)
    else BindOps(fields[1..], index)
  }

  lemma {:induction false} BindOpsWrite(s: State, fields: seq<Field>, index: nat)
    requires s.stmt != NULL
    requires Altered(fields) != [] ==> index + |Altered(fields)| <= |SlotsAt(s, s.paramBind)|
    ensures Attemptable(s, BindOps(fields, index))
    ensures Attempt(s, BindOps(fields, index))
            == Attempted(WriteSlots(s, s.paramBind, index, SlotsOf(Altered(fields))), true)
    decreases fields
  {
    if fields != [] {
      if fields[0].attr.alterable {
        var op := BindAttr(index, fields[0].attr);
        var t := SetSlot(s, s.paramBind, index, SlotOf(fields[0].attr));
        assert Step(s, op) == Result(t, ResultSuccess);
        BindOpsWrite(t, fields[1..], index + 1);
        AttemptFirst(s, op, BindOps(fields[1..], index + 1));
        assert SlotsOf(Altered(fields))[1..] == SlotsOf(Altered(fields[1..]));
      } else {
        BindOpsWrite(s, fields[1..], index);
      }
    }
  }

  // ----- Binding result fields -----

  /** Every column has a field of its name. */
  predicate Registered(columns: seq<Column>, fields: seq<Field>) {
    forall i :: 0 <= i < |columns| ==> columns[i].name in AsMap(fields)
  }

  /** The result slots of the columns: each column goes to the buffer of the field with its name. */
  function ColumnSlots(columns: seq<Column>, fields: seq<Field>): (slots: seq<Slot>)
    requires Registered(columns, fields)
    ensures |slots| == |columns|
  {
    seq(|columns|, i requires 0 <= i < |columns| =>
      var a := AsMap(fields)[columns[i].name]; Slot(a.buffer, a.nbytes, columns[i].kind))
  }

  /** The loop of get that binds the columns; it follows what find yields without a test. */
  function FieldOps(columns: seq<Column>, fields: seq<Field>, index: nat): seq<Op>
    requires index <= |columns|
    decreases |columns| - index
  {
    if index == |columns| then []
    else
      var op :=
        match Find(fields, columns[index].name)
        case None => FollowEnd
        case Some(a) => BindField(index, a.buffer, a.nbytes);
      [op] + FieldOps(columns, fields, index + 1)
  }

  lemma {:induction false} FieldOpsWrite(s: State, columns: seq<Column>, fields: seq<Field>, index: nat)
    requires s.stmt != NULL && s.resFields != NULL && index <= |columns|
    requires s.lib.columns == columns && |columns| == |SlotsAt(s, s.resBind)|
    requires Registered(columns, fields)
    ensures Attemptable(s, FieldOps(columns, fields, index))
    ensures Attempt(s, FieldOps(columns, fields, index))
            == Attempted(WriteSlots(s, s.resBind, index, ColumnSlots(columns, fields)[index..]), true)
    decreases |columns| - index
  {
    if index < |columns| {
      var a := AsMap(fields)[columns[index].name];
      var op := BindField(index, a.buffer, a.nbytes);
      var slots := ColumnSlots(columns, fields);
      var t := SetSlot(s, s.resBind, index, slots[index]);
      assert Step(s, op) == Result(t, ResultSuccess);
      FieldOpsWrite(t, columns, fields, index + 1);
      AttemptFirst(s, op, FieldOps(columns, fields, index + 1));
      assert slots[index..][1..] == slots[index + 1..];
    }
  }

  /** The loop cannot be carried out once a column from the index on has no field. */
  lemma {:induction false} FieldOpsFollowEnd(s: State, columns: seq<Column>, fields: seq<Field>, index: nat, i: nat)
    requires index <= i < |columns| && columns[i].name !in AsMap(fields)
    ensures !Attemptable(s, FieldOps(columns, fields, index))
    decreases |columns| - index
  {
    var ops := FieldOps(columns, fields, index);
    assert ops[1..] == FieldOps(columns, fields, index + 1);
    if index < i && Callable(s, ops[0]) {
      FieldOpsFollowEnd(Step(s, ops[0]).state, columns, fields, index + 1, i);
    }
  }

  lemma FieldOpsAttemptableIff(s: State, columns: seq<Column>, fields: seq<Field>)
    requires s.stmt != NULL && s.resFields != NULL
    requires s.lib.columns == columns && |columns| == |SlotsAt(s, s.resBind)|
    ensures Attemptable(s, FieldOps(columns, fields, 0)) <==> Registered(columns, fields)
  {
    if Registered(columns, fields) {
      FieldOpsWrite(s, columns, fields, 0);
    } else {
      var i :| 0 <= i < |columns| && columns[i].name !in AsMap(fields);
      FieldOpsFollowEnd(s, columns, fields, 0, i);
    }
  }

  // ----- The four operations -----

  /** What the allocator and the library answer during one operation. */
  datatype Answers = Answers(
    prepareOk: bool, columns: seq<Column>, keepsBinding: bool, mallocOk: bool, bindOk: bool, executeOk: bool,
    firstOk: bool, resMallocOk: bool, metaOk: bool, bindResultOk: bool, fetched: FetchAnswer, freeOk: bool)

  datatype Call =
    | InsertCall(table: string, fields: seq<Field>, answers: Answers)
    | UpdateCall(table: string, fields: seq<Field>, key: string, answers: Answers)
    | RemoveCall(table: string, fields: seq<Field>, key: string, answers: Answers)
    | GetCall(table: string, fields: seq<Field>, key: string, value: Ptr, answers: Answers)

  function PrepareOp(sql: string, a: Answers): Op {
    Prepare(sql, a.prepareOk, a.columns, a.keepsBinding, a.mallocOk)
  }

  function ExecuteOp(a: Answers): Op {
    Execute(a.bindOk, a.executeOk)
  }

  /** The text that a call prepares. */
  function CallText(c: Call): string {
    match c
    case InsertCall(table, fields, _) => InsertText(table, Names(Altered(fields)))
    case UpdateCall(table, fields, key, _) => UpdateText(table, Names(Altered(fields)), key)
    case RemoveCall(table, _, key, _) => DeleteText(table, key)
    case GetCall(table, _, key, _, _) => SelectText(table, key)
  }

  /** The slots that a call binds, in the order of their placeholders. */
  function CallSlots(c: Call): seq<Slot> {
    match c
    case InsertCall(_, fields, _) => SlotsOf(Altered(fields))
    case UpdateCall(_, fields, key, _) => SlotsOf(Altered(fields)) + [SlotOf(Lookup(fields, key))]
    case RemoveCall(_, fields, key, _) => [SlotOf(Lookup(fields, key))]
    case GetCall(_, fields, key, value, _) =>
      var a := Lookup(fields, key);
      [Slot(value, a.nbytes, MySqlTypeOf(a.ftype))]
  }

  function BindingOps(c: Call): seq<Op> {
    match c
    case InsertCall(_, fields, _) => BindOps(fields, 0)
    case UpdateCall(_, fields, key, _) => BindOps(fields, 0) + [BindAttr(|Altered(fields)|, Lookup(fields, key))]
    case RemoveCall(_, fields, key, _) => [BindAttr(0, Lookup(fields, key))]
    case GetCall(_, fields, key, value, _) =>
      var a := Lookup(fields, key);
      [BindParam(0, a.ftype, value, a.nbytes)]
  }

  /** What get does after executing: load, bind and fetch the result, and free it. */
  function ResultOps(c: Call): seq<Op>
    requires c.GetCall?
  {
    var a := c.answers;
    [FirstResult(a.firstOk), LoadMetaData(a.resMallocOk, a.metaOk)]
    + (FieldOps(a.columns, Touch(c.fields, c.key), 0) + [Fetch(a.bindResultOk, a.fetched), FreeResult(a.freeOk)])
  }

  function CallOps(c: Call): seq<Op> {
    [PrepareOp(CallText(c), c.answers)]
    + (BindingOps(c) + ([ExecuteOp(c.answers)] + if c.GetCall? then ResultOps(c) else []))
  }

  /** The answers under which get comes to bind the columns of its result. */
  predicate ReachesColumns(a: Answers) {
    && a.prepareOk && a.mallocOk && a.bindOk && a.executeOk
    && a.firstOk && a.columns != [] && a.resMallocOk && a.metaOk
  }

  /** The answers under which an operation with parameters comes to execute its statement. */
  predicate ReachesExecute(a: Answers) {
    a.prepareOk && a.mallocOk && a.bindOk
  }

  /** An operation that comes to execute has bound usable parameters. */
  predicate SafeParams(c: Call) {
    ReachesExecute(c.answers) ==> AllUsable(CallSlots(c))
  }

  /** Every column has a field, and a row that comes is written into usable buffers. */
  predicate SafeColumns(c: Call)
    requires c.GetCall?
  {
    var a, fields := c.answers, Touch(c.fields, c.key);
    && Registered(a.columns, fields)
    && (a.bindResultOk && RowFetched(a.fetched) ==> AllUsable(ColumnSlots(a.columns, fields)))
  }

  /** The condition under which an operation is safe. */
  predicate SafeCall(c: Call) {
    SafeParams(c) && (c.GetCall? && ReachesColumns(c.answers) ==> SafeColumns(c))
  }

  /** Every statement has at least as many placeholders as the call binds slots. */
  lemma EnoughPlaceholders(c: Call)
    ensures |CallSlots(c)| <= MarkCount(CallText(c))
  {
    match c
    case InsertCall(table, fields, _) => InsertMarks(table, Names(Altered(fields)));
    case UpdateCall(table, fields, key, _) => UpdateMarks(table, Names(Altered(fields)), key);
    case RemoveCall(table, _, key, _) => KeyedMarks("delete from ", table, key);
    case GetCall(table, _, key, _, _) => KeyedMarks("select * from ", table, key);
  }

  lemma BindingWrites(s: State, c: Call)
    requires s.stmt != NULL
    requires CallSlots(c) != [] ==> |CallSlots(c)| <= |SlotsAt(s, s.paramBind)|
    ensures Attemptable(s, BindingOps(c))
    ensures Attempt(s, BindingOps(c)) == Attempted(WriteSlots(s, s.paramBind, 0, CallSlots(c)), true)
  {
    match c
    case InsertCall(_, fields, _) => BindOpsWrite(s, fields, 0);
    case UpdateCall(_, fields, key, _) => BindOpsThenKey(s, fields, Lookup(fields, key));
    case RemoveCall(_, fields, key, _) =>
      WriteOne(s, BindAttr(0, Lookup(fields, key)), 0, SlotOf(Lookup(fields, key)));
    case GetCall(_, fields, key, value, _) =>
      var a := Lookup(fields, key);
      WriteOne(s, BindParam(0, a.ftype, value, a.nbytes), 0, Slot(value, a.nbytes, MySqlTypeOf(a.ftype)));
  }

  lemma BindOpsThenKey(s: State, fields: seq<Field>, key: Attr)
    requires s.stmt != NULL && |Altered(fields)| < |SlotsAt(s, s.paramBind)|
    ensures var ops := BindOps(fields, 0) + [BindAttr(|Altered(fields)|, key)];
            && Attemptable(s, ops)
            && Attempt(s, ops)
               == Attempted(WriteSlots(s, s.paramBind, 0, SlotsOf(Altered(fields)) + [SlotOf(key)]), true)
  {
    var slots, last := SlotsOf(Altered(fields)), BindAttr(|Altered(fields)|, key);
    BindOpsWrite(s, fields, 0);
    WrittenSlots(s, s.paramBind, 0, slots);
    WriteOne(WriteSlots(s, s.paramBind, 0, slots), last, |slots|, SlotOf(key));
    AttemptAppend(s, BindOps(fields, 0), [last]);
    WriteSnoc(s, s.paramBind, 0, slots, SlotOf(key));
  }

  lemma WriteOne(s: State, op: Op, index: nat, slot: Slot)
    requires s.stmt != NULL && index < |SlotsAt(s, s.paramBind)|
    requires op.BindParam? && op.index == index && slot == Slot(op.buffer, op.nbytes, MySqlTypeOf(op.ftype))
    ensures Attemptable(s, [op])
    ensures Attempt(s, [op]) == Attempted(WriteSlots(s, s.paramBind, index, [slot]), true)
  {
    assert [op][1..] == [] && [slot][1..] == [];
    assert Attempt(Step(s, op).state, []) == Attempted(Step(s, op).state, true);
    assert WriteSlots(SetSlot(s, s.paramBind, index, slot), s.paramBind, index + 1, []) == Step(s, op).state;
  }

  lemma {:induction false} WriteSnoc(s: State, p: Ptr, index: nat, slots: seq<Slot>, last: Slot)
    requires index + |slots| < |SlotsAt(s, p)|
    ensures |SlotsAt(WriteSlots(s, p, index, slots), p)| == |SlotsAt(s, p)|
    ensures WriteSlots(WriteSlots(s, p, index, slots), p, index + |slots|, [last])
            == WriteSlots(s, p, index, slots + [last])
    decreases slots
  {
    if slots == [] {
      assert slots + [last] == [last];
    } else {
      assert (slots + [last])[1..] == slots[1..] + [last];
      WriteSnoc(SetSlot(s, p, index, slots[0]), p, index + 1, slots[1..], last);
    }
  }
}
