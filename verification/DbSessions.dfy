/** What the four database operations achieve, alone and in sessions. */
module DbSessions {
  import opened Options
  import opened SqlText
  import opened StatementHandle
  import opened SqlObjects
  import opened DbCalls

  /** A handle between two operations: the invariant holds and a statement is open. */
  ghost predicate Ready(s: State) {
    Inv(s) && s.stmt != NULL
  }

  // ----- An operation in stages -----

  /** The number of zeroed slots after the bound ones: placeholders that nobody meant. */
  function Spare(c: Call): nat {
    if MarkCount(CallText(c)) >= |CallSlots(c)| then MarkCount(CallText(c)) - |CallSlots(c)| else 0
  }

  lemma AfterPrepare(s: State, c: Call)
    requires Ready(s)
    ensures var r, m := Step(s, PrepareOp(CallText(c), c.answers)), MarkCount(CallText(c));
            && Ready(r.state) && r.state.stmt == s.stmt
            && r.state.resFields == s.resFields && r.state.resBind == s.resBind && r.state.hasBind == s.hasBind
            && (r.ret != ResultError ==>
                && |CallSlots(c)| <= m
                && r.state.lib.sql == CallText(c) && r.state.lib.marks == m
                && r.state.lib.columns == c.answers.columns && r.state.lib.log == s.lib.log
                && r.state.lib.params == []
                && (m == 0 ==> r.state.paramBind == s.paramBind && r.state.live == s.live)
                && (m > 0 ==> r.state.paramBind == s.next && SlotsAt(r.state, s.next) == ZeroedSlots(m)
                              && r.state.live.Keys == s.live.Keys + {s.next}))
  {
    StepKeepsInvIff(s, PrepareOp(CallText(c), c.answers));
    EnoughPlaceholders(c);
  }

  predicate PrepareSucceeds(s: State, c: Call)
    requires Ready(s)
  {
    Step(s, PrepareOp(CallText(c), c.answers)).ret != ResultError
  }

  /** The state after preparing and binding. */
  function Bound(s: State, c: Call): State
    requires Ready(s) && PrepareSucceeds(s, c)
  {
    var t := Step(s, PrepareOp(CallText(c), c.answers)).state;
    AfterPrepare(s, c);
    WriteSlots(t, t.paramBind, 0, CallSlots(c))
  }

  lemma AfterBinding(s: State, c: Call)
    requires Ready(s) && PrepareSucceeds(s, c)
    ensures var t, m := Bound(s, c), MarkCount(CallText(c));
            && Ready(t) && t.stmt == s.stmt
            && t.resFields == s.resFields && t.resBind == s.resBind && t.hasBind == s.hasBind
            && |CallSlots(c)| <= m && t.lib.sql == CallText(c) && t.lib.marks == m && t.lib.params == []
            && t.lib.columns == c.answers.columns && t.lib.log == s.lib.log
            && (m == 0 ==> t.paramBind == s.paramBind && t.live == s.live)
            && (m > 0 ==> t.paramBind == s.next && t.live.Keys == s.live.Keys + {s.next})
  {
    var r := Step(s, PrepareOp(CallText(c), c.answers)).state;
    AfterPrepare(s, c);
    WrittenSlots(r, r.paramBind, 0, CallSlots(c));
    WriteKeepsInv(r, r.paramBind, CallSlots(c));
  }

  /** The new array holds the call's slots, followed by zeroed ones. */
  lemma BoundSlots(s: State, c: Call)
    requires Ready(s) && PrepareSucceeds(s, c) && MarkCount(CallText(c)) > 0
    ensures var m, all := MarkCount(CallText(c)), SlotsAt(Bound(s, c), s.next);
            |all| == m && all[..m] == CallSlots(c) + ZeroedSlots(Spare(c))
  {
    var r := Step(s, PrepareOp(CallText(c), c.answers)).state;
    AfterPrepare(s, c);
    WrittenSlots(r, s.next, 0, CallSlots(c));
    FilledSlots(MarkCount(CallText(c)), CallSlots(c), SlotsAt(Bound(s, c), s.next));
  }

  lemma FilledSlots(m: nat, slots: seq<Slot>, all: seq<Slot>)
    requires |slots| <= m
    requires if slots == [] then all == ZeroedSlots(m)
             else all == ZeroedSlots(m)[..0] + slots + ZeroedSlots(m)[|slots|..]
    ensures |all| == m && all[..m] == slots + ZeroedSlots(m - |slots|)
  {
  }

  /** Prepare, bind and execute. */
  function Executed(s: State, c: Call): Attempted
    requires Ready(s)
  {
    var r := Step(s, PrepareOp(CallText(c), c.answers));
    if r.ret == ResultError then Attempted(r.state, false)
    else
      AfterBinding(s, c);
      var e := StepExecute(Bound(s, c), c.answers.bindOk, c.answers.executeOk);
      Attempted(e.state, e.ret != ResultError)
  }

  /** After binding, the statement can be executed exactly if the call's slots are usable. */
  lemma BoundIsCallableIff(s: State, c: Call)
    requires Ready(s) && PrepareSucceeds(s, c)
    ensures Callable(Bound(s, c), ExecuteOp(c.answers)) <==> SafeParams(c)
  {
    PrepareSucceedsIff(s, c);
    AfterBinding(s, c);
    if MarkCount(CallText(c)) > 0 {
      BoundSlots(s, c);
      SpareIsUsable(CallSlots(c), Spare(c));
    }
  }

  lemma SpareIsUsable(slots: seq<Slot>, n: nat)
    ensures AllUsable(slots + ZeroedSlots(n)) <==> AllUsable(slots)
  {
    assert forall k :: 0 <= k < |slots| ==> (slots + ZeroedSlots(n))[k] == slots[k];
  }

  lemma ExecuteFirst(s: State, c: Call, tail: seq<Op>)
    requires Ready(s) && PrepareSucceeds(s, c)
    ensures var ops := [ExecuteOp(c.answers)] + tail;
            && (Attemptable(Bound(s, c), ops)
                <==> SafeParams(c) && (Executed(s, c).ok ==> Attemptable(Executed(s, c).state, tail)))
            && (Attemptable(Bound(s, c), ops) ==>
                  Attempt(Bound(s, c), ops)
                  == if Executed(s, c).ok then Attempt(Executed(s, c).state, tail) else Executed(s, c))
  {
    BoundIsCallableIff(s, c);
    if SafeParams(c) {
      AttemptFirst(Bound(s, c), ExecuteOp(c.answers), tail);
    }
  }

  lemma CallInStages(s: State, c: Call, tail: seq<Op>)
    requires Ready(s)
    ensures var ops := [PrepareOp(CallText(c), c.answers)] + (BindingOps(c) + ([ExecuteOp(c.answers)] + tail));
            && (Attemptable(s, ops)
                <==> SafeParams(c) && (Executed(s, c).ok ==> Attemptable(Executed(s, c).state, tail)))
            && (Attemptable(s, ops) ==>
                  Attempt(s, ops) == if Executed(s, c).ok then Attempt(Executed(s, c).state, tail) else Executed(s, c))
  {
    var p := PrepareOp(CallText(c), c.answers);
    var r := Step(s, p);
    if r.ret != ResultError {
      AfterPrepare(s, c);
      AfterBinding(s, c);
      ExecuteFirst(s, c, tail);
      BindingWrites(r.state, c);
      AttemptAppend(r.state, BindingOps(c), [ExecuteOp(c.answers)] + tail);
    }
    AttemptFirst(s, p, BindingOps(c) + ([ExecuteOp(c.answers)] + tail));
  }

  /** Whether a call gets through executing, given whether a parameter array was left behind. */
  predicate Executes(pending: bool, c: Call) {
    var a, m := c.answers, MarkCount(CallText(c));
    && a.prepareOk && (m > 0 ==> a.mallocOk)
    && (m > 0 || pending ==> a.bindOk)
    && a.executeOk
  }

  lemma PrepareSucceedsIff(s: State, c: Call)
    requires Ready(s)
    ensures PrepareSucceeds(s, c) <==> c.answers.prepareOk && (MarkCount(CallText(c)) > 0 ==> c.answers.mallocOk)
  {
  }

  lemma ExecuteSucceedsIff(s: State, a: Answers)
    requires Ready(s)
    ensures StepExecute(s, a.bindOk, a.executeOk).ret != ResultError
            <==> (s.paramBind != NULL ==> a.bindOk) && a.executeOk
  {
  }

  lemma ExecutedIff(s: State, c: Call)
    requires Ready(s)
    ensures Executed(s, c).ok <==> Executes(s.paramBind != NULL, c)
  {
    PrepareSucceedsIff(s, c);
    if PrepareSucceeds(s, c) {
      AfterBinding(s, c);
      ExecuteSucceedsIff(Bound(s, c), c.answers);
    }
  }

  /**
   * A successful execution has sent the call's text with its slots, one per placeholder, has
   * given up the parameter array, and has changed nothing else that the handle owns.
   */
  lemma ExecutedEffect(s: State, c: Call)
    requires Ready(s) && Executed(s, c).ok
    ensures var t := Executed(s, c).state;
            && Ready(t) && t.stmt == s.stmt && t.paramBind == NULL
            && t.resFields == s.resFields && t.resBind == s.resBind && t.hasBind == s.hasBind
            && t.live.Keys == s.live.Keys - (if MarkCount(CallText(c)) == 0 then {s.paramBind} else {})
            && t.lib.columns == c.answers.columns
            && t.lib.log == s.lib.log + [Sent(CallText(c), CallSlots(c) + ZeroedSlots(Spare(c)))]
  {
    AfterBinding(s, c);
    ExecuteEffect(Bound(s, c), c.answers);
    if MarkCount(CallText(c)) == 0 {
      assert CallSlots(c) == [] && ZeroedSlots(Spare(c)) == [];
    } else {
      BoundSlots(s, c);
    }
  }

  lemma ExecuteEffect(s: State, a: Answers)
    requires Ready(s)
    ensures var r := StepExecute(s, a.bindOk, a.executeOk);
            && Ready(r.state) && r.state.stmt == s.stmt
            && r.state.resFields == s.resFields && r.state.resBind == s.resBind && r.state.hasBind == s.hasBind
            && (r.ret != ResultError ==>
                && r.state.paramBind == NULL
                && r.state.live.Keys == s.live.Keys - {s.paramBind}
                && r.state.lib.columns == s.lib.columns
                && var sent := if s.paramBind == NULL then s.lib.params else SlotsAt(s, s.paramBind)[..s.lib.marks];
                   r.state.lib.log == s.lib.log + [Sent(s.lib.sql, sent)])
  {
    ExecuteKeepsInv(s, a.bindOk, a.executeOk);
  }

  /** Successful or not, preparing, binding and executing keep the handle ready. */
  lemma ExecutedStaysReady(s: State, c: Call)
    requires Ready(s)
    ensures Ready(Executed(s, c).state) && Executed(s, c).state.stmt == s.stmt
  {
    AfterPrepare(s, c);
    if PrepareSucceeds(s, c) {
      AfterBinding(s, c);
      ExecuteEffect(Bound(s, c), c.answers);
    }
  }

  lemma WriteKeepsInv(s: State, p: Ptr, slots: seq<Slot>)
    requires Inv(s) && (slots != [] ==> |slots| <= |SlotsAt(s, p)|)
    ensures Inv(WriteSlots(s, p, 0, slots))
    ensures Leaked(WriteSlots(s, p, 0, slots)) == Leaked(s)
  {
    WrittenSlots(s, p, 0, slots);
  }

  // ----- The result of get -----

  /** Whether get comes to bind the columns, given that it has executed. */
  predicate LoadsColumns(a: Answers) {
    a.firstOk && a.columns != [] && a.resMallocOk && a.metaOk
  }

  /** Whether the result stages of get can be carried out. */
  predicate SafeResult(c: Call)
    requires c.GetCall?
  {
    LoadsColumns(c.answers) ==> SafeColumns(c)
  }

  lemma ResultAttemptableIff(s: State, c: Call)
    requires Ready(s) && c.GetCall? && s.lib.columns == c.answers.columns
    ensures Attemptable(s, ResultOps(c)) <==> SafeResult(c)
  {
    var a, fields := c.answers, Touch(c.fields, c.key);
    var first, load := FirstResult(a.firstOk), LoadMetaData(a.resMallocOk, a.metaOk);
    var bind, tail := FieldOps(a.columns, fields, 0), [Fetch(a.bindResultOk, a.fetched), FreeResult(a.freeOk)];
    var l := Step(s, load);
    assert ResultOps(c) == [first] + ([load] + (bind + tail));
    AttemptFirst(s, load, bind + tail);
    AttemptFirst(s, first, [load] + (bind + tail));
    if l.ret != ResultError {
      FieldOpsAttemptableIff(l.state, a.columns, fields);
      if Registered(a.columns, fields) {
        FieldsBound(l.state, c);
        AttemptAppend(l.state, bind, tail);
        FetchFirst(WriteSlots(l.state, l.state.resBind, 0, ColumnSlots(a.columns, fields)), a);
      } else if Attemptable(l.state, bind + tail) {
        AttemptablePrefix(l.state, bind, tail);
      }
    }
  }

  lemma {:induction false} AttemptablePrefix(s: State, a: seq<Op>, b: seq<Op>)
    requires Attemptable(s, a + b)
    ensures Attemptable(s, a)
    decreases a
  {
    if a != [] {
      assert (a + b)[0] == a[0] && (a + b)[1..] == a[1..] + b;
      var r := Step(s, a[0]);
      if r.ret != ResultError {
        AttemptablePrefix(r.state, a[1..], b);
      }
    }
  }

  /** Once the columns are bound, the fetch can be made exactly if a row finds usable buffers. */
  lemma FieldsBound(l: State, c: Call)
    requires l.stmt != NULL && l.resFields != NULL && !l.hasBind && c.GetCall? && l.lib.columns == c.answers.columns
    requires |l.lib.columns| == |SlotsAt(l, l.resBind)| && Registered(c.answers.columns, Touch(c.fields, c.key))
    ensures var a, slots := c.answers, ColumnSlots(c.answers.columns, Touch(c.fields, c.key));
            && |slots| == |SlotsAt(l, l.resBind)|
            && var w := WriteSlots(l, l.resBind, 0, slots);
               && Attemptable(l, FieldOps(a.columns, Touch(c.fields, c.key), 0))
               && Attempt(l, FieldOps(a.columns, Touch(c.fields, c.key), 0)) == Attempted(w, true)
               && w.stmt != NULL && !w.hasBind && SlotsAt(w, w.resBind) == slots
               && (Callable(w, Fetch(a.bindResultOk, a.fetched)) <==> SafeColumns(c))
  {
    var a, fields := c.answers, Touch(c.fields, c.key);
    var slots := ColumnSlots(a.columns, fields);
    assert slots[0..] == slots;
    FieldOpsWrite(l, a.columns, fields, 0);
    WrittenSlots(l, l.resBind, 0, slots);
    var w := WriteSlots(l, l.resBind, 0, slots);
    assert SlotsAt(w, w.resBind) == slots;
    CanFetchIff(w, c);
  }

  lemma CanFetchIff(w: State, c: Call)
    requires w.stmt != NULL && !w.hasBind && c.GetCall? && w.lib.columns == c.answers.columns
    requires Registered(c.answers.columns, Touch(c.fields, c.key))
    requires SlotsAt(w, w.resBind) == ColumnSlots(c.answers.columns, Touch(c.fields, c.key))
    ensures Callable(w, Fetch(c.answers.bindResultOk, c.answers.fetched)) <==> SafeColumns(c)
  {
    var slots := SlotsAt(w, w.resBind);
    assert slots[..|w.lib.columns|] == slots;
  }

  /** From loading the result to freeing it. */
  lemma ResultInStages(s: State, c: Call)
    requires Ready(s) && c.GetCall? && s.lib.columns == c.answers.columns && SafeResult(c)
    ensures Attemptable(s, ResultOps(c))
    ensures var a := c.answers;
            var l := Step(s, LoadMetaData(a.resMallocOk, a.metaOk));
            if !a.firstOk then Attempt(s, ResultOps(c)) == Attempted(s, false)
            else if l.ret == ResultError then Attempt(s, ResultOps(c)) == Attempted(l.state, false)
            else
              && LoadsColumns(a)
              && |ColumnSlots(a.columns, Touch(c.fields, c.key))| <= |SlotsAt(l.state, l.state.resBind)|
              && var w := WriteSlots(l.state, l.state.resBind, 0, ColumnSlots(a.columns, Touch(c.fields, c.key)));
                 && Callable(w, Fetch(a.bindResultOk, a.fetched))
                 && Attempt(s, ResultOps(c)) == FetchAndFree(w, a)
  {
    var a, fields := c.answers, Touch(c.fields, c.key);
    var load, tail := LoadMetaData(a.resMallocOk, a.metaOk), [Fetch(a.bindResultOk, a.fetched), FreeResult(a.freeOk)];
    var l := Step(s, load);
    assert ResultOps(c) == [FirstResult(a.firstOk)] + ([load] + (FieldOps(a.columns, fields, 0) + tail));
    if a.firstOk && l.ret != ResultError {
      FieldsBound(l.state, c);
      FetchFirst(WriteSlots(l.state, l.state.resBind, 0, ColumnSlots(a.columns, fields)), a);
      AttemptAppend(l.state, FieldOps(a.columns, fields, 0), tail);
    }
    AttemptFirst(s, load, FieldOps(a.columns, fields, 0) + tail);
    AttemptFirst(s, FirstResult(a.firstOk), [load] + (FieldOps(a.columns, fields, 0) + tail));
  }

  function FetchAndFree(s: State, a: Answers): Attempted {
    var f := StepFetch(s, a.bindResultOk, a.fetched);
    if f.ret == ResultError then Attempted(f.state, false)
    else Attempted(StepFreeResult(f.state), a.freeOk)
  }

  lemma FetchFirst(s: State, a: Answers)
    requires s.stmt != NULL
    ensures Attemptable(s, [Fetch(a.bindResultOk, a.fetched), FreeResult(a.freeOk)])
            <==> Callable(s, Fetch(a.bindResultOk, a.fetched))
    ensures Callable(s, Fetch(a.bindResultOk, a.fetched)) ==>
              Attempt(s, [Fetch(a.bindResultOk, a.fetched), FreeResult(a.freeOk)]) == FetchAndFree(s, a)
  {
    var fetch, free := Fetch(a.bindResultOk, a.fetched), FreeResult(a.freeOk);
    var f := StepFetch(s, a.bindResultOk, a.fetched);
    assert [free] + [] == [free] && [fetch] + [free] == [fetch, free];
    if f.ret != ResultError {
      AttemptFirst(f.state, free, []);
    }
    if Callable(s, fetch) {
      AttemptFirst(s, fetch, [free]);
    }
  }

  // ----- When an operation can be carried out -----

  /** Prepare, bind, execute, and for get the result stages. */
  function Finished(s: State, c: Call): Attempted
    requires Ready(s) && SafeCall(c)
  {
    var x := Executed(s, c);
    if !x.ok || !c.GetCall? then x
    else
      ExecutedEffect(s, c);
      SafeAfterExecuting(s, c);
      ResultInStages(x.state, c);
      Attempt(x.state, ResultOps(c))
  }

  /** Once get has executed, what remains of the condition is that on its result. */
  lemma SafeAfterExecuting(s: State, c: Call)
    requires Ready(s) && c.GetCall? && Executed(s, c).ok
    ensures SafeCall(c) <==> SafeParams(c) && SafeResult(c)
  {
    ExecutedIff(s, c);
    EnoughPlaceholders(c);
  }

  /** In terms of the stages: get comes to bind columns exactly when its earlier calls succeed. */
  lemma ReachesColumnsIff(s: State, c: Call)
    requires Ready(s) && c.GetCall?
    ensures var x, a := Executed(s, c), c.answers;
            ReachesColumns(a)
            <==> x.ok && a.firstOk
                 && (ExecutedStaysReady(s, c); Step(x.state, LoadMetaData(a.resMallocOk, a.metaOk)).ret != ResultError)
  {
    ExecutedIff(s, c);
    EnoughPlaceholders(c);
    ExecutedStaysReady(s, c);
    if Executed(s, c).ok {
      ExecutedEffect(s, c);
    }
  }

  /**
   * In every ready state, whatever is still pending there, an operation makes only calls
   * that meet C's demands exactly when the parameters that it comes to execute with are
   * usable and get does not come to bind an unregistered column or to write a row through an
   * unusable buffer.
   */
  lemma CallIsSafeIff(s: State, c: Call)
    requires Ready(s)
    ensures Attemptable(s, CallOps(c)) <==> SafeCall(c)
  {
    CallInStages(s, c, if c.GetCall? then ResultOps(c) else []);
    if c.GetCall? {
      ExecutedIff(s, c);
      EnoughPlaceholders(c);
      if Executed(s, c).ok {
        ExecutedEffect(s, c);
        SafeAfterExecuting(s, c);
        ResultAttemptableIff(Executed(s, c).state, c);
      }
    }
  }

  /** A safe operation ends as its stages say, and leaves the handle ready for the next one. */
  lemma CallIsSafe(s: State, c: Call)
    requires Ready(s) && SafeCall(c)
    ensures Attemptable(s, CallOps(c))
    ensures Attempt(s, CallOps(c)) == Finished(s, c)
    ensures Ready(Finished(s, c).state) && Finished(s, c).state.stmt == s.stmt
  {
    var tail := if c.GetCall? then ResultOps(c) else [];
    var x := Executed(s, c);
    ExecutedStaysReady(s, c);
    if x.ok {
      ExecutedEffect(s, c);
      if c.GetCall? {
        SafeAfterExecuting(s, c);
        ResultInStages(x.state, c);
        ResultStaysReady(x.state, c);
      } else {
        assert Attempt(x.state, []) == Attempted(x.state, true);
      }
    }
    CallInStages(s, c, tail);
  }

  /**
   * With a key that is not registered, operator[] binds a parameter without a buffer, so the
   * operation is defined exactly when it does not come to execute.
   */
  lemma UnregisteredKeyIsUnsafe(s: State, c: Call)
    requires Ready(s) && !c.InsertCall? && c.key !in AsMap(c.fields)
    ensures Attemptable(s, CallOps(c)) <==> !ReachesExecute(c.answers)
  {
    var slots := CallSlots(c);
    assert !Usable(slots[|slots| - 1]);
    CallIsSafeIff(s, c);
  }

  /** A select of one column by a registered key, in which every call succeeds. */
  function SelectOne(table: string, fields: seq<Field>, key: string, value: Ptr, column: Column,
                     fetched: FetchAnswer): Call
  {
    GetCall(table, fields, key, value,
            Answers(true, [column], true, true, true, true, true, true, true, true, fetched, true))
  }

  /** Parameters in order, but a column that no field is registered for. */
  lemma StrayColumnIsUnsafe(s: State, table: string, fields: seq<Field>, key: string, value: Ptr, column: Column,
                            fetched: FetchAnswer)
    requires Ready(s) && Sorted(fields) && key in AsMap(fields) && column.name !in AsMap(fields)
    requires Usable(SlotOf(AsMap(fields)[key].(buffer := value)))
    ensures var c := SelectOne(table, fields, key, value, column, fetched);
            SafeParams(c) && !Attemptable(s, CallOps(c))
  {
    var c := SelectOne(table, fields, key, value, column, fetched);
    PutIsMapUpdate(fields, key, Lookup(fields, key));
    assert c.answers.columns[0] == column;
    CallIsSafeIff(s, c);
  }

  /** Parameters in order, but a row with a value that is wider than the field it goes to. */
  lemma NarrowFieldIsUnsafe(s: State, table: string, key: string, buffer: Ptr, value: Ptr)
    requires Ready(s) && buffer != NULL && value != NULL
    ensures var fields := [Field(key, Attr(buffer, 1, false, TinyField))];
            var c := SelectOne(table, fields, key, value, Column(key, LongLong), FetchRow);
            SafeParams(c) && Registered(c.answers.columns, Touch(fields, key)) && !Attemptable(s, CallOps(c))
  {
    var fields := [Field(key, Attr(buffer, 1, false, TinyField))];
    var c := SelectOne(table, fields, key, value, Column(key, LongLong), FetchRow);
    BeforeIrreflexive(key);
    assert Touch(fields, key) == fields;
    assert !Usable(ColumnSlots(c.answers.columns, fields)[0]);
    CallIsSafeIff(s, c);
  }

  lemma ResultStaysReady(s: State, c: Call)
    requires Ready(s) && c.GetCall? && s.lib.columns == c.answers.columns && SafeResult(c)
    ensures Attemptable(s, ResultOps(c))
    ensures Ready(Attempt(s, ResultOps(c)).state) && Attempt(s, ResultOps(c)).state.stmt == s.stmt
  {
    var a := c.answers;
    ResultInStages(s, c);
    if a.firstOk {
      var l := Step(s, LoadMetaData(a.resMallocOk, a.metaOk));
      LoadKeepsInv(s, a.resMallocOk, a.metaOk);
      if l.ret != ResultError {
        var slots := ColumnSlots(a.columns, Touch(c.fields, c.key));
        WrittenSlots(l.state, l.state.resBind, 0, slots);
        WriteKeepsInv(l.state, l.state.resBind, slots);
        FetchKeepsReady(WriteSlots(l.state, l.state.resBind, 0, slots), a);
      }
    }
  }

  lemma FetchKeepsReady(s: State, a: Answers)
    requires Ready(s) && Callable(s, Fetch(a.bindResultOk, a.fetched))
    ensures Ready(FetchAndFree(s, a).state) && FetchAndFree(s, a).state.stmt == s.stmt
  {
    var f := StepFetch(s, a.bindResultOk, a.fetched).state;
    assert Inv(f) && f.stmt == s.stmt;
    FreeResultKeepsInv(f);
  }

  /** The answers under which an operation returns; under all others it throws. */
  lemma ReturnsIff(s: State, c: Call)
    requires Ready(s) && SafeCall(c)
    ensures var a := c.answers;
            Finished(s, c).ok
            <==> Executes(s.paramBind != NULL, c)
                 && (c.GetCall? ==>
                       && a.firstOk && a.columns != [] && a.resMallocOk && a.metaOk
                       && a.bindResultOk && a.fetched != FetchFailed && a.freeOk)
  {
    ExecutedIff(s, c);
    if c.GetCall? && Executed(s, c).ok {
      var x, a := Executed(s, c).state, c.answers;
      ExecutedEffect(s, c);
      SafeAfterExecuting(s, c);
      ResultInStages(x, c);
      if LoadsColumns(a) {
        var l := Step(x, LoadMetaData(true, true)).state;
        var slots := ColumnSlots(a.columns, Touch(c.fields, c.key));
        WrittenSlots(l, l.resBind, 0, slots);
        FetchesIff(WriteSlots(l, l.resBind, 0, slots), a);
      }
    }
  }

  lemma FetchesIff(w: State, a: Answers)
    requires !w.hasBind && w.lib.columns != []
    ensures FetchAndFree(w, a).ok <==> a.bindResultOk && a.fetched != FetchFailed && a.freeOk
  {
  }

  // ----- What a returning operation has sent -----

  /** The statement that an operation executes. */
  function SentBy(c: Call): Sent {
    Sent(CallText(c), CallSlots(c) + ZeroedSlots(Spare(c)))
  }

  /** An operation that returns normally has sent exactly one statement: its own. */
  lemma CallSends(s: State, c: Call)
    requires Ready(s) && SafeCall(c) && Finished(s, c).ok
    ensures Finished(s, c).state.lib.log == s.lib.log + [SentBy(c)]
  {
    ExecutedEffect(s, c);
    if c.GetCall? {
      var t, a := Executed(s, c).state, c.answers;
      SafeAfterExecuting(s, c);
      ResultInStages(t, c);
      var l := Step(t, LoadMetaData(a.resMallocOk, a.metaOk));
      var slots := ColumnSlots(a.columns, Touch(c.fields, c.key));
      WrittenSlots(l.state, l.state.resBind, 0, slots);
      FetchSendsNothing(WriteSlots(l.state, l.state.resBind, 0, slots), a);
    }
  }

  lemma FetchSendsNothing(s: State, a: Answers)
    ensures FetchAndFree(s, a).state.lib.log == s.lib.log
  {
  }

  /** An operation that selects by a key can return only if the key is registered. */
  lemma ReturnsOnlyIfRegistered(s: State, c: Call)
    requires Ready(s) && SafeCall(c) && !c.InsertCall? && Finished(s, c).ok
    ensures c.key in AsMap(c.fields)
  {
    var slots := CallSlots(c);
    ExecutedIff(s, c);
    EnoughPlaceholders(c);
    assert Usable(slots[|slots| - 1]);
  }

  /** No table, key or altered field name contains a placeholder. */
  predicate PlainParts(c: Call) {
    && '?' !in c.table
    && (!c.InsertCall? ==> '?' !in c.key)
    && (c.InsertCall? || c.UpdateCall? ==>
          forall k :: 0 <= k < |Altered(c.fields)| ==> '?' !in Names(Altered(c.fields))[k])
  }

  /**
   * Positional agreement: a statement is sent with exactly the slots that the call binds,
   * one for each placeholder, if and only if its variable parts contain no placeholder.
   */
  lemma PositionalAgreementIff(c: Call)
    ensures SentBy(c).params == CallSlots(c) && MarkCount(CallText(c)) == |CallSlots(c)| <==> PlainParts(c)
  {
    PlaceholdersIff(c);
    if MarkCount(CallText(c)) == |CallSlots(c)| {
      assert ZeroedSlots(Spare(c)) == [];
      assert CallSlots(c) + [] == CallSlots(c);
    }
  }

  lemma PlaceholdersIff(c: Call)
    ensures MarkCount(CallText(c)) == |CallSlots(c)| <==> PlainParts(c)
  {
    match c
    case InsertCall(table, fields, _) => InsertPlaceholdersIff(table, Names(Altered(fields)));
    case UpdateCall(table, fields, key, _) => UpdatePlaceholdersIff(table, Names(Altered(fields)), key);
    case RemoveCall(table, _, key, _) => KeyedPlaceholdersIff("delete from ", table, key);
    case GetCall(table, _, key, _, _) => KeyedPlaceholdersIff("select * from ", table, key);
  }

  lemma KeyedPlaceholdersIff(prefix: string, table: string, key: string)
    requires '?' !in prefix
    ensures MarkCount(prefix + table + " where " + key + " = ?") == 1 <==> '?' !in table && '?' !in key
  {
    KeyedMarks(prefix, table, key);
    NoMarksIff(table);
    NoMarksIff(key);
  }

  // ----- What it means -----

  /** The assignment of slots to names that a statement with positional parameters denotes. */
  function Assigned(names: seq<string>, params: seq<Slot>): map<string, Slot>
    requires |names| <= |params|
  {
    if names == [] then map[] else Assigned(names[1..], params[1..])[names[0] := params[0]]
  }

  /** The buffers of the altered fields. */
  function AlteredSlots(fields: seq<Field>): map<string, Slot> {
    map name | name in AsMap(fields) && AsMap(fields)[name].alterable ::
      Slot(AsMap(fields)[name].buffer, AsMap(fields)[name].nbytes, MySqlTypeOf(AsMap(fields)[name].ftype))
  }

  /**
   * A get searches for the value that its caller passes, and an update and a delete for what
   * the field of the key holds: that is the last slot bound, whatever the names are.
   */
  lemma SearchedValue(c: Call)
    requires !c.InsertCall?
    ensures var n, params := if c.UpdateCall? then |Altered(c.fields)| else 0, SentBy(c).params;
            && |CallSlots(c)| == n + 1 <= |params|
            && params[n].buffer == (if c.GetCall? then c.value
                                    else if c.key in AsMap(c.fields) then AsMap(c.fields)[c.key].buffer
                                    else NULL)
            && (c.key in AsMap(c.fields) ==>
                  && params[n].nbytes == AsMap(c.fields)[c.key].nbytes
                  && params[n].kind == MySqlTypeOf(AsMap(c.fields)[c.key].ftype))
            && (c.key !in AsMap(c.fields) ==> params[n].nbytes == 0 && params[n].kind == Tiny)
  {
  }

  /** The altered fields' names and buffers, in one order. */
  lemma AlteredParams(fields: seq<Field>)
    requires Sorted(fields)
    ensures var names, params := Names(Altered(fields)), SlotsOf(Altered(fields));
            && (forall name :: name in names <==> name in AsMap(fields) && AsMap(fields)[name].alterable)
            && forall k :: 0 <= k < |names| ==>
                 var a := AsMap(fields)[names[k]];
                 params[k] == Slot(a.buffer, a.nbytes, MySqlTypeOf(a.ftype))
  {
    var altered, names := Altered(fields), Names(Altered(fields));
    AlteredMembers(fields);
    EntriesOfMap(fields);
    forall k | 0 <= k < |names|
      ensures names[k] in AsMap(fields) && AsMap(fields)[names[k]] == altered[k].attr && altered[k].attr.alterable
    {
      assert altered[k] in fields;
    }
    forall name | name in AsMap(fields) && AsMap(fields)[name].alterable
      ensures name in names
    {
      var f := Field(name, AsMap(fields)[name]);
      assert f in altered;
      var k :| 0 <= k < |altered| && altered[k] == f;
      assert names[k] == name;
    }
  }

  lemma {:induction false} AssignedAltered(fields: seq<Field>, more: seq<Slot>)
    requires Sorted(fields)
    ensures Assigned(Names(Altered(fields)), SlotsOf(Altered(fields)) + more) == AlteredSlots(fields)
  {
    if fields != [] {
      AssignedAltered(fields[1..], more);
      AlteredSlotsFront(fields);
      if fields[0].attr.alterable {
        var names, slots := Names(Altered(fields)), SlotsOf(Altered(fields)) + more;
        assert names[1..] == Names(Altered(fields[1..]));
        assert slots[1..] == SlotsOf(Altered(fields[1..])) + more;
        assert names[0] == fields[0].name && slots[0] == SlotOf(fields[0].attr);
      }
    }
  }

  lemma AlteredSlotsFront(fields: seq<Field>)
    requires Sorted(fields) && fields != []
    ensures var f, rest := fields[0], AlteredSlots(fields[1..]);
            AlteredSlots(fields) == if f.attr.alterable then rest[f.name := SlotOf(f.attr)] else rest
  {
    FirstIsNew(fields);
  }

  lemma FirstIsNew(fields: seq<Field>)
    requires Sorted(fields) && fields != []
    ensures fields[0].name !in AsMap(fields[1..])
  {
    EntriesOfMap(fields[1..]);
    if fields[0].name in AsMap(fields[1..]) {
      var f := Field(fields[0].name, AsMap(fields[1..])[fields[0].name]);
      assert f in fields[1..] && Before(fields[0].name, f.name);
      BeforeIrreflexive(f.name);
    }
  }

  /** Names that can be read back: the table, the key, and every registered field. */
  ghost predicate GoodNames(table: string, fields: seq<Field>) {
    IsName(table) && forall k :: 0 <= k < |fields| ==> IsName(fields[k].name)
  }

  lemma AlteredNamesGood(fields: seq<Field>)
    requires forall k :: 0 <= k < |fields| ==> IsName(fields[k].name)
    ensures AllNames(Names(Altered(fields)))
    ensures forall k :: 0 <= k < |Names(Altered(fields))| ==> '?' !in Names(Altered(fields))[k]
  {
    AlteredMembers(fields);
    forall k | 0 <= k < |Altered(fields)|
      ensures IsName(Altered(fields)[k].name)
    {
      assert Altered(fields)[k] in fields;
    }
  }

  /**
   * The meaning of an insert: read back from its text, with its parameters substituted by
   * position, it stores exactly the altered fields' buffers under their names in the table.
   */
  lemma InsertMeaning(c: Call)
    requires c.InsertCall? && Sorted(c.fields) && GoodNames(c.table, c.fields)
    ensures var names := Names(Altered(c.fields));
            && ReadInsert(SentBy(c).sql) == Some(Insert(c.table, names, |SentBy(c).params|))
            && |SentBy(c).params| == |names|
            && (forall name :: name in names <==> name in AsMap(c.fields) && AsMap(c.fields)[name].alterable)
            && (forall k :: 0 <= k < |names| ==>
                  var a := AsMap(c.fields)[names[k]];
                  SentBy(c).params[k] == Slot(a.buffer, a.nbytes, MySqlTypeOf(a.ftype)))
            && Assigned(names, SentBy(c).params) == AlteredSlots(c.fields)
  {
    var names := Names(Altered(c.fields));
    AlteredNamesGood(c.fields);
    InsertRead(c.table, names);
    PositionalAgreementIff(c);
    AssignedAltered(c.fields, []);
    AlteredParams(c.fields);
    assert SentBy(c).params == SlotsOf(Altered(c.fields)) + [];
  }

  /**
   * The meaning of an update: it can be read back exactly when some field is altered, and
   * then it assigns exactly the altered fields' buffers, where the key equals its own buffer.
   */
  lemma UpdateMeaning(c: Call)
    requires c.UpdateCall? && Sorted(c.fields) && GoodNames(c.table, c.fields) && IsName(c.key)
    ensures var names := Names(Altered(c.fields));
            && ReadUpdate(SentBy(c).sql) == (if names == [] then None else Some(Update(c.table, names, c.key)))
            && |SentBy(c).params| == |names| + 1
            && (forall name :: name in names <==> name in AsMap(c.fields) && AsMap(c.fields)[name].alterable)
            && (forall k :: 0 <= k < |names| ==>
                  var a := AsMap(c.fields)[names[k]];
                  SentBy(c).params[k] == Slot(a.buffer, a.nbytes, MySqlTypeOf(a.ftype)))
            && Assigned(names, SentBy(c).params) == AlteredSlots(c.fields)
            && (c.key in AsMap(c.fields) ==>
                  var a := AsMap(c.fields)[c.key];
                  SentBy(c).params[|names|] == Slot(a.buffer, a.nbytes, MySqlTypeOf(a.ftype)))
            && (c.key !in AsMap(c.fields) ==> SentBy(c).params[|names|] == Slot(NULL, 0, Tiny))
  {
    var names, last := Names(Altered(c.fields)), SlotOf(Lookup(c.fields, c.key));
    AlteredParams(c.fields);
    AlteredNamesGood(c.fields);
    UpdateRead(c.table, names, c.key);
    PositionalAgreementIff(c);
    AssignedAltered(c.fields, [last]);
    assert SentBy(c).params == SlotsOf(Altered(c.fields)) + [last];
  }

  /** A delete and a select name the table and the key, whose parameter is their only one. */
  lemma KeyedMeaning(c: Call)
    requires c.RemoveCall? || c.GetCall?
    requires IsName(c.table) && IsName(c.key)
    ensures ReadKeyed(if c.GetCall? then "select * from " else "delete from ", SentBy(c).sql)
            == Some(Keyed(c.table, c.key))
    ensures var params := SentBy(c).params;
            && |params| == 1
            && (c.key in AsMap(c.fields) ==>
                  var a := AsMap(c.fields)[c.key];
                  params[0] == Slot(if c.GetCall? then c.value else a.buffer, a.nbytes, MySqlTypeOf(a.ftype)))
            && (c.key !in AsMap(c.fields) ==> params[0] == Slot(if c.GetCall? then c.value else NULL, 0, Tiny))
  {
    KeyedRead(if c.GetCall? then "select * from " else "delete from ", c.table, c.key);
    PositionalAgreementIff(c);
  }

  // ----- Fetching -----

  /**
   * When get fetches, the library is bound to the array that was loaded for this result, and
   * each column's slot is the buffer of the field with the column's name.
   */
  lemma FetchedIntoFields(s: State, c: Call)
    requires Ready(s) && c.GetCall? && s.lib.columns == c.answers.columns
    requires LoadsColumns(c.answers) && SafeColumns(c)
    ensures var a := c.answers;
            var l := Step(s, LoadMetaData(a.resMallocOk, a.metaOk)).state;
            var slots := ColumnSlots(a.columns, Touch(c.fields, c.key));
            && Attemptable(s, ResultOps(c))
            && |slots| <= |SlotsAt(l, l.resBind)|
            && var w := WriteSlots(l, l.resBind, 0, slots);
               && Callable(w, Fetch(a.bindResultOk, a.fetched))
               && Attempt(s, ResultOps(c)) == FetchAndFree(w, a)
               && !w.hasBind && SlotsAt(w, w.resBind) == slots
               && var f := Step(w, Fetch(a.bindResultOk, a.fetched));
                  (f.ret != ResultError ==>
                    && f.state.hasBind && f.state.lib.bound == f.state.resBind
                    && SlotsAt(f.state, f.state.resBind) == slots && f.state.lib.results == slots)
  {
    var a := c.answers;
    var l := Step(s, LoadMetaData(a.resMallocOk, a.metaOk)).state;
    var slots := ColumnSlots(a.columns, Touch(c.fields, c.key));
    ResultInStages(s, c);
    WrittenSlots(l, l.resBind, 0, slots);
    var w := WriteSlots(l, l.resBind, 0, slots);
    assert |SlotsAt(l, l.resBind)| == |slots| > 0;
    assert SlotsAt(w, l.resBind) == slots;
    BindingFetch(w, a);
  }

  /** A fetch that still has to bind makes the library copy the current slots. */
  lemma BindingFetch(w: State, a: Answers)
    requires !w.hasBind && |w.lib.columns| == |SlotsAt(w, w.resBind)|
    ensures var f := StepFetch(w, a.bindResultOk, a.fetched);
            f.ret != ResultError ==>
              && f.state.hasBind && f.state.lib.bound == f.state.resBind == w.resBind
              && SlotsAt(f.state, w.resBind) == f.state.lib.results == SlotsAt(w, w.resBind)
  {
    var slots := SlotsAt(w, w.resBind);
    assert slots[..|slots|] == slots;
  }

  /** A get that returns has had the library write each column to the field of its name. */
  lemma GetFillsFields(s: State, c: Call)
    requires Ready(s) && c.GetCall? && SafeCall(c) && Finished(s, c).ok
    ensures var slots, columns := Finished(s, c).state.lib.results, c.answers.columns;
            && |slots| == |columns|
            && forall i :: 0 <= i < |columns| ==>
                 && columns[i].name in AsMap(Touch(c.fields, c.key))
                 && var field := AsMap(Touch(c.fields, c.key))[columns[i].name];
                    slots[i] == Slot(field.buffer, field.nbytes, columns[i].kind)
  {
    var x, a := Executed(s, c).state, c.answers;
    ExecutedEffect(s, c);
    SafeAfterExecuting(s, c);
    ResultInStages(x, c);
    FetchedIntoFields(x, c);
    var l := Step(x, LoadMetaData(a.resMallocOk, a.metaOk)).state;
    FreeingKeepsLibrary(WriteSlots(l, l.resBind, 0, ColumnSlots(a.columns, Touch(c.fields, c.key))), a);
  }

  lemma FreeingKeepsLibrary(w: State, a: Answers)
    ensures FetchAndFree(w, a).state.lib == StepFetch(w, a.bindResultOk, a.fetched).state.lib
  {
  }
}
