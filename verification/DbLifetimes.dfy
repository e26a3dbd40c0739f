/** Allocation lifetimes over whole sessions of database operations. */
module DbLifetimes {
  import opened SqlText
  import opened StatementHandle
  import opened SqlObjects
  import opened DbCalls
  import opened DbSessions

  /** Nothing is pending: only the statement is allocated. */
  ghost predicate Clean(s: State) {
    && Ready(s)
    && s.resFields == NULL && s.resBind == NULL && s.paramBind == NULL && !s.hasBind
    && s.live.Keys == {s.stmt}
  }

  // ----- One operation -----

  lemma FreeResultOfGet(s: State, c: Call)
    requires Ready(s) && c.GetCall? && s.lib.columns == c.answers.columns
    requires s.resFields == NULL && s.resBind == NULL && SafeResult(c)
    requires Attemptable(s, ResultOps(c)) && Attempt(s, ResultOps(c)).ok
    ensures var t := Attempt(s, ResultOps(c)).state;
            && t.resFields == NULL && t.resBind == NULL && !t.hasBind
            && t.paramBind == s.paramBind && t.live.Keys == s.live.Keys
  {
    var a := c.answers;
    ResultInStages(s, c);
    FetchedIntoFields(s, c);
    var l := Step(s, LoadMetaData(a.resMallocOk, a.metaOk)).state;
    var slots := ColumnSlots(a.columns, Touch(c.fields, c.key));
    WrittenSlots(l, l.resBind, 0, slots);
    LoadAllocates(s);
    FreesLoaded(WriteSlots(l, l.resBind, 0, slots), a);
    FreedKeys(s.live.Keys, l.resFields, l.resBind);
  }

  lemma FreedKeys(keys: set<Ptr>, p: Ptr, q: Ptr)
    requires p !in keys && q !in keys
    ensures keys + {p, q} - {p, q} == keys
  {
  }

  lemma LoadAllocates(s: State)
    requires Ready(s) && s.lib.columns != []
    ensures var l := StepLoad(s, true, true).state;
            && l.live.Keys == s.live.Keys + {l.resFields, l.resBind} && l.resFields != l.resBind
            && l.resFields !in s.live && l.resBind !in s.live && l.resFields != NULL && l.resBind != NULL
            && l.paramBind == s.paramBind
  {
  }

  lemma FreesLoaded(w: State, a: Answers)
    requires w.resFields in w.live && w.resBind in w.live && w.resFields != w.resBind
    requires w.resFields != NULL && w.resBind != NULL && FetchAndFree(w, a).ok
    ensures var t := FetchAndFree(w, a).state;
            && t.resFields == NULL && t.resBind == NULL && !t.hasBind
            && t.paramBind == w.paramBind && t.live.Keys == w.live.Keys - {w.resFields, w.resBind}
  {
  }

  /** An operation that returns normally from a clean handle leaves it clean. */
  lemma CallStaysClean(s: State, c: Call)
    requires Clean(s) && SafeCall(c) && Finished(s, c).ok
    ensures Clean(Finished(s, c).state) && Finished(s, c).state.stmt == s.stmt
  {
    CallIsSafe(s, c);
    ExecutedEffect(s, c);
    if c.GetCall? {
      SafeAfterExecuting(s, c);
      ResultInStages(Executed(s, c).state, c);
      FreeResultOfGet(Executed(s, c).state, c);
    }
  }

  /** When an operation overwrites a pointer to an allocation that an earlier one left behind. */
  predicate CallOverwrites(s: State, c: Call)
    requires Ready(s)
  {
    var a := c.answers;
    || (a.prepareOk && MarkCount(CallText(c)) > 0 && s.paramBind != NULL)
    || (c.GetCall? && Executed(s, c).ok && a.firstOk && a.columns != []
        && (s.resBind != NULL || (a.resMallocOk && s.resFields != NULL)))
  }

  /** An operation, returning or throwing, leaks exactly when it overwrites something pending. */
  lemma CallLeaksIff(s: State, c: Call)
    requires Ready(s) && SafeCall(c)
    ensures Leaked(s) <= Leaked(Finished(s, c).state)
    ensures Leaked(s) == Leaked(Finished(s, c).state) <==> !CallOverwrites(s, c)
  {
    ExecutedLeaksIff(s, c);
    if c.GetCall? && Executed(s, c).ok {
      ExecutedEffect(s, c);
      SafeAfterExecuting(s, c);
      ResultLeaksIff(Executed(s, c).state, c);
    }
  }

  lemma ExecutedLeaksIff(s: State, c: Call)
    requires Ready(s)
    ensures var t := Executed(s, c).state;
            && Leaked(s) <= Leaked(t)
            && (Leaked(s) == Leaked(t)
                <==> !(c.answers.prepareOk && MarkCount(CallText(c)) > 0 && s.paramBind != NULL))
  {
    BindingLeaksNothing(s, c);
    var a := c.answers;
    PrepareLeaksIff(s, CallText(c), a.prepareOk, a.columns, a.keepsBinding, a.mallocOk);
  }

  lemma BindingLeaksNothing(s: State, c: Call)
    requires Ready(s)
    ensures Leaked(Executed(s, c).state) == Leaked(Step(s, PrepareOp(CallText(c), c.answers)).state)
  {
    if PrepareSucceeds(s, c) {
      BoundLeaksNothing(s, c);
      AfterBinding(s, c);
      ExecuteOpLeaksNothing(Bound(s, c), c.answers);
    }
  }

  lemma BoundLeaksNothing(s: State, c: Call)
    requires Ready(s) && PrepareSucceeds(s, c)
    ensures Leaked(Bound(s, c)) == Leaked(Step(s, PrepareOp(CallText(c), c.answers)).state)
  {
    var r := Step(s, PrepareOp(CallText(c), c.answers)).state;
    AfterPrepare(s, c);
    WriteKeepsInv(r, r.paramBind, CallSlots(c));
  }

  lemma ExecuteOpLeaksNothing(s: State, a: Answers)
    requires Ready(s)
    ensures Leaked(StepExecute(s, a.bindOk, a.executeOk).state) == Leaked(s)
  {
    ExecuteLeaksNothing(s, a.bindOk, a.executeOk);
  }

  lemma ResultLeaksIff(s: State, c: Call)
    requires Ready(s) && c.GetCall? && s.lib.columns == c.answers.columns && SafeResult(c)
    ensures Attemptable(s, ResultOps(c))
    ensures var t, a := Attempt(s, ResultOps(c)).state, c.answers;
            && Leaked(s) <= Leaked(t)
            && (Leaked(s) == Leaked(t)
                <==> !(a.firstOk && a.columns != [] && (s.resBind != NULL || (a.resMallocOk && s.resFields != NULL))))
  {
    var a := c.answers;
    ResultInStages(s, c);
    if a.firstOk {
      var l := Step(s, LoadMetaData(a.resMallocOk, a.metaOk));
      LoadKeepsInv(s, a.resMallocOk, a.metaOk);
      LoadLeaksIff(s, a.resMallocOk, a.metaOk);
      if l.ret != ResultError {
        var slots := ColumnSlots(a.columns, Touch(c.fields, c.key));
        WriteKeepsInv(l.state, l.state.resBind, slots);
        FetchAndFreeLeakNothing(WriteSlots(l.state, l.state.resBind, 0, slots), a);
      }
    }
  }

  lemma FetchAndFreeLeakNothing(s: State, a: Answers)
    requires Inv(s) && Callable(s, Fetch(a.bindResultOk, a.fetched))
    ensures Leaked(FetchAndFree(s, a).state) == Leaked(s)
  {
    var f := StepFetch(s, a.bindResultOk, a.fetched).state;
    StepKeepsBase(s, Fetch(a.bindResultOk, a.fetched));
    assert Leaked(f) == Leaked(s);
    FreeResultLeaksNothing(f);
  }

  // ----- Sessions -----

  predicate AllSafe(calls: seq<Call>) {
    forall k :: 0 <= k < |calls| ==> SafeCall(calls[k])
  }

  /** Operations one after the other, whether or not earlier ones threw, all meet C's demands. */
  predicate SessionAttemptable(s: State, calls: seq<Call>)
    decreases calls
  {
    calls != [] ==>
      && Attemptable(s, CallOps(calls[0]))
      && SessionAttemptable(Attempt(s, CallOps(calls[0])).state, calls[1..])
  }

  lemma FirstSafe(calls: seq<Call>)
    requires calls != []
    ensures AllSafe(calls) <==> SafeCall(calls[0]) && AllSafe(calls[1..])
  {
    assert calls == [calls[0]] + calls[1..];
  }

  /** A session can be carried out exactly when each of its operations is safe. */
  lemma {:induction false} SessionIsSafeIff(s: State, calls: seq<Call>)
    requires Ready(s)
    ensures SessionAttemptable(s, calls) <==> AllSafe(calls)
    decreases calls
  {
    if calls != [] {
      CallIsSafeIff(s, calls[0]);
      FirstSafe(calls);
      if SafeCall(calls[0]) {
        CallIsSafe(s, calls[0]);
        SessionIsSafeIff(Attempt(s, CallOps(calls[0])).state, calls[1..]);
      }
    }
  }

  /** Where a session of safe operations ends. */
  function Session(s: State, calls: seq<Call>): (t: State)
    requires Ready(s) && AllSafe(calls)
    ensures Ready(t) && t.stmt == s.stmt
    decreases calls
  {
    if calls == [] then s
    else
      CallIsSafe(s, calls[0]);
      Session(Finished(s, calls[0]).state, calls[1..])
  }

  predicate AllReturn(s: State, calls: seq<Call>)
    requires Ready(s) && AllSafe(calls)
    decreases calls
  {
    calls != [] ==>
      && Finished(s, calls[0]).ok
      && (CallIsSafe(s, calls[0]); AllReturn(Finished(s, calls[0]).state, calls[1..]))
  }

  /**
   * No leak along successful runs: after any session of operations that all return, nothing
   * is pending, and the destructor leaves no allocation but a statement that the library keeps.
   */
  lemma {:induction false} SuccessfulSessionsAreClean(s: State, calls: seq<Call>, freeOk: bool, close: CloseAnswer)
    requires Clean(s) && AllSafe(calls) && AllReturn(s, calls)
    ensures Clean(Session(s, calls))
    ensures Destroy(Session(s, calls), freeOk, close).live.Keys == if close.FailedKept? then {s.stmt} else {}
    decreases calls
  {
    if calls == [] {
      DestructorFreesOwned(s, freeOk, close);
    } else {
      CallStaysClean(s, calls[0]);
      CallIsSafe(s, calls[0]);
      SuccessfulSessionsAreClean(Finished(s, calls[0]).state, calls[1..], freeOk, close);
    }
  }

  predicate SessionOverwrites(s: State, calls: seq<Call>)
    requires Ready(s) && AllSafe(calls)
    decreases calls
  {
    calls != [] &&
    (CallOverwrites(s, calls[0])
     || (CallIsSafe(s, calls[0]); SessionOverwrites(Finished(s, calls[0]).state, calls[1..])))
  }

  lemma {:induction false} SessionLeaksIff(s: State, calls: seq<Call>)
    requires Ready(s) && AllSafe(calls)
    ensures Leaked(s) <= Leaked(Session(s, calls))
    ensures Leaked(s) == Leaked(Session(s, calls)) <==> !SessionOverwrites(s, calls)
    decreases calls
  {
    if calls != [] {
      CallIsSafe(s, calls[0]);
      CallLeaksIff(s, calls[0]);
      SessionLeaksIff(Finished(s, calls[0]).state, calls[1..]);
    }
  }

  // ----- What an operation leaves behind -----

  /** Whether a parameter array and a result array are left behind. */
  datatype Pending = Pending(params: bool, result: bool)

  const NOTHING := Pending(false, false)

  /** The parameter array is left behind when preparing succeeded and executing did not. */
  function ParamsAfter(params: bool, c: Call): bool {
    var a, m := c.answers, MarkCount(CallText(c));
    if !a.prepareOk then params
    else if m > 0 && !a.mallocOk then false
    else (m > 0 || params) && !Executes(params, c)
  }

  /** The result array is left behind when loading its metadata, binding it or fetching failed. */
  function ResultAfter(result: bool, a: Answers): bool {
    if !a.firstOk || a.columns == [] then result
    else a.resMallocOk && (!a.metaOk || !a.bindResultOk || a.fetched.FetchFailed?)
  }

  function After(p: Pending, c: Call): Pending {
    Pending(ParamsAfter(p.params, c),
            if c.GetCall? && Executes(p.params, c) then ResultAfter(p.result, c.answers) else p.result)
  }

  /** Whether an operation loses what is pending: it prepares, or loads a result, over it. */
  predicate Loses(p: Pending, c: Call) {
    var a := c.answers;
    || (p.params && a.prepareOk && MarkCount(CallText(c)) > 0)
    || (p.result && c.GetCall? && Executes(p.params, c) && a.firstOk && a.columns != [])
  }

  predicate SessionLoses(p: Pending, calls: seq<Call>)
    decreases calls
  {
    calls != [] && (Loses(p, calls[0]) || SessionLoses(After(p, calls[0]), calls[1..]))
  }

  predicate Leaves(s: State, p: Pending) {
    && (s.paramBind != NULL <==> p.params)
    && (s.resBind != NULL <==> p.result)
    && (s.resFields != NULL ==> s.resBind != NULL)
  }

  lemma ExecutedLeaves(s: State, p: Pending, c: Call)
    requires Ready(s) && Leaves(s, p)
    ensures Leaves(Executed(s, c).state, p.(params := ParamsAfter(p.params, c)))
  {
    ExecutedIff(s, c);
    PrepareSucceedsIff(s, c);
    if PrepareSucceeds(s, c) {
      AfterBinding(s, c);
      ExecuteEffect(Bound(s, c), c.answers);
      FailedExecuteKeepsParams(Bound(s, c), c.answers);
    } else {
      FailedPrepareLeaves(s, c);
    }
  }

  lemma FailedPrepareLeaves(s: State, c: Call)
    requires Ready(s) && !PrepareSucceeds(s, c)
    ensures var t := Executed(s, c).state;
            && t.resBind == s.resBind && t.resFields == s.resFields
            && t.paramBind == if c.answers.prepareOk then NULL else s.paramBind
  {
  }

  lemma FailedExecuteKeepsParams(s: State, a: Answers)
    requires Ready(s)
    ensures var r := StepExecute(s, a.bindOk, a.executeOk);
            r.ret == ResultError ==> r.state.paramBind == s.paramBind
  {
  }

  lemma ResultLeaves(s: State, p: Pending, c: Call)
    requires Ready(s) && c.GetCall? && s.lib.columns == c.answers.columns && SafeResult(c)
    requires Leaves(s, p) && !(p.result && c.answers.firstOk && c.answers.columns != [])
    ensures Attemptable(s, ResultOps(c))
    ensures Leaves(Attempt(s, ResultOps(c)).state, p.(result := ResultAfter(p.result, c.answers)))
  {
    var a := c.answers;
    ResultInStages(s, c);
    if LoadsColumns(a) {
      var l := Step(s, LoadMetaData(a.resMallocOk, a.metaOk)).state;
      var slots := ColumnSlots(a.columns, Touch(c.fields, c.key));
      WrittenSlots(l, l.resBind, 0, slots);
      FetchLeaves(WriteSlots(l, l.resBind, 0, slots), a);
    }
  }

  lemma FetchLeaves(s: State, a: Answers)
    requires s.resBind != NULL && !s.hasBind && s.lib.columns != []
    ensures var t := FetchAndFree(s, a).state;
            && t.paramBind == s.paramBind
            && (t.resBind != NULL <==> !a.bindResultOk || a.fetched.FetchFailed?)
            && (t.resFields != NULL ==> t.resBind != NULL)
  {
  }

  /** The two flags follow an operation that loses nothing, and they tell whether it does. */
  lemma CallLosesIff(s: State, p: Pending, c: Call)
    requires Ready(s) && SafeCall(c) && Leaves(s, p)
    ensures CallOverwrites(s, c) <==> Loses(p, c)
    ensures !Loses(p, c) ==> Leaves(Finished(s, c).state, After(p, c))
  {
    ExecutedIff(s, c);
    ExecutedLeaves(s, p, c);
    if c.GetCall? && Executed(s, c).ok && !Loses(p, c) {
      ExecutedEffect(s, c);
      SafeAfterExecuting(s, c);
      ResultLeaves(Executed(s, c).state, p.(params := ParamsAfter(p.params, c)), c);
    }
  }

  lemma {:induction false} SessionLosesIff(s: State, p: Pending, calls: seq<Call>)
    requires Ready(s) && AllSafe(calls) && Leaves(s, p)
    ensures SessionOverwrites(s, calls) <==> SessionLoses(p, calls)
    decreases calls
  {
    if calls != [] {
      CallLosesIff(s, p, calls[0]);
      if !Loses(p, calls[0]) {
        CallIsSafe(s, calls[0]);
        SessionLosesIff(Finished(s, calls[0]).state, After(p, calls[0]), calls[1..]);
      }
    }
  }

  /**
   * The exact condition over all sessions, throwing operations included: the destructor
   * frees everything if and only if the library does not keep the statement and no operation
   * lost what earlier ones left behind, which follows from where each of them stopped.
   */
  lemma DestructorFreesAllIff(s: State, calls: seq<Call>, freeOk: bool, close: CloseAnswer)
    requires Clean(s) && AllSafe(calls)
    ensures Destroy(Session(s, calls), freeOk, close).live == map[]
            <==> !close.FailedKept? && !SessionLoses(NOTHING, calls)
  {
    SessionLeaksIff(s, calls);
    SessionLosesIff(s, NOTHING, calls);
    DestructorFreesOwned(Session(s, calls), freeOk, close);
    assert Leaked(s) == {};
    var live := Destroy(Session(s, calls), freeOk, close).live;
    assert live == map[] <==> live.Keys == {};
  }

  /** A first operation leaks nothing, even if it throws. */
  lemma FirstThrowLeaksNothing(s: State, c: Call, freeOk: bool)
    requires Clean(s) && SafeCall(c)
    ensures Destroy(Session(s, [c]), freeOk, Closed).live == map[]
  {
    DestructorFreesAllIff(s, [c], freeOk, Closed);
    assert [c][1..] == [];
    assert !SessionLoses(After(NOTHING, c), []);
  }

  /** The answers of a library that refuses to execute, or of one that does everything asked. */
  function PlainAnswers(executeOk: bool): Answers {
    Answers(true, [], true, true, true, executeOk, true, true, true, true, FetchNothing, true)
  }

  /** A delete that fails to execute, followed by one that succeeds, leaks a parameter array. */
  lemma ThrowThenReturnLeaks(s: State, table: string, fields: seq<Field>, key: string, freeOk: bool)
    requires Clean(s) && Usable(SlotOf(Lookup(fields, key)))
    ensures var c := RemoveCall(table, fields, key, PlainAnswers(false));
            var d := RemoveCall(table, fields, key, PlainAnswers(true));
            Destroy(Session(s, [c, d]), freeOk, Closed).live != map[]
  {
    var c := RemoveCall(table, fields, key, PlainAnswers(false));
    var d := RemoveCall(table, fields, key, PlainAnswers(true));
    EnoughPlaceholders(c);
    assert After(NOTHING, c) == Pending(true, false);
    assert Loses(Pending(true, false), d);
    assert [c, d][1..] == [d];
    DestructorFreesAllIff(s, [c, d], freeOk, Closed);
  }
}
