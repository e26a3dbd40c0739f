/** The database access object of Util/DBUtil.cpp. */
module DbUtil {
  import opened SqlText
  import opened StatementHandle
  import opened SqlObjects
  import opened DbCalls
  import opened DbSessions
  import opened DbLifetimes

  lemma CommaListAppend(items: seq<string>, item: string)
    ensures CommaList(items + [item]) == AppendItem(CommaList(items), item)
  {
    assert (items + [item])[..|items|] == items;
  }

  lemma AssignmentsAppend(names: seq<string>, name: string)
    ensures Assignments(names + [name]) == AppendAssignment(Assignments(names), |names|, name)
  {
    assert (names + [name])[..|names|] == names;
  }

  /**
   * An operation took the handle from one state to another as specified, and if it returned
   * it has sent its own statement.
   */
  ghost predicate Performed(s: State, t: State, ok: bool, c: Call) {
    Ready(s) && SafeCall(c) && Attempted(t, ok) == Finished(s, c) && (ok ==> t.lib.log == s.lib.log + [SentBy(c)])
  }

  /**
   * Each operation takes the object, and the answers that the library gives during it, and
   * reports whether it returned; otherwise it threw. Answers that an early exception keeps
   * from being asked for are not used.
   */
  class DBUtil {
    const dbHandle: DbHandle

    ghost predicate Valid()
      reads dbHandle
    {
      Ready(dbHandle.Now())
    }

    constructor (handle: DbHandle)
      requires Ready(handle.Now())
      ensures dbHandle == handle
    {
      dbHandle := handle;
    }

    /**
     * What the C++ constructor does, which throws (no object) as soon as the connection
     * cannot be initialised or set up, its mode set, or a statement allocated. A constructor
     * that throws has allocated nothing for the statement.
     */
    static method Create(initOk: bool, connectOk: bool, modeOk: bool, allocOk: bool)
      returns (db: DBUtil?, ghost handle: DbHandle)
      ensures fresh(handle)
      ensures db != null <==> initOk && connectOk && modeOk && allocOk
      ensures db != null ==> fresh(db) && db.dbHandle == handle && db.Valid() && Clean(handle.Now())
      ensures db == null ==> handle.Now().live == map[]
      ensures handle.Now().lib.log == []
    {
      var h := new DbHandle();
      handle := h;
      db := null;
      if initOk && connectOk && modeOk {
        var res := h.SQLAllocStmt(allocOk);
        if res != ResultError {
          db := new DBUtil(h);
        }
      }
    }

    /**
     * The destructor's calls on the statement; afterwards the object is gone. Nothing stays
     * allocated but what had leaked and a statement that the library keeps.
     */
    method Destructor(freeOk: bool, close: CloseAnswer)
      requires Valid()
      modifies dbHandle
      ensures dbHandle.Now() == Destroy(old(dbHandle.Now()), freeOk, close)
      ensures dbHandle.live.Keys
              == Leaked(old(dbHandle.Now())) + if close.FailedKept? then {old(dbHandle.stmt)} else {}
      ensures dbHandle.badFrees == 0
    {
      DestructorFreesOwned(dbHandle.Now(), freeOk, close);
      var res := dbHandle.SQLFreeResult(freeOk);
      res := dbHandle.SQLCloseStmt(close);
    }

    /** Prepare an operation's statement; without success the operation throws. */
    method PrepareCall(sql: string, a: Answers, ghost c: Call) returns (ok: bool)
      requires Valid() && sql == CallText(c) && a == c.answers
      modifies dbHandle
      ensures Valid()
      ensures ok == PrepareSucceeds(old(dbHandle.Now()), c)
      ensures dbHandle.Now() == Step(old(dbHandle.Now()), PrepareOp(sql, a)).state
      ensures !ok ==> Executed(old(dbHandle.Now()), c) == Attempted(dbHandle.Now(), false)
      ensures ok && CallSlots(c) != [] ==> |CallSlots(c)| <= |SlotsAt(dbHandle.Now(), dbHandle.paramBind)|
      ensures ok ==>
                Bound(old(dbHandle.Now()), c) == WriteSlots(dbHandle.Now(), dbHandle.paramBind, 0, CallSlots(c))
    {
      AfterPrepare(dbHandle.Now(), c);
      var res := dbHandle.SQLPrepare(sql, a.prepareOk, a.columns, a.keepsBinding, a.mallocOk);
      ok := res != ResultError;
    }

    /** Execute a statement whose parameters are bound; without success the operation throws. */
    method ExecuteCall(a: Answers, ghost s: State, ghost c: Call) returns (ok: bool)
      requires Ready(s) && PrepareSucceeds(s, c) && SafeParams(c) && a == c.answers && dbHandle.Now() == Bound(s, c)
      modifies dbHandle
      ensures Attempted(dbHandle.Now(), ok) == Executed(s, c)
      ensures Valid()
    {
      AfterBinding(s, c);
      BoundIsCallableIff(s, c);
      ExecutedStaysReady(s, c);
      var res := dbHandle.SQLExecute(a.bindOk, a.executeOk);
      ok := res != ResultError;
    }

    /** The loop of insert and update that binds each altered field at the next index. */
    method BindAltered(entity: SqlObject) returns (fieldIndex: nat)
      requires Valid()
      requires Altered(entity.fields) != [] ==>
                 |Altered(entity.fields)| <= |SlotsAt(dbHandle.Now(), dbHandle.paramBind)|
      modifies dbHandle`live
      ensures dbHandle.Now() == WriteSlots(old(dbHandle.Now()), dbHandle.paramBind, 0, SlotsOf(Altered(entity.fields)))
      ensures fieldIndex == |Altered(entity.fields)|
    {
      var fields, i := entity.fields, 0;
      fieldIndex := 0;
      ghost var p, start := dbHandle.paramBind, dbHandle.Now();
      ghost var slots := SlotsOf(Altered(fields));
      assert fields[0..] == fields;
      while i < |fields|
        invariant i <= |fields|
        invariant fieldIndex + |Altered(fields[i..])| == |slots|
        invariant dbHandle.stmt != NULL && dbHandle.paramBind == p
        invariant slots != [] ==> |slots| <= |SlotsAt(dbHandle.Now(), p)|
        invariant WriteSlots(dbHandle.Now(), p, fieldIndex, SlotsOf(Altered(fields[i..])))
                  == WriteSlots(start, p, 0, slots)
      {
        assert fields[i..][0] == fields[i] && fields[i..][1..] == fields[i + 1..];
        if fields[i].attr.alterable {
          ghost var rest := SlotsOf(Altered(fields[i..]));
          assert rest[0] == SlotOf(fields[i].attr) && rest[1..] == SlotsOf(Altered(fields[i + 1..]));
          ghost var before := dbHandle.Now();
          var attr := fields[i].attr;
          var res := dbHandle.SQLBindParam(fieldIndex, attr.ftype, attr.buffer, attr.nbytes);
          assert dbHandle.Now() == SetSlot(before, p, fieldIndex, rest[0]);
          fieldIndex := fieldIndex + 1;
        }
        i := i + 1;
      }
    }

    method Insert(entity: SqlObject, a: Answers) returns (ok: bool)
      requires Valid() && entity.Valid()
      requires SafeCall(InsertCall(entity.tableName, entity.fields, a))
      modifies dbHandle
      ensures Valid()
      ensures Performed(old(dbHandle.Now()), dbHandle.Now(), ok,
                        InsertCall(entity.tableName, entity.fields, a))
    {
      ghost var s, c := dbHandle.Now(), InsertCall(entity.tableName, entity.fields, a);
      var sql := InsertSql(entity);
      ok := PrepareCall(sql, a, c);
      if ok {
        var fieldIndex := BindAltered(entity);
        ok := ExecuteCall(a, s, c);
        SentIfOk(s, c);
      }
    }

    method InsertSql(entity: SqlObject) returns (sql: string)
      ensures sql == InsertText(entity.tableName, Names(Altered(entity.fields)))
    {
      var fields, args, i := "", "", 0;
      while i < |entity.fields|
        invariant i <= |entity.fields|
        invariant fields == CommaList(Names(Altered(entity.fields[..i])))
        invariant args == CommaList(Marks(|Altered(entity.fields[..i])|))
      {
        AlteredSnoc(entity.fields, i);
        if entity.fields[i].attr.alterable {
          CommaListAppend(Names(Altered(entity.fields[..i])), entity.fields[i].name);
          CommaListAppend(Marks(|Altered(entity.fields[..i])|), "?");
          assert Marks(|Altered(entity.fields[..i])|) + ["?"] == Marks(|Altered(entity.fields[..i + 1])|);
          if fields != "" {
            fields := fields + ",";
          }
          fields := fields + entity.fields[i].name;
          if args != "" {
            args := args + ",";
          }
          args := args + "?";
        }
        i := i + 1;
      }
      assert entity.fields[..i] == entity.fields;
      sql := "insert into " + entity.tableName + " (" + fields + ") values (" + args + ")";
    }

    method Update(entity: SqlObject, key: string, a: Answers) returns (ok: bool)
      requires Valid() && entity.Valid()
      requires SafeCall(UpdateCall(entity.tableName, entity.fields, key, a))
      modifies dbHandle, entity
      ensures Valid() && entity.Valid()
      ensures Performed(old(dbHandle.Now()), dbHandle.Now(), ok,
                        UpdateCall(entity.tableName, old(entity.fields), key, a))
      ensures ok ==> key in AsMap(old(entity.fields))
      ensures entity.fields
              == if PrepareSucceeds(old(dbHandle.Now()), UpdateCall(entity.tableName, old(entity.fields), key, a))
                 then Touch(old(entity.fields), key) else old(entity.fields)
    {
      ghost var s, c := dbHandle.Now(), UpdateCall(entity.tableName, entity.fields, key, a);
      var sql := UpdateSql(entity, key);
      ok := PrepareCall(sql, a, c);
      if ok {
        ghost var prepared, slots := dbHandle.Now(), SlotsOf(Altered(entity.fields));
        WriteSnoc(prepared, prepared.paramBind, 0, slots, SlotOf(Lookup(entity.fields, key)));
        WrittenSlots(prepared, prepared.paramBind, 0, slots);
        var fieldIndex := BindAltered(entity);
        BindKey(entity, key, fieldIndex);
        ok := ExecuteCall(a, s, c);
        KeyedIfOk(s, c);
      }
    }

    /** Bind the key's own buffer as the last parameter. */
    method BindKey(entity: SqlObject, key: string, fieldIndex: nat)
      requires entity.Valid()
      requires dbHandle.stmt != NULL && fieldIndex < |SlotsAt(dbHandle.Now(), dbHandle.paramBind)|
      modifies dbHandle`live, entity
      ensures entity.Valid() && entity.fields == Touch(old(entity.fields), key)
      ensures dbHandle.Now()
              == WriteSlots(old(dbHandle.Now()), dbHandle.paramBind, fieldIndex,
                            [SlotOf(Lookup(old(entity.fields), key))])
    {
      BindsLast(dbHandle.Now(), Lookup(entity.fields, key), fieldIndex);
      var keyAttr := entity.At(key);
      var res := dbHandle.SQLBindParam(fieldIndex, keyAttr.ftype, keyAttr.buffer, keyAttr.nbytes);
    }

    method UpdateSql(entity: SqlObject, key: string) returns (sql: string)
      ensures sql == UpdateText(entity.tableName, Names(Altered(entity.fields)), key)
    {
      var fieldIndex, i := 0, 0;
      var ss := "";
      while i < |entity.fields|
        invariant i <= |entity.fields|
        invariant fieldIndex == |Altered(entity.fields[..i])|
        invariant ss == Assignments(Names(Altered(entity.fields[..i])))
      {
        AlteredSnoc(entity.fields, i);
        if entity.fields[i].attr.alterable {
          AssignmentsAppend(Names(Altered(entity.fields[..i])), entity.fields[i].name);
          if fieldIndex != 0 {
            ss := ss + ",";
          }
          fieldIndex := fieldIndex + 1;
          ss := ss + entity.fields[i].name + " = ?";
        }
        i := i + 1;
      }
      assert entity.fields[..i] == entity.fields;
      sql := "update " + entity.tableName + " set " + ss + " where " + key + " = ?";
    }

    method Remove(entity: SqlObject, key: string, a: Answers) returns (ok: bool)
      requires Valid() && entity.Valid()
      requires SafeCall(RemoveCall(entity.tableName, entity.fields, key, a))
      modifies dbHandle, entity
      ensures Valid() && entity.Valid()
      ensures Performed(old(dbHandle.Now()), dbHandle.Now(), ok,
                        RemoveCall(entity.tableName, old(entity.fields), key, a))
      ensures ok ==>
                && key in AsMap(old(entity.fields)) && |dbHandle.lib.log| == |old(dbHandle.lib.log)| + 1
                && var sent, field := dbHandle.lib.log[|old(dbHandle.lib.log)|], AsMap(old(entity.fields))[key];
                   && sent.sql == "delete from " + entity.tableName + " where " + key + " = ?"
                   && sent.params != []
                   && sent.params[0] == Slot(field.buffer, field.nbytes, MySqlTypeOf(field.ftype))
      ensures entity.fields
              == if PrepareSucceeds(old(dbHandle.Now()), RemoveCall(entity.tableName, old(entity.fields), key, a))
                 then Touch(old(entity.fields), key) else old(entity.fields)
    {
      ghost var s, c := dbHandle.Now(), RemoveCall(entity.tableName, entity.fields, key, a);
      var sql := "delete from " + entity.tableName + " where " + key + " = ?";
      ok := PrepareCall(sql, a, c);
      if ok {
        BindKey(entity, key, 0);
        ok := ExecuteCall(a, s, c);
        KeyedIfOk(s, c);
      }
    }

    /** Read one row. Safety demands usable parameters and columns, as nothing here tests them. */
    method Get(entity: SqlObject, key: string, value: Ptr, a: Answers) returns (ok: bool, exist: bool)
      requires Valid() && entity.Valid()
      requires SafeCall(GetCall(entity.tableName, entity.fields, key, value, a))
      modifies dbHandle, entity
      ensures Valid() && entity.Valid()
      ensures Performed(old(dbHandle.Now()), dbHandle.Now(), ok,
                        GetCall(entity.tableName, old(entity.fields), key, value, a))
      ensures ok ==> (exist <==> RowFetched(a.fetched))
      ensures ok ==>
                && key in AsMap(old(entity.fields)) && |dbHandle.lib.log| == |old(dbHandle.lib.log)| + 1
                && var sent, field := dbHandle.lib.log[|old(dbHandle.lib.log)|], AsMap(old(entity.fields))[key];
                   && sent.sql == "select * from " + entity.tableName + " where " + key + " = ?"
                   && sent.params != []
                   && sent.params[0] == Slot(value, field.nbytes, MySqlTypeOf(field.ftype))
      ensures ok ==>
                && |dbHandle.lib.results| == |a.columns|
                && forall i :: 0 <= i < |a.columns| ==>
                     && a.columns[i].name in AsMap(old(entity.fields))
                     && var field := AsMap(old(entity.fields))[a.columns[i].name];
                        dbHandle.lib.results[i] == Slot(field.buffer, field.nbytes, a.columns[i].kind)
      ensures entity.fields
              == if PrepareSucceeds(old(dbHandle.Now()), GetCall(entity.tableName, old(entity.fields), key, value, a))
                 then Touch(old(entity.fields), key) else old(entity.fields)
    {
      ghost var s, c := dbHandle.Now(), GetCall(entity.tableName, entity.fields, key, value, a);
      exist := false;
      var sql := "select * from " + entity.tableName + " where " + key + " = ?";
      ok := PrepareCall(sql, a, c);
      if ok {
        BindsLast(dbHandle.Now(), Lookup(entity.fields, key).(buffer := value), 0);
        var v := entity.At(key);
        var res := dbHandle.SQLBindParam(0, v.ftype, value, v.nbytes);
        ok := ExecuteCall(a, s, c);
        if ok {
          ExecutedEffect(s, c);
          SafeAfterExecuting(s, c);
          ok, exist := ReadResult(entity, c, a);
          GetIfOk(s, c);
        }
      }
    }

    /** The part of get that follows a successful execution. */
    method ReadResult(entity: SqlObject, ghost c: Call, a: Answers) returns (ok: bool, exist: bool)
      requires Valid() && c.GetCall? && c.answers == a && entity.fields == Touch(c.fields, c.key)
      requires dbHandle.lib.columns == a.columns && SafeResult(c)
      modifies dbHandle
      ensures Valid()
      ensures Attemptable(old(dbHandle.Now()), ResultOps(c))
      ensures Attempted(dbHandle.Now(), ok) == Attempt(old(dbHandle.Now()), ResultOps(c))
      ensures ok ==> (exist <==> RowFetched(a.fetched))
    {
      ghost var s := dbHandle.Now();
      ok, exist := false, false;
      ResultStaysReady(s, c);
      ResultInStages(s, c);
      var res := dbHandle.GetFirstResult(a.firstOk);
      if res == ResultError {
        return;
      }
      res := dbHandle.LoadResultFieldMetaData(a.resMallocOk, a.metaOk);
      if res == ResultError {
        return;
      }
      ghost var loaded := dbHandle.Now();
      BindColumns(entity, a.columns);
      ok, exist := FetchRow(a);
    }

    /** Fetch into the bound fields and give the result up. */
    method FetchRow(a: Answers) returns (ok: bool, exist: bool)
      requires Callable(dbHandle.Now(), Fetch(a.bindResultOk, a.fetched))
      modifies dbHandle
      ensures Attempted(dbHandle.Now(), ok) == FetchAndFree(old(dbHandle.Now()), a)
      ensures ok ==> (exist <==> RowFetched(a.fetched))
    {
      ok, exist := false, false;
      var res := dbHandle.FetchResult(a.bindResultOk, a.fetched);
      if res == ResultError {
        return;
      }
      exist := res == ResultSuccess;
      res := dbHandle.SQLFreeResult(a.freeOk);
      ok := res != ResultError;
    }

    /** The loop of get that binds each result column to the buffer of the field with its name. */
    method BindColumns(entity: SqlObject, columns: seq<Column>)
      requires dbHandle.stmt != NULL && dbHandle.resFields != NULL && dbHandle.lib.columns == columns
      requires |columns| == |SlotsAt(dbHandle.Now(), dbHandle.resBind)|
      requires Registered(columns, entity.fields)
      modifies dbHandle`live
      ensures dbHandle.Now()
              == WriteSlots(old(dbHandle.Now()), dbHandle.resBind, 0, ColumnSlots(columns, entity.fields))
    {
      var i := 0;
      ghost var p, start := dbHandle.resBind, dbHandle.Now();
      ghost var slots := ColumnSlots(columns, entity.fields);
      assert slots[0..] == slots;
      while i < |columns|
        invariant i <= |columns|
        invariant dbHandle.resBind == p && |SlotsAt(dbHandle.Now(), p)| == |columns|
        invariant WriteSlots(dbHandle.Now(), p, i, slots[i..]) == WriteSlots(start, p, 0, slots)
      {
        assert slots[i..][1..] == slots[i + 1..];
        var attr := Find(entity.fields, columns[i].name).value;
        ghost var before := dbHandle.Now();
        var res := dbHandle.BindResultFieldBuffer(i, attr.buffer, attr.nbytes);
        assert dbHandle.Now() == SetSlot(before, p, i, slots[i]);
        i := i + 1;
      }
    }
  }

  lemma SentIfOk(s: State, c: Call)
    requires Ready(s) && SafeCall(c)
    ensures Finished(s, c).ok ==> Finished(s, c).state.lib.log == s.lib.log + [SentBy(c)]
  {
    if Finished(s, c).ok {
      CallSends(s, c);
    }
  }

  lemma KeyedIfOk(s: State, c: Call)
    requires Ready(s) && SafeCall(c) && !c.InsertCall?
    ensures Finished(s, c).ok ==>
              Finished(s, c).state.lib.log == s.lib.log + [SentBy(c)] && c.key in AsMap(c.fields)
  {
    SentIfOk(s, c);
    SearchedValue(c);
    if Finished(s, c).ok {
      ReturnsOnlyIfRegistered(s, c);
    }
  }

  lemma GetIfOk(s: State, c: Call)
    requires Ready(s) && SafeCall(c) && c.GetCall? && Sorted(c.fields)
    ensures Finished(s, c).ok ==>
              var lib, columns := Finished(s, c).state.lib, c.answers.columns;
              && lib.log == s.lib.log + [SentBy(c)] && c.key in AsMap(c.fields)
              && SentBy(c).params != []
              && SentBy(c).params[0] == Slot(c.value, AsMap(c.fields)[c.key].nbytes,
                                             MySqlTypeOf(AsMap(c.fields)[c.key].ftype))
              && |lib.results| == |columns|
              && forall i :: 0 <= i < |columns| ==>
                   && columns[i].name in AsMap(c.fields)
                   && var field := AsMap(c.fields)[columns[i].name];
                      lib.results[i] == Slot(field.buffer, field.nbytes, columns[i].kind)
  {
    KeyedIfOk(s, c);
    if Finished(s, c).ok {
      SearchedValue(c);
      GetFillsFields(s, c);
      PutIsMapUpdate(c.fields, c.key, Lookup(c.fields, c.key));
    }
  }

  /** Binding one last parameter is writing one last slot. */
  lemma BindsLast(s: State, attr: Attr, index: nat)
    requires s.stmt != NULL && index < |SlotsAt(s, s.paramBind)|
    ensures Callable(s, BindAttr(index, attr))
    ensures Step(s, BindAttr(index, attr)).state == WriteSlots(s, s.paramBind, index, [SlotOf(attr)])
  {
    assert [SlotOf(attr)][1..] == [];
    var t := SetSlot(s, s.paramBind, index, SlotOf(attr));
    assert WriteSlots(t, s.paramBind, index + 1, []) == t;
  }
}
