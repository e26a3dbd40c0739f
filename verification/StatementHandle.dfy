/** The prepared-statement handle of Util/libc/db.c as a state machine over the C heap and the MySQL client library. */
module StatementHandle {
  import opened SqlText

  // ----- Types -----

  type Ptr = nat

  const NULL: Ptr := 0

  datatype DbReturn = ResultError | ResultSuccess | MoreResult | NoResult | NoData

  datatype FieldType =
    | TinyField | SmallIntField | IntField | BigIntField | FloatField | DoubleField
    | DateTimeField | TimestampField | CharField | BinaryField | VarCharField | VarBinaryField

  /** The types of parameters and columns; `Blob` stands for all others of variable length. */
  datatype MySqlType =
    | Decimal | Tiny | Short | Long | LongLong | Float | Double | DateTime | Timestamp | String | VarString
    | Int24 | Year | Date | Time | NewDecimal | Blob

  function MySqlTypeOf(t: FieldType): MySqlType {
    match t
    case TinyField => Tiny
    case SmallIntField => Short
    case IntField => Long
    case BigIntField => LongLong
    case FloatField => Float
    case DoubleField => Double
    case DateTimeField => DateTime
    case TimestampField => Timestamp
    case CharField => String
    case BinaryField => String
    case VarCharField => VarString
    case VarBinaryField => VarString
  }

  /** The table of db.c, entry by entry. */
  lemma TypeTable(t: FieldType)
    ensures MySqlTypeOf(t) == map[
              TinyField := Tiny, SmallIntField := Short, IntField := Long, BigIntField := LongLong,
              FloatField := Float, DoubleField := Double, DateTimeField := DateTime, TimestampField := Timestamp,
              CharField := String, BinaryField := String, VarCharField := VarString, VarBinaryField := VarString][t]
  {
  }

  /** One MYSQL_BIND: a caller's buffer, its size, and its type. */
  datatype Slot = Slot(buffer: Ptr, nbytes: nat, kind: MySqlType)

  // The bytes of a MYSQL_TIME on 64-bit platforms.
  const TIME_WIDTH: nat := 40

  /** The bytes that the library reads or writes for a type, or 0 for a variable length. */
  function Width(kind: MySqlType): nat {
    match kind
    case Tiny => 1
    case Short => 2
    case Year => 2
    case Int24 => 4
    case Long => 4
    case LongLong => 8
    case Float => 4
    case Double => 8
    case Date => TIME_WIDTH
    case Time => TIME_WIDTH
    case DateTime => TIME_WIDTH
    case Timestamp => TIME_WIDTH
    case _ => 0
  }

  /**
   * Whether the library can read or write a value through a slot: a fixed-width type moves
   * all its bytes whatever the size is, the others move at most as many as the size.
   */
  predicate Usable(slot: Slot) {
    Width(slot.kind) <= slot.nbytes && (slot.nbytes > 0 ==> slot.buffer != NULL)
  }

  /** The same by the kinds of types: those of one, two, four and eight bytes, times, and all others. */
  lemma UsableIff(slot: Slot)
    ensures var kind, room := slot.kind, if slot.buffer == NULL then 0 else slot.nbytes;
            Usable(slot) <==>
              if kind == Tiny then 1 <= room
              else if kind in {Short, Year} then 2 <= room
              else if kind in {Long, Int24, Float} then 4 <= room
              else if kind in {LongLong, Double} then 8 <= room
              else if kind in {Date, Time, DateTime, Timestamp} then 40 <= room
              else room == slot.nbytes
  {
  }

  predicate AllUsable(slots: seq<Slot>) {
    forall k :: 0 <= k < |slots| ==> Usable(slots[k])
  }

  /** The slots of an array that the library copies when it needs n. */
  function FirstSlots(slots: seq<Slot>, n: nat): seq<Slot> {
    if n <= |slots| then slots[..n] else slots
  }

  /** A slot as memset leaves it. */
  const ZEROED := Slot(NULL, 0, Decimal)

  function ZeroedSlots(n: nat): seq<Slot> {
    seq(n, _ => ZEROED)
  }

  /** What an allocation holds: a statement, result metadata, or an array of slots. */
  datatype Block = StatementBlock | MetadataBlock | BindBlock(slots: seq<Slot>)

  datatype Column = Column(name: string, kind: MySqlType)

  /** A statement as it was sent, with the parameter slots that the library had copied. */
  datatype Sent = Sent(sql: string, params: seq<Slot>)

  /**
   * The library's side of a statement: its text, its number of placeholders, the copied
   * parameter slots, the columns of its result, the result array bound last and the slots
   * copied from it, and everything executed so far.
   */
  datatype Library = Library(
    sql: string, marks: nat, params: seq<Slot>, columns: seq<Column>, bound: Ptr, results: seq<Slot>, log: seq<Sent>)

  /** The handle's fields, the live allocations, the number of bad frees, and the library. */
  datatype State = State(
    stmt: Ptr, resFields: Ptr, resBind: Ptr, paramBind: Ptr, hasBind: bool,
    live: map<Ptr, Block>, next: Ptr, badFrees: nat, lib: Library)

  const INITIAL := State(NULL, NULL, NULL, NULL, false, map[], 1, 0, Library("", 0, [], [], NULL, [], []))

  datatype NextAnswer = NextMore | NextNone | NextFailed

  datatype FetchAnswer = FetchRow | FetchTruncated | FetchNothing | FetchFailed

  /**
   * Closing a statement succeeds, or fails with the statement kept, or fails although the
   * statement was freed.
   */
  datatype CloseAnswer = Closed | FailedKept | FailedFreed

  /**
   * A call on the handle, together with what the allocator and the library answer. `FollowEnd`
   * stands for following an iterator that a lookup left at the end of its table.
   */
  datatype Op =
    | AllocStmt(ok: bool)
    | CloseStmt(close: CloseAnswer)
    | Prepare(sql: string, ok: bool, columns: seq<Column>, keepsBinding: bool, mallocOk: bool)
    | BindParam(index: nat, ftype: FieldType, buffer: Ptr, nbytes: nat)
    | Execute(bindOk: bool, ok: bool)
    | FirstResult(ok: bool)
    | LoadMetaData(mallocOk: bool, metaOk: bool)
    | BindField(index: nat, buffer: Ptr, nbytes: nat)
    | NextResult(answer: NextAnswer, columns: seq<Column>)
    | Fetch(bindOk: bool, fetched: FetchAnswer)
    | FreeResult(ok: bool)
    | FollowEnd

  // ----- The state machine -----

  datatype Result = Result(state: State, ret: DbReturn)

  /** Freeing NULL does nothing; freeing anything that is not live is a bad free. */
  function Free(s: State, p: Ptr): State {
    if p == NULL then s
    else if p in s.live then s.(live := s.live - {p})
    else s.(badFrees := s.badFrees + 1)
  }

  function Alloc(s: State, b: Block): State {
    s.(live := s.live[s.next := b], next := s.next + 1)
  }

  function SlotsAt(s: State, p: Ptr): seq<Slot> {
    if p in s.live && s.live[p].BindBlock? then s.live[p].slots else []
  }

  function SetSlot(s: State, p: Ptr, index: nat, slot: Slot): State
    requires index < |SlotsAt(s, p)|
  {
    s.(live := s.live[p := BindBlock(SlotsAt(s, p)[index := slot])])
  }

  function Status(ok: bool): DbReturn {
    if ok then ResultSuccess else ResultError
  }

  function FetchStatus(a: FetchAnswer): DbReturn {
    match a
    case FetchRow => ResultSuccess
    case FetchTruncated => ResultSuccess
    case FetchNothing => NoData
    case FetchFailed => ResultError
  }

  /** Whether a fetch writes the values of a row. */
  predicate RowFetched(a: FetchAnswer) {
    a.FetchRow? || a.FetchTruncated?
  }

  /** The parameter slots that executing reads. */
  function Params(s: State): seq<Slot> {
    if s.paramBind == NULL then s.lib.params else FirstSlots(SlotsAt(s, s.paramBind), s.lib.marks)
  }

  /**
   * What a fetch demands of its slots. If it still has to bind, there must be one for every
   * column; and if it gets a row, those that it writes through must be usable.
   */
  predicate CanFetch(s: State, bindOk: bool, fetched: FetchAnswer) {
    var n, slots := |s.lib.columns|, SlotsAt(s, s.resBind);
    if s.hasBind then
      s.lib.bound != NULL && RowFetched(fetched) ==> n <= |s.lib.results| && AllUsable(s.lib.results)
    else
      n <= |slots| && (bindOk && RowFetched(fetched) ==> AllUsable(slots[..n]))
  }

  /**
   * What C demands of the caller: a non-null statement, for the calls that write into a slot
   * array an index inside it, and usable slots for executing and fetching. An iterator at the
   * end must not be followed at all.
   */
  predicate Callable(s: State, op: Op) {
    match op
    case AllocStmt(_) => true
    case BindParam(index, _, _, _) => s.stmt != NULL && index < |SlotsAt(s, s.paramBind)|
    case BindField(index, _, _) =>
      && s.stmt != NULL && s.resFields != NULL
      && index < |SlotsAt(s, s.resBind)| && index < |s.lib.columns|
    case FollowEnd => false
    case Execute(bindOk, _) => s.stmt != NULL && (s.paramBind == NULL || bindOk ==> AllUsable(Params(s)))
    case Fetch(bindOk, fetched) => s.stmt != NULL && CanFetch(s, bindOk, fetched)
    case _ => s.stmt != NULL
  }

  function Step(s: State, op: Op): Result
    requires Callable(s, op)
  {
    match op
    case AllocStmt(ok) => Result(StepAlloc(s, ok), Status(ok))
    case CloseStmt(close) => Result(StepClose(s, close), Status(close.Closed?))
    case Prepare(sql, ok, columns, keeps, mallocOk) => StepPrepare(s, sql, ok, columns, keeps, mallocOk)
    case BindParam(index, ftype, buffer, nbytes) =>
      Result(SetSlot(s, s.paramBind, index, Slot(buffer, nbytes, MySqlTypeOf(ftype))), ResultSuccess)
    case Execute(bindOk, ok) => StepExecute(s, bindOk, ok)
    case FirstResult(ok) => Result(s, if ok then MoreResult else ResultError)
    case LoadMetaData(mallocOk, metaOk) => StepLoad(s, mallocOk, metaOk)
    case BindField(index, buffer, nbytes) =>
      Result(SetSlot(s, s.resBind, index, Slot(buffer, nbytes, s.lib.columns[index].kind)), ResultSuccess)
    case NextResult(answer, columns) => StepNext(s, answer, columns)
    case Fetch(bindOk, fetched) => StepFetch(s, bindOk, fetched)
    case FreeResult(ok) => Result(StepFreeResult(s), Status(ok))
    case FollowEnd => assert false; Result(s, ResultError)
  }

  /** A new library statement knows no text, no result and no bound array. */
  function StepAlloc(s: State, ok: bool): State {
    var t := s.(lib := Library("", 0, [], [], NULL, [], s.lib.log));
    if ok then Alloc(t, StatementBlock).(stmt := t.next) else t.(stmt := NULL)
  }

  /** The library after it has forgotten the bound result array. */
  function Unbound(lib: Library): Library {
    lib.(bound := NULL, results := [])
  }

  /** Only a successful close clears the statement pointer. */
  function StepClose(s: State, close: CloseAnswer): State {
    var t := Free(s, s.paramBind).(paramBind := NULL);
    if close.FailedKept? then t
    else
      var u := Free(t, t.stmt).(lib := Unbound(t.lib));
      if close.Closed? then u.(stmt := NULL) else u
  }

  function StepPrepare(s: State, sql: string, ok: bool, columns: seq<Column>, keeps: bool, mallocOk: bool): Result {
    var lib := if keeps then s.lib else Unbound(s.lib);
    if !ok then Result(s.(lib := lib.(sql := "", marks := 0, params := [], columns := [])), ResultError)
    else
      var n := MarkCount(sql);
      var t := s.(lib := lib.(sql := sql, marks := n, params := [], columns := columns));
      if n == 0 then Result(t, ResultSuccess)
      else if mallocOk then Result(Alloc(t, BindBlock(ZeroedSlots(n))).(paramBind := t.next), ResultSuccess)
      else Result(t.(paramBind := NULL), ResultError)
  }

  /** The library copies as many slots as the statement has placeholders. */
  function StepExecute(s: State, bindOk: bool, ok: bool): Result {
    if s.paramBind != NULL && !bindOk then Result(s, ResultError)
    else
      var t := s.(lib := s.lib.(params := Params(s)));
      if !ok then Result(t, ResultError)
      else
        var u := Free(t, t.paramBind);
        Result(u.(paramBind := NULL, lib := u.lib.(log := u.lib.log + [Sent(u.lib.sql, u.lib.params)])), ResultSuccess)
  }

  function StepLoad(s: State, mallocOk: bool, metaOk: bool): Result {
    var n := |s.lib.columns|;
    if n == 0 then Result(s, ResultError)
    else if !mallocOk then Result(s.(hasBind := false, resBind := NULL), ResultError)
    else
      var t := Alloc(s, BindBlock(ZeroedSlots(n))).(hasBind := false, resBind := s.next);
      if metaOk then Result(Alloc(t, MetadataBlock).(resFields := t.next), ResultSuccess)
      else Result(t.(resFields := NULL), ResultError)
  }

  function StepNext(s: State, answer: NextAnswer, columns: seq<Column>): Result {
    var t := s.(resFields := NULL, resBind := NULL, hasBind := false);
    match answer
    case NextMore => Result(t.(lib := t.lib.(columns := columns)), MoreResult)
    case NextNone => Result(t, NoResult)
    case NextFailed => Result(t, ResultError)
  }

  /** Binding a result fails when the statement has no columns. */
  function StepFetch(s: State, bindOk: bool, fetched: FetchAnswer): Result {
    if s.hasBind then Result(s, FetchStatus(fetched))
    else if bindOk && s.lib.columns != [] then
      var copied := FirstSlots(SlotsAt(s, s.resBind), |s.lib.columns|);
      Result(s.(hasBind := true, lib := s.lib.(bound := s.resBind, results := copied)), FetchStatus(fetched))
    else Result(s, ResultError)
  }

  function StepFreeResult(s: State): State {
    var t := if s.resFields != NULL then Free(s, s.resFields).(resFields := NULL) else s;
    if t.resBind != NULL then Free(t, t.resBind).(resBind := NULL, hasBind := false) else t
  }

  // ----- Runs -----

  /** Every call of the sequence meets C's demands when it is made. */
  predicate CallableRun(s: State, ops: seq<Op>)
    decreases ops
  {
    ops != [] ==> Callable(s, ops[0]) && CallableRun(Step(s, ops[0]).state, ops[1..])
  }

  function Run(s: State, ops: seq<Op>): State
    requires CallableRun(s, ops)
    decreases ops
  {
    if ops == [] then s else Run(Step(s, ops[0]).state, ops[1..])
  }

  // ----- Ownership -----

  /**
   * What every call keeps: the owned arrays and metadata are live allocations of their own
   * kinds, a live statement is one, a parameter array covers the placeholders, and the bound
   * flag implies a result array.
   */
  ghost predicate Base(s: State) {
    && (forall p :: p in s.live ==> NULL < p < s.next) && s.stmt < s.next
    && (s.stmt in s.live ==> s.live[s.stmt] == StatementBlock)
    && (s.resFields != NULL ==> s.resFields in s.live && s.live[s.resFields] == MetadataBlock)
    && (s.resBind != NULL ==> s.resBind in s.live && s.live[s.resBind].BindBlock?)
    && (s.paramBind != NULL ==> s.paramBind in s.live && s.live[s.paramBind].BindBlock?)
    && (s.resBind != NULL ==> s.resBind != s.paramBind)
    && (s.paramBind != NULL ==> s.lib.marks <= |SlotsAt(s, s.paramBind)|)
    && (s.hasBind ==> s.resBind != NULL)
  }

  /** Ownership: in addition, an open statement is live and nothing was freed badly. */
  ghost predicate Inv(s: State) {
    Base(s) && s.badFrees == 0 && (s.stmt != NULL ==> s.stmt in s.live)
  }

  /** The one call that leaves a dangling pointer: a close that fails and frees the statement. */
  predicate Dangles(op: Op) {
    op.CloseStmt? && op.close.FailedFreed?
  }

  lemma StepKeepsBase(s: State, op: Op)
    requires Base(s) && Callable(s, op)
    ensures Base(Step(s, op).state)
    ensures Inv(s) ==> (Inv(Step(s, op).state) <==> !Dangles(op))
  {
    match op
    case AllocStmt(ok) => AllocKeepsInv(s, ok);
    case CloseStmt(close) => CloseKeepsInv(s, close);
    case Prepare(sql, ok, columns, keeps, mallocOk) => PrepareKeepsInv(s, sql, ok, columns, keeps, mallocOk);
    case BindParam(index, ftype, buffer, nbytes) =>
      SetSlotKeepsInv(s, s.paramBind, index, Slot(buffer, nbytes, MySqlTypeOf(ftype)));
    case Execute(bindOk, ok) => ExecuteKeepsInv(s, bindOk, ok);
    case FirstResult(_) =>
    case LoadMetaData(mallocOk, metaOk) => LoadKeepsInv(s, mallocOk, metaOk);
    case BindField(index, buffer, nbytes) =>
      SetSlotKeepsInv(s, s.resBind, index, Slot(buffer, nbytes, s.lib.columns[index].kind));
    case NextResult(_, _) =>
    case Fetch(_, _) =>
    case FreeResult(_) => FreeResultKeepsInv(s);
    case FollowEnd =>
  }

  /** A call keeps ownership exactly when it is not a close that fails and frees. */
  lemma StepKeepsInvIff(s: State, op: Op)
    requires Inv(s) && Callable(s, op)
    ensures Inv(Step(s, op).state) <==> !Dangles(op)
  {
    StepKeepsBase(s, op);
  }

  lemma AllocKeepsInv(s: State, ok: bool)
    requires Base(s)
    ensures Base(StepAlloc(s, ok))
    ensures Inv(s) ==> Inv(StepAlloc(s, ok))
  {
  }

  lemma CloseKeepsInv(s: State, close: CloseAnswer)
    requires Base(s) && s.stmt != NULL
    ensures Base(StepClose(s, close))
    ensures Inv(s) ==> (Inv(StepClose(s, close)) <==> !close.FailedFreed?)
  {
  }

  lemma PrepareKeepsInv(s: State, sql: string, ok: bool, columns: seq<Column>, keeps: bool, mallocOk: bool)
    requires Base(s)
    ensures Base(StepPrepare(s, sql, ok, columns, keeps, mallocOk).state)
    ensures Inv(s) ==> Inv(StepPrepare(s, sql, ok, columns, keeps, mallocOk).state)
  {
    var lib, n := if keeps then s.lib else Unbound(s.lib), MarkCount(sql);
    if ok && n > 0 && mallocOk {
      ParamArrayKeepsInv(s, lib.(sql := sql, marks := n, params := [], columns := columns));
    }
  }

  lemma ParamArrayKeepsInv(s: State, lib: Library)
    requires Base(s)
    ensures var t := Alloc(s.(lib := lib), BindBlock(ZeroedSlots(lib.marks))).(paramBind := s.next);
            Base(t) && (Inv(s) ==> Inv(t))
  {
  }

  lemma SetSlotKeepsInv(s: State, p: Ptr, index: nat, slot: Slot)
    requires Base(s) && index < |SlotsAt(s, p)|
    ensures Base(SetSlot(s, p, index, slot))
    ensures Inv(s) ==> Inv(SetSlot(s, p, index, slot))
  {
  }

  lemma ExecuteKeepsInv(s: State, bindOk: bool, ok: bool)
    requires Base(s)
    ensures Base(StepExecute(s, bindOk, ok).state)
    ensures Inv(s) ==> Inv(StepExecute(s, bindOk, ok).state)
  {
  }

  lemma LoadKeepsInv(s: State, mallocOk: bool, metaOk: bool)
    requires Base(s)
    ensures Base(StepLoad(s, mallocOk, metaOk).state)
    ensures Inv(s) ==> Inv(StepLoad(s, mallocOk, metaOk).state)
  {
  }

  lemma FreeResultKeepsInv(s: State)
    requires Base(s)
    ensures Base(StepFreeResult(s))
    ensures Inv(s) ==> Inv(StepFreeResult(s))
  {
  }

  /** Ownership holds in every state of a run. */
  ghost predicate OwnedThroughout(s: State, ops: seq<Op>)
    requires CallableRun(s, ops)
    decreases ops
  {
    Inv(s) && (ops != [] ==> OwnedThroughout(Step(s, ops[0]).state, ops[1..]))
  }

  /**
   * Ownership in every state that a sequence of calls, failing ones included, reaches: it
   * holds throughout exactly when no close fails and frees the statement all the same.
   */
  lemma {:induction false} OwnershipOverAllRuns(s: State, ops: seq<Op>)
    requires Inv(s) && CallableRun(s, ops)
    ensures OwnedThroughout(s, ops) <==> forall k :: 0 <= k < |ops| ==> !Dangles(ops[k])
    decreases ops
  {
    if ops != [] {
      var t := Step(s, ops[0]).state;
      StepKeepsInvIff(s, ops[0]);
      assert ops == [ops[0]] + ops[1..];
      if !Dangles(ops[0]) {
        OwnershipOverAllRuns(t, ops[1..]);
      }
    }
  }

  /** After such a close, the next one frees the statement a second time. */
  lemma SecondCloseFreesTwice(s: State, again: CloseAnswer)
    requires Inv(s) && s.stmt != NULL && !again.FailedKept?
    ensures var t := Step(s, CloseStmt(FailedFreed)).state;
            Callable(t, CloseStmt(again)) && Step(t, CloseStmt(again)).state.badFrees == 1
  {
    CloseKeepsInv(s, FailedFreed);
  }

  // ----- Leaks -----

  function Owned(s: State): set<Ptr> {
    {s.stmt, s.resFields, s.resBind, s.paramBind}
  }

  /** Live allocations that the handle no longer points to. */
  function Leaked(s: State): set<Ptr> {
    s.live.Keys - Owned(s)
  }

  /** The calls that overwrite a pointer to a live allocation. */
  predicate Overwrites(s: State, op: Op) {
    match op
    case AllocStmt(_) => s.stmt in s.live
    case Prepare(sql, ok, _, _, _) => ok && MarkCount(sql) > 0 && s.paramBind != NULL
    case LoadMetaData(mallocOk, _) => s.lib.columns != [] && (s.resBind != NULL || (mallocOk && s.resFields != NULL))
    case NextResult(_, _) => s.resFields != NULL || s.resBind != NULL
    case _ => false
  }

  /** A call leaks exactly when it overwrites, and it never recovers what has leaked before. */
  lemma StepLeaksIff(s: State, op: Op)
    requires Base(s) && Callable(s, op)
    ensures Leaked(s) <= Leaked(Step(s, op).state)
    ensures Leaked(s) == Leaked(Step(s, op).state) <==> !Overwrites(s, op)
  {
    match op
    case AllocStmt(ok) => AllocLeaksIff(s, ok);
    case CloseStmt(close) => CloseLeaksNothing(s, close);
    case Prepare(sql, ok, columns, keeps, mallocOk) => PrepareLeaksIff(s, sql, ok, columns, keeps, mallocOk);
    case BindParam(index, ftype, buffer, nbytes) =>
      SetSlotLeaksNothing(s, s.paramBind, index, Slot(buffer, nbytes, MySqlTypeOf(ftype)));
    case Execute(bindOk, ok) => ExecuteLeaksNothing(s, bindOk, ok);
    case FirstResult(_) =>
    case LoadMetaData(mallocOk, metaOk) => LoadLeaksIff(s, mallocOk, metaOk);
    case BindField(index, buffer, nbytes) =>
      SetSlotLeaksNothing(s, s.resBind, index, Slot(buffer, nbytes, s.lib.columns[index].kind));
    case NextResult(answer, columns) => NextLeaksIff(s, answer, columns);
    case Fetch(bindOk, fetched) => FetchLeaksNothing(s, bindOk, fetched);
    case FreeResult(_) => FreeResultLeaksNothing(s);
    case FollowEnd =>
  }

  lemma AllocLeaksIff(s: State, ok: bool)
    requires Base(s)
    ensures Leaked(s) <= Leaked(StepAlloc(s, ok))
    ensures Leaked(s) == Leaked(StepAlloc(s, ok)) <==> s.stmt !in s.live
  {
  }

  lemma NextLeaksIff(s: State, answer: NextAnswer, columns: seq<Column>)
    requires Base(s)
    ensures var t := StepNext(s, answer, columns).state;
            Leaked(s) <= Leaked(t) && (Leaked(s) == Leaked(t) <==> s.resFields == NULL && s.resBind == NULL)
  {
    var t := StepNext(s, answer, columns).state;
    assert Leaked(t) == s.live.Keys - {s.stmt, NULL, s.paramBind};
  }

  lemma FetchLeaksNothing(s: State, bindOk: bool, fetched: FetchAnswer)
    ensures Leaked(StepFetch(s, bindOk, fetched).state) == Leaked(s)
  {
  }

  lemma SetSlotLeaksNothing(s: State, p: Ptr, index: nat, slot: Slot)
    requires Base(s) && index < |SlotsAt(s, p)|
    ensures Leaked(s) == Leaked(SetSlot(s, p, index, slot))
  {
    assert SetSlot(s, p, index, slot).live.Keys == s.live.Keys;
  }

  lemma CloseLeaksNothing(s: State, close: CloseAnswer)
    requires Base(s)
    ensures Leaked(s) == Leaked(StepClose(s, close))
  {
  }

  lemma PrepareLeaksIff(s: State, sql: string, ok: bool, columns: seq<Column>, keeps: bool, mallocOk: bool)
    requires Base(s)
    ensures var t := StepPrepare(s, sql, ok, columns, keeps, mallocOk).state;
            && Leaked(s) <= Leaked(t)
            && (Leaked(s) == Leaked(t) <==> !(ok && MarkCount(sql) > 0 && s.paramBind != NULL))
  {
  }

  lemma ExecuteLeaksNothing(s: State, bindOk: bool, ok: bool)
    requires Base(s)
    ensures Leaked(s) == Leaked(StepExecute(s, bindOk, ok).state)
  {
  }

  lemma LoadLeaksIff(s: State, mallocOk: bool, metaOk: bool)
    requires Base(s)
    ensures var t := StepLoad(s, mallocOk, metaOk).state;
            && Leaked(s) <= Leaked(t)
            && (Leaked(s) == Leaked(t)
                <==> !(s.lib.columns != [] && (s.resBind != NULL || (mallocOk && s.resFields != NULL))))
  {
  }

  lemma FreeResultLeaksNothing(s: State)
    requires Base(s)
    ensures Leaked(s) == Leaked(StepFreeResult(s))
  {
  }

  predicate RunOverwrites(s: State, ops: seq<Op>)
    requires CallableRun(s, ops)
    decreases ops
  {
    ops != [] && (Overwrites(s, ops[0]) || RunOverwrites(Step(s, ops[0]).state, ops[1..]))
  }

  lemma {:induction false} RunLeaksIff(s: State, ops: seq<Op>)
    requires Base(s) && CallableRun(s, ops)
    ensures Leaked(s) <= Leaked(Run(s, ops))
    ensures Leaked(s) == Leaked(Run(s, ops)) <==> !RunOverwrites(s, ops)
    decreases ops
  {
    if ops != [] {
      var t := Step(s, ops[0]).state;
      StepKeepsBase(s, ops[0]);
      StepLeaksIff(s, ops[0]);
      RunLeaksIff(t, ops[1..]);
    }
  }

  /** The destructor's two calls on the statement. */
  function Destroy(s: State, freeOk: bool, close: CloseAnswer): State
    requires s.stmt != NULL
  {
    var t := Step(s, FreeResult(freeOk)).state;
    Step(t, CloseStmt(close)).state
  }

  /** The destructor frees exactly what is owned, except a statement that the library keeps. */
  lemma DestructorFreesOwned(s: State, freeOk: bool, close: CloseAnswer)
    requires Inv(s) && s.stmt != NULL
    ensures Destroy(s, freeOk, close).live.Keys == Leaked(s) + if close.FailedKept? then {s.stmt} else {}
    ensures Destroy(s, freeOk, close).badFrees == 0
  {
    var t := StepFreeResult(s);
    FreeResultKeepsInv(s);
    FreeResultFrees(s);
    CloseFrees(t, close);
  }

  lemma FreeResultFrees(s: State)
    requires Inv(s)
    ensures var t := StepFreeResult(s);
            && t.live.Keys == s.live.Keys - {s.resFields, s.resBind}
            && t.stmt == s.stmt && t.paramBind == s.paramBind
  {
  }

  lemma CloseFrees(s: State, close: CloseAnswer)
    requires Inv(s) && s.stmt != NULL
    ensures StepClose(s, close).live.Keys == s.live.Keys - {s.paramBind} - if close.FailedKept? then {} else {s.stmt}
    ensures StepClose(s, close).badFrees == 0
  {
  }

  // ----- The bound flag -----

  /** The flag tells the truth: the library is bound to the current result array. */
  predicate FlagTrue(s: State) {
    s.hasBind ==> s.resBind != NULL && s.lib.bound == s.resBind
  }

  /** The calls after which the library has forgotten a bound array that the flag still claims. */
  predicate Forgets(s: State, op: Op) {
    match op
    case AllocStmt(_) => s.hasBind
    case CloseStmt(close) => !close.FailedKept? && s.hasBind
    case Prepare(_, _, _, keeps, _) => !keeps && s.hasBind
    case _ => false
  }

  lemma FlagStaysTrueIff(s: State, op: Op)
    requires Base(s) && FlagTrue(s) && Callable(s, op)
    ensures FlagTrue(Step(s, op).state) <==> !Forgets(s, op)
  {
  }

  predicate RunForgets(s: State, ops: seq<Op>)
    requires CallableRun(s, ops)
    decreases ops
  {
    ops != [] && (Forgets(s, ops[0]) || RunForgets(Step(s, ops[0]).state, ops[1..]))
  }

  /** The flag tells the truth in every state of a run. */
  predicate TrueThroughout(s: State, ops: seq<Op>)
    requires CallableRun(s, ops)
    decreases ops
  {
    FlagTrue(s) && (ops != [] ==> TrueThroughout(Step(s, ops[0]).state, ops[1..]))
  }

  /** The bound flag always tells the truth in a run exactly when no call of the run forgets. */
  lemma {:induction false} FlagTrueOverRunsIff(s: State, ops: seq<Op>)
    requires Base(s) && FlagTrue(s) && CallableRun(s, ops)
    ensures TrueThroughout(s, ops) <==> !RunForgets(s, ops)
    decreases ops
  {
    if ops != [] {
      StepKeepsBase(s, ops[0]);
      FlagStaysTrueIff(s, ops[0]);
      if !Forgets(s, ops[0]) {
        FlagTrueOverRunsIff(Step(s, ops[0]).state, ops[1..]);
      }
    }
  }

  lemma {:induction false} EndOfTrueRun(s: State, ops: seq<Op>)
    requires CallableRun(s, ops) && TrueThroughout(s, ops)
    ensures FlagTrue(Run(s, ops))
    decreases ops
  {
    if ops != [] {
      EndOfTrueRun(Step(s, ops[0]).state, ops[1..]);
    }
  }

  lemma RunFirst(s: State, op: Op, rest: seq<Op>)
    requires Callable(s, op) && CallableRun(Step(s, op).state, rest)
    ensures CallableRun(s, [op] + rest) && Run(s, [op] + rest) == Run(Step(s, op).state, rest)
  {
    assert ([op] + rest)[1..] == rest;
  }

  /** A row is fetched into one column, and then another statement is prepared. */
  function FetchAndForget(next: string, column: Column, buffer: Ptr, nbytes: nat, fetched: FetchAnswer): seq<Op> {
    [LoadMetaData(true, true)] + ([BindField(0, buffer, nbytes)] + ([Fetch(true, fetched)]
    + ([Prepare(next, true, [column], false, true)] + [])))
  }

  /** A state in which one column's slot can be bound. */
  predicate LoadedOne(s: State, column: Column) {
    s.stmt != NULL && s.resFields != NULL && !s.hasBind && s.lib.columns == [column] && |SlotsAt(s, s.resBind)| == 1
  }

  lemma LoadOne(s: State, column: Column)
    requires s.stmt != NULL && s.next != NULL && s.lib.columns == [column]
    ensures LoadedOne(Step(s, LoadMetaData(true, true)).state, column)
  {
    assert |SlotsAt(Alloc(s, BindBlock(ZeroedSlots(1))), s.next)| == 1;
  }

  lemma BindOne(s: State, column: Column, buffer: Ptr, nbytes: nat)
    requires LoadedOne(s, column)
    ensures var t := Step(s, BindField(0, buffer, nbytes)).state;
            LoadedOne(t, column) && SlotsAt(t, t.resBind) == [Slot(buffer, nbytes, column.kind)]
  {
    var slot := Slot(buffer, nbytes, column.kind);
    assert SlotsAt(s, s.resBind)[0 := slot] == [slot];
  }

  lemma FetchOne(s: State, column: Column, slot: Slot, fetched: FetchAnswer)
    requires LoadedOne(s, column) && SlotsAt(s, s.resBind) == [slot] && Usable(slot)
    ensures Callable(s, Fetch(true, fetched))
    ensures Step(s, Fetch(true, fetched)).state.hasBind && Step(s, Fetch(true, fetched)).state.stmt != NULL
  {
    assert [slot][..1] == [slot];
  }

  lemma ForgetOne(s: State, next: string, column: Column)
    requires s.hasBind && s.stmt != NULL
    ensures !FlagTrue(Step(s, Prepare(next, true, [column], false, true)).state)
  {
  }

  lemma FetchThenForget(s: State, next: string, column: Column, buffer: Ptr, nbytes: nat, fetched: FetchAnswer)
    requires s.stmt != NULL && s.next != NULL && s.lib.columns == [column]
    requires Usable(Slot(buffer, nbytes, column.kind))
    ensures var ops := FetchAndForget(next, column, buffer, nbytes, fetched);
            CallableRun(s, ops) && !FlagTrue(Run(s, ops))
  {
    var e, f, g, h := LoadMetaData(true, true), BindField(0, buffer, nbytes), Fetch(true, fetched),
      Prepare(next, true, [column], false, true);
    var s1 := Step(s, e).state;
    LoadOne(s, column);
    var s2 := Step(s1, f).state;
    BindOne(s1, column, buffer, nbytes);
    FetchOne(s2, column, Slot(buffer, nbytes, column.kind), fetched);
    var s3 := Step(s2, g).state;
    ForgetOne(s3, next, column);
    RunFirst(s3, h, []);
    RunFirst(s2, g, [h] + []);
    RunFirst(s1, f, [g] + ([h] + []));
    RunFirst(s, e, [f] + ([g] + ([h] + [])));
  }

  /**
   * A run from the start that ends with a false flag: a statement without placeholders is
   * executed, its result is loaded and fetched, and then another one is prepared.
   */
  function ForgettingRun(sql: string, next: string, column: Column, buffer: Ptr, nbytes: nat, fetched: FetchAnswer)
    : seq<Op>
  {
    [AllocStmt(true)] + ([Prepare(sql, true, [column], true, true)] + ([Execute(true, true)] + ([FirstResult(true)]
    + FetchAndForget(next, column, buffer, nbytes, fetched))))
  }

  lemma FlagCanLie(sql: string, next: string, column: Column, buffer: Ptr, nbytes: nat, fetched: FetchAnswer)
    requires MarkCount(sql) == 0 && Usable(Slot(buffer, nbytes, column.kind))
    ensures var ops := ForgettingRun(sql, next, column, buffer, nbytes, fetched);
            CallableRun(INITIAL, ops) && !FlagTrue(Run(INITIAL, ops))
  {
    var a, b, c, d := AllocStmt(true), Prepare(sql, true, [column], true, true), Execute(true, true), FirstResult(true);
    var rest := FetchAndForget(next, column, buffer, nbytes, fetched);
    var s1 := Step(INITIAL, a).state;
    var s2 := Step(s1, b).state;
    var s3 := Step(s2, c).state;
    assert s3.stmt == 1 && s3.next == 2 && s3.lib.columns == [column];
    FetchThenForget(s3, next, column, buffer, nbytes, fetched);
    RunFirst(s3, d, rest);
    RunFirst(s2, c, [d] + rest);
    RunFirst(s1, b, [c] + ([d] + rest));
    RunFirst(INITIAL, a, [b] + ([c] + ([d] + rest)));
  }

  // ----- The handle itself -----

  /**
   * The handle's fields, next to the heap and the library that its functions work on. Each
   * method takes the answers of the allocator and the library as parameters.
   */
  class DbHandle {
    var stmt: Ptr
    var resFields: Ptr
    var resBind: Ptr
    var paramBind: Ptr
    var hasBind: bool

    // The C heap.
    var live: map<Ptr, Block>
    var next: Ptr
    var badFrees: nat

    // The client library.
    var lib: Library

    function Now(): State
      reads this
    {
      State(stmt, resFields, resBind, paramBind, hasBind, live, next, badFrees, lib)
    }

    constructor ()
      ensures Now() == INITIAL
    {
      stmt, resFields, resBind, paramBind, hasBind := NULL, NULL, NULL, NULL, false;
      live, next, badFrees := map[], 1, 0;
      lib := Library("", 0, [], [], NULL, [], []);
    }

    method FreeBlock(p: Ptr)
      modifies this`live, this`badFrees
      ensures Now() == Free(old(Now()), p)
    {
      if p != NULL {
        if p in live {
          live := live - {p};
        } else {
          badFrees := badFrees + 1;
        }
      }
    }

    method NewBlock(b: Block) returns (p: Ptr)
      modifies this`live, this`next
      ensures Now() == Alloc(old(Now()), b) && p == old(next)
    {
      p := next;
      live := live[p := b];
      next := next + 1;
    }

    method SQLAllocStmt(ok: bool) returns (res: DbReturn)
      modifies this
      ensures Result(Now(), res) == Step(old(Now()), AllocStmt(ok))
      ensures if ok then res == ResultSuccess && stmt == old(next) else res == ResultError && stmt == NULL
    {
      res := ResultError;
      lib := Library("", 0, [], [], NULL, [], lib.log);
      stmt := NULL;
      if ok {
        stmt := NewBlock(StatementBlock);
        res := ResultSuccess;
      }
    }

    method SQLCloseStmt(close: CloseAnswer) returns (res: DbReturn)
      requires Callable(Now(), CloseStmt(close))
      modifies this
      ensures Result(Now(), res) == Step(old(Now()), CloseStmt(close))
      ensures paramBind == NULL && (old(paramBind) != NULL ==> old(paramBind) !in live)
      ensures if close.Closed? then res == ResultSuccess && stmt == NULL else res == ResultError && stmt == old(stmt)
    {
      res := ResultError;
      FreeBlock(paramBind);
      paramBind := NULL;
      if !close.FailedKept? {
        FreeBlock(stmt);
        lib := Unbound(lib);
      }
      if close.Closed? {
        stmt := NULL;
        res := ResultSuccess;
      }
    }

    method SQLPrepare(sql: string, ok: bool, columns: seq<Column>, keepsBinding: bool, mallocOk: bool)
      returns (res: DbReturn)
      requires Callable(Now(), Prepare(sql, ok, columns, keepsBinding, mallocOk))
      modifies this
      ensures Result(Now(), res) == Step(old(Now()), Prepare(sql, ok, columns, keepsBinding, mallocOk))
      ensures res == (if ok && ('?' in sql ==> mallocOk) then ResultSuccess else ResultError)
    {
      res := ResultError;
      NoMarksIff(sql);
      if !keepsBinding {
        lib := Unbound(lib);
      }
      if ok {
        var paramCount := MarkCount(sql);
        lib := lib.(sql := sql, marks := paramCount, params := [], columns := columns);
        if paramCount != 0 {
          paramBind := NULL;
          if mallocOk {
            paramBind := NewBlock(BindBlock(ZeroedSlots(paramCount)));
            res := ResultSuccess;
          }
        } else {
          res := ResultSuccess;
        }
      } else {
        lib := lib.(sql := "", marks := 0, params := [], columns := []);
      }
    }

    method SQLBindParam(paramIndex: nat, ftype: FieldType, buffer: Ptr, nbytes: nat) returns (res: DbReturn)
      requires Callable(Now(), BindParam(paramIndex, ftype, buffer, nbytes))
      modifies this`live
      ensures Result(Now(), res) == Step(old(Now()), BindParam(paramIndex, ftype, buffer, nbytes))
      ensures res == ResultSuccess && |SlotsAt(Now(), paramBind)| == |old(SlotsAt(Now(), paramBind))|
      ensures SlotsAt(Now(), paramBind)[paramIndex] == Slot(buffer, nbytes, MySqlTypeOf(ftype))
    {
      var slots := live[paramBind].slots;
      live := live[paramBind := BindBlock(slots[paramIndex := Slot(buffer, nbytes, MySqlTypeOf(ftype))])];
      res := ResultSuccess;
    }

    method SQLExecute(bindOk: bool, ok: bool) returns (res: DbReturn)
      requires Callable(Now(), Execute(bindOk, ok))
      modifies this
      ensures Result(Now(), res) == Step(old(Now()), Execute(bindOk, ok))
      ensures if ok && (old(paramBind) != NULL ==> bindOk) then res == ResultSuccess && paramBind == NULL
              else res == ResultError && paramBind == old(paramBind) && live == old(live)
    {
      res := ResultError;
      if paramBind != NULL {
        if !bindOk {
          return;
        }
        lib := lib.(params := FirstSlots(SlotsAt(Now(), paramBind), lib.marks));
      }
      if ok {
        lib := lib.(log := lib.log + [Sent(lib.sql, lib.params)]);
        FreeBlock(paramBind);
        paramBind := NULL;
        res := ResultSuccess;
      }
    }

    method GetFirstResult(ok: bool) returns (res: DbReturn)
      requires Callable(Now(), FirstResult(ok))
      ensures Result(Now(), res) == Step(old(Now()), FirstResult(ok))
      ensures res == (if ok then MoreResult else ResultError)
    {
      res := if ok then MoreResult else ResultError;
    }

    method LoadResultFieldMetaData(mallocOk: bool, metaOk: bool) returns (res: DbReturn)
      requires Callable(Now(), LoadMetaData(mallocOk, metaOk))
      modifies this
      ensures Result(Now(), res) == Step(old(Now()), LoadMetaData(mallocOk, metaOk))
      ensures res == (if old(lib.columns) != [] && mallocOk && metaOk then ResultSuccess else ResultError)
    {
      res := ResultError;
      var fieldCount := |lib.columns|;
      if fieldCount > 0 {
        hasBind := false;
        resBind := NULL;
        if mallocOk {
          resBind := NewBlock(BindBlock(ZeroedSlots(fieldCount)));
          resFields := NULL;
          if metaOk {
            resFields := NewBlock(MetadataBlock);
            res := ResultSuccess;
          }
        }
      }
    }

    method BindResultFieldBuffer(fieldIndex: nat, buffer: Ptr, nbytes: nat) returns (res: DbReturn)
      requires Callable(Now(), BindField(fieldIndex, buffer, nbytes))
      modifies this`live
      ensures Result(Now(), res) == Step(old(Now()), BindField(fieldIndex, buffer, nbytes))
      ensures res == ResultSuccess && |SlotsAt(Now(), resBind)| == |old(SlotsAt(Now(), resBind))|
      ensures SlotsAt(Now(), resBind)[fieldIndex] == Slot(buffer, nbytes, old(lib.columns[fieldIndex].kind))
    {
      var slots := live[resBind].slots;
      live := live[resBind := BindBlock(slots[fieldIndex := Slot(buffer, nbytes, lib.columns[fieldIndex].kind)])];
      res := ResultSuccess;
    }

    method GetNextResult(answer: NextAnswer, columns: seq<Column>) returns (res: DbReturn)
      requires Callable(Now(), NextResult(answer, columns))
      modifies this
      ensures Result(Now(), res) == Step(old(Now()), NextResult(answer, columns))
      ensures resFields == NULL && resBind == NULL && !hasBind && live == old(live)
      ensures res == (if answer == NextMore then MoreResult else if answer == NextNone then NoResult else ResultError)
    {
      res := ResultError;
      resFields := NULL;
      resBind := NULL;
      hasBind := false;
      if answer.NextMore? {
        lib := lib.(columns := columns);
        res := MoreResult;
      } else if answer.NextNone? {
        res := NoResult;
      }
    }

    method SQLFreeResult(ok: bool) returns (res: DbReturn)
      requires Callable(Now(), FreeResult(ok))
      modifies this
      ensures Result(Now(), res) == Step(old(Now()), FreeResult(ok))
      ensures res == (if ok then ResultSuccess else ResultError) && resFields == NULL && resBind == NULL
    {
      res := ResultError;
      if resFields != NULL {
        FreeBlock(resFields);
        resFields := NULL;
      }
      if resBind != NULL {
        FreeBlock(resBind);
        resBind := NULL;
        hasBind := false;
      }
      if ok {
        res := ResultSuccess;
      }
    }

    method FetchResult(bindOk: bool, fetched: FetchAnswer) returns (res: DbReturn)
      requires Callable(Now(), Fetch(bindOk, fetched))
      modifies this
      ensures Result(Now(), res) == Step(old(Now()), Fetch(bindOk, fetched))
      ensures res == (if !old(hasBind) && (!bindOk || old(lib.columns) == []) then ResultError
                      else if fetched == FetchRow || fetched == FetchTruncated then ResultSuccess
                      else if fetched == FetchNothing then NoData
                      else ResultError)
    {
      res := ResultError;
      if !hasBind {
        if bindOk && lib.columns != [] {
          lib := lib.(bound := resBind, results := FirstSlots(SlotsAt(Now(), resBind), |lib.columns|));
          hasBind := true;
        } else {
          return;
        }
      }
      if fetched.FetchRow? || fetched.FetchTruncated? {
        res := ResultSuccess;
      } else if fetched.FetchNothing? {
        res := NoData;
      }
    }
  }
}
