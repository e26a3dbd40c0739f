/** The user record of User/User.cpp. */
module Users {
  import opened Scanning
  import opened StatementHandle
  import opened SqlObjects
  import opened DbCalls
  import opened DbSessions

  // The addresses of the record's buffers.
  const USER_ID_BUFFER: Ptr := 1
  const PASSWORD_BUFFER: Ptr := 2
  const USER_NAME_BUFFER: Ptr := 3
  const SESSION_ID_BUFFER: Ptr := 4
  const LOGIN_TIME_BUFFER: Ptr := 5
  const ID_BUFFER: Ptr := 6

  /** What the constructor registers; the size of the time structure depends on the platform. */
  function RegisteredFields(timeSize: nat): map<string, Attr> {
    map[
      "user_id" := Attr(USER_ID_BUFFER, 32, false, VarCharField),
      "password" := Attr(PASSWORD_BUFFER, 32, false, VarCharField),
      "username" := Attr(USER_NAME_BUFFER, 64, false, VarCharField),
      "session_id" := Attr(SESSION_ID_BUFFER, 32, false, VarCharField),
      "login_time" := Attr(LOGIN_TIME_BUFFER, timeSize, false, DateTimeField),
      "id" := Attr(ID_BUFFER, 8, false, BigIntField)
    ]
  }

  /** A sorted table with exactly the constructor's registrations, whatever is altered. */
  ghost predicate IsUserTable(fields: seq<Field>, timeSize: nat) {
    Sorted(fields) && Registrations(fields) == RegisteredFields(timeSize)
  }

  // ----- Runs of setters -----

  /** Marking several fields, one after the other. */
  function FlagAll(fields: seq<Field>, keys: seq<string>): seq<Field>
    decreases keys
  {
    if keys == [] then fields else FlagAll(Flag(fields, keys[0]), keys[1..])
  }

  lemma {:induction false} FlagAllAddsNames(fields: seq<Field>, keys: seq<string>, timeSize: nat)
    requires IsUserTable(fields, timeSize)
    requires forall k :: 0 <= k < |keys| ==> keys[k] in RegisteredFields(timeSize)
    ensures IsUserTable(FlagAll(fields, keys), timeSize)
    ensures AlteredNames(FlagAll(fields, keys)) == AlteredNames(fields) + set k | 0 <= k < |keys| :: keys[k]
    decreases keys
  {
    if keys != [] {
      FlagRegistered(fields, keys[0], timeSize);
      FlagAllAddsNames(Flag(fields, keys[0]), keys[1..], timeSize);
      assert (set k | 0 <= k < |keys| :: keys[k]) == {keys[0]} + set k | 0 <= k < |keys[1..]| :: keys[1..][k] by {
        assert forall k :: 0 < k < |keys| ==> keys[k] == keys[1..][k - 1];
      }
    }
  }

  /**
   * After any run of setters on a new record, the slots that an insert or an update assigns
   * are exactly the registered buffers of the fields that were set.
   */
  lemma SettersDecideStatement(fields: seq<Field>, keys: seq<string>, timeSize: nat)
    requires IsUserTable(fields, timeSize) && AlteredNames(fields) == {}
    requires forall k :: 0 <= k < |keys| ==> keys[k] in RegisteredFields(timeSize)
    ensures AlteredSlots(FlagAll(fields, keys))
            == map name | name in (set k | 0 <= k < |keys| :: keys[k]) :: SlotOf(RegisteredFields(timeSize)[name])
  {
    FlagAllAddsNames(fields, keys, timeSize);
    var all := FlagAll(fields, keys);
    forall name | name in AlteredSlots(all)
      ensures AlteredSlots(all)[name] == SlotOf(RegisteredFields(timeSize)[name])
    {
      assert Registrations(all)[name] == AsMap(all)[name].(alterable := false);
    }
    assert AlteredSlots(all).Keys == AlteredNames(all);
  }

  /**
   * No run of setters makes an operation of the record unsafe: an insert is always safe, and
   * an update or a delete exactly if its key is registered or it does not come to execute.
   */
  lemma SettersKeepOperationsSafe(fields: seq<Field>, keys: seq<string>, timeSize: nat,
                                  table: string, key: string, answers: Answers)
    requires IsUserTable(fields, timeSize) && TIME_WIDTH <= timeSize
    requires forall k :: 0 <= k < |keys| ==> keys[k] in RegisteredFields(timeSize)
    ensures var all := FlagAll(fields, keys);
            var keySafe := key in RegisteredFields(timeSize) || !ReachesExecute(answers);
            && SafeCall(InsertCall(table, all, answers))
            && (SafeCall(UpdateCall(table, all, key, answers)) <==> keySafe)
            && (SafeCall(RemoveCall(table, all, key, answers)) <==> keySafe)
  {
    FlagAllAddsNames(fields, keys, timeSize);
    var all := FlagAll(fields, keys);
    UserSlotsUsable(all, timeSize);
    var update := UpdateCall(table, all, key, answers);
    assert key in Registrations(all) <==> key in AsMap(all);
    assert CallSlots(update)[|Altered(all)|] == SlotOf(Lookup(all, key));
  }

  lemma UserSlotsUsable(fields: seq<Field>, timeSize: nat)
    requires IsUserTable(fields, timeSize) && TIME_WIDTH <= timeSize
    ensures AllUsable(SlotsOf(Altered(fields)))
    ensures forall name :: name in AsMap(fields) ==> Usable(SlotOf(AsMap(fields)[name]))
  {
    forall name | name in AsMap(fields)
      ensures Usable(SlotOf(AsMap(fields)[name]))
    {
      assert Registrations(fields)[name] == AsMap(fields)[name].(alterable := false);
      assert name in RegisteredFields(timeSize);
    }
    EntriesOfMap(fields);
    AlteredMembers(fields);
    forall k | 0 <= k < |Altered(fields)|
      ensures Usable(SlotOf(Altered(fields)[k].attr))
    {
      assert Altered(fields)[k] in fields;
    }
  }

  // ----- The record -----

  /** A text followed by NULs up to the size of its buffer. */
  ghost predicate Stores(buffer: string, text: string) {
    |text| < |buffer| && buffer[..|text|] == text && forall k :: |text| <= k < |buffer| ==> buffer[k] == '\0'
  }

  /** Clear a buffer (memset) and copy a C string into it (strcpy). */
  method ReplaceText(buffer: array<char>, text: array<char>)
    requires buffer != text
    requires |CString(text[..])| < buffer.Length && |CString(text[..])| < text.Length
    modifies buffer
    ensures Stores(buffer[..], CString(text[..]))
  {
    ghost var source, from := CString(text[..]), text[..];
    CStringIsPrefix(from);
    forall k | 0 <= k < buffer.Length {
      buffer[k] := '\0';
    }
    var i := 0;
    while text[i] != '\0'
      invariant text[..] == from
      invariant i <= |source|
      invariant forall k :: 0 <= k < i ==> buffer[k] == source[k]
      invariant forall k :: i <= k < buffer.Length ==> buffer[k] == '\0'
      decreases |source| - i
    {
      buffer[i] := text[i];
      i := i + 1;
    }
    buffer[i] := '\0';
  }

  lemma FlagRegistered(fields: seq<Field>, key: string, timeSize: nat)
    requires IsUserTable(fields, timeSize) && key in RegisteredFields(timeSize)
    ensures IsUserTable(Flag(fields, key), timeSize)
    ensures AlteredNames(Flag(fields, key)) == AlteredNames(fields) + {key}
  {
    assert key in Registrations(fields);
    FlagAddsName(fields, key);
    FlagKeepsOrder(fields, key);
  }

  /** What a field of the record holds. */
  datatype Content<Time> = Text(text: string) | Moment(time: Time) | Number(number: nat)

  /** What the slots of some names refer to. */
  function Referred<C>(slots: map<string, Slot>, contents: map<Ptr, C>): map<string, C> {
    map name | name in slots && slots[name].buffer in contents :: contents[slots[name].buffer]
  }

  lemma ReferredUpdate<C>(slots: map<string, Slot>, contents: map<Ptr, C>, key: string, slot: Slot, content: C)
    requires slot.buffer in contents
    requires forall name :: name in slots && slots[name].buffer == slot.buffer ==> name == key
    ensures Referred(slots[key := slot], contents[slot.buffer := content]) == Referred(slots, contents)[key := content]
  {
  }

  /**
   * Setting a field adds it to what is stored, with its new content, and leaves the contents
   * of all others: no other field has its buffer.
   */
  lemma SetterEffect<C>(fields: seq<Field>, key: string, timeSize: nat, contents: map<Ptr, C>, content: C)
    requires IsUserTable(fields, timeSize) && key in RegisteredFields(timeSize)
    requires RegisteredFields(timeSize)[key].buffer in contents
    ensures IsUserTable(Flag(fields, key), timeSize)
    ensures Referred(AlteredSlots(Flag(fields, key)),
                     contents[RegisteredFields(timeSize)[key].buffer := content])
            == Referred(AlteredSlots(fields), contents)[key := content]
  {
    FlagRegistered(fields, key, timeSize);
    RegisteredAttributes(fields, timeSize);
    var slot := SlotOf(AsMap(fields)[key]);
    FlagAddsSlot(fields, key);
    DistinctBuffers(timeSize);
    ReferredUpdate(AlteredSlots(fields), contents, key, slot, content);
  }

  lemma FlagAddsSlot(fields: seq<Field>, key: string)
    requires Sorted(fields) && key in AsMap(fields)
    ensures AlteredSlots(Flag(fields, key)) == AlteredSlots(fields)[key := SlotOf(AsMap(fields)[key])]
  {
    FlagKeepsOrder(fields, key);
  }

  lemma DistinctBuffers(timeSize: nat)
    ensures var m := RegisteredFields(timeSize);
            forall a, b :: a in m && b in m && m[a].buffer == m[b].buffer ==> a == b
  {
  }

  lemma {:induction false} StoredText(buffer: string, text: string)
    requires Stores(buffer, text) && forall k :: 0 <= k < |text| ==> text[k] != '\0'
    ensures CString(buffer) == text
  {
    if text != "" {
      assert buffer[0] == buffer[..|text|][0] == text[0];
      assert buffer[1..][..|text| - 1] == buffer[..|text|][1..] == text[1..];
      StoredText(buffer[1..], text[1..]);
    }
  }

  lemma RegisteredAttributes(fields: seq<Field>, timeSize: nat)
    requires IsUserTable(fields, timeSize)
    ensures AsMap(fields).Keys == RegisteredFields(timeSize).Keys
    ensures forall name :: name in AsMap(fields) ==>
              AsMap(fields)[name].(alterable := false) == RegisteredFields(timeSize)[name]
  {
    assert AsMap(fields).Keys == Registrations(fields).Keys;
    forall name | name in AsMap(fields)
      ensures AsMap(fields)[name].(alterable := false) == RegisteredFields(timeSize)[name]
    {
      assert Registrations(fields)[name] == AsMap(fields)[name].(alterable := false);
    }
  }

  /** What the members of a record hold, by their addresses. */
  function ContentsOf<Time>(userId: string, password: string, userName: string, sessionId: string,
                            loginTime: Time, id: nat): map<Ptr, Content<Time>>
  {
    map[
      USER_ID_BUFFER := Text(CString(userId)),
      PASSWORD_BUFFER := Text(CString(password)),
      USER_NAME_BUFFER := Text(CString(userName)),
      SESSION_ID_BUFFER := Text(CString(sessionId)),
      LOGIN_TIME_BUFFER := Moment(loginTime),
      ID_BUFFER := Number(id)
    ]
  }

  class User<Time> {
    const table: SqlObject
    const timeSize: nat
    const userId: array<char>
    const password: array<char>
    const userName: array<char>
    const sessionId: array<char>
    var loginTime: Time
    var id: nat

    ghost predicate Valid()
      reads table
    {
      && IsUserTable(table.fields, timeSize) && table.tableName == "user"
      && userId.Length == 32 && password.Length == 32 && userName.Length == 64 && sessionId.Length == 32
      && userId != password && userId != userName && userId != sessionId
      && password != userName && password != sessionId && userName != sessionId
    }

    /** The member of the record at an address. */
    function TextAt(p: Ptr): array?<char> {
      if p == USER_ID_BUFFER then userId
      else if p == PASSWORD_BUFFER then password
      else if p == USER_NAME_BUFFER then userName
      else if p == SESSION_ID_BUFFER then sessionId
      else null
    }

    /** What the library reads at each address. */
    function Contents(): map<Ptr, Content<Time>>
      reads this, userId, password, userName, sessionId
    {
      ContentsOf(userId[..], password[..], userName[..], sessionId[..], loginTime, id)
    }

    /**
     * What an insert or an update of the record stores: the names of the altered fields, with
     * the contents of the buffers that are bound for them.
     */
    function Stored(): map<string, Content<Time>>
      reads this, table, userId, password, userName, sessionId
    {
      Referred(AlteredSlots(table.fields), Contents())
    }

    /** The text columns: each registered buffer is the member of its name, with its size. */
    lemma TextColumns()
      requires Valid()
      ensures var m := AsMap(table.fields);
              && m.Keys == {"user_id", "password", "username", "session_id", "login_time", "id"}
              && TextAt(m["user_id"].buffer) == userId && m["user_id"].nbytes == 32
              && TextAt(m["password"].buffer) == password && m["password"].nbytes == 32
              && TextAt(m["username"].buffer) == userName && m["username"].nbytes == 64
              && TextAt(m["session_id"].buffer) == sessionId && m["session_id"].nbytes == 32
    {
      RegisteredAttributes(table.fields, timeSize);
    }

    /** The other columns, and the types of all. */
    lemma ColumnTypes()
      requires Valid()
      ensures AsMap(table.fields).Keys == RegisteredFields(timeSize).Keys
      ensures var m := AsMap(table.fields);
              && m["login_time"].buffer == LOGIN_TIME_BUFFER && m["login_time"].nbytes == timeSize
              && m["id"].buffer == ID_BUFFER && m["id"].nbytes == 8
              && SlotOf(m["login_time"]).kind == DateTime && SlotOf(m["id"]).kind == LongLong
              && forall name :: name in m && name != "login_time" && name != "id" ==> SlotOf(m[name]).kind == VarString
      ensures Contents()[LOGIN_TIME_BUFFER] == Moment(loginTime) && Contents()[ID_BUFFER] == Number(id)
    {
      RegisteredAttributes(table.fields, timeSize);
    }

    /**
     * An insert or an update of the record stores, under each altered name, the content of the
     * member of that name: the buffers sent for the names hold exactly what Stored says.
     */
    lemma StatementStores(c: Call)
      requires Valid() && (c.InsertCall? || c.UpdateCall?) && c.fields == table.fields
      ensures var names, params := Names(Altered(c.fields)), SentBy(c).params;
              && |names| <= |params|
              && (forall name :: name in names <==> name in Stored())
              && forall k :: 0 <= k < |names| ==>
                   params[k].buffer in Contents() && Stored()[names[k]] == Contents()[params[k].buffer]
    {
      AlteredParams(c.fields);
      RegisteredAttributes(c.fields, timeSize);
      BuffersHaveContents();
      var slots := SlotsOf(Altered(c.fields));
      assert forall k :: 0 <= k < |slots| ==> SentBy(c).params[k] == slots[k];
    }

    lemma BuffersHaveContents()
      ensures forall name :: name in RegisteredFields(timeSize) ==>
                RegisteredFields(timeSize)[name].buffer in Contents()
    {
    }

    constructor (timeSize: nat, time: Time, id: nat)
      ensures Valid() && AlteredNames(table.fields) == {}
      ensures fresh(table) && this.timeSize == timeSize
    {
      this.timeSize := timeSize;
      table := new SqlObject("user");
      userId := new char[32];
      password := new char[32];
      userName := new char[64];
      sessionId := new char[32];
      this.loginTime, this.id := time, id;
      new;
      table.SetSQLFields("user_id", VarCharField, USER_ID_BUFFER, userId.Length);
      table.SetSQLFields("password", VarCharField, PASSWORD_BUFFER, password.Length);
      table.SetSQLFields("username", VarCharField, USER_NAME_BUFFER, userName.Length);
      table.SetSQLFields("session_id", VarCharField, SESSION_ID_BUFFER, sessionId.Length);
      table.SetSQLFields("login_time", DateTimeField, LOGIN_TIME_BUFFER, timeSize);
      table.SetSQLFields("id", BigIntField, ID_BUFFER, 8);
      assert AsMap(table.fields) == RegisteredFields(timeSize);
    }

    /** After a setter has changed one member and marked its field, that field is stored anew. */
    lemma StoredAnew(fields: seq<Field>, contents: map<Ptr, Content<Time>>, key: string, p: Ptr, content: Content<Time>)
      requires IsUserTable(fields, timeSize) && table.fields == Flag(fields, key)
      requires key in RegisteredFields(timeSize) && p == RegisteredFields(timeSize)[key].buffer && p in contents
      requires Contents() == contents[p := content]
      ensures IsUserTable(table.fields, timeSize)
      ensures Stored() == Referred(AlteredSlots(fields), contents)[key := content]
    {
      SetterEffect(fields, key, timeSize, contents, content);
    }

    /** Replace the text of the member at an address. */
    method ReplaceMember(buffer: array<char>, text: array<char>, ghost p: Ptr)
      requires buffer != text && TextAt(p) == buffer
      requires userId != password && userId != userName && userId != sessionId
      requires password != userName && password != sessionId && userName != sessionId
      requires |CString(text[..])| < buffer.Length && |CString(text[..])| < text.Length
      modifies buffer
      ensures Stores(buffer[..], old(CString(text[..])))
      ensures Contents() == old(Contents())[p := Text(old(CString(text[..])))]
    {
      CStringIsPrefix(text[..]);
      ReplaceText(buffer, text);
      StoredText(buffer[..], old(CString(text[..])));
    }

    /** The common body of the four text setters: nothing happens when a buffer is set to itself. */
    method SetText(buffer: array<char>, text: array<char>, key: string, ghost p: Ptr)
      requires Valid() && key in RegisteredFields(timeSize)
      requires TextAt(p) == buffer && p == RegisteredFields(timeSize)[key].buffer
      requires buffer != text ==> |CString(text[..])| < buffer.Length && |CString(text[..])| < text.Length
      modifies buffer, table
      ensures Valid()
      ensures buffer == text ==> buffer[..] == old(buffer[..]) && table.fields == old(table.fields)
      ensures buffer != text ==>
                table.fields == Flag(old(table.fields), key) && Stores(buffer[..], old(CString(text[..])))
      ensures Stored() == if buffer == text then old(Stored()) else old(Stored())[key := Text(old(CString(text[..])))]
    {
      if buffer != text {
        ghost var source, fields, contents := CString(text[..]), table.fields, Contents();
        ReplaceMember(buffer, text, p);
        table.SetAlterFlag(key);
        StoredAnew(fields, contents, key, p, Text(source));
      }
    }

    method SetUserId(text: array<char>)
      requires Valid()
      requires userId != text ==> |CString(text[..])| < 32 && |CString(text[..])| < text.Length
      modifies userId, table
      ensures Valid()
      ensures userId == text ==> table.fields == old(table.fields) && userId[..] == old(userId[..])
      ensures userId != text ==>
                table.fields == Flag(old(table.fields), "user_id") && Stores(userId[..], old(CString(text[..])))
      ensures Stored() == if userId == text then old(Stored())
                          else old(Stored())["user_id" := Text(old(CString(text[..])))]
    {
      SetText(userId, text, "user_id", USER_ID_BUFFER);
    }

    method SetPassword(text: array<char>)
      requires Valid()
      requires password != text ==> |CString(text[..])| < 32 && |CString(text[..])| < text.Length
      modifies password, table
      ensures Valid()
      ensures password == text ==> table.fields == old(table.fields) && password[..] == old(password[..])
      ensures password != text ==>
                table.fields == Flag(old(table.fields), "password") && Stores(password[..], old(CString(text[..])))
      ensures Stored() == if password == text then old(Stored())
                          else old(Stored())["password" := Text(old(CString(text[..])))]
    {
      SetText(password, text, "password", PASSWORD_BUFFER);
    }

    method SetUserName(text: array<char>)
      requires Valid()
      requires userName != text ==> |CString(text[..])| < 64 && |CString(text[..])| < text.Length
      modifies userName, table
      ensures Valid()
      ensures userName == text ==> table.fields == old(table.fields) && userName[..] == old(userName[..])
      ensures userName != text ==>
                table.fields == Flag(old(table.fields), "username") && Stores(userName[..], old(CString(text[..])))
      ensures Stored() == if userName == text then old(Stored())
                          else old(Stored())["username" := Text(old(CString(text[..])))]
    {
      SetText(userName, text, "username", USER_NAME_BUFFER);
    }

    method SetSessionId(text: array<char>)
      requires Valid()
      requires sessionId != text ==> |CString(text[..])| < 32 && |CString(text[..])| < text.Length
      modifies sessionId, table
      ensures Valid()
      ensures sessionId == text ==> table.fields == old(table.fields) && sessionId[..] == old(sessionId[..])
      ensures sessionId != text ==>
                table.fields == Flag(old(table.fields), "session_id") && Stores(sessionId[..], old(CString(text[..])))
      ensures Stored() == if sessionId == text then old(Stored())
                          else old(Stored())["session_id" := Text(old(CString(text[..])))]
    {
      SetText(sessionId, text, "session_id", SESSION_ID_BUFFER);
    }

    /** `own` says that the argument is the record's own time, passed by reference. */
    method SetLoginTime(time: Time, own: bool)
      requires Valid() && (own ==> time == loginTime)
      modifies this`loginTime, table
      ensures Valid() && loginTime == time
      ensures table.fields == if own then old(table.fields) else Flag(old(table.fields), "login_time")
      ensures Stored() == if own then old(Stored()) else old(Stored())["login_time" := Moment(time)]
    {
      if !own {
        ghost var fields, contents := table.fields, Contents();
        loginTime := time;
        table.SetAlterFlag("login_time");
        StoredAnew(fields, contents, "login_time", LOGIN_TIME_BUFFER, Moment(time));
      }
    }
  }

  lemma {:induction false} CStringIsPrefix(s: string)
    ensures CString(s) <= s
    ensures forall k :: 0 <= k < |CString(s)| ==> s[k] != '\0'
    ensures |CString(s)| < |s| ==> s[|CString(s)|] == '\0'
  {
    if s != "" && s[0] != '\0' {
      CStringIsPrefix(s[1..]);
    }
  }
}
