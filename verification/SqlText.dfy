/** The SQL text that Util/DBUtil.cpp builds, and a reader that recovers its meaning. */
module SqlText {
  import opened Options
  import opened Sequences

  // ----- Building -----

  /** Appending to a comma-separated list the way the insert loop does: no comma on an empty list. */
  function AppendItem(list: string, item: string): string {
    (if list != "" then list + "," else list) + item
  }

  function CommaList(items: seq<string>): string {
    if items == [] then "" else AppendItem(CommaList(items[..|items| - 1]), items[|items| - 1])
  }

  function Marks(n: nat): seq<string> {
    seq(n, _ => "?")
  }

  function InsertText(table: string, names: seq<string>): string {
    "insert into " + table + " (" + CommaList(names) + ") values (" + CommaList(Marks(|names|)) + ")"
  }

  /** Appending an assignment the way the update loop does: a comma before all but the first. */
  function AppendAssignment(text: string, index: nat, name: string): string {
    (if index != 0 then text + "," else text) + name + " = ?"
  }

  function Assignments(names: seq<string>): string {
    if names == [] then ""
    else AppendAssignment(Assignments(names[..|names| - 1]), |names| - 1, names[|names| - 1])
  }

  function UpdateText(table: string, names: seq<string>, key: string): string {
    "update " + table + " set " + Assignments(names) + " where " + key + " = ?"
  }

  function DeleteText(table: string, key: string): string {
    "delete from " + table + " where " + key + " = ?"
  }

  function SelectText(table: string, key: string): string {
    "select * from " + table + " where " + key + " = ?"
  }

  /** The statements for one and for two names, word for word. */
  lemma StatementTexts(table: string, a: string, b: string, key: string)
    requires a != ""
    ensures InsertText(table, [a]) == "insert into " + table + " (" + a + ") values (?)"
    ensures InsertText(table, [a, b]) == "insert into " + table + " (" + (a + "," + b) + ") values (?,?)"
    ensures UpdateText(table, [a], key) == "update " + table + " set " + (a + " = ?") + " where " + key + " = ?"
    ensures UpdateText(table, [a, b], key)
            == "update " + table + " set " + (a + " = ?" + "," + b + " = ?") + " where " + key + " = ?"
    ensures DeleteText(table, key) == "delete from " + table + " where " + key + " = ?"
    ensures SelectText(table, key) == "select * from " + table + " where " + key + " = ?"
  {
    CommaListOne(a);
    CommaListOne("?");
    AssignmentsOne(a);
    assert [a, b][..1] == [a];
    assert Marks(1) == ["?"] && Marks(2) == ["?", "?"] && Marks(2)[..1] == ["?"];
    assert CommaList(Marks(2)) == "?,?";
    assert "insert into " + table + " (" + a + ") values (" + "?" + ")"
        == "insert into " + table + " (" + a + (") values (" + "?" + ")");
    assert "insert into " + table + " (" + CommaList([a, b]) + ") values (" + "?,?" + ")"
        == "insert into " + table + " (" + CommaList([a, b]) + (") values (" + "?,?" + ")");
  }

  // ----- Placeholders -----

  /** The number of placeholders in a statement. */
  function MarkCount(s: string): nat {
    if s == "" then 0 else (if s[0] == '?' then 1 else 0) + MarkCount(s[1..])
  }

  lemma {:induction false} MarkCountAppend(a: string, b: string)
    ensures MarkCount(a + b) == MarkCount(a) + MarkCount(b)
  {
    if a == "" {
      assert a + b == b;
    } else {
      assert (a + b)[1..] == a[1..] + b;
      MarkCountAppend(a[1..], b);
    }
  }

  lemma {:induction false} NoMarksIff(s: string)
    ensures MarkCount(s) == 0 <==> '?' !in s
  {
    if s != "" {
      NoMarksIff(s[1..]);
      assert s == [s[0]] + s[1..];
    }
  }

  function MarksIn(items: seq<string>): nat {
    if items == [] then 0 else MarksIn(items[..|items| - 1]) + MarkCount(items[|items| - 1])
  }

  lemma {:induction false} CommaListMarks(items: seq<string>)
    ensures MarkCount(CommaList(items)) == MarksIn(items)
  {
    if items != [] {
      var list, item := CommaList(items[..|items| - 1]), items[|items| - 1];
      CommaListMarks(items[..|items| - 1]);
      MarkCountAppend(list, ",");
      assert MarkCount(",") == 0 + MarkCount("");
      MarkCountAppend(if list != "" then list + "," else list, item);
    }
  }

  lemma {:induction false} MarksOfMarks(n: nat)
    ensures MarksIn(Marks(n)) == n
  {
    if n > 0 {
      assert Marks(n)[..n - 1] == Marks(n - 1);
      MarksOfMarks(n - 1);
      assert MarkCount("?") == 1 + MarkCount("");
    }
  }

  lemma {:induction false} AssignmentMarks(names: seq<string>)
    ensures MarkCount(Assignments(names)) == MarksIn(names) + |names|
  {
    if names != [] {
      var text, name := Assignments(names[..|names| - 1]), names[|names| - 1];
      AssignmentMarks(names[..|names| - 1]);
      assert MarkCount(",") == 0 + MarkCount("");
      MarkCountAppend(text, ",");
      var before := if |names| - 1 != 0 then text + "," else text;
      MarkCountAppend(before, name);
      MarkCountAppend(before + name, " = ?");
      MarksOfEquals();
    }
  }

  lemma MarksOfEquals()
    ensures MarkCount(" = ?") == 1
  {
    assert " = ?"[1..] == "= ?" && "= ?"[1..] == " ?" && " ?"[1..] == "?" && "?"[1..] == "";
    assert MarkCount("?") == 1 + MarkCount("");
  }

  lemma {:induction false} NoMarksInIff(items: seq<string>)
    ensures MarksIn(items) == 0 <==> forall k :: 0 <= k < |items| ==> '?' !in items[k]
  {
    if items != [] {
      NoMarksInIff(items[..|items| - 1]);
      NoMarksIff(items[|items| - 1]);
    }
  }

  lemma InsertMarks(table: string, names: seq<string>)
    ensures MarkCount(InsertText(table, names)) == MarkCount(table) + MarksIn(names) + |names|
  {
    CommaListMarks(names);
    CommaListMarks(Marks(|names|));
    MarksOfMarks(|names|);
    MarksOfPieces("insert into ", table, " (", CommaList(names), ") values (", CommaList(Marks(|names|)), ")");
  }

  /** Fixed words without placeholders around three variable pieces. */
  lemma MarksOfPieces(a: string, x: string, b: string, y: string, c: string, z: string, d: string)
    requires '?' !in a && '?' !in b && '?' !in c && '?' !in d
    ensures MarkCount(a + x + b + y + c + z + d) == MarkCount(x) + MarkCount(y) + MarkCount(z)
  {
    NoMarksIff(a);
    NoMarksIff(b);
    NoMarksIff(c);
    NoMarksIff(d);
    MarkCountAppend(a, x);
    MarkCountAppend(a + x, b);
    MarkCountAppend(a + x + b, y);
    MarkCountAppend(a + x + b + y, c);
    MarkCountAppend(a + x + b + y + c, z);
    MarkCountAppend(a + x + b + y + c + z, d);
  }

  lemma UpdateMarks(table: string, names: seq<string>, key: string)
    ensures MarkCount(UpdateText(table, names, key))
            == MarkCount(table) + MarksIn(names) + MarkCount(key) + |names| + 1
  {
    AssignmentMarks(names);
    MarksOfPieces("update ", table, " set ", Assignments(names), " where ", key, "");
    var text := "update " + table + " set " + Assignments(names) + " where " + key;
    assert text + "" == text;
    MarkCountAppend(text, " = ?");
    MarksOfEquals();
  }

  lemma KeyedMarks(prefix: string, table: string, key: string)
    requires '?' !in prefix
    ensures MarkCount(prefix + table + " where " + key + " = ?") == MarkCount(table) + MarkCount(key) + 1
  {
    NoMarksIff(prefix);
    NoMarksIff(" where ");
    MarksOfEquals();
    MarkCountAppend(prefix, table);
    MarkCountAppend(prefix + table, " where ");
    MarkCountAppend(prefix + table + " where ", key);
    MarkCountAppend(prefix + table + " where " + key, " = ?");
  }

  /** An insert has one placeholder per name exactly when no name and no table name contains one. */
  lemma InsertPlaceholdersIff(table: string, names: seq<string>)
    ensures MarkCount(InsertText(table, names)) == |names|
            <==> '?' !in table && forall k :: 0 <= k < |names| ==> '?' !in names[k]
  {
    InsertMarks(table, names);
    NoMarksIff(table);
    NoMarksInIff(names);
  }

  /** An update has one placeholder per name and one for the key exactly when no part contains one. */
  lemma UpdatePlaceholdersIff(table: string, names: seq<string>, key: string)
    ensures MarkCount(UpdateText(table, names, key)) == |names| + 1
            <==> '?' !in table && '?' !in key && forall k :: 0 <= k < |names| ==> '?' !in names[k]
  {
    UpdateMarks(table, names, key);
    NoMarksIff(table);
    NoMarksIff(key);
    NoMarksInIff(names);
  }

  // ----- Reading a statement back -----

  predicate IsSeparator(c: char) {
    c == ' ' || c == ',' || c == '(' || c == ')' || c == '?'
  }

  /** A non-empty name without separators or placeholders. */
  predicate IsName(s: string) {
    s != "" && forall k :: 0 <= k < |s| ==> !IsSeparator(s[k])
  }

  function NameLength(s: string): (n: nat)
    ensures n <= |s|
  {
    if s == "" || IsSeparator(s[0]) then 0 else 1 + NameLength(s[1..])
  }

  /** A name and what follows it. */
  function ReadName(s: string): Option<(string, string)> {
    var n := NameLength(s);
    if n == 0 then None else Some((s[..n], s[n..]))
  }

  /** What follows a fixed word. */
  function ReadWord(word: string, s: string): Option<string> {
    if word <= s then Some(s[|word|..]) else None
  }

  /** A possibly empty comma-separated list of names, and what follows it. */
  function ReadNames(s: string): (seq<string>, string)
    decreases |s|
  {
    var n := NameLength(s);
    if n == 0 then ([], s)
    else if n < |s| && s[n] == ',' then
      var (names, rest) := ReadNames(s[n + 1..]);
      ([s[..n]] + names, rest)
    else ([s[..n]], s[n..])
  }

  /** A possibly empty comma-separated list of placeholders, and what follows it. */
  function ReadMarks(s: string): (nat, string)
    decreases |s|
  {
    if s == "" || s[0] != '?' then (0, s)
    else if |s| > 1 && s[1] == ',' then
      var (n, rest) := ReadMarks(s[2..]);
      (n + 1, rest)
    else (1, s[1..])
  }

  /** A possibly empty comma-separated list of assignments of placeholders, and what follows it. */
  function ReadAssignments(s: string): (seq<string>, string)
    decreases |s|
  {
    var n := NameLength(s);
    if n == 0 || !(" = ?" <= s[n..]) then ([], s)
    else if n + 4 < |s| && s[n + 4] == ',' then
      var (names, rest) := ReadAssignments(s[n + 5..]);
      ([s[..n]] + names, rest)
    else ([s[..n]], s[n + 4..])
  }

  datatype Statement =
    | Insert(table: string, names: seq<string>, marks: nat)
    | Update(table: string, names: seq<string>, key: string)
    | Keyed(table: string, key: string)

  function ReadInsert(sql: string): Option<Statement> {
    var s :- ReadWord("insert into ", sql);
    var (table, s) :- ReadName(s);
    var s :- ReadWord(" (", s);
    var (names, s) := ReadNames(s);
    var s :- ReadWord(") values (", s);
    var (marks, s) := ReadMarks(s);
    if s == ")" then Some(Insert(table, names, marks)) else None
  }

  /** An update needs at least one assignment. */
  function ReadUpdate(sql: string): Option<Statement> {
    var s :- ReadWord("update ", sql);
    var (table, s) :- ReadName(s);
    var s :- ReadWord(" set ", s);
    var (names, s) := ReadAssignments(s);
    var s :- ReadWord(" where ", s);
    var (key, s) :- ReadName(s);
    if names != [] && s == " = ?" then Some(Update(table, names, key)) else None
  }

  function ReadKeyed(prefix: string, sql: string): Option<Statement> {
    var s :- ReadWord(prefix, sql);
    var (table, s) :- ReadName(s);
    var s :- ReadWord(" where ", s);
    var (key, s) :- ReadName(s);
    if s == " = ?" then Some(Keyed(table, key)) else None
  }

  // ----- Round trips -----

  lemma WordRead(word: string, rest: string)
    ensures ReadWord(word, word + rest) == Some(rest)
  {
    assert word <= word + rest;
  }

  /** A text at which a name stops. */
  predicate StopsName(s: string) {
    s == "" || IsSeparator(s[0])
  }

  lemma {:induction false} NameLengthIs(name: string, rest: string)
    requires forall k :: 0 <= k < |name| ==> !IsSeparator(name[k])
    requires StopsName(rest)
    ensures NameLength(name + rest) == |name|
  {
    if name == "" {
      assert name + rest == rest;
    } else {
      assert (name + rest)[1..] == name[1..] + rest;
      NameLengthIs(name[1..], rest);
    }
  }

  lemma NameRead(name: string, rest: string)
    requires IsName(name) && StopsName(rest)
    ensures ReadName(name + rest) == Some((name, rest))
  {
    NameLengthIs(name, rest);
    assert (name + rest)[..|name|] == name && (name + rest)[|name|..] == rest;
  }

  ghost predicate AllNames(names: seq<string>) {
    forall k :: 0 <= k < |names| ==> IsName(names[k])
  }

  lemma Regroup(a: string, b: string, c: string, d: string)
    ensures a + (b + c) + d == a + (b + (c + d))
  {
  }

  lemma CommaListSnoc(items: seq<string>)
    requires items != [] && CommaList(items[..|items| - 1]) != ""
    ensures CommaList(items) == CommaList(items[..|items| - 1]) + ("," + items[|items| - 1])
  {
    var init, item := CommaList(items[..|items| - 1]), items[|items| - 1];
    assert CommaList(items) == AppendItem(init, item) == (init + ",") + item;
    Associate(init, ",", item);
  }

  lemma CommaListOne(item: string)
    ensures CommaList([item]) == item
  {
    assert [item][..0] == [];
    assert CommaList([]) == "";
    assert "" + item == item;
  }

  /** A list built from the back begins with its first item. */
  lemma {:induction false} CommaListFront(items: seq<string>)
    requires items != [] && forall k :: 0 <= k < |items| ==> items[k] != ""
    ensures CommaList(items) != ""
    ensures CommaList(items) == if |items| == 1 then items[0] else items[0] + ("," + CommaList(items[1..]))
  {
    if |items| == 1 {
      assert items == [items[0]];
      CommaListOne(items[0]);
    } else {
      var init, item := items[..|items| - 1], items[|items| - 1];
      CommaListFront(init);
      CommaListSnoc(items);
      if |items| == 2 {
        assert items[1..] == [item];
        CommaListOne(item);
      } else {
        var middle := init[1..];
        assert items[1..][..|items| - 2] == middle;
        CommaListFront(middle);
        CommaListSnoc(items[1..]);
        Regroup(init[0], ",", CommaList(middle), "," + item);
      }
    }
  }

  /** One name and the list that follows it. */
  lemma NamesStep(name: string, more: string)
    requires IsName(name) && StopsName(more)
    ensures ReadNames(name + more)
            == if more != "" && more[0] == ',' then
                 var (names, rest) := ReadNames(more[1..]); ([name] + names, rest)
               else ([name], more)
  {
    var s, n := name + more, |name|;
    NameLengthIs(name, more);
    assert s[..n] == name && s[n..] == more;
    if more != "" {
      assert s[n + 1..] == more[1..];
    }
  }

  lemma {:induction false} NamesRead(names: seq<string>, rest: string)
    requires AllNames(names)
    requires rest != "" && rest[0] != ',' && IsSeparator(rest[0])
    ensures ReadNames(CommaList(names) + rest) == (names, rest)
    decreases |names|
  {
    if names == [] {
      assert CommaList(names) + rest == rest;
    } else {
      CommaListFront(names);
      assert names == [names[0]] + names[1..];
      var list := CommaList(names[1..]) + rest;
      var more := if |names| == 1 then rest else "," + list;
      NamesStep(names[0], more);
      if |names| > 1 {
        Regroup(names[0], ",", CommaList(names[1..]), rest);
        assert more[1..] == list;
        NamesRead(names[1..], rest);
      } else {
        assert names == [names[0]];
      }
    }
  }

  lemma {:induction false} MarksRead(n: nat, rest: string)
    requires rest != "" && rest[0] != ',' && rest[0] != '?'
    ensures ReadMarks(CommaList(Marks(n)) + rest) == (n, rest)
  {
    if n == 0 {
      assert CommaList(Marks(n)) + rest == rest;
    } else {
      CommaListFront(Marks(n));
      assert Marks(n)[1..] == Marks(n - 1);
      var s := CommaList(Marks(n)) + rest;
      if n == 1 {
        assert s == "?" + rest;
        assert s[1..] == rest;
      } else {
        assert s == "?" + ("," + (CommaList(Marks(n - 1)) + rest));
        assert s[2..] == CommaList(Marks(n - 1)) + rest;
        MarksRead(n - 1, rest);
      }
    }
  }

  /** Reading a built insert gives its table, its names in order, and one placeholder per name. */
  lemma InsertRead(table: string, names: seq<string>)
    requires IsName(table) && AllNames(names)
    ensures ReadInsert(InsertText(table, names)) == Some(Insert(table, names, |names|))
  {
    var d := CommaList(Marks(|names|)) + ")";
    var c := ") values (" + d;
    var b := CommaList(names) + c;
    var a := " (" + b;
    assert InsertText(table, names) == "insert into " + (table + a);
    WordRead("insert into ", table + a);
    NameRead(table, a);
    WordRead(" (", b);
    NamesRead(names, c);
    WordRead(") values (", d);
    MarksRead(|names|, ")");
  }

  lemma AssignmentsSnoc(names: seq<string>)
    requires |names| > 1
    ensures Assignments(names) == Assignments(names[..|names| - 1]) + ("," + (names[|names| - 1] + " = ?"))
  {
    var init, name := Assignments(names[..|names| - 1]), names[|names| - 1];
    assert Assignments(names) == AppendAssignment(init, |names| - 1, name) == ((init + ",") + name) + " = ?";
    Associate(init + ",", name, " = ?");
    Associate(init, ",", name + " = ?");
  }

  lemma AssignmentsOne(name: string)
    ensures Assignments([name]) == name + " = ?"
  {
    assert [name][..0] == [];
    assert Assignments([]) == "";
    assert "" + name == name;
  }

  lemma {:induction false} AssignmentsFront(names: seq<string>)
    requires names != []
    ensures Assignments(names)
            == if |names| == 1 then names[0] + " = ?" else names[0] + " = ?" + ("," + Assignments(names[1..]))
  {
    if |names| == 1 {
      assert names == [names[0]];
      AssignmentsOne(names[0]);
    } else {
      var init, name := names[..|names| - 1], names[|names| - 1];
      AssignmentsFront(init);
      AssignmentsSnoc(names);
      if |names| == 2 {
        assert names[1..] == [name];
        AssignmentsOne(name);
      } else {
        var middle := init[1..];
        assert names[1..][..|names| - 2] == middle;
        AssignmentsSnoc(names[1..]);
        Regroup(init[0] + " = ?", ",", Assignments(middle), "," + (name + " = ?"));
      }
    }
  }

  /** One assignment and the list that follows it. */
  lemma AssignmentStep(name: string, more: string)
    requires IsName(name)
    ensures ReadAssignments(name + (" = ?" + more))
            == if more != "" && more[0] == ',' then
                 var (names, rest) := ReadAssignments(more[1..]); ([name] + names, rest)
               else ([name], more)
  {
    var tail := " = ?" + more;
    var s, n := name + tail, |name|;
    NameLengthIs(name, tail);
    assert s[..n] == name && s[n..] == tail;
    assert s[n + 4..] == more;
    if more != "" {
      assert s[n + 4] == more[0];
      assert s[n + 5..] == more[1..];
    }
  }

  lemma {:induction false} AssignmentsRead(names: seq<string>, rest: string)
    requires AllNames(names)
    requires rest != "" && rest[0] != ',' && IsSeparator(rest[0])
    ensures ReadAssignments(Assignments(names) + rest) == (names, rest)
    decreases |names|
  {
    if names == [] {
      assert Assignments(names) + rest == rest;
    } else {
      AssignmentsFront(names);
      assert names == [names[0]] + names[1..];
      var list := Assignments(names[1..]) + rest;
      var more := if |names| == 1 then rest else "," + list;
      assert Assignments(names) + rest == names[0] + (" = ?" + more);
      AssignmentStep(names[0], more);
      if |names| > 1 {
        assert more[1..] == list;
        AssignmentsRead(names[1..], rest);
      } else {
        assert names == [names[0]];
      }
    }
  }

  /** A built update can be read back exactly when something is assigned, and then to its parts. */
  lemma UpdateRead(table: string, names: seq<string>, key: string)
    requires IsName(table) && AllNames(names) && IsName(key)
    ensures ReadUpdate(UpdateText(table, names, key)) == if names == [] then None else Some(Update(table, names, key))
  {
    var c := " where " + (key + " = ?");
    var b := Assignments(names) + c;
    var a := " set " + b;
    UpdateShape(table, names, key);
    WordRead("update ", table + a);
    NameRead(table, a);
    WordRead(" set ", b);
    AssignmentsRead(names, c);
    WordRead(" where ", key + " = ?");
    NameRead(key, " = ?");
  }

  lemma UpdateShape(table: string, names: seq<string>, key: string)
    ensures UpdateText(table, names, key)
            == "update " + (table + (" set " + (Assignments(names) + (" where " + (key + " = ?")))))
  {
  }

  lemma KeyedRead(prefix: string, table: string, key: string)
    requires IsName(table) && IsName(key)
    ensures ReadKeyed(prefix, prefix + table + " where " + key + " = ?") == Some(Keyed(table, key))
  {
    var d := key + " = ?";
    var c := " where " + d;
    assert prefix + table + " where " + key + " = ?" == prefix + (table + c);
    WordRead(prefix, table + c);
    NameRead(table, c);
    WordRead(" where ", d);
    NameRead(key, " = ?");
  }
}
