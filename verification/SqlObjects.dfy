/** The field table of Util/DBUtil.cpp: a std::map from field names to buffers. */
module SqlObjects {
  import opened Options
  import opened StatementHandle

  datatype Attr = Attr(buffer: Ptr, nbytes: nat, alterable: bool, ftype: FieldType)

  /** What operator[] inserts for a missing key. */
  const DEFAULT_ATTR := Attr(NULL, 0, false, TinyField)

  datatype Field = Field(name: string, attr: Attr)

  // ----- The order of keys -----

  /** The lexicographic order by which std::map iterates over its keys. */
  predicate Before(a: string, b: string) {
    b != "" && (a == "" || a[0] < b[0] || (a[0] == b[0] && Before(a[1..], b[1..])))
  }

  lemma {:induction false} BeforeIsTotal(a: string, b: string)
    ensures Before(a, b) || Before(b, a) || a == b
    ensures !(Before(a, b) && Before(b, a)) && !Before(a, a)
  {
    if a != "" && b != "" && a[0] == b[0] {
      BeforeIsTotal(a[1..], b[1..]);
      if a[1..] == b[1..] {
        assert a == [a[0]] + a[1..] == b;
      }
    }
    if a != "" {
      BeforeIrreflexive(a);
    }
  }

  lemma {:induction false} BeforeIrreflexive(a: string)
    ensures !Before(a, a)
  {
    if a != "" {
      BeforeIrreflexive(a[1..]);
    }
  }

  lemma {:induction false} BeforeIsTransitive(a: string, b: string, c: string)
    requires Before(a, b) && Before(b, c)
    ensures Before(a, c)
  {
    if a != "" && a[0] == b[0] == c[0] {
      BeforeIsTransitive(a[1..], b[1..], c[1..]);
    }
  }

  /** In the words of the standard library: at the first difference, or as a proper prefix. */
  lemma {:induction false} BeforeIff(a: string, b: string)
    ensures Before(a, b) <==> exists k: nat :: DiffersAt(a, b, k)
  {
    if b == "" {
      assert !exists k: nat :: DiffersAt(a, b, k);
    } else if a == "" || a[0] != b[0] {
      assert DiffersAt(a, b, 0) <==> Before(a, b);
      assert forall k: nat :: DiffersAt(a, b, k) ==> k == 0 || a[..k][0] == b[..k][0];
    } else {
      BeforeIff(a[1..], b[1..]);
      forall k: nat
        ensures DiffersAt(a[1..], b[1..], k) <==> DiffersAt(a, b, k + 1)
      {
        DiffersLater(a, b, k);
      }
      if k: nat :| DiffersAt(a, b, k) {
        assert k > 0;
        assert DiffersAt(a[1..], b[1..], k - 1);
      }
    }
  }

  /** The texts agree before index k, and there the first one ends or has the smaller character. */
  predicate DiffersAt(a: string, b: string, k: nat) {
    k <= |a| && k < |b| && a[..k] == b[..k] && (k == |a| || a[k] < b[k])
  }

  lemma DiffersLater(a: string, b: string, k: nat)
    requires a != "" && b != "" && a[0] == b[0]
    ensures DiffersAt(a[1..], b[1..], k) <==> DiffersAt(a, b, k + 1)
  {
    if k + 1 <= |a| && k + 1 <= |b| {
      assert a[..k + 1] == [a[0]] + a[1..][..k];
      assert b[..k + 1] == [b[0]] + b[1..][..k];
      assert a[1..][..k] == a[..k + 1][1..] && b[1..][..k] == b[..k + 1][1..];
    }
  }

  // ----- The table -----

  ghost predicate Sorted(fields: seq<Field>) {
    forall i, j :: 0 <= i < j < |fields| ==> Before(fields[i].name, fields[j].name)
  }

  /** The map that a sorted table stands for. */
  function AsMap(fields: seq<Field>): map<string, Attr> {
    if fields == [] then map[] else AsMap(fields[1..])[fields[0].name := fields[0].attr]
  }

  /** Assign an attribute to a key, inserting the key in order when it is new. */
  function Put(fields: seq<Field>, key: string, attr: Attr): seq<Field> {
    if fields == [] || Before(key, fields[0].name) then [Field(key, attr)] + fields
    else if fields[0].name == key then [Field(key, attr)] + fields[1..]
    else [fields[0]] + Put(fields[1..], key, attr)
  }

  /** What operator[] refers to. */
  function Lookup(fields: seq<Field>, key: string): Attr {
    if key in AsMap(fields) then AsMap(fields)[key] else DEFAULT_ATTR
  }

  /** What find yields: the attribute, or None for the end of the table. */
  function Find(fields: seq<Field>, key: string): Option<Attr> {
    if key in AsMap(fields) then Some(AsMap(fields)[key]) else None
  }

  /** The table after operator[] was applied to a key. */
  function Touch(fields: seq<Field>, key: string): seq<Field> {
    Put(fields, key, Lookup(fields, key))
  }

  lemma {:induction false} PutKeepsOrder(fields: seq<Field>, key: string, attr: Attr)
    requires Sorted(fields)
    ensures Sorted(Put(fields, key, attr))
    ensures forall f :: f in Put(fields, key, attr) ==> f.name == key || f in fields
  {
    if fields == [] {
    } else if Before(key, fields[0].name) {
      forall j | 0 <= j < |fields|
        ensures Before(key, fields[j].name)
      {
        if j > 0 {
          BeforeIsTransitive(key, fields[0].name, fields[j].name);
        }
      }
    } else if fields[0].name != key {
      BeforeIsTotal(key, fields[0].name);
      PutKeepsOrder(fields[1..], key, attr);
      assert forall f :: f in fields[1..] ==> Before(fields[0].name, f.name);
    }
  }

  lemma {:induction false} PutIsMapUpdate(fields: seq<Field>, key: string, attr: Attr)
    requires Sorted(fields)
    ensures AsMap(Put(fields, key, attr)) == AsMap(fields)[key := attr]
  {
    if fields == [] {
      assert [Field(key, attr)] + fields == [Field(key, attr)];
      assert [Field(key, attr)][1..] == [];
    } else if Before(key, fields[0].name) {
      assert ([Field(key, attr)] + fields)[1..] == fields;
    } else if fields[0].name == key {
      assert ([Field(key, attr)] + fields[1..])[1..] == fields[1..];
    } else {
      PutIsMapUpdate(fields[1..], key, attr);
      assert ([fields[0]] + Put(fields[1..], key, attr))[1..] == Put(fields[1..], key, attr);
    }
  }

  /** The entries of a sorted table are exactly those of its map. */
  lemma {:induction false} EntriesOfMap(fields: seq<Field>)
    requires Sorted(fields)
    ensures forall f :: f in fields ==> f.name in AsMap(fields) && AsMap(fields)[f.name] == f.attr
    ensures forall name :: name in AsMap(fields) ==> Field(name, AsMap(fields)[name]) in fields
  {
    if fields != [] {
      EntriesOfMap(fields[1..]);
      assert fields == [fields[0]] + fields[1..];
      forall f | f in fields[1..]
        ensures f.name != fields[0].name
      {
        BeforeIrreflexive(f.name);
      }
    }
  }

  // ----- Altered fields -----

  function Altered(fields: seq<Field>): seq<Field> {
    if fields == [] then []
    else if fields[0].attr.alterable then [fields[0]] + Altered(fields[1..])
    else Altered(fields[1..])
  }

  function Names(fields: seq<Field>): (names: seq<string>)
    ensures |names| == |fields|
  {
    seq(|fields|, i requires 0 <= i < |fields| => fields[i].name)
  }

  lemma {:induction false} AlteredAppend(a: seq<Field>, b: seq<Field>)
    ensures Altered(a + b) == Altered(a) + Altered(b)
  {
    if a == [] {
      assert a + b == b;
    } else {
      assert (a + b)[1..] == a[1..] + b;
      AlteredAppend(a[1..], b);
    }
  }

  /** The altered fields so far, one field later. */
  lemma AlteredSnoc(fields: seq<Field>, i: nat)
    requires i < |fields|
    ensures fields[i].attr.alterable ==>
              && Altered(fields[..i + 1]) == Altered(fields[..i]) + [fields[i]]
              && Names(Altered(fields[..i + 1])) == Names(Altered(fields[..i])) + [fields[i].name]
    ensures !fields[i].attr.alterable ==> Altered(fields[..i + 1]) == Altered(fields[..i])
  {
    assert fields[..i + 1] == fields[..i] + [fields[i]];
    AlteredAppend(fields[..i], [fields[i]]);
    assert [fields[i]][1..] == [];
  }

  lemma {:induction false} AlteredMembers(fields: seq<Field>)
    ensures forall f :: f in Altered(fields) <==> f in fields && f.attr.alterable
  {
    if fields != [] {
      AlteredMembers(fields[1..]);
      assert fields == [fields[0]] + fields[1..];
    }
  }

  // ----- Marking fields as altered -----

  /** The table after a field was marked as altered. */
  function Flag(fields: seq<Field>, key: string): seq<Field> {
    Put(fields, key, Lookup(fields, key).(alterable := true))
  }

  function AlteredKeys(m: map<string, Attr>): set<string> {
    set name | name in m && m[name].alterable
  }

  /** The map without its marks. */
  function Unmarked(m: map<string, Attr>): map<string, Attr> {
    map name | name in m :: m[name].(alterable := false)
  }

  function AlteredNames(fields: seq<Field>): set<string> {
    AlteredKeys(AsMap(fields))
  }

  /** What was registered, whatever is altered. */
  function Registrations(fields: seq<Field>): map<string, Attr> {
    Unmarked(AsMap(fields))
  }

  lemma FlagKeepsOrder(fields: seq<Field>, key: string)
    requires Sorted(fields)
    ensures Sorted(Flag(fields, key))
    ensures AsMap(Flag(fields, key)) == AsMap(fields)[key := Lookup(fields, key).(alterable := true)]
  {
    PutKeepsOrder(fields, key, Lookup(fields, key).(alterable := true));
    PutIsMapUpdate(fields, key, Lookup(fields, key).(alterable := true));
  }

  lemma MarkedMap(m: map<string, Attr>, key: string)
    requires key in m
    ensures AlteredKeys(m[key := m[key].(alterable := true)]) == AlteredKeys(m) + {key}
    ensures Unmarked(m[key := m[key].(alterable := true)]) == Unmarked(m)
  {
  }

  /** Marking a registered field adds its name to the altered ones and changes no registration. */
  lemma FlagAddsName(fields: seq<Field>, key: string)
    requires Sorted(fields) && key in AsMap(fields)
    ensures AlteredNames(Flag(fields, key)) == AlteredNames(fields) + {key}
    ensures Registrations(Flag(fields, key)) == Registrations(fields)
  {
    FlagKeepsOrder(fields, key);
    MarkedMap(AsMap(fields), key);
  }

  class SqlObject {
    const tableName: string
    var fields: seq<Field>

    ghost predicate Valid()
      reads this
    {
      Sorted(fields)
    }

    constructor (tableName: string)
      ensures Valid() && this.tableName == tableName && fields == []
    {
      this.tableName := tableName;
      this.fields := [];
    }

    /** Register a field, replacing any earlier registration. */
    method SetSQLFields(key: string, ftype: FieldType, buffer: Ptr, nbytes: nat)
      requires Valid()
      modifies this
      ensures Valid()
      ensures AsMap(fields) == AsMap(old(fields))[key := Attr(buffer, nbytes, false, ftype)]
    {
      PutKeepsOrder(fields, key, Attr(buffer, nbytes, false, ftype));
      PutIsMapUpdate(fields, key, Attr(buffer, nbytes, false, ftype));
      fields := Put(fields, key, Attr(buffer, nbytes, false, ftype));
    }

    /** Refer to the attribute of a key; a missing key is inserted with the default attribute. */
    method At(key: string) returns (attr: Attr)
      requires Valid()
      modifies this
      ensures Valid() && fields == Touch(old(fields), key) && attr == Lookup(old(fields), key)
      ensures attr == if key in AsMap(old(fields)) then AsMap(old(fields))[key] else Attr(NULL, 0, false, TinyField)
      ensures AsMap(fields) == AsMap(old(fields))[key := attr]
    {
      attr := Lookup(fields, key);
      PutKeepsOrder(fields, key, attr);
      PutIsMapUpdate(fields, key, attr);
      fields := Touch(fields, key);
    }

    /** Mark a field as altered. */
    method SetAlterFlag(key: string)
      requires Valid()
      modifies this
      ensures Valid() && fields == Flag(old(fields), key)
      ensures key in AsMap(fields) && AsMap(fields)[key].alterable
      ensures AsMap(fields) == AsMap(old(fields))[key := Lookup(old(fields), key).(alterable := true)]
    {
      FlagKeepsOrder(fields, key);
      fields := Flag(fields, key);
    }
  }
}
