/** Enum objects of the protocol: path resolution, name-to-number and number-to-name. */
module EnumLookup {
  import opened Prelude
  import opened Text

  /**
   * A JavaScript value under `SyncActionValue`. An object keeps its own keys in
   * `Object.keys` order; an enum object may hold reverse-mapping text entries
   * (`"0": "NAME"`) beside its numbers.
   */
  datatype JsValue =
    | Undefined
    | Number(n: int)
    | Text(s: string)
    | Object(entries: seq<(string, JsValue)>)

  /** Own keys are distinct. */
  predicate DistinctKeys(obj: JsValue) {
    obj.Object? ==> forall i, j | 0 <= i < j < |obj.entries| :: obj.entries[i].0 != obj.entries[j].0
  }

  /** `entries[key]`, the first entry with that key. */
  function Lookup(entries: seq<(string, JsValue)>, key: string): (v: JsValue) {
    if entries == [] then Undefined
    else if entries[0].0 == key then entries[0].1
    else Lookup(entries[1..], key)
  }

  lemma {:induction false} LookupAt(entries: seq<(string, JsValue)>, i: nat)
    requires i < |entries| && DistinctKeys(Object(entries))
    ensures Lookup(entries, entries[i].0) == entries[i].1
  {
    if i > 0 {
      assert entries[0].0 != entries[i].0;
      LookupAt(entries[1..], i - 1);
    }
  }

  lemma {:induction false} LookupFound(entries: seq<(string, JsValue)>, key: string) returns (i: nat)
    requires Lookup(entries, key) != Undefined
    ensures i < |entries| && entries[i] == (key, Lookup(entries, key))
  {
    if entries[0].0 == key {
      i := 0;
    } else {
      i := LookupFound(entries[1..], key);
      i := i + 1;
    }
  }

  // ------------------------------------------------------------------ paths

  /** Property access along `segments`; every value a property is read from must be an object. */
  function Descend(cursor: JsValue, segments: seq<string>): (r: JsValue)
    decreases |segments|
  {
    if segments == [] then cursor
    else if !cursor.Object? then Undefined
    else Descend(Lookup(cursor.entries, segments[0]), segments[1..])
  }

  method ResolveEnumObject(root: JsValue, protoEnumPath: string) returns (r: Option<JsValue>)
    ensures r == ResolvedObject(root, protoEnumPath)
  {
    var segments := Split(protoEnumPath, '.');
    var cursor := root;
    var i := 0;
    while i < |segments|
      invariant 0 <= i <= |segments|
      invariant Descend(root, segments) == Descend(cursor, segments[i..])
    {
      if !cursor.Object? {
        return None;
      }
      cursor := Lookup(cursor.entries, segments[i]);
      i := i + 1;
    }
    return if cursor.Object? then Some(cursor) else None;
  }

  function ResolvedObject(root: JsValue, protoEnumPath: string): (r: Option<JsValue>)
    ensures r.Some? ==> r.value.Object?
  {
    var v := Descend(root, Split(protoEnumPath, '.'));
    if v.Object? then Some(v) else None
  }

  lemma {:induction false} DescendAppend(cursor: JsValue, a: seq<string>, b: seq<string>)
    ensures Descend(cursor, a + b) == Descend(Descend(cursor, a), b)
    decreases |a|
  {
    if a == [] {
      assert a + b == b;
    } else {
      assert (a + b)[1..] == a[1..] + b;
      if cursor.Object? {
        DescendAppend(Lookup(cursor.entries, a[0]), a[1..], b);
      }
    }
  }

  /** A dotted path resolves in two stages: the object at its front, then the rest from there. */
  lemma ResolveNested(root: JsValue, front: string, back: string)
    requires '.' !in back
    ensures ResolvedObject(root, front + "." + back)
         == match ResolvedObject(root, front)
            case None => None
            case Some(outer) => ResolvedObject(outer, back)
  {
    var parts := Split(front, '.');
    JoinSplit(front, '.');
    JoinAppend(parts, back, '.');
    SplitJoin(parts + [back], '.');
    SplitOne(back, "", '.');
    assert back + "" == back;
    DescendAppend(root, parts, [back]);
  }

  lemma {:induction false} JoinAppend(parts: seq<string>, last: string, sep: char)
    requires parts != []
    ensures Join(parts + [last], sep) == Join(parts, sep) + [sep] + last
  {
    if |parts| == 1 {
      assert (parts + [last])[1..] == [last];
    } else {
      JoinAppend(parts[1..], last, sep);
      assert (parts + [last])[1..] == parts[1..] + [last];
    }
  }

  /** `obj` stands in `root` under `name`. */
  predicate Holds(root: JsValue, name: string, v: JsValue) {
    root.Object? && exists i :: 0 <= i < |root.entries| && root.entries[i] == (name, v)
  }

  lemma {:induction false} LookupHolds(entries: seq<(string, JsValue)>, key: string, v: JsValue)
    requires DistinctKeys(Object(entries)) && v != Undefined
    ensures Lookup(entries, key) == v <==> exists i :: 0 <= i < |entries| && entries[i] == (key, v)
  {
    if Lookup(entries, key) == v {
      var i := LookupFound(entries, key);
    }
    if i :| 0 <= i < |entries| && entries[i] == (key, v) {
      LookupAt(entries, i);
    }
  }

  /**
   * A single name resolves exactly to the object that stands under it in the
   * root; anything else that stands there, and nothing, resolves to nothing.
   */
  lemma ResolveOne(root: JsValue, name: string, obj: JsValue)
    requires '.' !in name && DistinctKeys(root)
    ensures ResolvedObject(root, name) == Some(obj) <==> obj.Object? && Holds(root, name, obj)
  {
    SplitOne(name, "", '.');
    assert name + "" == name;
    assert [name][1..] == [];
    if root.Object? {
      assert Descend(root, [name]) == Descend(Lookup(root.entries, name), []);
      if obj.Object? {
        LookupHolds(root.entries, name, obj);
      }
    }
  }

  /** The objects along a dotted path: each stands in the one before it under the next name. */
  predicate Along(root: JsValue, names: seq<string>, obj: JsValue)
    decreases |names|
  {
    if names == [] then obj == root
    else
      root.Object? && exists i ::
        0 <= i < |root.entries| && root.entries[i].0 == names[0] && Along(root.entries[i].1, names[1..], obj)
  }

  /** Own keys are distinct throughout the tree. */
  predicate DistinctTree(v: JsValue) {
    v.Object? ==> DistinctKeys(v) && forall i | 0 <= i < |v.entries| :: DistinctTree(v.entries[i].1)
  }

  lemma {:induction false} DescendAlong(root: JsValue, names: seq<string>, obj: JsValue)
    requires DistinctTree(root) && obj.Object?
    ensures Descend(root, names) == obj <==> Along(root, names, obj)
    decreases |names|
  {
    if names != [] && root.Object? {
      var next := Lookup(root.entries, names[0]);
      if next != Undefined {
        var i := LookupFound(root.entries, names[0]);
        assert DistinctTree(root.entries[i].1);
        DescendAlong(next, names[1..], obj);
      }
      if i :| 0 <= i < |root.entries| && root.entries[i].0 == names[0] && Along(root.entries[i].1, names[1..], obj) {
        LookupAt(root.entries, i);
      }
    }
  }

  /**
   * Every path: joined from names without a dot it resolves to an object if
   * and only if following the names from the root, one by one, arrives at it.
   */
  lemma ResolveExactly(root: JsValue, names: seq<string>, obj: JsValue)
    requires names != [] && Free(names, '.') && DistinctTree(root)
    ensures ResolvedObject(root, Join(names, '.')) == Some(obj) <==> obj.Object? && Along(root, names, obj)
  {
    SplitJoin(names, '.');
    if obj.Object? {
      DescendAlong(root, names, obj);
    }
  }

  // ------------------------------------------------------- names and numbers

  function EncodeName(obj: JsValue, name: string): (r: Option<int>)
    requires obj.Object?
  {
    var v := Lookup(obj.entries, name);
    if v.Number? then Some(v.n) else None
  }

  function EncodeEnumValue(root: JsValue, protoEnumPath: string, name: string): (r: Option<int>) {
    match ResolvedObject(root, protoEnumPath)
    case None => None
    case Some(obj) => EncodeName(obj, name)
  }

  /** Position of the first own key holding the number `value`; the length if there is none. */
  function FirstHolding(entries: seq<(string, JsValue)>, value: int): (i: nat)
    ensures i <= |entries|
    ensures i < |entries| ==> entries[i].1 == Number(value)
    ensures forall j | 0 <= j < i :: entries[j].1 != Number(value)
  {
    if entries == [] || entries[0].1 == Number(value) then 0 else 1 + FirstHolding(entries[1..], value)
  }

  function DecodeNumber(obj: JsValue, value: int): (r: Option<string>)
    requires obj.Object?
  {
    var i := FirstHolding(obj.entries, value);
    if i < |obj.entries| then Some(obj.entries[i].0) else None
  }

  function DecodedEnumValue(root: JsValue, protoEnumPath: string, value: int): (r: Option<string>) {
    match ResolvedObject(root, protoEnumPath)
    case None => None
    case Some(obj) => DecodeNumber(obj, value)
  }

  method DecodeEnumValue(root: JsValue, protoEnumPath: string, value: int) returns (r: Option<string>)
    requires ResolvedObject(root, protoEnumPath).Some? ==> DistinctKeys(ResolvedObject(root, protoEnumPath).value)
    ensures r == DecodedEnumValue(root, protoEnumPath, value)
  {
    var enumObj := ResolveEnumObject(root, protoEnumPath);
    if enumObj.None? {
      return None;
    }
    var entries := enumObj.value.entries;
    var i := 0;
    while i < |entries|
      invariant 0 <= i <= |entries|
      invariant forall j | 0 <= j < i :: entries[j].1 != Number(value)
    {
      LookupAt(entries, i);
      if Lookup(entries, entries[i].0) == Number(value) {
        assert FirstHolding(entries, value) == i;
        return Some(entries[i].0);
      }
      i := i + 1;
    }
    return None;
  }

  /** Decoding a number and encoding the name found gives the number back. */
  lemma EncodeDecode(obj: JsValue, value: int)
    requires obj.Object? && DistinctKeys(obj)
    ensures DecodeNumber(obj, value).Some? ==> EncodeName(obj, DecodeNumber(obj, value).value) == Some(value)
    ensures DecodeNumber(obj, value).None? <==> forall i | 0 <= i < |obj.entries| :: obj.entries[i].1 != Number(value)
  {
    var i := FirstHolding(obj.entries, value);
    if i < |obj.entries| {
      LookupAt(obj.entries, i);
    }
  }

  /** `name` is an enum name none of whose aliases comes before it. */
  predicate IsCanonicalName(obj: JsValue, name: string)
    requires obj.Object?
  {
    exists i :: 0 <= i < |obj.entries| && obj.entries[i].0 == name && obj.entries[i].1.Number?
      && forall j | 0 <= j < i :: obj.entries[j].1 != obj.entries[i].1
  }

  /**
   * Encoding a name and decoding the number gives the name back exactly when
   * the name is the first key of its number; reverse-mapping entries play no
   * part, because only numbers are compared.
   */
  lemma DecodeEncode(obj: JsValue, name: string)
    requires obj.Object? && DistinctKeys(obj)
    ensures EncodeName(obj, name).Some? && DecodeNumber(obj, EncodeName(obj, name).value) == Some(name)
       <==> IsCanonicalName(obj, name)
    ensures EncodeName(obj, name).Some? ==> DecodeNumber(obj, EncodeName(obj, name).value).Some?
  {
    var entries := obj.entries;
    if EncodeName(obj, name).Some? {
      var value := EncodeName(obj, name).value;
      var i := LookupFound(entries, name);
      var k := FirstHolding(entries, value);
      assert k <= i;
      if entries[k].0 == name {
        assert k == i;
      }
    }
    if IsCanonicalName(obj, name) {
      var i :| 0 <= i < |entries| && entries[i].0 == name && entries[i].1.Number?
        && forall j | 0 <= j < i :: entries[j].1 != entries[i].1;
      LookupAt(entries, i);
    }
  }

  /** The key at `i` holds the number `value`, and no key before it does. */
  predicate IsFirstWith(obj: JsValue, i: nat, value: int) {
    && obj.Object? && i < |obj.entries| && obj.entries[i].1 == Number(value)
    && forall j | 0 <= j < i :: obj.entries[j].1 != Number(value)
  }

  /**
   * Both maps along a whole path, in terms of the object that stands at its
   * end: a number gives the first key that holds it, and nothing when none
   * does; a key gives the number it holds, and nothing when it holds none.
   */
  lemma EnumsAtPath(root: JsValue, names: seq<string>, obj: JsValue, value: int, i: nat)
    requires names != [] && Free(names, '.') && DistinctTree(root) && obj.Object? && DistinctKeys(obj)
    requires Along(root, names, obj)
    ensures var path := Join(names, '.');
      && (IsFirstWith(obj, i, value) ==> DecodedEnumValue(root, path, value) == Some(obj.entries[i].0))
      && ((forall j | 0 <= j < |obj.entries| :: obj.entries[j].1 != Number(value)) ==>
            DecodedEnumValue(root, path, value) == None)
      && (i < |obj.entries| ==>
            EncodeEnumValue(root, path, obj.entries[i].0)
            == if obj.entries[i].1.Number? then Some(obj.entries[i].1.n) else None)
  {
    ResolveExactly(root, names, obj);
    if i < |obj.entries| {
      LookupAt(obj.entries, i);
    }
    if IsFirstWith(obj, i, value) {
      var k := FirstHolding(obj.entries, value);
      assert k == i;
    }
  }

  predicate NoKey(obj: JsValue, name: string)
    requires obj.Object?
  {
    forall i | 0 <= i < |obj.entries| :: obj.entries[i].0 != name
  }

  /** A key the object does not have encodes to nothing, and so does any key at a path that leads to no object. */
  lemma UnknownNames(root: JsValue, names: seq<string>, name: string)
    requires names != [] && Free(names, '.') && DistinctTree(root)
    ensures (forall obj | Along(root, names, obj) && obj.Object? :: NoKey(obj, name))
        ==> EncodeEnumValue(root, Join(names, '.'), name) == None
  {
    var path := Join(names, '.');
    match ResolvedObject(root, path)
    case None =>
    case Some(obj) =>
      ResolveExactly(root, names, obj);
      if Lookup(obj.entries, name) != Undefined {
        var i := LookupFound(obj.entries, name);
      }
  }

  // ------------------------------------------------------ action-name index

  /** A row of the schema table, reduced to its key and its action name. */
  datatype SchemaRow = SchemaRow(key: string, name: string)

  method BuildActionNameIndex(rows: seq<SchemaRow>) returns (index: map<string, string>)
    ensures forall name :: (if name in index then Some(index[name]) else None) == LastMatch(rows, name)
  {
    index := map[];
    var i := 0;
    while i < |rows|
      invariant 0 <= i <= |rows|
      invariant forall name :: (if name in index then Some(index[name]) else None) == LastMatch(rows[..i], name)
    {
      assert rows[..i + 1][..i] == rows[..i];
      index := index[rows[i].name := rows[i].key];
      i := i + 1;
    }
    assert rows[..i] == rows;
  }

  /** A linear scan from the end of the table. */
  function LastMatch(rows: seq<SchemaRow>, name: string): (key: Option<string>) {
    if rows == [] then None
    else if rows[|rows| - 1].name == name then Some(rows[|rows| - 1].key)
    else LastMatch(rows[..|rows| - 1], name)
  }

  /** What the scan returns: the key of the row with that name that no later row overrides. */
  lemma {:induction false} LastMatchIs(rows: seq<SchemaRow>, name: string, key: string)
    ensures LastMatch(rows, name) == Some(key)
       <==> exists i :: 0 <= i < |rows| && rows[i] == SchemaRow(key, name) && forall j | i < j < |rows| ::
         rows[j].name != name
  {
    if rows != [] {
      var n := |rows| - 1;
      LastMatchIs(rows[..n], name, key);
      if rows[n].name == name {
        assert rows[n] == SchemaRow(rows[n].key, name);
      } else {
        forall i | 0 <= i < n && rows[..n][i] == SchemaRow(key, name) && forall j | i < j < n ::
          rows[..n][j].name != name
          ensures rows[i] == SchemaRow(key, name) && forall j | i < j < |rows| :: rows[j].name != name
        {
          forall j | i < j < |rows| ensures rows[j].name != name {
            if j < n { assert rows[..n][j].name != name; }
          }
        }
        forall i | 0 <= i < |rows| && rows[i] == SchemaRow(key, name) && forall j | i < j < |rows| ::
          rows[j].name != name
          ensures i < n && rows[..n][i] == SchemaRow(key, name) && forall j | i < j < n :: rows[..n][j].name != name
        {
          forall j | i < j < n ensures rows[..n][j].name != name {
            assert rows[j].name != name;
          }
        }
      }
    }
  }

  /** With distinct action names the index inverts the table row by row. */
  lemma UniqueNamesInvert(rows: seq<SchemaRow>, i: nat)
    requires i < |rows| && forall a, b | 0 <= a < b < |rows| :: rows[a].name != rows[b].name
    ensures LastMatch(rows, rows[i].name) == Some(rows[i].key)
  {
    LastMatchIs(rows, rows[i].name, rows[i].key);
    assert rows[i] == SchemaRow(rows[i].key, rows[i].name);
    forall j | i < j < |rows| ensures rows[j].name != rows[i].name {
    }
  }
}
