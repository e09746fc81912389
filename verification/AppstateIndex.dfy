/**
 * The app-state mutation index: a tuple of strings described slot by slot by a
 * schema. The builder turns keyword arguments into the tuple, the decoder turns
 * a tuple back into keyword arguments.
 */
module AppstateIndex {
  import opened Prelude
  import opened Text
  import opened EnumLookup
  import opened IndexText

  datatype IndexPart =
    | Literal(value: string)
    | Jid(name: string)
    | BoolString(name: string)
    | JidOrZero(name: string)
    | EnumSlot(name: string, protoEnum: string)
    | StringSlot(name: string)
    | UnknownSlot(name: string)

  /** An argument value; an argument that is `undefined` is absent from the map. */
  datatype Arg = Str(s: string) | Bool(b: bool) | Num(i: int) | Null

  type Args = map<string, Arg>

  /**
   * What the codec reads from its surroundings: the enum tree, and the value
   * `Number` gives to text that is not a plain decimal integer (no value when
   * that is not an integer).
   */
  datatype Env = Env(root: JsValue, otherNumber: string -> Option<int>)

  function NumberOf(env: Env, raw: string): (n: Option<int>) {
    if IntegerLiteral(raw).Some? then IntegerLiteral(raw) else env.otherNumber(raw)
  }

  predicate ProperEnum(env: Env, protoEnum: string) {
    var obj := ResolvedObject(env.root, protoEnum);
    obj.Some? ==> DistinctKeys(obj.value)
  }

  /** Enum objects reached by the schema have distinct keys, as objects do. */
  predicate ProperEnums(env: Env, schema: seq<IndexPart>) {
    forall i | 0 <= i < |schema| && schema[i].EnumSlot? :: ProperEnum(env, schema[i].protoEnum)
  }

  // ---------------------------------------------------------------- decoding

  /** The argument a slot's text stands for, or nothing when the text is not allowed there. */
  function DecodeSlot(env: Env, part: IndexPart, raw: string): (arg: Option<Arg>)
    requires !part.Literal?
  {
    match part
    case BoolString(_) => if raw == "0" || raw == "1" then Some(Bool(raw == "1")) else None
    case JidOrZero(_) => Some(if raw == "0" then Null else Str(raw))
    case EnumSlot(_, path) =>
      var numeric := NumberOf(env, raw);
      var name := if numeric.Some? then DecodedEnumValue(env.root, path, numeric.value) else None;
      Some(Str(if name.Some? then name.value else raw))
    case _ => Some(Str(raw))
  }

  /** Slots decoded from the left, each later slot overriding an earlier one of the same name. */
  function DecodeFrom(env: Env, schema: seq<IndexPart>, parts: seq<string>, args: Args): (r: Option<Args>)
    requires |schema| == |parts|
    decreases |schema|
  {
    if schema == [] then Some(args)
    else if schema[0].Literal? then DecodeFrom(env, schema[1..], parts[1..], args)
    else
      var arg := DecodeSlot(env, schema[0], parts[0]);
      if arg.None? then None
      else DecodeFrom(env, schema[1..], parts[1..], args[schema[0].name := arg.value])
  }

  function DecodedIndexArgs(env: Env, schema: seq<IndexPart>, parts: seq<string>): (r: Option<Args>) {
    if |parts| != |schema| then None else DecodeFrom(env, schema, parts, map[])
  }

  method DecodeIndexArgsFromSchema(env: Env, schema: seq<IndexPart>, parts: seq<string>) returns (r: Option<Args>)
    requires ProperEnums(env, schema)
    ensures r == DecodedIndexArgs(env, schema, parts)
  {
    if |parts| != |schema| {
      return None;
    }
    var args: Args := map[];
    var i := 0;
    while i < |schema|
      invariant 0 <= i <= |schema|
      invariant DecodedIndexArgs(env, schema, parts) == DecodeFrom(env, schema[i..], parts[i..], args)
    {
      var part, raw := schema[i], parts[i];
      assert schema[i..][1..] == schema[i + 1..] && parts[i..][1..] == parts[i + 1..];
      match part {
        case Literal(_) =>
        case BoolString(name) =>
          if raw != "0" && raw != "1" {
            return None;
          }
          args := args[name := Bool(raw == "1")];
        case JidOrZero(name) =>
          args := args[name := if raw == "0" then Null else Str(raw)];
        case EnumSlot(name, protoEnum) =>
          var numeric := NumberOf(env, raw);
          var found := None;
          if numeric.Some? {
            found := DecodeEnumValue(env.root, protoEnum, numeric.value);
          }
          args := args[name := Str(if found.Some? then found.value else raw)];
        case Jid(name) => args := args[name := Str(raw)];
        case StringSlot(name) => args := args[name := Str(raw)];
        case UnknownSlot(name) => args := args[name := Str(raw)];
      }
      i := i + 1;
    }
    return Some(args);
  }

  predicate BadBool(part: IndexPart, raw: string) {
    part.BoolString? && raw != "0" && raw != "1"
  }

  lemma {:induction false} DecodeFromFails(env: Env, schema: seq<IndexPart>, parts: seq<string>, args: Args)
    requires |schema| == |parts|
    ensures DecodeFrom(env, schema, parts, args) == None
       <==> exists i :: 0 <= i < |schema| && BadBool(schema[i], parts[i])
    decreases |schema|
  {
    if schema != [] {
      if !BadBool(schema[0], parts[0]) {
        var next := if schema[0].Literal? then args
          else args[schema[0].name := DecodeSlot(env, schema[0], parts[0]).value];
        DecodeFromFails(env, schema[1..], parts[1..], next);
        if i :| 0 <= i < |schema| && BadBool(schema[i], parts[i]) {
          assert i > 0 && BadBool(schema[1..][i - 1], parts[1..][i - 1]);
        }
        if i :| 0 <= i < |schema[1..]| && BadBool(schema[1..][i], parts[1..][i]) {
          assert BadBool(schema[i + 1], parts[i + 1]);
        }
      }
    }
  }

  /** Decoding fails exactly on a length mismatch or a bad boolean slot; nothing else is rejected. */
  lemma DecodeFailsExactly(env: Env, schema: seq<IndexPart>, parts: seq<string>)
    ensures DecodedIndexArgs(env, schema, parts) == None
       <==> |parts| != |schema| || exists i :: 0 <= i < |schema| && BadBool(schema[i], parts[i])
  {
    if |parts| == |schema| {
      DecodeFromFails(env, schema, parts, map[]);
    }
  }

  /** The text in literal slots, the action name included, never changes the result. */
  lemma {:induction false} LiteralsIgnored(env: Env, schema: seq<IndexPart>, parts: seq<string>, others: seq<string>,
      args: Args)
    requires |schema| == |parts| == |others|
    requires forall i | 0 <= i < |schema| :: schema[i].Literal? || parts[i] == others[i]
    ensures DecodeFrom(env, schema, parts, args) == DecodeFrom(env, schema, others, args)
    decreases |schema|
  {
    if schema != [] {
      if schema[0].Literal? {
        LiteralsIgnored(env, schema[1..], parts[1..], others[1..], args);
      } else if DecodeSlot(env, schema[0], parts[0]).Some? {
        LiteralsIgnored(env, schema[1..], parts[1..], others[1..],
          args[schema[0].name := DecodeSlot(env, schema[0], parts[0]).value]);
      }
    }
  }

  // ---------------------------------------------------------------- building

  predicate Truthy(args: Args, name: string) {
    name in args && match args[name]
      case Str(s) => s != ""
      case Bool(b) => b
      case Num(n) => n != 0
      case Null => false
  }

  predicate Nullish(args: Args, name: string) {
    name !in args || args[name].Null?
  }

  predicate HasFromMe(schema: seq<IndexPart>) {
    exists i :: 0 <= i < |schema| && schema[i] == BoolString("fromMe")
  }

  predicate FromMe(args: Args) {
    "fromMe" in args && args["fromMe"] == Bool(true)
  }

  /** The declared types of the arguments, as far as the builder relies on them. */
  predicate JidsAreText(schema: seq<IndexPart>, args: Args) {
    forall i | 0 <= i < |schema| && schema[i].JidOrZero? ::
      Nullish(args, schema[i].name) || args[schema[i].name].Str?
  }

  /** The text the builder writes for one slot; `Thrown` when it refuses the arguments. */
  function BuildSlot(env: Env, whole: seq<IndexPart>, part: IndexPart, args: Args): (r: Outcome<string>)
    requires part.JidOrZero? ==> Nullish(args, part.name) || args[part.name].Str?
  {
    match part
    case Literal(value) => Returned(value)
    case BoolString(name) => Returned(if Truthy(args, name) then "1" else "0")
    case JidOrZero(name) =>
      if !Nullish(args, name) then Returned(args[name].s)
      else if HasFromMe(whole) && !FromMe(args) then Thrown
      else Returned("0")
    case EnumSlot(name, path) =>
      if name !in args then Thrown
      else (match args[name]
            case Num(n) => Returned(Show(n))
            case Str(s) =>
              var numeric := EncodeEnumValue(env.root, path, s);
              if numeric.Some? then Returned(Show(numeric.value)) else Thrown
            case _ => Thrown)
    case _ => if part.name in args && args[part.name].Str? then Returned(args[part.name].s) else Thrown
  }

  function BuiltIndex(env: Env, whole: seq<IndexPart>, schema: seq<IndexPart>, args: Args): (r: Outcome<seq<string>>)
    requires JidsAreText(schema, args)
    decreases |schema|
  {
    if schema == [] then Returned([])
    else
      match BuildSlot(env, whole, schema[0], args)
      case Thrown => Thrown
      case Returned(raw) =>
        match BuiltIndex(env, whole, schema[1..], args)
        case Thrown => Thrown
        case Returned(later) => Returned([raw] + later)
  }

  lemma {:induction false} BuiltIndexSlots(env: Env, whole: seq<IndexPart>, schema: seq<IndexPart>, args: Args)
    requires JidsAreText(schema, args)
    ensures BuiltIndex(env, whole, schema, args).Returned?
       <==> forall i | 0 <= i < |schema| :: BuildSlot(env, whole, schema[i], args).Returned?
    ensures BuiltIndex(env, whole, schema, args).Returned? ==>
      var parts := BuiltIndex(env, whole, schema, args).value;
      |parts| == |schema| && forall i | 0 <= i < |schema| ::
        BuildSlot(env, whole, schema[i], args) == Returned(parts[i])
    decreases |schema|
  {
    if schema != [] {
      BuiltIndexSlots(env, whole, schema[1..], args);
      if BuiltIndex(env, whole, schema[1..], args).Thrown? {
        var i :| 0 <= i < |schema[1..]| && !BuildSlot(env, whole, schema[1..][i], args).Returned?;
        assert !BuildSlot(env, whole, schema[i + 1], args).Returned?;
      }
    }
  }

  /** The text of the tuple of slot texts. */
  function BuiltText(env: Env, schema: seq<IndexPart>, args: Args): (r: Outcome<string>)
    requires JidsAreText(schema, args)
  {
    match BuiltIndex(env, schema, schema, args)
    case Thrown => Thrown
    case Returned(parts) => Returned(Stringified(parts))
  }

  method BuildMutationIndexFromSchema(env: Env, schema: seq<IndexPart>, args: Args) returns (r: Outcome<string>)
    requires JidsAreText(schema, args)
    ensures r == BuiltText(env, schema, args)
  {
    BuiltIndexSlots(env, schema, schema, args);
    var parts: seq<string> := [];
    var i := 0;
    while i < |schema|
      invariant 0 <= i <= |schema| && |parts| == i
      invariant forall j | 0 <= j < i :: BuildSlot(env, schema, schema[j], args) == Returned(parts[j])
    {
      var part := schema[i];
      match part {
        case Literal(value) =>
          parts := parts + [value];
        case BoolString(name) =>
          parts := parts + [if Truthy(args, name) then "1" else "0"];
        case JidOrZero(name) =>
          if Nullish(args, name) {
            if HasFromMe(schema) && !FromMe(args) {
              return Thrown;
            }
            parts := parts + ["0"];
          } else {
            parts := parts + [args[name].s];
          }
        case EnumSlot(name, protoEnum) =>
          if name in args && args[name].Num? {
            parts := parts + [Show(args[name].i)];
          } else {
            if !(name in args && args[name].Str?) {
              return Thrown;
            }
            var numeric := EncodeEnumValue(env.root, protoEnum, args[name].s);
            if numeric.None? {
              return Thrown;
            }
            parts := parts + [Show(numeric.value)];
          }
        case _ =>
          if !(part.name in args && args[part.name].Str?) {
            return Thrown;
          }
          parts := parts + [args[part.name].s];
      }
      i := i + 1;
    }
    assert parts == BuiltIndex(env, schema, schema, args).value;
    return Returned(Stringified(parts));
  }

  // ------------------------------------------------------------- round trips

  /** No two slots that carry an argument share a name. */
  predicate DistinctNames(schema: seq<IndexPart>) {
    forall i, j | 0 <= i < j < |schema| && !schema[i].Literal? && !schema[j].Literal? ::
      schema[i].name != schema[j].name
  }

  function SlotNames(schema: seq<IndexPart>): (names: set<string>) {
    set i | 0 <= i < |schema| && !schema[i].Literal? :: schema[i].name
  }

  function Restrict(args: Args, names: set<string>): (r: Args) {
    map name | name in args && name in names :: args[name]
  }

  /** With distinct names every slot's argument survives to the end of the decoding. */
  lemma {:induction false} DecodePointwise(env: Env, schema: seq<IndexPart>, parts: seq<string>, args: Args)
    requires |schema| == |parts| && DistinctNames(schema)
    requires forall i | 0 <= i < |schema| :: !BadBool(schema[i], parts[i])
    ensures var r := DecodeFrom(env, schema, parts, args);
      && r.Some? && r.value.Keys == args.Keys + SlotNames(schema)
      && (forall i | 0 <= i < |schema| && !schema[i].Literal? ::
            Some(r.value[schema[i].name]) == DecodeSlot(env, schema[i], parts[i]))
      && (forall name | name in args && name !in SlotNames(schema) :: r.value[name] == args[name])
    decreases |schema|
  {
    if schema != [] {
      assert !BadBool(schema[0], parts[0]);
      var later, raws := schema[1..], parts[1..];
      assert DistinctNames(later);
      forall i | 0 <= i < |later| ensures !BadBool(later[i], raws[i]) {
        assert !BadBool(schema[i + 1], parts[i + 1]);
      }
      assert forall i | 0 <= i < |later| :: later[i] == schema[i + 1] && raws[i] == parts[i + 1];
      if schema[0].Literal? {
        assert SlotNames(schema) == SlotNames(later);
        DecodePointwise(env, later, raws, args);
      } else {
        var name := schema[0].name;
        assert SlotNames(schema) == SlotNames(later) + {name} by {
          assert name in SlotNames(schema);
          forall n | n in SlotNames(later) ensures n in SlotNames(schema) {
            var i :| 0 <= i < |later| && !later[i].Literal? && later[i].name == n;
            assert schema[i + 1].name == n;
          }
        }
        assert name !in SlotNames(later);
        DecodePointwise(env, later, raws, args[name := DecodeSlot(env, schema[0], parts[0]).value]);
      }
    }
  }

  /** The decoded arguments slot by slot: booleans from '0' and '1', a participant '0' as null, others as they are. */
  lemma DecodedArgsExactly(env: Env, schema: seq<IndexPart>, parts: seq<string>)
    requires |schema| == |parts| && DistinctNames(schema)
    requires forall i | 0 <= i < |schema| && schema[i].BoolString? :: parts[i] == "0" || parts[i] == "1"
    ensures var r := DecodedIndexArgs(env, schema, parts);
      && r.Some? && r.value.Keys == SlotNames(schema)
      && (forall i | 0 <= i < |schema| && !schema[i].Literal? && !schema[i].EnumSlot? ::
            r.value[schema[i].name]
            == if schema[i].BoolString? then Bool(parts[i] == "1")
               else if schema[i].JidOrZero? && parts[i] == "0" then Null else Str(parts[i]))
      && (forall i | 0 <= i < |schema| && schema[i].EnumSlot? ::
            Some(r.value[schema[i].name]) == DecodeSlot(env, schema[i], parts[i]))
  {
    DecodePointwise(env, schema, parts, map[]);
    var r := DecodedIndexArgs(env, schema, parts).value;
    hide DecodedIndexArgs, DecodeFrom, DistinctNames, NumberOf;
    forall i | 0 <= i < |schema| && !schema[i].Literal?
      ensures schema[i].name in r && Some(r[schema[i].name]) == DecodeSlot(env, schema[i], parts[i])
    {
      assert schema[i].name in SlotNames(schema);
    }
  }

  /**
   * An enum slot, along a whole path: a decimal text gives the first key of
   * the object there that holds the number; a number no key holds, and a text
   * that is no number, give the text itself.
   */
  lemma EnumSlotExactly(env: Env, name: string, names: seq<string>, obj: JsValue, value: int, i: nat)
    requires names != [] && Free(names, '.') && DistinctTree(env.root) && obj.Object? && DistinctKeys(obj)
    requires Along(env.root, names, obj)
    ensures var part := EnumSlot(name, Join(names, '.'));
      && (IsFirstWith(obj, i, value) ==> DecodeSlot(env, part, Show(value)) == Some(Str(obj.entries[i].0)))
      && ((forall j | 0 <= j < |obj.entries| :: obj.entries[j].1 != Number(value)) ==>
            DecodeSlot(env, part, Show(value)) == Some(Str(Show(value))))
      && (forall raw | IntegerLiteral(raw) == None && env.otherNumber(raw) == None ::
            DecodeSlot(env, part, raw) == Some(Str(raw)))
  {
    EnumsAtPath(env.root, names, obj, value, i);
    IntegerLiteralShow(value);
    hide DecodedEnumValue, Show, IntegerLiteral, Along, DistinctTree;
  }

  /** The builder accepts the argument: what the declared types allow, and a little more. */
  predicate Acceptable(env: Env, schema: seq<IndexPart>, part: IndexPart, args: Args) {
    match part
    case Literal(_) => true
    case BoolString(_) => true
    case JidOrZero(name) =>
      || (name in args && args[name].Str?)
      || BoolString("fromMe") !in schema
      || ("fromMe" in args && args["fromMe"] == Bool(true))
    case EnumSlot(name, path) =>
      && name in args && (args[name].Num? || args[name].Str?)
      && (args[name].Str? ==> EncodeEnumValue(env.root, path, args[name].s).Some?)
    case _ => part.name in args && args[part.name].Str?
  }

  /** The text of the slot for an argument of the slot's declared type. */
  predicate HasText(env: Env, part: IndexPart, args: Args, text: string) {
    match part
    case Literal(value) => text == value
    case BoolString(name) =>
      && (name in args && args[name] == Bool(true) ==> text == "1")
      && (name !in args || args[name] == Bool(false) ==> text == "0")
    case JidOrZero(name) =>
      && (name in args && args[name].Str? ==> text == args[name].s)
      && (name !in args || args[name] == Null ==> text == "0")
    case EnumSlot(name, path) =>
      && (name in args && args[name].Num? ==> text == Show(args[name].i))
      && (name in args && args[name].Str? ==>
            && EncodeEnumValue(env.root, path, args[name].s).Some?
            && text == Show(EncodeEnumValue(env.root, path, args[name].s).value))
    case _ => part.name in args && args[part.name] == Str(text)
  }

  /** The builder returns if and only if every argument is acceptable, and then writes each slot's text in its place. */
  lemma BuildsExactly(env: Env, schema: seq<IndexPart>, args: Args)
    requires JidsAreText(schema, args)
    ensures BuiltIndex(env, schema, schema, args).Returned?
       <==> forall i | 0 <= i < |schema| :: Acceptable(env, schema, schema[i], args)
    ensures BuiltIndex(env, schema, schema, args).Returned? ==>
      var parts := BuiltIndex(env, schema, schema, args).value;
      |parts| == |schema| && forall i | 0 <= i < |schema| :: HasText(env, schema[i], args, parts[i])
  {
    BuiltIndexSlots(env, schema, schema, args);
    assert HasFromMe(schema) <==> BoolString("fromMe") in schema;
    hide BuiltIndex, EncodeEnumValue, Show;
    forall i | 0 <= i < |schema|
      ensures BuildSlot(env, schema, schema[i], args).Returned? <==> Acceptable(env, schema, schema[i], args)
      ensures BuildSlot(env, schema, schema[i], args).Returned? ==>
        HasText(env, schema[i], args, BuildSlot(env, schema, schema[i], args).value)
    {
    }
  }

  /** The slot's argument is one that building and decoding can reproduce. */
  predicate Reproducible(env: Env, part: IndexPart, args: Args)
    requires !part.Literal?
  {
    part.name in args && match part
      case BoolString(name) => args[name].Bool?
      case JidOrZero(name) => args[name] != Str("0")
      case EnumSlot(name, path) =>
        args[name].Str? && ResolvedObject(env.root, path).Some?
        && IsCanonicalName(ResolvedObject(env.root, path).value, args[name].s)
      case _ => args[part.name].Str?
  }

  /** One slot built and decoded: the text is accepted, and the argument comes back exactly when it is reproducible. */
  lemma SlotRoundTrip(env: Env, whole: seq<IndexPart>, part: IndexPart, args: Args)
    requires !part.Literal?
    requires part.JidOrZero? ==> Nullish(args, part.name) || args[part.name].Str?
    requires part.EnumSlot? ==> ProperEnum(env, part.protoEnum)
    requires BuildSlot(env, whole, part, args).Returned?
    ensures var raw := BuildSlot(env, whole, part, args).value;
      && !BadBool(part, raw)
      && DecodeSlot(env, part, raw).Some?
      && (part.name in args && DecodeSlot(env, part, raw) == Some(args[part.name]) <==> Reproducible(env, part, args))
  {
    if part.EnumSlot? {
      var arg := args[part.name];
      if arg.Num? {
        IntegerLiteralShow(arg.i);
      } else {
        var obj := ResolvedObject(env.root, part.protoEnum).value;
        IntegerLiteralShow(EncodeName(obj, arg.s).value);
        DecodeEncode(obj, arg.s);
      }
    }
  }

  /**
   * Round trip through the builder. For every schema with distinct names and
   * all arguments the builder accepts, decoding succeeds and yields one
   * argument per slot; it yields the arguments that were given if and only if
   * each of them is reproducible.
   */
  lemma BuildThenDecode(env: Env, schema: seq<IndexPart>, args: Args)
    requires DistinctNames(schema) && JidsAreText(schema, args) && ProperEnums(env, schema)
    requires BuiltIndex(env, schema, schema, args).Returned?
    ensures var r := DecodedIndexArgs(env, schema, BuiltIndex(env, schema, schema, args).value);
      && r.Some? && r.value.Keys == SlotNames(schema)
      && (r.value == Restrict(args, SlotNames(schema))
          <==> forall i | 0 <= i < |schema| && !schema[i].Literal? :: Reproducible(env, schema[i], args))
  {
    BuiltIndexSlots(env, schema, schema, args);
    var parts := BuiltIndex(env, schema, schema, args).value;
    forall i | 0 <= i < |schema|
      ensures !BadBool(schema[i], parts[i])
      ensures !schema[i].Literal? ==>
        (Reproducible(env, schema[i], args)
         <==> schema[i].name in args && DecodeSlot(env, schema[i], parts[i]) == Some(args[schema[i].name]))
    {
      assert BuildSlot(env, schema, schema[i], args) == Returned(parts[i]);
      if !schema[i].Literal? {
        SlotRoundTrip(env, schema, schema[i], args);
      }
    }
    DecodePointwise(env, schema, parts, map[]);
    SameArgs(env, schema, parts, args, DecodedIndexArgs(env, schema, parts).value);
  }

  /** What decoding the text of an index gives. */
  function DecodedText(env: Env, schema: seq<IndexPart>, index: string): (r: Option<Args>) {
    match ReadArray(index)
    case None => None
    case Some(parts) => DecodedIndexArgs(env, schema, parts)
  }

  /** The same round trip through the text that travels. */
  lemma BuildThenDecodeText(env: Env, schema: seq<IndexPart>, args: Args)
    requires DistinctNames(schema) && JidsAreText(schema, args) && ProperEnums(env, schema)
    ensures BuiltText(env, schema, args).Returned? ==>
      var r := DecodedText(env, schema, BuiltText(env, schema, args).value);
      && r.Some? && r.value.Keys == SlotNames(schema)
      && (r.value == Restrict(args, SlotNames(schema))
          <==> forall i | 0 <= i < |schema| && !schema[i].Literal? :: Reproducible(env, schema[i], args))
  {
    hide BuiltIndex, DecodedIndexArgs, Reproducible, SlotNames, Restrict, ReadArray, Stringified;
    if BuiltText(env, schema, args).Returned? {
      BuildThenDecode(env, schema, args);
      ReadsBackArray(BuiltIndex(env, schema, schema, args).value);
    }
  }

  /** Two argument maps over the slot names agree exactly when they agree slot by slot. */
  lemma SameArgs(env: Env, schema: seq<IndexPart>, parts: seq<string>, args: Args, decoded: Args)
    requires |parts| == |schema| && decoded.Keys == SlotNames(schema)
    requires forall i | 0 <= i < |schema| && !schema[i].Literal? ::
        Some(decoded[schema[i].name]) == DecodeSlot(env, schema[i], parts[i])
    ensures decoded == Restrict(args, SlotNames(schema))
       <==> forall i | 0 <= i < |schema| && !schema[i].Literal? ::
              schema[i].name in args && DecodeSlot(env, schema[i], parts[i]) == Some(args[schema[i].name])
  {
    var expected := Restrict(args, SlotNames(schema));
    if decoded == expected {
      forall i | 0 <= i < |schema| && !schema[i].Literal?
        ensures schema[i].name in args && DecodeSlot(env, schema[i], parts[i]) == Some(args[schema[i].name])
      {
        assert schema[i].name in SlotNames(schema);
        assert schema[i].name in expected;
      }
    }
    if forall i | 0 <= i < |schema| && !schema[i].Literal? ::
         schema[i].name in args && DecodeSlot(env, schema[i], parts[i]) == Some(args[schema[i].name]) {
      forall name | name in SlotNames(schema)
        ensures name in expected && decoded[name] == expected[name]
      {
        var i :| 0 <= i < |schema| && !schema[i].Literal? && schema[i].name == name;
      }
    }
  }

  // ------------------------------------------------ the documented encoding

  /** The participant slot is meant to be `'0'`: null, or a message of one's own. */
  predicate DocumentedZero(whole: seq<IndexPart>, part: IndexPart, args: Args)
    requires part.JidOrZero?
  {
    Nullish(args, part.name) || (HasFromMe(whole) && FromMe(args))
  }

  /** A slot's text as the type declarations of the schema describe the encoder. */
  function DocumentedSlot(env: Env, whole: seq<IndexPart>, part: IndexPart, args: Args): (r: Outcome<string>)
    requires part.JidOrZero? ==> Nullish(args, part.name) || args[part.name].Str?
  {
    if part.JidOrZero? && DocumentedZero(whole, part, args) then Returned("0")
    else BuildSlot(env, whole, part, args)
  }

  predicate IsDocumentedEncoding(env: Env, schema: seq<IndexPart>, args: Args, parts: seq<string>)
    requires JidsAreText(schema, args)
  {
    |parts| == |schema| && forall i | 0 <= i < |schema| ::
      DocumentedSlot(env, schema, schema[i], args) == Returned(parts[i])
  }

  /** A participant the documentation writes as `'0'`. */
  predicate WrittenAsZero(schema: seq<IndexPart>, args: Args, name: string) {
    exists i :: 0 <= i < |schema| && schema[i] == JidOrZero(name) && DocumentedZero(schema, schema[i], args)
  }

  /** The arguments with every participant the documentation writes as `'0'`, an absent one included, set to null. */
  function Normalized(schema: seq<IndexPart>, args: Args): (r: Args) {
    map name | name in args.Keys + SlotNames(schema) && (name in args || WrittenAsZero(schema, args, name)) ::
      if WrittenAsZero(schema, args, name) then Null else args[name]
  }

  /** The slot's argument survives the documented encoding, a participant written as `'0'` as null. */
  predicate Documentable(env: Env, schema: seq<IndexPart>, part: IndexPart, args: Args)
    requires !part.Literal?
  {
    (part.JidOrZero? && DocumentedZero(schema, part, args)) || Reproducible(env, part, args)
  }

  /** With distinct names, a slot's participant is normalized exactly when the slot itself is written as `'0'`. */
  lemma ZeroOfSlot(schema: seq<IndexPart>, args: Args, i: nat)
    requires DistinctNames(schema) && i < |schema| && !schema[i].Literal?
    ensures WrittenAsZero(schema, args, schema[i].name)
       <==> schema[i].JidOrZero? && DocumentedZero(schema, schema[i], args)
  {
    hide DocumentedZero;
    forall j | 0 <= j < |schema| && schema[j] == JidOrZero(schema[i].name) ensures j == i {
    }
  }

  /** One slot of the documented encoding decodes to the normalized argument exactly when it is documentable. */
  lemma DocumentedSlotRoundTrip(env: Env, schema: seq<IndexPart>, args: Args, i: nat, raw: string)
    requires DistinctNames(schema) && JidsAreText(schema, args) && ProperEnums(env, schema)
    requires i < |schema| && !schema[i].Literal? && DocumentedSlot(env, schema, schema[i], args) == Returned(raw)
    ensures var norm := Normalized(schema, args);
      && !BadBool(schema[i], raw)
      && (schema[i].name in norm && DecodeSlot(env, schema[i], raw) == Some(norm[schema[i].name])
          <==> Documentable(env, schema, schema[i], args))
  {
    var part := schema[i];
    ZeroOfSlot(schema, args, i);
    assert part.name in SlotNames(schema);
    hide WrittenAsZero, SlotNames;
    if !(part.JidOrZero? && DocumentedZero(schema, part, args)) {
      SlotRoundTrip(env, schema, part, args);
    }
  }

  /**
   * For every schema with distinct names and all arguments that have a
   * documented encoding, decoding it gives the arguments back, participants
   * normalized, if and only if every argument is documentable.
   */
  lemma DocumentedThenDecode(env: Env, schema: seq<IndexPart>, args: Args, parts: seq<string>)
    requires DistinctNames(schema) && JidsAreText(schema, args) && ProperEnums(env, schema)
    requires IsDocumentedEncoding(env, schema, args, parts)
    ensures DecodedIndexArgs(env, schema, parts) == Some(Restrict(Normalized(schema, args), SlotNames(schema)))
       <==> forall i | 0 <= i < |schema| && !schema[i].Literal? :: Documentable(env, schema, schema[i], args)
  {
    var norm := Normalized(schema, args);
    forall i | 0 <= i < |schema|
      ensures !BadBool(schema[i], parts[i])
      ensures !schema[i].Literal? ==>
        (Documentable(env, schema, schema[i], args)
         <==> schema[i].name in norm && DecodeSlot(env, schema[i], parts[i]) == Some(norm[schema[i].name]))
    {
      assert DocumentedSlot(env, schema, schema[i], args) == Returned(parts[i]);
      if !schema[i].Literal? {
        DocumentedSlotRoundTrip(env, schema, args, i, parts[i]);
      }
    }
    hide Documentable, DecodeSlot, Normalized;
    DecodePointwise(env, schema, parts, map[]);
    SameArgs(env, schema, parts, norm, DecodedIndexArgs(env, schema, parts).value);
  }

  /**
   * Where the builder leaves its documentation, for one participant slot: a
   * JID beside `fromMe` is written out instead of `'0'`, and a null beside a
   * `fromMe` that is not true is refused instead of written as `'0'`.
   */
  lemma BuilderVersusDocumentation(env: Env, schema: seq<IndexPart>, part: IndexPart, args: Args)
    requires part.JidOrZero? && (Nullish(args, part.name) || args[part.name].Str?)
    ensures BuildSlot(env, schema, part, args) == DocumentedSlot(env, schema, part, args)
       <==> (HasFromMe(schema) ==>
               if FromMe(args) then Nullish(args, part.name) || args[part.name] == Str("0")
               else !Nullish(args, part.name))
  {
  }

  /** The same divergence on a concrete index: a message of one's own with a participant. */
  lemma ParticipantKeptBesideFromMe(env: Env)
    ensures var schema := [Literal("star"), BoolString("fromMe"), JidOrZero("participant")];
      var args: Args := map["fromMe" := Bool(true), "participant" := Str("1@lid")];
      && BuiltIndex(env, schema, schema, args) == Returned(["star", "1", "1@lid"])
      && IsDocumentedEncoding(env, schema, args, ["star", "1", "0"])
  {
    var schema := [Literal("star"), BoolString("fromMe"), JidOrZero("participant")];
    var args: Args := map["fromMe" := Bool(true), "participant" := Str("1@lid")];
    assert schema[1] == BoolString("fromMe");
    BuiltIndexSlots(env, schema, schema, args);
    assert BuildSlot(env, schema, schema[0], args) == Returned("star");
    assert BuildSlot(env, schema, schema[1], args) == Returned("1");
    assert BuildSlot(env, schema, schema[2], args) == Returned("1@lid");
    assert forall i | 0 <= i < |schema| :: BuildSlot(env, schema, schema[i], args).Returned?;
    assert BuiltIndex(env, schema, schema, args).value == ["star", "1", "1@lid"];
  }
}
