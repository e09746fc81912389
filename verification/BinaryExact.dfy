/** The reader gives every form of the wire grammar its meaning. */
module BinaryExact {
  import opened Prelude
  import opened Slices
  import opened BinaryTokens
  import opened BinaryWire
  import opened BinaryRead
  import opened BinaryGrammar
  import opened BinaryRoundTrip
  import opened Text

  // ---------------------------------------------------------------- attributes

  predicate Named(attrs: seq<(string, string)>, names: seq<string>) {
    |attrs| == |names| && forall i | 0 <= i < |attrs| :: attrs[i].0 == names[i]
  }

  predicate AllDifferent(names: seq<string>) {
    forall i, j | 0 <= i < j < |names| :: names[i] != names[j]
  }

  /** Setting a name changes its value where it stands, or adds it at the end. */
  lemma {:induction false} SetAttrAt(attrs: seq<(string, string)>, key: string, value: string, i: nat)
    requires i <= |attrs| && (i < |attrs| ==> attrs[i].0 == key) && forall j | 0 <= j < i :: attrs[j].0 != key
    ensures SetAttr(attrs, key, value) == if i < |attrs| then attrs[i := (key, value)] else attrs + [(key, value)]
  {
    if i > 0 {
      SetAttrAt(attrs[1..], key, value, i - 1);
      assert attrs == [attrs[0]] + attrs[1..];
    }
  }

  lemma {:induction false} NamesDiffer(pairs: seq<(string, string)>)
    ensures AllDifferent(FirstNames(pairs))
  {
    if pairs != [] {
      NamesDiffer(pairs[..|pairs| - 1]);
    }
  }

  /** One more assignment. */
  lemma AssignedNext(pairs: seq<(string, string)>, key: string, value: string)
    ensures Assigned(pairs + [(key, value)]) == SetAttr(Assigned(pairs), key, value)
  {
    var attrs, names := Assigned(pairs), FirstNames(pairs);
    NamesDiffer(pairs);
    NextNames(pairs, key, value);
    if key in names {
      var i :| 0 <= i < |names| && names[i] == key;
      hide FirstNames, LastValue;
      SetAttrAt(attrs, key, value, i);
    } else {
      hide FirstNames, LastValue;
      SetAttrAt(attrs, key, value, |attrs|);
    }
  }

  lemma NextNames(pairs: seq<(string, string)>, key: string, value: string)
    ensures var names := FirstNames(pairs);
      FirstNames(pairs + [(key, value)]) == if key in names then names else names + [key]
    ensures forall name ::
      LastValue(pairs + [(key, value)], name) == if name == key then value else LastValue(pairs, name)
  {
    var all := pairs + [(key, value)];
    assert all[..|all| - 1] == pairs && all[|all| - 1] == (key, value);
  }

  // --------------------------------------------------------------------- texts

  lemma SymbolIs(p: Packing, n: nat)
    requires n < 16
    ensures Alphabet(p)[n] == Symbol(p.Hex?, n)
  {
  }

  lemma {:induction false} UnpackAt(b: Bytes, p: Packing, i: nat)
    requires i < 2 * |b|
    ensures Unpack(b, p)[i] == Symbol(p.Hex?, if i % 2 == 0 then b[i / 2] as nat / 16 else b[i / 2] as nat % 16)
  {
    hide Symbol, Alphabet;
    SymbolIs(p, b[0] as nat / 16);
    SymbolIs(p, b[0] as nat % 16);
    if i >= 2 {
      UnpackAt(b[1..], p, i - 2);
      assert b[1..][(i - 2) / 2] == b[i / 2];
    }
  }

  lemma PackedMeans(env: Env, hex: bool, odd: bool, pairs: Bytes)
    requires TextStands(env.tables, Packed(hex, odd, pairs))
    ensures Unpack(pairs, if hex then Hex else Nibble)[..2 * |pairs| - if odd then 1 else 0]
         == TextMeans(env, Packed(hex, odd, pairs))
  {
    hide Unpack, Symbol;
    var p := if hex then Hex else Nibble;
    forall i | 0 <= i < 2 * |pairs|
      ensures Unpack(pairs, p)[i]
           == Symbol(hex, if i % 2 == 0 then pairs[i / 2] as nat / 16 else pairs[i / 2] as nat % 16)
    {
      UnpackAt(pairs, p, i);
    }
  }

  lemma PackedReads(env: Env, data: Bytes, at: nat, hex: bool, odd: bool, pairs: Bytes)
    requires TextStands(env.tables, Packed(hex, odd, pairs)) && Has(data, at, TextBytes(Packed(hex, odd, pairs)))
    ensures at < |data| && data[at] == (if hex then 251 else 255)
    ensures ParsedPacked(data, if hex then Hex else Nibble, at + 1)
         == Returned((TextMeans(env, Packed(hex, odd, pairs)), at + 2 + |pairs|))
  {
    hide Has, Unpack, TextMeans;
    var first: byte, second := if hex then 251 else 255, Digit(|pairs| + if odd then 128 else 0, 1);
    assert [first, second] + pairs == [first] + ([second] + pairs);
    HasByte(data, at, first, [second] + pairs);
    HasByte(data, at + 1, second, pairs);
    TakeHas(data, at + 2, pairs);
    PackedMeans(env, hex, odd, pairs);
    LengthAndParity(|pairs|, odd);
    hide Take, Alphabet;
  }

  lemma LengthAndParity(n: nat, odd: bool)
    requires n < 128
    ensures var b := Digit(n + if odd then 128 else 0, 1) as nat;
      b % 0x80 == n && b / 0x80 == if odd then 1 else 0
  {
  }

  lemma ThreeDigits(ignored: nat, n: nat)
    requires ignored < 16 && n < 0x10_0000
    ensures (16 * ignored + n / 65536) % 256 % 16 == n / 65536
    ensures n == 0x1_0000 * (n / 65536) + 0x100 * (n / 256 % 256) + n % 256
  {
  }

  lemma LengthReads(data: Bytes, at: nat, form: LengthForm, n: nat)
    requires LengthFits(form, n) && Has(data, at, LengthBytes(form, n))
    ensures at < |data| && IsBinary(data[at])
    ensures ParsedLength(data, data[at], at + 1) == Returned((n, at + |LengthBytes(form, n)|))
  {
    var b := LengthBytes(form, n);
    HasAt(data, at, b);
    hide Has;
    assert data[at] == b[0] && data[at + 1] == b[1];
    match form
    case Length8 =>
    case Length20(ignored) =>
      assert data[at + 2] == b[2] && data[at + 3] == b[3];
      ThreeDigits(ignored as nat, n);
    case Length32 =>
      assert data[at + 2] == b[2] && data[at + 3] == b[3] && data[at + 4] == b[4];
      Digits4(n);
  }

  lemma BlobReads(data: Bytes, at: nat, form: LengthForm, bytes: Bytes)
    requires LengthFits(form, |bytes|) && Has(data, at, TextBytes(Blob(form, bytes)))
    ensures at < |data| && IsBinary(data[at])
    ensures ParsedBinary(data, data[at], at + 1) == Returned((bytes, at + |TextBytes(Blob(form, bytes))|))
  {
    hide Has, LengthBytes;
    var length := LengthBytes(form, |bytes|);
    HasBoth(data, at, length, bytes);
    LengthReads(data, at, form, |bytes|);
    TakeHas(data, at + |length|, bytes);
  }

  /** A text form at a position is read as its meaning. */
  lemma TextReads(env: Env, data: Bytes, at: nat, t: TextForm)
    requires ProperTables(env.tables) && TextStands(env.tables, t) && Has(data, at, TextBytes(t))
    ensures at < |data| && OpensString(data[at]) && (IsBinary(data[at]) <==> t.Blob?)
    ensures NextString(env, data, at) == Returned((TextMeans(env, t), at + |TextBytes(t)|))
    ensures t.Blob? ==> ParsedBinary(data, data[at], at + 1) == Returned((t.bytes, at + |TextBytes(t)|))
  {
    hide Has, ParsedPacked, ParsedBinary;
    match t
    case OneByte(code) =>
      HasAt(data, at, [code]);
      OneInside(data, at, code);
      assert data[at] == [code][0];
    case TwoBytes(dictionary, index) =>
      var first := Digit(236 + dictionary as nat, 1);
      assert [first, index] == [first] + [index];
      HasByte(data, at, first, [index]);
      OneInside(data, at + 1, index);
    case Packed(hex, odd, pairs) => PackedReads(env, data, at, hex, odd, pairs);
    case Blob(form, bytes) => BlobReads(data, at, form, bytes);
  }

  lemma OneInside(data: Bytes, at: nat, b: byte)
    ensures Has(data, at, [b]) <==> at < |data| && data[at] == b
  {
    if at < |data| {
      assert data[at..at + 1] == [data[at]];
    }
  }

  // -------------------------------------------------------------------- values

  lemma NumberReads(data: Bytes, at: nat, n: nat, later: Bytes)
    requires n < 0x1_0000 && Has(data, at, NumberBytes(n) + later)
    ensures at + 2 <= |data| && Number16(data, at) == Returned((n, at + 2)) && Has(data, at + 2, later)
  {
    var high, low := Digit(n, 256), Digit(n, 1);
    assert NumberBytes(n) + later == [high] + ([low] + later);
    HasByte(data, at, high, [low] + later);
    HasByte(data, at + 1, low, later);
    hide Has;
    assert n == 256 * (n / 256) + n % 256;
  }

  /** The two parts of a pair, the first one read as `user`. */
  lemma PairFromParts(env: Env, data: Bytes, at: nat, user: string, mid: nat, server: string, next: nat)
    requires at < |data| && NextString(env, data, mid) == Returned((server, next))
    requires if data[at] == 0 then user == "" && mid == at + 1 else NextString(env, data, at) == Returned((user, mid))
    ensures ParsedJidPair(env, data, at) == Returned((if user == "" then server else user + "@" + server, next))
  {
    hide NextString;
  }

  lemma PairReads(env: Env, data: Bytes, at: nat, v: ValueForm)
    requires v.Pair? && ProperTables(env.tables) && ValueStands(env.tables, v) && Has(data, at, ValueBytes(v))
    ensures at < |data| && data[at] == 250
    ensures ParsedJidPair(env, data, at + 1) == Returned((ValueMeans(env, v), at + |ValueBytes(v)|))
  {
    hide Has, ProperTables, TextStands, TextBytes, TextMeans, NextString, ParsedJidPair;
    var server := TextBytes(v.server);
    var end := at + |ValueBytes(v)|;
    if v.name.Some? {
      var name := TextBytes(v.name.value);
      HasByte(data, at, 250, name + server);
      HasBoth(data, at + 1, name, server);
      TextReads(env, data, at + 1, v.name.value);
      TextReads(env, data, at + 1 + |name|, v.server);
      PairFromParts(env, data, at + 1, TextMeans(env, v.name.value), at + 1 + |name|, TextMeans(env, v.server), end);
    } else {
      HasByte(data, at, 250, [0] + server);
      HasByte(data, at + 1, 0, server);
      TextReads(env, data, at + 2, v.server);
      PairFromParts(env, data, at + 1, "", at + 2, TextMeans(env, v.server), end);
    }
  }

  lemma DomainIs(domain: byte)
    ensures DomainOf(domain) == DomainMeans(domain)
  {
  }

  lemma DeviceReads(env: Env, data: Bytes, at: nat, v: ValueForm)
    requires v.Device? && ProperTables(env.tables) && ValueStands(env.tables, v) && Has(data, at, ValueBytes(v))
    ensures at < |data| && data[at] == 247
    ensures ParsedJidU(env, data, at + 1) == Returned((ValueMeans(env, v), at + |ValueBytes(v)|))
  {
    hide Has, ProperTables, TextStands, TextBytes, TextMeans, NextString, Show;
    var user := TextBytes(v.user);
    HasByte(data, at, 247, [v.domain] + ([v.device] + user));
    HasByte(data, at + 1, v.domain, [v.device] + user);
    HasByte(data, at + 2, v.device, user);
    TextReads(env, data, at + 3, v.user);
    DomainIs(v.domain);
    hide DomainOf, DomainMeans;
    var s := TextMeans(env, v.user);
    assert s + (":" + Show(v.device as nat)) == s + ":" + Show(v.device as nat);
    assert s + "" == s;
  }

  lemma InteropReads(env: Env, data: Bytes, at: nat, v: ValueForm)
    requires v.Interop? && ProperTables(env.tables) && ValueStands(env.tables, v) && Has(data, at, ValueBytes(v))
    ensures at < |data| && data[at] == 245
    ensures ParsedJidInterop(env, data, at + 1) == Returned((ValueMeans(env, v), at + |ValueBytes(v)|))
  {
    hide Has, ProperTables, TextStands, TextBytes, TextMeans, NextString, Show, Number16;
    var user, server := TextBytes(v.user), TextBytes(v.server);
    var later := NumberBytes(v.integrator) + server;
    HasByte(data, at, 245, user + (NumberBytes(v.number) + later));
    HasBoth(data, at + 1, user, NumberBytes(v.number) + later);
    TextReads(env, data, at + 1, v.user);
    NumberReads(data, at + 1 + |user|, v.number, later);
    NumberReads(data, at + 3 + |user|, v.integrator, server);
    TextReads(env, data, at + 5 + |user|, v.server);
  }

  lemma MessengerReads(env: Env, data: Bytes, at: nat, v: ValueForm)
    requires v.Messenger? && ProperTables(env.tables) && ValueStands(env.tables, v) && Has(data, at, ValueBytes(v))
    ensures at < |data| && data[at] == 246
    ensures ParsedJidFb(env, data, at + 1) == Returned((ValueMeans(env, v), at + |ValueBytes(v)|))
  {
    hide Has, ProperTables, TextStands, TextBytes, TextMeans, NextString, Show, Number16;
    var user, server := TextBytes(v.user), TextBytes(v.server);
    HasByte(data, at, 246, user + (NumberBytes(v.number) + server));
    HasBoth(data, at + 1, user, NumberBytes(v.number) + server);
    TextReads(env, data, at + 1, v.user);
    NumberReads(data, at + 1 + |user|, v.number, server);
    TextReads(env, data, at + 3 + |user|, v.server);
  }

  /** What a value form stands for, where bytes are kept as bytes. */
  function ReadAs(env: Env, v: ValueForm, forAttr: bool): (r: Value)
    requires ValueStands(env.tables, v)
  {
    if v.Plain? && v.text.Blob? && !forAttr then BytesValue(v.text.bytes) else TextValue(ValueMeans(env, v))
  }

  lemma PlainReads(env: Env, data: Bytes, at: nat, text: TextForm, forAttr: bool)
    requires ProperTables(env.tables) && TextStands(env.tables, text) && Has(data, at, TextBytes(text))
    ensures at < |data| && OpensString(data[at])
    ensures ParsedValue(env, data, data[at], at + 1, forAttr)
         == Returned((ReadAs(env, Plain(text), forAttr), at + |TextBytes(text)|))
  {
    hide Has, ProperTables, TextStands, TextBytes, ParsedString, ParsedBinary;
    TextReads(env, data, at, text);
    if text.Blob? {
      assert TextMeans(env, text) == env.text(text.bytes);
    }
  }

  lemma ValueReads(env: Env, data: Bytes, at: nat, v: ValueForm, forAttr: bool)
    requires ProperTables(env.tables) && ValueStands(env.tables, v) && Has(data, at, ValueBytes(v))
    ensures at < |data| && data[at] != 0 && data[at] != 248 && data[at] != 249
    ensures ParsedValue(env, data, data[at], at + 1, forAttr)
         == Returned((ReadAs(env, v, forAttr), at + |ValueBytes(v)|))
  {
    hide Has, ProperTables, TextStands, TextBytes, ParsedString, ParsedBinary, ParsedJidPair, ParsedJidU,
      ParsedJidInterop, ParsedJidFb, ValueMeans;
    match v
    case Plain(text) => PlainReads(env, data, at, text, forAttr);
    case Pair(_, _) => PairReads(env, data, at, v);
    case Device(_, _, _) => DeviceReads(env, data, at, v);
    case Interop(_, _, _, _) => InteropReads(env, data, at, v);
    case Messenger(_, _, _) => MessengerReads(env, data, at, v);
  }

  lemma TextValueReads(env: Env, data: Bytes, at: nat, v: ValueForm)
    requires ProperTables(env.tables) && ValueStands(env.tables, v) && Has(data, at, ValueBytes(v))
    ensures NextText(env, data, at) == Returned((ValueMeans(env, v), at + |ValueBytes(v)|))
  {
    hide Has, ProperTables, ValueStands, ValueBytes, ParsedValue, ValueMeans;
    ValueReads(env, data, at, v, true);
  }

  // --------------------------------------------------------------------- nodes

  lemma SizeReads(data: Bytes, at: nat, wide: bool, n: nat)
    requires SizeFits(wide, n) && Has(data, at, SizeBytes(wide, n))
    ensures at < |data| && (data[at] == 248 || data[at] == 249)
    ensures ParsedListSize(data, at) == Returned((n, at + |SizeBytes(wide, n)|))
  {
    var b := SizeBytes(wide, n);
    HasAt(data, at, b);
    hide Has;
    assert data[at] == b[0] && data[at + 1] == b[1];
    if wide {
      assert data[at + 2] == b[2];
      assert n == 256 * (n / 256) + n % 256;
    }
  }

  lemma AttrsFirst(env: Env, attrs: seq<(ValueForm, ValueForm)>)
    requires attrs != [] && AttrsStand(env.tables, attrs)
    ensures ValueStands(env.tables, attrs[0].0) && ValueStands(env.tables, attrs[0].1)
    ensures AttrsStand(env.tables, attrs[1..])
    ensures AttrsMean(env, attrs)
         == [(ValueMeans(env, attrs[0].0), ValueMeans(env, attrs[0].1))] + AttrsMean(env, attrs[1..])
  {
    hide ValueStands, ValueMeans;
  }

  lemma {:induction false} AttrsRead(env: Env, data: Bytes, at: nat, remaining: nat, before: seq<(string, string)>,
      attrs: seq<(ValueForm, ValueForm)>)
    requires ProperTables(env.tables) && AttrsStand(env.tables, attrs) && at <= |data|
    requires Has(data, at, AttrsBytes(attrs)) && (remaining == 2 * |attrs| || remaining == 2 * |attrs| + 1)
    ensures ParsedAttrs(env, data, at, remaining, Assigned(before))
         == Returned((Assigned(before + AttrsMean(env, attrs)), at + |AttrsBytes(attrs)|))
    decreases |attrs|
  {
    hide Has, ProperTables, AttrsStand, ValueStands, ValueBytes, ValueMeans, NextText, SetAttr, Assigned, AttrsMean;
    if attrs == [] {
      NoAttrsMean(env);
      assert before + AttrsMean(env, attrs) == before;
    } else {
      AttrsFirst(env, attrs);
      var (key, value) := attrs[0];
      var k, v, later := ValueBytes(key), ValueBytes(value), AttrsBytes(attrs[1..]);
      HasBoth(data, at, k, v + later);
      HasBoth(data, at + |k|, v, later);
      TextValueReads(env, data, at, key);
      TextValueReads(env, data, at + |k|, value);
      var pair := (ValueMeans(env, key), ValueMeans(env, value));
      AssignedNext(before, pair.0, pair.1);
      AttrsRead(env, data, at + |k| + |v|, remaining - 2, before + [pair], attrs[1..]);
      assert before + [pair] + AttrsMean(env, attrs[1..]) == before + AttrsMean(env, attrs);
    }
  }

  lemma NoAttrsMean(env: Env)
    ensures AttrsMean(env, []) == [] && Assigned([]) == []
  {
  }

  lemma SplitForm(data: Bytes, at: nat, n: NodeForm)
    requires Has(data, at, NodeBytes(n))
    ensures var a := at + |SizeBytes(n.wide, Items(n))|;
      var b := a + |ValueBytes(n.tag)|;
      var c := b + |AttrsBytes(n.attrs)|;
      && Has(data, at, SizeBytes(n.wide, Items(n))) && Has(data, a, ValueBytes(n.tag))
      && Has(data, b, AttrsBytes(n.attrs)) && Has(data, c, ContentBytes(n.content))
      && b <= |data| && at + |NodeBytes(n)| == c + |ContentBytes(n.content)|
  {
    hide SizeBytes, ValueBytes, AttrsBytes, ContentBytes, Items;
    var size, tag, attrs, content :=
      SizeBytes(n.wide, Items(n)), ValueBytes(n.tag), AttrsBytes(n.attrs), ContentBytes(n.content);
    assert NodeBytes(n) == size + (tag + (attrs + content));
    HasBoth(data, at, size, tag + (attrs + content));
    HasBoth(data, at + |size|, tag, attrs + content);
    HasBoth(data, at + |size| + |tag|, attrs, content);
  }

  lemma FormParts(env: Env, n: NodeForm)
    requires NodeStands(env, n)
    ensures SizeFits(n.wide, Items(n)) && ValueStands(env.tables, n.tag) && ValueMeans(env, n.tag) != ""
    ensures AttrsStand(env.tables, n.attrs) && ContentStands(env, n.content)
    ensures Items(n) > 0 && (Items(n) % 2 == 1 <==> n.content.Missing?)
    ensures Items(n) - 1 == 2 * |n.attrs| + (if n.content.Missing? then 0 else 1)
    ensures NodeMeans(env, n)
         == Node(ValueMeans(env, n.tag), Assigned(AttrsMean(env, n.attrs)), ContentMeans(env, n.content))
    ensures n.content.Missing? ==> ContentMeans(env, n.content) == Absent && ContentBytes(n.content) == []
  {
    hide ValueStands, AttrsStand, ContentStands, ValueMeans, AttrsMean, Assigned;
  }

  /**
   * A node form standing at a position is read as what it means, and the
   * reader stops at its end.
   */
  lemma {:induction false} NodeReads(env: Env, data: Bytes, at: nat, n: NodeForm)
    requires ProperTables(env.tables) && NodeStands(env, n) && Has(data, at, NodeBytes(n))
    ensures ParsedNode(env, data, at) == Returned((NodeMeans(env, n), at + |NodeBytes(n)|))
    decreases n, 1
  {
    hide *;
    SplitForm(data, at, n);
    FormParts(env, n);
    var size := Items(n);
    SizeReads(data, at, n.wide, size);
    var a := at + |SizeBytes(n.wide, size)|;
    TextValueReads(env, data, a, n.tag);
    var b := a + |ValueBytes(n.tag)|;
    NoAttrsMean(env);
    AttrsRead(env, data, b, size - 1, [], n.attrs);
    assert [] + AttrsMean(env, n.attrs) == AttrsMean(env, n.attrs);
    var c := b + |AttrsBytes(n.attrs)|;
    NodeFromParts(env, data, at, size, ValueMeans(env, n.tag), Assigned(AttrsMean(env, n.attrs)), a, b, c);
    if !n.content.Missing? {
      ContentReads(env, data, c, n.content);
    }
  }

  lemma ValueContentReads(env: Env, data: Bytes, at: nat, v: ValueForm)
    requires ProperTables(env.tables) && ValueStands(env.tables, v) && Has(data, at, ValueBytes(v))
    ensures ParsedContent(env, data, at)
         == Returned((ContentMeans(env, Value(v)), at + |ValueBytes(v)|))
  {
    hide Has, ProperTables, ValueStands, ValueBytes, ParsedValue, ParsedNodes, ParsedListSize, ValueMeans;
    ValueReads(env, data, at, v, false);
  }

  lemma {:induction false} ContentReads(env: Env, data: Bytes, at: nat, c: ContentForm)
    requires ProperTables(env.tables) && !c.Missing? && ContentStands(env, c) && Has(data, at, ContentBytes(c))
    ensures ParsedContent(env, data, at) == Returned((ContentMeans(env, c), at + |ContentBytes(c)|))
    decreases c, 1
  {
    hide Has, ProperTables, ValueStands, ValueBytes, SizeBytes, SizeFits, ParsedContent, ParsedListSize, NodesBytes,
      NodesMean, NodesStand;
    match c
    case Nothing =>
      OneInside(data, at, 0);
      NothingReads(env, data, at);
    case Value(v) => ValueContentReads(env, data, at, v);
    case Listed(wide, nodes) =>
      var size := SizeBytes(wide, |nodes|);
      HasBoth(data, at, size, NodesBytes(nodes));
      SizeReads(data, at, wide, |nodes|);
      ChildrenFromParts(env, data, at, |nodes|, at + |size|);
      NodesRead(env, data, at + |size|, nodes);
  }

  lemma NothingReads(env: Env, data: Bytes, at: nat)
    requires at < |data| && data[at] == 0
    ensures ParsedContent(env, data, at) == Returned((Absent, at + 1))
  {
  }

  lemma {:induction false} NodesRead(env: Env, data: Bytes, at: nat, nodes: seq<NodeForm>)
    requires ProperTables(env.tables) && NodesStand(env, nodes) && Has(data, at, NodesBytes(nodes)) && at <= |data|
    ensures ParsedNodes(env, data, at, |nodes|) == Returned((NodesMean(env, nodes), at + |NodesBytes(nodes)|))
    decreases nodes, 0
  {
    hide Has, ProperTables, NodeStands, NodeBytes, NodeMeans, ParsedNode;
    if nodes != [] {
      HasBoth(data, at, NodeBytes(nodes[0]), NodesBytes(nodes[1..]));
      NodeReads(env, data, at, nodes[0]);
      NodesRead(env, data, at + |NodeBytes(nodes[0])|, nodes[1..]);
    }
  }
}
