/** Whatever the reader accepts has a form of the wire grammar, so the reader accepts the grammar and nothing else. */
module BinaryForms {
  import opened Prelude
  import opened Slices
  import opened BinaryTokens
  import opened BinaryWire
  import opened BinaryRead
  import opened BinaryGrammar
  import opened BinaryRoundTrip
  import opened BinaryExact

  // --------------------------------------------------------------------- texts

  lemma HasSlice(data: Bytes, at: nat, end: nat)
    requires at <= end <= |data|
    ensures Has(data, at, data[at..end])
  {
  }

  lemma LengthForms(data: Bytes, at: nat) returns (form: LengthForm)
    requires at < |data| && ParsedLength(data, data[at], at + 1).Returned?
    ensures var (n, start) := ParsedLength(data, data[at], at + 1).value;
      LengthFits(form, n) && start == at + |LengthBytes(form, n)| && Has(data, at, LengthBytes(form, n))
  {
    var (n, start) := ParsedLength(data, data[at], at + 1).value;
    HasSlice(data, at, start);
    hide Has;
    if data[at] == 252 {
      form := Length8;
      assert LengthBytes(form, n) == data[at..start];
    } else if data[at] == 253 {
      ThreeBytesBack(data[at + 1], data[at + 2], data[at + 3]);
      form := Length20((data[at + 1] as nat / 16) as byte);
      hide *;
      assert LengthBytes(form, n) == data[at..start];
    } else {
      form := Length32;
      FourBytesBack(data[at + 1], data[at + 2], data[at + 3], data[at + 4]);
      assert LengthBytes(form, n) == data[at..start];
    }
  }

  lemma ThreeBytesBack(a: byte, b: byte, c: byte)
    ensures var n := 65536 * (a as nat % 16) + 256 * (b as nat) + c as nat;
      n < 0x10_0000 && LengthBytes(Length20((a as nat / 16) as byte), n) == [253, a, b, c]
  {
    var n := 65536 * (a as nat % 16) + 256 * (b as nat) + c as nat;
    assert n / 65536 == a as nat % 16 && n / 256 % 256 == b as nat && n % 256 == c as nat;
  }

  lemma FourBytesBack(a: byte, b: byte, c: byte, d: byte)
    ensures var n := 16777216 * (a as nat) + 65536 * (b as nat) + 256 * (c as nat) + d as nat;
      n / 16777216 == a as nat && n / 65536 % 256 == b as nat && n / 256 % 256 == c as nat && n % 256 == d as nat
  {
    var ab, abc := 256 * (a as nat) + b as nat, 65536 * (a as nat) + 256 * (b as nat) + c as nat;
    var n := 256 * abc + d as nat;
    LowByte(ab, c);
    LowByte(abc, d);
    LowByte(a as nat, b);
    assert n / 256 == abc && abc / 256 == ab && ab / 256 == a as nat;
    assert n / 65536 == n / 256 / 256 && n / 16777216 == n / 65536 / 256;
  }

  lemma LowByte(high: nat, low: byte)
    ensures (256 * high + low as nat) / 256 == high && (256 * high + low as nat) % 256 == low as nat
  {
  }

  lemma BlobForm(data: Bytes, at: nat) returns (t: TextForm)
    requires at < |data| && ParsedBinary(data, data[at], at + 1).Returned?
    ensures t.Blob? && LengthFits(t.length, |t.bytes|) && Has(data, at, TextBytes(t))
  {
    hide ParsedLength, LengthFits, LengthBytes, Has;
    var form := LengthForms(data, at);
    var (n, start) := ParsedLength(data, data[at], at + 1).value;
    t := Blob(form, data[start..start + n]);
    HasSlice(data, start, start + n);
    HasBoth(data, at, LengthBytes(form, n), t.bytes);
  }

  lemma PackedForm(data: Bytes, at: nat, hex: bool) returns (t: TextForm)
    requires at < |data| && data[at] == (if hex then 251 else 255)
    requires ParsedPacked(data, if hex then Hex else Nibble, at + 1).Returned?
    ensures t.Packed? && |t.pairs| < 128 && (t.odd ==> t.pairs != []) && Has(data, at, TextBytes(t))
  {
    hide Unpack;
    var length := data[at + 1] as nat;
    t := Packed(hex, length >= 128, data[at + 2..at + 2 + length % 128]);
    assert TextBytes(t) == data[at..at + 2 + length % 128];
  }

  /** Every text the reader accepts has a form. */
  lemma AcceptedText(env: Env, data: Bytes, at: nat) returns (t: TextForm)
    requires ProperTables(env.tables) && NextString(env, data, at).Returned?
    ensures TextStands(env.tables, t) && Has(data, at, TextBytes(t))
  {
    hide ParsedPacked, ParsedBinary, LengthFits;
    var token := data[at];
    if 0 < token as nat <= |env.tables.single| {
      t := OneByte(token);
      OneInside(data, at, token);
    } else if 236 <= token <= 239 {
      t := TwoBytes(token - 236, data[at + 1]);
      assert data[at..at + 2] == [token, data[at + 1]];
    } else if token == 255 {
      t := PackedForm(data, at, false);
    } else if token == 251 {
      t := PackedForm(data, at, true);
    } else {
      t := BlobForm(data, at);
    }
  }

  // -------------------------------------------------------------------- values

  lemma NumberStands(data: Bytes, at: nat)
    requires at + 2 <= |data|
    ensures Number16(data, at).Returned? && Number16(data, at).value.0 < 0x1_0000
    ensures Has(data, at, NumberBytes(Number16(data, at).value.0))
  {
    var n := Number16(data, at).value.0;
    assert n / 256 == data[at] as nat && n % 256 == data[at + 1] as nat;
    assert NumberBytes(n) == data[at..at + 2];
  }

  lemma AcceptedPair(env: Env, data: Bytes, at: nat) returns (v: ValueForm)
    requires ProperTables(env.tables) && at < |data| && data[at] == 250
    requires ParsedJidPair(env, data, at + 1).Returned?
    ensures v.Pair? && ValueStands(env.tables, v) && Has(data, at, ValueBytes(v))
  {
    hide ProperTables, NextString, TextStands, TextBytes, TextMeans, Has;
    OneInside(data, at, 250);
    var name := None;
    var first := [0];
    if data[at + 1] == 0 {
      OneInside(data, at + 1, 0);
    } else {
      var text := AcceptedText(env, data, at + 1);
      TextReads(env, data, at + 1, text);
      name, first := Some(text), TextBytes(text);
    }
    var server := AcceptedText(env, data, at + 1 + |first|);
    v := Pair(name, server);
    HasBoth(data, at + 1, first, TextBytes(server));
    HasBoth(data, at, [250], first + TextBytes(server));
  }

  lemma AcceptedDevice(env: Env, data: Bytes, at: nat) returns (v: ValueForm)
    requires ProperTables(env.tables) && at < |data| && data[at] == 247
    requires ParsedJidU(env, data, at + 1).Returned?
    ensures v.Device? && ValueStands(env.tables, v) && Has(data, at, ValueBytes(v))
  {
    hide ProperTables, NextString, TextStands, TextBytes, Has;
    var user := AcceptedText(env, data, at + 3);
    v := Device(data[at + 1], data[at + 2], user);
    OneInside(data, at, 247);
    OneInside(data, at + 1, v.domain);
    OneInside(data, at + 2, v.device);
    HasBoth(data, at + 2, [v.device], TextBytes(user));
    HasBoth(data, at + 1, [v.domain], [v.device] + TextBytes(user));
    HasBoth(data, at, [247], [v.domain] + ([v.device] + TextBytes(user)));
  }

  lemma AcceptedInterop(env: Env, data: Bytes, at: nat) returns (v: ValueForm)
    requires ProperTables(env.tables) && at < |data| && data[at] == 245
    requires ParsedJidInterop(env, data, at + 1).Returned?
    ensures v.Interop? && ValueStands(env.tables, v) && Has(data, at, ValueBytes(v))
  {
    hide ProperTables, NextString, TextStands, TextBytes, TextMeans, Has, Number16, NumberBytes;
    var user := AcceptedText(env, data, at + 1);
    TextReads(env, data, at + 1, user);
    var mid := at + 1 + |TextBytes(user)|;
    NumberStands(data, mid);
    NumberStands(data, mid + 2);
    var server := AcceptedText(env, data, mid + 4);
    v := Interop(user, Number16(data, mid).value.0, Number16(data, mid + 2).value.0, server);
    OneInside(data, at, 245);
    hide ParsedJidInterop;
    InteropPieces(data, at, v);
  }

  lemma InteropPieces(data: Bytes, at: nat, v: ValueForm)
    requires v.Interop? && Has(data, at, [245]) && Has(data, at + 1, TextBytes(v.user))
    requires var mid := at + 1 + |TextBytes(v.user)|;
      && Has(data, mid, NumberBytes(v.number)) && Has(data, mid + 2, NumberBytes(v.integrator))
      && Has(data, mid + 4, TextBytes(v.server))
    ensures Has(data, at, ValueBytes(v))
  {
    hide Has, TextBytes, NumberBytes;
    var mid, server := at + 1 + |TextBytes(v.user)|, NumberBytes(v.integrator) + TextBytes(v.server);
    NumberIsTwo(v.number);
    NumberIsTwo(v.integrator);
    HasBoth(data, mid + 2, NumberBytes(v.integrator), TextBytes(v.server));
    HasBoth(data, mid, NumberBytes(v.number), server);
    HasBoth(data, at + 1, TextBytes(v.user), NumberBytes(v.number) + server);
    HasBoth(data, at, [245], TextBytes(v.user) + (NumberBytes(v.number) + server));
  }

  lemma NumberIsTwo(n: nat)
    ensures |NumberBytes(n)| == 2
  {
  }

  lemma AcceptedMessenger(env: Env, data: Bytes, at: nat) returns (v: ValueForm)
    requires ProperTables(env.tables) && at < |data| && data[at] == 246
    requires ParsedJidFb(env, data, at + 1).Returned?
    ensures v.Messenger? && ValueStands(env.tables, v) && Has(data, at, ValueBytes(v))
  {
    hide ProperTables, NextString, TextStands, TextBytes, TextMeans, Has, Number16, NumberBytes;
    var user := AcceptedText(env, data, at + 1);
    TextReads(env, data, at + 1, user);
    var mid := at + 1 + |TextBytes(user)|;
    NumberStands(data, mid);
    var server := AcceptedText(env, data, mid + 2);
    var number := Number16(data, mid).value.0;
    v := Messenger(user, number, server);
    NumberIsTwo(number);
    HasBoth(data, mid, NumberBytes(number), TextBytes(server));
    HasBoth(data, at + 1, TextBytes(user), NumberBytes(number) + TextBytes(server));
    OneInside(data, at, 246);
    HasBoth(data, at, [246], TextBytes(user) + (NumberBytes(number) + TextBytes(server)));
  }

  /** Every value the reader accepts, other than the empty list, has a form. */
  lemma AcceptedValue(env: Env, data: Bytes, at: nat, forAttr: bool) returns (v: ValueForm)
    requires ProperTables(env.tables) && at < |data| && data[at] != 0 && data[at] != 248 && data[at] != 249
    requires ParsedValue(env, data, data[at], at + 1, forAttr).Returned?
    ensures ValueStands(env.tables, v) && Has(data, at, ValueBytes(v))
  {
    hide ProperTables, TextStands, TextBytes, ParsedString, ParsedBinary, ParsedJidPair, ParsedJidU,
      ParsedJidInterop, ParsedJidFb, Has;
    if data[at] == 250 {
      v := AcceptedPair(env, data, at);
    } else if data[at] == 247 {
      v := AcceptedDevice(env, data, at);
    } else if data[at] == 245 {
      v := AcceptedInterop(env, data, at);
    } else if data[at] == 246 {
      v := AcceptedMessenger(env, data, at);
    } else {
      PlainIsString(env, data, at, forAttr);
      var text := AcceptedText(env, data, at);
      v := Plain(text);
    }
  }

  /** A value that is no address is read as a string, the length of a byte string before its bytes. */
  lemma PlainIsString(env: Env, data: Bytes, at: nat, forAttr: bool)
    requires ProperTables(env.tables) && at < |data| && ParsedValue(env, data, data[at], at + 1, forAttr).Returned?
    requires OpensString(data[at])
    ensures NextString(env, data, at).Returned?
  {
    hide ParsedBinary, ParsedPacked;
  }

  lemma AcceptedTextValue(env: Env, data: Bytes, at: nat) returns (v: ValueForm)
    requires ProperTables(env.tables) && NextText(env, data, at).Returned?
    ensures ValueStands(env.tables, v) && Has(data, at, ValueBytes(v))
    ensures NextText(env, data, at) == Returned((ValueMeans(env, v), at + |ValueBytes(v)|))
  {
    hide *;
    TextIsNoList(env, data, at);
    v := AcceptedValue(env, data, at, true);
    TextValueReads(env, data, at, v);
  }

  lemma TextIsNoList(env: Env, data: Bytes, at: nat)
    requires ProperTables(env.tables) && NextText(env, data, at).Returned?
    ensures at < |data| && data[at] != 0 && data[at] != 248 && data[at] != 249
    ensures ParsedValue(env, data, data[at], at + 1, true).Returned?
  {
  }

  // --------------------------------------------------------------------- nodes

  lemma AcceptedSize(data: Bytes, at: nat) returns (wide: bool)
    requires ParsedListSize(data, at).Returned?
    ensures var (n, next) := ParsedListSize(data, at).value;
      SizeFits(wide, n) && Has(data, at, SizeBytes(wide, n)) && next == at + |SizeBytes(wide, n)|
  {
    wide := data[at] == 249;
    var (n, next) := ParsedListSize(data, at).value;
    assert SizeBytes(wide, n) == data[at..next];
  }

  lemma {:induction false} AcceptedAttrs(env: Env, data: Bytes, at: nat, remaining: nat,
      before: seq<(string, string)>) returns (attrs: seq<(ValueForm, ValueForm)>)
    requires ProperTables(env.tables) && at <= |data| && ParsedAttrs(env, data, at, remaining, before).Returned?
    ensures AttrsStand(env.tables, attrs) && Has(data, at, AttrsBytes(attrs)) && |attrs| == remaining / 2
    decreases remaining
  {
    hide ProperTables, ValueStands, ValueBytes, ValueMeans, NextText, SetAttr, Has;
    if remaining <= 1 {
      attrs := [];
      HasSlice(data, at, at);
      assert data[at..at] == [];
    } else {
      var key := AcceptedTextValue(env, data, at);
      var mid := at + |ValueBytes(key)|;
      var value := AcceptedTextValue(env, data, mid);
      var next := mid + |ValueBytes(value)|;
      var later := AcceptedAttrs(env, data, next, remaining - 2,
        SetAttr(before, ValueMeans(env, key), ValueMeans(env, value)));
      attrs := [(key, value)] + later;
      assert attrs[1..] == later;
      HasBoth(data, mid, ValueBytes(value), AttrsBytes(later));
      HasBoth(data, at, ValueBytes(key), ValueBytes(value) + AttrsBytes(later));
    }
  }

  /** What an accepted node says of its parts. */
  lemma AcceptedParts(env: Env, data: Bytes, at: nat)
    requires ParsedNode(env, data, at).Returned?
    ensures ParsedListSize(data, at).Returned?
    ensures var (size, a) := ParsedListSize(data, at).value;
      && size > 0 && NextText(env, data, a).Returned?
      && var (tag, b) := NextText(env, data, a).value;
      && tag != "" && b <= |data| && ParsedAttrs(env, data, b, size - 1, []).Returned?
      && var c := ParsedAttrs(env, data, b, size - 1, []).value.1;
      && at < c && (size % 2 == 0 ==> ParsedContent(env, data, c).Returned?)
  {
    hide NextText, ParsedAttrs, ParsedContent, ParsedListSize;
  }

  /** The parts of a form, where its pieces stand one behind the other. */
  lemma FormFromParts(env: Env, data: Bytes, at: nat, n: NodeForm)
    requires SizeFits(n.wide, Items(n)) && ValueStands(env.tables, n.tag) && ValueMeans(env, n.tag) != ""
    requires AttrsStand(env.tables, n.attrs) && ContentStands(env, n.content)
    requires var a := at + |SizeBytes(n.wide, Items(n))|;
      var b := a + |ValueBytes(n.tag)|;
      var c := b + |AttrsBytes(n.attrs)|;
      && Has(data, at, SizeBytes(n.wide, Items(n))) && Has(data, a, ValueBytes(n.tag))
      && Has(data, b, AttrsBytes(n.attrs)) && Has(data, c, ContentBytes(n.content))
    ensures NodeStands(env, n) && Has(data, at, NodeBytes(n))
  {
    hide SizeBytes, ValueBytes, AttrsBytes, ContentBytes, Items, ValueStands, AttrsStand, ContentStands, ValueMeans,
      SizeFits, Has;
    var size, tag, attrs, content :=
      SizeBytes(n.wide, Items(n)), ValueBytes(n.tag), AttrsBytes(n.attrs), ContentBytes(n.content);
    assert NodeBytes(n) == size + (tag + (attrs + content));
    HasBoth(data, at + |size| + |tag|, attrs, content);
    HasBoth(data, at + |size|, tag, attrs + content);
    HasBoth(data, at, size, tag + (attrs + content));
  }

  lemma ItemsAre(n: NodeForm, size: nat)
    requires size > 0 && |n.attrs| == (size - 1) / 2 && (n.content.Missing? <==> size % 2 == 1)
    ensures Items(n) == size
  {
  }

  /** Where the attributes of an accepted node end. */
  lemma AttrsEnd(env: Env, data: Bytes, at: nat, remaining: nat, attrs: seq<(ValueForm, ValueForm)>)
    requires ProperTables(env.tables) && AttrsStand(env.tables, attrs) && Has(data, at, AttrsBytes(attrs))
    requires at <= |data| && |attrs| == remaining / 2 && ParsedAttrs(env, data, at, remaining, []).Returned?
    ensures ParsedAttrs(env, data, at, remaining, []).value.1 == at + |AttrsBytes(attrs)|
  {
    hide ProperTables, AttrsStand, Has, AttrsBytes, ParsedAttrs, AttrsMean, Assigned;
    NoAttrsMean(env);
    AttrsRead(env, data, at, remaining, [], attrs);
  }

  /** Every node the reader accepts has a form. */
  lemma {:induction false} AcceptedNode(env: Env, data: Bytes, at: nat) returns (n: NodeForm)
    requires ProperTables(env.tables) && ParsedNode(env, data, at).Returned?
    ensures NodeStands(env, n) && Has(data, at, NodeBytes(n))
    decreases |data| - at, 0, 0
  {
    hide *;
    AcceptedParts(env, data, at);
    var (size, a) := ParsedListSize(data, at).value;
    var wide := AcceptedSize(data, at);
    var tag := AcceptedTextValue(env, data, a);
    var b := NextText(env, data, a).value.1;
    var attrs := AcceptedAttrs(env, data, b, size - 1, []);
    AttrsEnd(env, data, b, size - 1, attrs);
    var c := ParsedAttrs(env, data, b, size - 1, []).value.1;
    if size % 2 == 0 {
      var content := AcceptedContent(env, data, c);
      n := NodeForm(wide, tag, attrs, content);
    } else {
      n := NodeForm(wide, tag, attrs, Missing);
      MissingStands(env, data, c);
    }
    ItemsAre(n, size);
    FormFromParts(env, data, at, n);
  }

  lemma MissingStands(env: Env, data: Bytes, at: nat)
    requires at <= |data|
    ensures ContentStands(env, Missing) && Has(data, at, ContentBytes(Missing))
  {
  }

  lemma ValueContent(env: Env, data: Bytes, at: nat) returns (c: ContentForm)
    requires ProperTables(env.tables) && ParsedContent(env, data, at).Returned?
    requires data[at] != 248 && data[at] != 249
    ensures !c.Missing? && ContentStands(env, c) && Has(data, at, ContentBytes(c))
  {
    hide ProperTables, ParsedValue, ValueStands, ValueBytes, Has;
    if data[at] == 0 {
      c := Nothing;
      OneInside(data, at, 0);
    } else {
      var v := AcceptedValue(env, data, at, false);
      c := Value(v);
    }
  }

  lemma ListedParts(env: Env, data: Bytes, at: nat)
    requires ParsedContent(env, data, at).Returned? && (data[at] == 248 || data[at] == 249)
    ensures ParsedListSize(data, at).Returned?
    ensures var (count, next) := ParsedListSize(data, at).value;
      ParsedNodes(env, data, next, count).Returned?
  {
    hide ParsedListSize, ParsedNodes;
  }

  lemma {:induction false} AcceptedContent(env: Env, data: Bytes, at: nat) returns (c: ContentForm)
    requires ProperTables(env.tables) && ParsedContent(env, data, at).Returned?
    ensures !c.Missing? && ContentStands(env, c) && Has(data, at, ContentBytes(c))
    decreases |data| - at, 0, 0
  {
    hide ProperTables, ParsedContent, ParsedListSize, ParsedNodes, SizeBytes, SizeFits, NodesStand, NodesBytes, Has;
    if data[at] == 248 || data[at] == 249 {
      ListedParts(env, data, at);
      var (count, next) := ParsedListSize(data, at).value;
      var wide := AcceptedSize(data, at);
      var nodes := AcceptedNodes(env, data, next, count);
      c := Listed(wide, nodes);
      HasBoth(data, at, SizeBytes(wide, count), NodesBytes(nodes));
    } else {
      c := ValueContent(env, data, at);
    }
  }

  lemma {:induction false} AcceptedNodes(env: Env, data: Bytes, at: nat, count: nat) returns (nodes: seq<NodeForm>)
    requires ProperTables(env.tables) && at <= |data| && ParsedNodes(env, data, at, count).Returned?
    ensures |nodes| == count && NodesStand(env, nodes) && Has(data, at, NodesBytes(nodes))
    decreases |data| - at, 1, count
  {
    hide ProperTables, ParsedNode, NodeStands, NodeBytes, NodeMeans, Has;
    if count == 0 {
      nodes := [];
      HasSlice(data, at, at);
      assert data[at..at] == [];
    } else {
      var first := AcceptedNode(env, data, at);
      NodeReads(env, data, at, first);
      var later := AcceptedNodes(env, data, at + |NodeBytes(first)|, count - 1);
      nodes := [first] + later;
      assert nodes[1..] == later;
      HasBoth(data, at, NodeBytes(first), NodesBytes(later));
    }
  }

  /** `data` opens with a well-formed node. */
  ghost predicate OpensWith(env: Env, data: Bytes, n: NodeForm) {
    NodeStands(env, n) && NodeBytes(n) <= data
  }

  /**
   * The reader accepts exactly the byte strings that open with a well-formed
   * node, and returns what that node means, whatever follows it.
   */
  lemma ReaderExact(env: Env, data: Bytes)
    requires ProperTables(env.tables)
    ensures DecodedNode(env, data).Returned? <==> exists n :: OpensWith(env, data, n)
    ensures forall n | OpensWith(env, data, n) :: DecodedNode(env, data) == Returned(NodeMeans(env, n))
  {
    hide ProperTables, NodeStands, NodeBytes, NodeMeans, ParsedNode, Has;
    forall n | OpensWith(env, data, n)
      ensures DecodedNode(env, data) == Returned(NodeMeans(env, n))
    {
      StartHas(data, NodeBytes(n));
      NodeReads(env, data, 0, n);
    }
    if DecodedNode(env, data).Returned? {
      var n := AcceptedNode(env, data, 0);
      StartHas(data, NodeBytes(n));
      assert OpensWith(env, data, n);
    }
  }

  lemma StartHas(data: Bytes, s: Bytes)
    ensures Has(data, 0, s) <==> s <= data
  {
    if |s| <= |data| {
      assert data[0..0 + |s|] == data[..|s|];
    }
  }
}
