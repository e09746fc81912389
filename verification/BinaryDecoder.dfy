/** The decoder as the source runs it: a reader with a moving offset. */
module BinaryDecoder {
  import opened Prelude
  import opened ByteOrder
  import opened Text
  import opened BinaryTokens
  import opened BinaryWire
  import opened BinaryRead

  /** A call's outcome and the reader's offset after it are the parsed value and position. */
  predicate Matches<T(==)>(r: Outcome<T>, offset: nat, parsed: Parsed<T>) {
    match parsed
    case Thrown => r.Thrown?
    case Returned((value, next)) => r == Returned(value) && offset == next
  }

  class ByteReader {
    const data: Bytes
    var offset: nat

    ghost predicate Valid()
      reads this
    {
      offset <= |data|
    }

    constructor (data: Bytes)
      ensures this.data == data && offset == 0 && Valid()
    {
      this.data := data;
      offset := 0;
    }

    method ReadUint8() returns (r: Outcome<byte>)
      requires Valid()
      modifies this
      ensures Valid()
      ensures if old(offset) < |data| then r == Returned(data[old(offset)]) && offset == old(offset) + 1
              else r.Thrown? && offset == old(offset)
    {
      if offset + 1 > |data| {
        return Thrown;
      }
      r := Returned(data[offset]);
      offset := offset + 1;
    }

    method ReadUint16() returns (r: Outcome<nat>)
      requires Valid()
      modifies this
      ensures Valid() && Matches(r, offset, Number16(data, old(offset)))
    {
      if offset + 2 > |data| {
        return Thrown;
      }
      r := Returned(ReadUint16BE(data[offset], data[offset + 1]));
      offset := offset + 2;
    }

    method ReadUint32() returns (r: Outcome<nat>)
      requires Valid()
      modifies this
      ensures Valid() && Matches(r, offset, ParsedLength(data, BINARY_32, old(offset)))
    {
      if offset + 4 > |data| {
        return Thrown;
      }
      var b0, b1, b2, b3 := Bits(data[offset + 3]), Bits(data[offset + 2]), Bits(data[offset + 1]), Bits(data[offset]);
      ShiftOr32Sum(b0, b1, b2, b3);
      r := Returned(ShiftOr32(b0, b1, b2, b3) as int);
      offset := offset + 4;
    }

    method ReadBytes(length: nat) returns (r: Outcome<Bytes>)
      requires Valid()
      modifies this
      ensures Valid() && Matches(r, offset, Take(data, old(offset), length))
    {
      if offset + length > |data| {
        return Thrown;
      }
      r := Returned(data[offset..offset + length]);
      offset := offset + length;
    }

    method GetRemaining() returns (n: nat)
      requires Valid()
      ensures n == |data| - offset
    {
      n := |data| - offset;
    }
  }

  /** The two characters of a byte, high half first. */
  function PairOf(p: Packing, i: nat): (pair: string)
    requires i < 0x100
  {
    [Alphabet(p)[i / 16], Alphabet(p)[i % 16]]
  }

  method PackedPairTable(p: Packing) returns (pairs: seq<string>)
    ensures |pairs| == 0x100 && forall i | 0 <= i < 0x100 :: pairs[i] == PairOf(p, i)
  {
    hide PairOf, Alphabet;
    pairs := [];
    var i := 0;
    while i < 0x100
      invariant 0 <= i <= 0x100 && |pairs| == i
      invariant forall j | 0 <= j < i :: pairs[j] == PairOf(p, j)
    {
      pairs := pairs + [PairOf(p, i)];
      i := i + 1;
    }
  }

  lemma {:induction false} UnpackAppend(a: Bytes, b: Bytes, p: Packing)
    ensures Unpack(a + b, p) == Unpack(a, p) + Unpack(b, p)
  {
    hide Alphabet;
    if a == [] {
      assert a + b == b;
    } else {
      assert (a + b)[1..] == a[1..] + b;
      UnpackAppend(a[1..], b, p);
    }
  }

  lemma UnpackOne(b: byte, p: Packing)
    ensures Unpack([b], p) == PairOf(p, b as nat)
  {
    hide Alphabet;
    assert [b][1..] == [] && Unpack([], p) == "";
  }

  method UnpackBytes(bytes: Bytes, p: Packing) returns (s: string)
    ensures s == Unpack(bytes, p)
  {
    hide Alphabet;
    var pairs := PackedPairTable(p);
    s := "";
    var i := 0;
    while i < |bytes|
      invariant 0 <= i <= |bytes| && s == Unpack(bytes[..i], p)
    {
      assert bytes[..i + 1] == bytes[..i] + [bytes[i]];
      UnpackAppend(bytes[..i], [bytes[i]], p);
      UnpackOne(bytes[i], p);
      s := s + pairs[bytes[i] as nat];
      i := i + 1;
    }
    assert bytes[..i] == bytes;
  }

  method ParsePacked(reader: ByteReader, p: Packing) returns (r: Outcome<string>)
    requires reader.Valid()
    modifies reader
    ensures reader.Valid() && Matches(r, reader.offset, ParsedPacked(reader.data, p, old(reader.offset)))
  {
    hide Unpack;
    var lengthByte := reader.ReadUint8();
    if lengthByte.Thrown? {
      return Thrown;
    }
    var odd := lengthByte.value as nat / 0x80 != 0;
    var byteCount := lengthByte.value as nat % 0x80;
    var outLength := byteCount * 2 - if odd then 1 else 0;
    if outLength < 0 {
      return Thrown;
    }
    var bytes := reader.ReadBytes(byteCount);
    if bytes.Thrown? {
      return Thrown;
    }
    var out := UnpackBytes(bytes.value, p);
    assert out[..|out|] == out;
    return Returned(if odd then out[..outLength] else out);
  }

  method ReadBinary(reader: ByteReader, token: byte) returns (r: Outcome<Bytes>)
    requires reader.Valid()
    modifies reader
    ensures reader.Valid() && Matches(r, reader.offset, ParsedBinary(reader.data, token, old(reader.offset)))
  {
    hide Take;
    var length := ReadLength(reader, token);
    if length.Thrown? {
      return Thrown;
    }
    r := reader.ReadBytes(length.value);
  }

  method ReadLength(reader: ByteReader, token: byte) returns (r: Outcome<nat>)
    requires reader.Valid()
    modifies reader
    ensures reader.Valid() && Matches(r, reader.offset, ParsedLength(reader.data, token, old(reader.offset)))
  {
    if token == BINARY_8 {
      var b := reader.ReadUint8();
      return if b.Thrown? then Thrown else Returned(b.value as nat);
    }
    if token == BINARY_20 {
      var high := reader.ReadUint8();
      if high.Thrown? {
        return Thrown;
      }
      var mid := reader.ReadUint8();
      if mid.Thrown? {
        return Thrown;
      }
      var low := reader.ReadUint8();
      if low.Thrown? {
        return Thrown;
      }
      return Returned(0x1_0000 * (high.value as nat % 16) + 0x100 * (mid.value as nat) + low.value as nat);
    }
    if token == BINARY_32 {
      r := reader.ReadUint32();
      return;
    }
    return Thrown;
  }

  method DecodeTokenString(env: Env, token: byte, reader: ByteReader) returns (r: Outcome<string>)
    requires reader.Valid()
    modifies reader
    ensures reader.Valid() && Matches(r, reader.offset, ParsedString(env, reader.data, token, old(reader.offset)))
  {
    hide ParsedPacked, ParsedBinary;
    var tables, code := env.tables, token as nat;
    if code > 0 && code <= |tables.single| {
      return Returned(tables.single[code - 1]);
    }
    if DICTIONARY_0 <= code <= DICTIONARY_3 {
      var dictionaryIndex := code - DICTIONARY_0;
      var index := reader.ReadUint8();
      if index.Thrown? {
        return Thrown;
      }
      if dictionaryIndex >= |tables.dictionaries| || index.value as nat >= |tables.dictionaries[dictionaryIndex]| {
        return Thrown;
      }
      return Returned(tables.dictionaries[dictionaryIndex][index.value]);
    }
    if token == NIBBLE_8 {
      r := ParsePacked(reader, Nibble);
      return;
    }
    if token == HEX_8 {
      r := ParsePacked(reader, Hex);
      return;
    }
    if IsBinary(token) {
      var binary := ReadBinary(reader, token);
      return if binary.Thrown? then Thrown else Returned(env.text(binary.value));
    }
    return Thrown;
  }

  /** `decodeTokenString(reader.readUint8(), reader)`. */
  method DecodeNextString(env: Env, reader: ByteReader) returns (r: Outcome<string>)
    requires reader.Valid()
    modifies reader
    ensures reader.Valid() && Matches(r, reader.offset, NextString(env, reader.data, old(reader.offset)))
  {
    hide ParsedString;
    var token := reader.ReadUint8();
    if token.Thrown? {
      return Thrown;
    }
    r := DecodeTokenString(env, token.value, reader);
  }

  method DecodeJidPair(env: Env, reader: ByteReader) returns (r: Outcome<string>)
    requires reader.Valid()
    modifies reader
    ensures reader.Valid() && Matches(r, reader.offset, ParsedJidPair(env, reader.data, old(reader.offset)))
  {
    hide ParsedString;
    var userToken := reader.ReadUint8();
    if userToken.Thrown? {
      return Thrown;
    }
    var user := Returned("");
    if userToken.value != LIST_EMPTY {
      user := DecodeTokenString(env, userToken.value, reader);
      if user.Thrown? {
        return Thrown;
      }
    }
    var server := DecodeNextString(env, reader);
    if server.Thrown? {
      return Thrown;
    }
    return Returned(if user.value == "" then server.value else user.value + "@" + server.value);
  }

  method DecodeJidU(env: Env, reader: ByteReader) returns (r: Outcome<string>)
    requires reader.Valid()
    modifies reader
    ensures reader.Valid() && Matches(r, reader.offset, ParsedJidU(env, reader.data, old(reader.offset)))
  {
    hide NextString, Show;
    var domainType := reader.ReadUint8();
    if domainType.Thrown? {
      return Thrown;
    }
    var device := reader.ReadUint8();
    if device.Thrown? {
      return Thrown;
    }
    var user := DecodeNextString(env, reader);
    if user.Thrown? {
      return Thrown;
    }
    var domain := HOST_DOMAIN;
    if domainType.value == DOMAIN_LID {
      domain := LID_SERVER;
    } else if domainType.value == DOMAIN_HOSTED_LID {
      domain := HOSTED_LID_SERVER;
    } else if domainType.value >= 0x80 && domainType.value % 2 == 0 {
      domain := HOSTED_SERVER;
    }
    if device.value > 0 {
      return Returned(user.value + ":" + Show(device.value as nat) + "@" + domain);
    }
    return Returned(user.value + "@" + domain);
  }

  method DecodeJidInterop(env: Env, reader: ByteReader) returns (r: Outcome<string>)
    requires reader.Valid()
    modifies reader
    ensures reader.Valid() && Matches(r, reader.offset, ParsedJidInterop(env, reader.data, old(reader.offset)))
  {
    hide NextString, Show;
    var user := DecodeNextString(env, reader);
    if user.Thrown? {
      return Thrown;
    }
    var device := reader.ReadUint16();
    if device.Thrown? {
      return Thrown;
    }
    var integrator := reader.ReadUint16();
    if integrator.Thrown? {
      return Thrown;
    }
    var server := DecodeNextString(env, reader);
    if server.Thrown? {
      return Thrown;
    }
    return Returned(Show(integrator.value) + "-" + user.value + ":" + Show(device.value) + "@interop");
  }

  method DecodeJidFb(env: Env, reader: ByteReader) returns (r: Outcome<string>)
    requires reader.Valid()
    modifies reader
    ensures reader.Valid() && Matches(r, reader.offset, ParsedJidFb(env, reader.data, old(reader.offset)))
  {
    hide NextString, Show;
    var user := DecodeNextString(env, reader);
    if user.Thrown? {
      return Thrown;
    }
    var device := reader.ReadUint16();
    if device.Thrown? {
      return Thrown;
    }
    var server := DecodeNextString(env, reader);
    if server.Thrown? {
      return Thrown;
    }
    return Returned(user.value + ":" + Show(device.value) + "@msgr");
  }

  method DecodeValue(env: Env, reader: ByteReader, token: byte, forAttr: bool) returns (r: Outcome<Value>)
    requires reader.Valid()
    modifies reader
    ensures reader.Valid()
        && Matches(r, reader.offset, ParsedValue(env, reader.data, token, old(reader.offset), forAttr))
  {
    hide ParsedString, ParsedBinary, ParsedJidPair, ParsedJidU, ParsedJidInterop, ParsedJidFb;
    if token == LIST_EMPTY {
      return Returned(Null);
    }
    if IsBinary(token) {
      var binary := ReadBinary(reader, token);
      if binary.Thrown? {
        return Thrown;
      }
      return Returned(if forAttr then TextValue(env.text(binary.value)) else BytesValue(binary.value));
    }
    var text;
    if token == JID_PAIR {
      text := DecodeJidPair(env, reader);
    } else if token == JID_U {
      text := DecodeJidU(env, reader);
    } else if token == JID_INTEROP {
      text := DecodeJidInterop(env, reader);
    } else if token == JID_FB {
      text := DecodeJidFb(env, reader);
    } else {
      text := DecodeTokenString(env, token, reader);
    }
    return if text.Thrown? then Thrown else Returned(TextValue(text.value));
  }

  /** A value that must be text. */
  method DecodeText(env: Env, reader: ByteReader) returns (r: Outcome<string>)
    requires reader.Valid()
    modifies reader
    ensures reader.Valid() && Matches(r, reader.offset, NextText(env, reader.data, old(reader.offset)))
  {
    hide ParsedValue;
    var token := reader.ReadUint8();
    if token.Thrown? {
      return Thrown;
    }
    var value := DecodeValue(env, reader, token.value, true);
    if value.Thrown? || !value.value.TextValue? {
      return Thrown;
    }
    return Returned(value.value.s);
  }

  method DecodeAttrs(env: Env, reader: ByteReader, count: nat) returns (r: Outcome<seq<(string, string)>>)
    requires reader.Valid()
    modifies reader
    ensures reader.Valid() && Matches(r, reader.offset, ParsedAttrs(env, reader.data, old(reader.offset), count, []))
  {
    hide NextText, SetAttr;
    var attrs: seq<(string, string)> := [];
    var remaining := count;
    while remaining > 1
      invariant reader.Valid()
      invariant ParsedAttrs(env, reader.data, reader.offset, remaining, attrs)
             == ParsedAttrs(env, reader.data, old(reader.offset), count, [])
    {
      var key := DecodeText(env, reader);
      if key.Thrown? {
        return Thrown;
      }
      var value := DecodeText(env, reader);
      if value.Thrown? {
        return Thrown;
      }
      attrs := SetAttr(attrs, key.value, value.value);
      remaining := remaining - 2;
    }
    return Returned(attrs);
  }

  method DecodeListSize(reader: ByteReader) returns (r: Outcome<nat>)
    requires reader.Valid()
    modifies reader
    ensures reader.Valid() && Matches(r, reader.offset, ParsedListSize(reader.data, old(reader.offset)))
  {
    var listType := reader.ReadUint8();
    if listType.Thrown? {
      return Thrown;
    }
    if listType.value == LIST_8 {
      var size := reader.ReadUint8();
      return if size.Thrown? then Thrown else Returned(size.value as nat);
    }
    if listType.value == LIST_16 {
      r := reader.ReadUint16();
      return;
    }
    return Thrown;
  }

  /** Every call moves the reader on, so the recursion ends on any bytes. */
  method DecodeNodeInternal(env: Env, reader: ByteReader) returns (r: Outcome<Node>)
    requires reader.Valid()
    modifies reader
    ensures reader.Valid() && Matches(r, reader.offset, ParsedNode(env, reader.data, old(reader.offset)))
    decreases |reader.data| - reader.offset, 0
  {
    hide NextText, ParsedAttrs, ParsedContent, ParsedListSize;
    var listSize := DecodeListSize(reader);
    if listSize.Thrown? || listSize.value == 0 {
      return Thrown;
    }
    var tag := DecodeText(env, reader);
    if tag.Thrown? || tag.value == "" {
      return Thrown;
    }
    var attrs := DecodeAttrs(env, reader, listSize.value - 1);
    if attrs.Thrown? {
      return Thrown;
    }
    if listSize.value % 2 == 1 {
      return Returned(Node(tag.value, attrs.value, Absent));
    }
    var content := DecodeContent(env, reader);
    if content.Thrown? {
      return Thrown;
    }
    return Returned(Node(tag.value, attrs.value, content.value));
  }

  method DecodeContent(env: Env, reader: ByteReader) returns (r: Outcome<Content>)
    requires reader.Valid()
    modifies reader
    ensures reader.Valid() && Matches(r, reader.offset, ParsedContent(env, reader.data, old(reader.offset)))
    decreases |reader.data| - reader.offset, 0
  {
    hide ParsedValue, ParsedNodes;
    var contentToken := reader.ReadUint8();
    if contentToken.Thrown? {
      return Thrown;
    }
    if contentToken.value == LIST_EMPTY {
      return Returned(Absent);
    }
    if contentToken.value == LIST_8 || contentToken.value == LIST_16 {
      var count;
      if contentToken.value == LIST_8 {
        var size := reader.ReadUint8();
        count := if size.Thrown? then Thrown else Returned(size.value as nat);
      } else {
        count := reader.ReadUint16();
      }
      if count.Thrown? {
        return Thrown;
      }
      var children := DecodeNodes(env, reader, count.value);
      return if children.Thrown? then Thrown else Returned(Children(children.value));
    }
    var value := DecodeValue(env, reader, contentToken.value, false);
    if value.Thrown? {
      return Thrown;
    }
    match value.value
    case Null => return Returned(Absent);
    case TextValue(s) => return Returned(Raw(env.utf8(s)));
    case BytesValue(b) => return Returned(Raw(b));
  }

  /** The nodes already read in front of those still to come. */
  function Prepend(nodes: seq<Node>, later: Parsed<seq<Node>>): (r: Parsed<seq<Node>>) {
    match later
    case Thrown => Thrown
    case Returned((more, next)) => Returned((nodes + more, next))
  }

  method DecodeNodes(env: Env, reader: ByteReader, count: nat) returns (r: Outcome<seq<Node>>)
    requires reader.Valid()
    modifies reader
    ensures reader.Valid() && Matches(r, reader.offset, ParsedNodes(env, reader.data, old(reader.offset), count))
    decreases |reader.data| - reader.offset, 1
  {
    hide ParsedNode;
    var children: seq<Node> := [];
    var i := 0;
    assert forall more: seq<Node> :: children + more == more;
    while i < count
      invariant 0 <= i <= count && reader.Valid() && old(reader.offset) <= reader.offset
      invariant ParsedNodes(env, reader.data, old(reader.offset), count)
             == Prepend(children, ParsedNodes(env, reader.data, reader.offset, count - i))
    {
      var child := DecodeNodeInternal(env, reader);
      if child.Thrown? {
        return Thrown;
      }
      assert forall more: seq<Node> :: children + ([child.value] + more) == (children + [child.value]) + more;
      children := children + [child.value];
      i := i + 1;
    }
    assert children + [] == children;
    return Returned(children);
  }

  method DecodeBinaryNode(env: Env, data: Bytes) returns (r: Outcome<Node>)
    ensures r == DecodedNode(env, data)
  {
    hide ParsedNode;
    var reader := new ByteReader(data);
    r := DecodeNodeInternal(env, reader);
  }

  method DecodeBinaryNodeStanza(env: Env, inflate: Bytes -> Outcome<Bytes>, stanza: Bytes) returns (r: Outcome<Node>)
    ensures r == DecodedStanza(env, inflate, stanza)
  {
    hide DecodedNode;
    var reader := new ByteReader(stanza);
    var flag := reader.ReadUint8();
    if flag.Thrown? {
      return Thrown;
    }
    var remaining := reader.GetRemaining();
    if flag.value == STREAM_END && remaining == 0 {
      assert stanza == [STREAM_END];
      return Thrown;
    }
    var nodeBytes := reader.ReadBytes(remaining);
    assert nodeBytes.value == stanza[1..];
    if flag.value / 2 % 2 != 0 {
      nodeBytes := inflate(nodeBytes.value);
      if nodeBytes.Thrown? {
        return Thrown;
      }
    }
    r := DecodeBinaryNode(env, nodeBytes.value);
  }
}
