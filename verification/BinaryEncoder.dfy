/** The encoder as the source runs it: a growing buffer and methods that append to it. */
module BinaryEncoder {
  import opened Prelude
  import opened Text
  import opened BinaryTokens
  import opened BinaryWire

  const INITIAL_CAPACITY := 256

  class ByteWriter {
    var buffer: array<byte>
    var offset: nat

    ghost predicate Valid()
      reads this
    {
      offset <= buffer.Length && buffer.Length > 0
    }

    ghost function Contents(): (s: Bytes)
      requires Valid()
      reads this, buffer
    {
      buffer[..offset]
    }

    /** The buffer is the old one or a new one, and holds `s` after what was there. */
    twostate predicate Wrote(s: Bytes)
      requires old(Valid())
      reads this, buffer
    {
      Valid() && Kept() && Contents() == old(Contents()) + s
    }

    twostate predicate Kept()
      reads this
    {
      buffer == old(buffer) || fresh(buffer)
    }

    constructor ()
      ensures Valid() && fresh(buffer) && Contents() == []
    {
      buffer := new byte[INITIAL_CAPACITY];
      offset := 0;
    }

    /** Room for `extra` more bytes, by doubling; nothing written is lost. */
    method Ensure(extra: nat)
      requires Valid()
      modifies this
      ensures Valid() && Kept() && offset == old(offset) && Contents() == old(Contents())
      ensures offset + extra <= buffer.Length
    {
      var needed := offset + extra;
      if needed <= buffer.Length {
        return;
      }
      var size := buffer.Length;
      while size < needed
        invariant size >= buffer.Length
        decreases needed - size
      {
        size := size * 2;
      }
      var next := new byte[size];
      forall k | 0 <= k < buffer.Length {
        next[k] := buffer[k];
      }
      buffer := next;
    }

    method WriteBytes(value: Bytes)
      requires Valid()
      modifies this, buffer
      ensures Wrote(value)
    {
      Ensure(|value|);
      forall k | 0 <= k < |value| {
        buffer[offset + k] := value[k];
      }
      offset := offset + |value|;
    }

    method WriteUint8(value: nat)
      requires Valid()
      modifies this, buffer
      ensures Wrote([(value % 0x100) as byte])
    {
      Ensure(1);
      buffer[offset] := (value % 0x100) as byte;
      offset := offset + 1;
    }

    method WriteUint16(value: nat)
      requires Valid()
      modifies this, buffer
      ensures Wrote(BigEndian2(value))
    {
      Ensure(2);
      buffer[offset] := (value / 0x100 % 0x100) as byte;
      buffer[offset + 1] := (value % 0x100) as byte;
      offset := offset + 2;
    }

    method WriteUint32(value: nat)
      requires Valid()
      modifies this, buffer
      ensures Wrote(BigEndian4(value))
    {
      Ensure(4);
      buffer[offset] := (value / 0x100_0000 % 0x100) as byte;
      buffer[offset + 1] := (value / 0x1_0000 % 0x100) as byte;
      buffer[offset + 2] := (value / 0x100 % 0x100) as byte;
      buffer[offset + 3] := (value % 0x100) as byte;
      offset := offset + 4;
    }

    /** One byte to be filled in later. */
    method ReserveUint8() returns (at: nat)
      requires Valid()
      modifies this
      ensures Valid() && Kept() && at == old(offset) && offset == at + 1 && Contents()[..at] == old(Contents())
    {
      Ensure(1);
      at := offset;
      offset := offset + 1;
    }

    method PatchUint8(at: nat, value: nat)
      requires Valid() && at < offset
      modifies buffer
      ensures Contents() == old(Contents())[at := (value % 0x100) as byte]
    {
      buffer[at] := (value % 0x100) as byte;
    }

    /** The text encoder writes straight into the buffer. */
    method WriteUtf8(encoded: Bytes, maxBytes: nat) returns (written: nat)
      requires Valid() && |encoded| <= maxBytes
      modifies this, buffer
      ensures Wrote(encoded) && written == |encoded|
    {
      Ensure(maxBytes);
      forall k | 0 <= k < |encoded| {
        buffer[offset + k] := encoded[k];
      }
      written := |encoded|;
      offset := offset + written;
    }

    method ToUint8Array() returns (s: Bytes)
      requires Valid()
      ensures s == Contents()
    {
      s := buffer[..offset];
    }
  }

  /**
   * The loop counts characters where the source counts units; a text on which
   * they differ holds a character of neither alphabet.
   */
  method ClassifyPackedString(value: string) returns (p: Packing)
    ensures p == Classify(value)
  {
    var n := |value|;
    if n == 0 || n >= 128 {
      return NotPacked;
    }
    var nibbleOk, hexOk := true, true;
    var i := 0;
    while i < n
      invariant 0 <= i <= n && (nibbleOk || hexOk)
      invariant nibbleOk == AllIn(value[..i], Nibble) && hexOk == AllIn(value[..i], Hex)
    {
      var c := value[i];
      AllInNext(value, i, Nibble);
      AllInNext(value, i, Hex);
      i := i + 1;
      if IsDigit(c) {
        continue;
      }
      if c == '-' || c == '.' {
        hexOk := false;
        if !nibbleOk {
          AllInPart(value, i, Nibble);
          AllInPart(value, i, Hex);
          return NotPacked;
        }
        continue;
      }
      if 'A' <= c <= 'F' {
        nibbleOk := false;
        if !hexOk {
          AllInPart(value, i, Nibble);
          AllInPart(value, i, Hex);
          return NotPacked;
        }
        continue;
      }
      AllInPart(value, i, Nibble);
      AllInPart(value, i, Hex);
      return NotPacked;
    }
    assert value[..i] == value;
    return if nibbleOk then Nibble else Hex;
  }

  lemma AllInNext(s: string, i: nat, p: Packing)
    requires i < |s|
    ensures AllIn(s[..i + 1], p) <==> AllIn(s[..i], p) && if p.Hex? then HexChar(s[i]) else NibbleChar(s[i])
  {
    hide HexChar, NibbleChar;
    assert s[..i + 1] == s[..i] + [s[i]];
  }

  lemma AllInPart(s: string, i: nat, p: Packing)
    requires i <= |s|
    ensures AllIn(s, p) ==> AllIn(s[..i], p)
  {
    hide HexChar, NibbleChar;
  }

  function From(s: string, i: nat): string {
    if i < |s| then s[i..] else ""
  }

  /** The pair the loop writes at `i` is the first of what is left. */
  lemma PackFrom(s: string, i: nat, p: Packing)
    requires AllIn(From(s, i), p) && i < |s|
    ensures AllIn(From(s, i + 2), p) && Pack(From(s, i), p) == [FirstPair(From(s, i), p)] + Pack(From(s, i + 2), p)
    ensures if p.Hex? then HexChar(s[i]) else NibbleChar(s[i])
    ensures i + 1 < |s| ==> if p.Hex? then HexChar(s[i + 1]) else NibbleChar(s[i + 1])
    ensures FirstPair(From(s, i), p) as nat
        == 16 * NibbleOf(s[i], p) + (if i + 1 < |s| then NibbleOf(s[i + 1], p) else 15)
  {
    hide HexChar, NibbleChar, NibbleOf, Pack;
    var rest := From(s, i);
    assert AfterPair(rest) == From(s, i + 2);
    assert rest[0] == s[i] && (i + 1 < |s| ==> rest[1] == s[i + 1]);
    PackUnfold(rest, p);
  }

  lemma PackUnfold(s: string, p: Packing)
    requires s != "" && AllIn(s, p)
    ensures AllIn(AfterPair(s), p) && Pack(s, p) == [FirstPair(s, p)] + Pack(AfterPair(s), p)
  {
    hide HexChar, NibbleChar, NibbleOf, FirstPair;
  }

  method WritePackedString(value: string, p: Packing, writer: ByteWriter)
    requires writer.Valid() && AllIn(value, p) && |value| < 128
    modifies writer, writer.buffer
    ensures writer.Wrote(PackedBytes(value, p))
  {
    hide AllIn, HexChar, NibbleChar, NibbleOf, Pack, FirstPair, From;
    var length := (|value| + 1) / 2;
    if |value| % 2 == 1 {
      length := length + 0x80;
    }
    writer.WriteUint8(if p.Hex? then HEX_8 as nat else NIBBLE_8 as nat);
    writer.WriteUint8(length);
    ghost var whole := writer.Contents() + Pack(value, p);
    assert whole == old(writer.Contents()) + PackedBytes(value, p);
    FromEnds(value);
    WritePairs(value, p, writer, whole);
  }

  method WritePair(value: string, i: nat, p: Packing, writer: ByteWriter)
    requires writer.Valid() && i < |value| && AllIn(From(value, i), p)
    modifies writer, writer.buffer
    ensures writer.Wrote([FirstPair(From(value, i), p)])
  {
    hide AllIn, HexChar, NibbleChar, NibbleOf, Pack, FirstPair, From;
    PackFrom(value, i, p);
    var high := NibbleOf(value[i], p);
    var low := 15;
    if i + 1 < |value| {
      low := NibbleOf(value[i + 1], p);
    }
    writer.WriteUint8(16 * high + low);
  }

  method WritePairs(value: string, p: Packing, writer: ByteWriter, ghost whole: Bytes)
    requires writer.Valid() && AllIn(value, p) && whole == writer.Contents() + Pack(value, p)
    modifies writer, writer.buffer
    ensures writer.Valid() && writer.Kept() && writer.Contents() == whole
  {
    hide AllIn, HexChar, NibbleChar, NibbleOf, Pack, FirstPair, From;
    FromEnds(value);
    var i := 0;
    while i < |value|
      invariant writer.Valid() && writer.Kept()
      invariant AllIn(From(value, i), p)
      invariant writer.Contents() + Pack(From(value, i), p) == whole
      decreases |value| - i
    {
      PackFrom(value, i, p);
      ghost var before, pair, later := writer.Contents(), FirstPair(From(value, i), p), Pack(From(value, i + 2), p);
      WritePair(value, i, p, writer);
      assert before + [pair] + later == before + ([pair] + later);
      i := i + 2;
    }
    FromPast(value, i, p);
  }

  lemma FromEnds(s: string)
    ensures From(s, 0) == s
  {
  }

  lemma FromPast(s: string, i: nat, p: Packing)
    requires i >= |s|
    ensures From(s, i) == "" && AllIn("", p) && Pack("", p) == []
  {
  }

  method Write20Bits(length: nat, writer: ByteWriter)
    requires writer.Valid()
    modifies writer, writer.buffer
    ensures writer.Wrote([(length / 0x1_0000 % 0x100) as byte, (length / 0x100 % 0x100) as byte,
        (length % 0x100) as byte])
  {
    writer.WriteUint8(length / 0x1_0000 % 0x100);
    writer.WriteUint8(length / 0x100 % 0x100);
    writer.WriteUint8(length % 0x100);
  }

  method WriteBinaryLength(length: nat, writer: ByteWriter) returns (ok: bool)
    requires writer.Valid()
    modifies writer, writer.buffer
    ensures writer.Valid() && writer.Kept()
    ensures ok <==> length < BINARY_LIMIT
    ensures ok ==> writer.Wrote(BinaryHeader(length))
  {
    if length < 0x100 {
      writer.WriteUint8(BINARY_8 as nat);
      writer.WriteUint8(length);
      return true;
    }
    if length < 0x10_0000 {
      writer.WriteUint8(BINARY_20 as nat);
      Write20Bits(length, writer);
      return true;
    }
    if length >= BINARY_LIMIT {
      return false;
    }
    writer.WriteUint8(BINARY_32 as nat);
    writer.WriteUint32(length);
    return true;
  }

  /** The length byte is reserved, and filled in once the text has been written. */
  method WriteShortText(encoded: Bytes, maxBytes: nat, writer: ByteWriter)
    requires writer.Valid() && |encoded| <= maxBytes < 0x100
    modifies writer, writer.buffer
    ensures writer.Wrote([BINARY_8, |encoded| as byte] + encoded)
  {
    writer.WriteUint8(BINARY_8 as nat);
    ghost var before := writer.Contents();
    var lengthAt := writer.ReserveUint8();
    var written := writer.WriteUtf8(encoded, maxBytes);
    writer.PatchUint8(lengthAt, written);
    assert writer.Contents() == before + [|encoded| as byte] + encoded;
  }

  method WriteUtf8WithLength(env: Env, value: string, writer: ByteWriter) returns (ok: bool)
    requires Utf8Bounded(env) && writer.Valid()
    modifies writer, writer.buffer
    ensures writer.Valid() && writer.Kept()
    ensures ok <==> |env.utf8(value)| < BINARY_LIMIT
    ensures ok ==> writer.Wrote(EncodedText(env, value))
  {
    var encoded := env.utf8(value);
    if Units(value) < 86 {
      assert |encoded| <= 3 * Units(value);
      WriteShortText(encoded, 3 * Units(value), writer);
      return true;
    }
    ok := WriteBinaryLength(|encoded|, writer);
    if ok {
      writer.WriteBytes(encoded);
    }
  }

  method WriteString(env: Env, value: string, writer: ByteWriter) returns (ok: bool)
    requires Utf8Bounded(env) && writer.Valid()
    modifies writer, writer.buffer
    ensures writer.Valid() && writer.Kept()
    ensures ok <==> StringFits(env, value)
    ensures ok ==> writer.Wrote(EncodedString(env, value))
  {
    hide BinaryHeader, PackedBytes, AllIn;
    if value in env.tokens {
      var token := env.tokens[value];
      WriteToken(token, writer);
      return true;
    }
    var packed := ClassifyPackedString(value);
    if packed == Nibble {
      WritePackedString(value, Nibble, writer);
      return true;
    }
    if packed == Hex {
      WritePackedString(value, Hex, writer);
      return true;
    }
    ok := WriteUtf8WithLength(env, value, writer);
  }

  method WriteToken(token: nat, writer: ByteWriter)
    requires writer.Valid()
    modifies writer, writer.buffer
    ensures writer.Wrote(TokenBytes(token))
  {
    if token < MERGED_TOKEN_DICTIONARY_FLAG {
      writer.WriteUint8(token);
    } else {
      writer.WriteUint8(DICTIONARY_0 + token / 0x100 % 0x100);
      writer.WriteUint8(token % 0x100);
    }
  }

  const KNOWN_JID_SERVERS: seq<string> :=
    [HOST_DOMAIN, LID_SERVER, "g.us", "newsletter", "broadcast", HOSTED_LID_SERVER, HOSTED_SERVER, "bot", "msgr",
      "interop"]

  /** A known server is only ever found where it stands, so the search changes no bytes. */
  method MatchKnownServer(value: string, from: nat) returns (r: Option<string>)
    requires from <= |value|
    ensures r.Some? ==> r.value == value[from..]
  {
    var i := 0;
    while i < |KNOWN_JID_SERVERS| {
      var server := KNOWN_JID_SERVERS[i];
      if |server| == |value| - from && value[from..] == server {
        return Some(server);
      }
      i := i + 1;
    }
    return None;
  }

  /** The device digits, refused as soon as they exceed a byte. */
  method ParseDevice(value: string, from: nat, end: nat) returns (device: Option<nat>)
    requires from < end <= |value|
    ensures device == if IsDeviceText(value[from..end]) then Some(NatValue(value[from..end])) else None
  {
    var n := 0;
    var i := from;
    while i < end
      invariant from <= i <= end && n <= 255
      invariant i == from ==> n == 0
      invariant i > from ==> IsDigits(value[from..i]) && n == NatValue(value[from..i])
    {
      DigitNext(value, from, i);
      if !IsDigit(value[i]) {
        DigitsPart(value, from, i + 1, end);
        return None;
      }
      n := n * 10 + (value[i] as int - '0' as int);
      i := i + 1;
      if n > 255 {
        DigitsPart(value, from, i, end);
        return None;
      }
    }
    return Some(n);
  }

  lemma DigitNext(s: string, from: nat, i: nat)
    requires from <= i < |s| && (i > from ==> IsDigits(s[from..i]))
    ensures IsDigits(s[from..i + 1]) <==> IsDigit(s[i])
    ensures IsDigit(s[i]) ==>
      NatValue(s[from..i + 1]) == (if i > from then 10 * NatValue(s[from..i]) else 0) + (s[i] as int - '0' as int)
  {
    var t, n := s[from..i + 1], i - from;
    assert |t| == n + 1 && t[..n] == s[from..i] && t[n] == s[i];
  }

  /** More digits only make a number larger. */
  lemma {:induction false} DigitsPart(s: string, from: nat, i: nat, end: nat)
    requires 0 <= from < i <= end <= |s|
    ensures IsDigits(s[from..end]) ==> IsDigits(s[from..i]) && NatValue(s[from..i]) <= NatValue(s[from..end])
    decreases end
  {
    if i < end && IsDigits(s[from..end]) {
      var t := s[from..end];
      assert t[..|t| - 1] == s[from..end - 1];
      assert IsDigits(s[from..end - 1]);
      DigitsPart(s, from, i, end - 1);
    }
  }

  /** What became of an attempt to write a value as an address. */
  datatype JidOutcome = NotAnAddress | Written | TooLong

  method TryWriteJid(env: Env, value: string, writer: ByteWriter) returns (r: JidOutcome)
    requires Utf8Bounded(env) && writer.Valid()
    modifies writer, writer.buffer
    ensures writer.Valid() && writer.Kept()
    ensures r.NotAnAddress? <==> JidForm(value).NotJid?
    ensures r.NotAnAddress? ==> writer.Contents() == old(writer.Contents())
    ensures !r.NotAnAddress? ==> (r.Written? <==> ValueFits(env, value))
    ensures r.Written? ==> writer.Wrote(EncodedValue(env, value))
  {
    hide StringFits, EncodedString, IsDigits, NatValue, Utf8Bounded, DomainType, IndexOf;
    var atIndex := IndexOf(value, '@');
    if atIndex == 0 || atIndex >= |value| - 1 {
      return NotAnAddress;
    }
    if IndexOf(value[atIndex + 1..], '@') != |value| - atIndex - 1 {
      return NotAnAddress;
    }
    NotFound(value[atIndex + 1..], '@');
    var userEnd := atIndex;
    var device := 0;
    var colonIndex := IndexOf(value, ':');
    if colonIndex < atIndex {
      if colonIndex == atIndex - 1 {
        NoDigits();
        assert value[colonIndex + 1..atIndex] == "";
        return NotAnAddress;
      }
      var parsed := ParseDevice(value, colonIndex + 1, atIndex);
      if parsed.None? {
        return NotAnAddress;
      }
      device := parsed.value;
      userEnd := colonIndex;
    }
    var known := MatchKnownServer(value, atIndex + 1);
    var server := if known.Some? then known.value else value[atIndex + 1..];
    var domainType := DomainType(server);
    var user := value[..userEnd];
    var ok;
    if domainType.Some? && device != 0 && userEnd > 0 {
      ok := WriteDeviceJid(env, domainType.value, device as byte, user, writer);
    } else {
      ok := WritePairJid(env, user, server, writer);
    }
    return if ok then Written else TooLong;
  }

  lemma NoDigits()
    ensures !IsDigits("")
  {
  }

  lemma NotFound(s: string, c: char)
    ensures IndexOf(s, c) == |s| <==> c !in s
  {
  }

  method WriteDeviceJid(env: Env, domainType: byte, device: byte, user: string, writer: ByteWriter) returns (ok: bool)
    requires Utf8Bounded(env) && writer.Valid()
    modifies writer, writer.buffer
    ensures writer.Valid() && writer.Kept()
    ensures ok <==> StringFits(env, user)
    ensures ok ==> writer.Wrote([JID_U, domainType, device] + EncodedString(env, user))
  {
    hide StringFits, EncodedString, Utf8Bounded;
    writer.WriteUint8(JID_U as nat);
    writer.WriteUint8(domainType as nat);
    writer.WriteUint8(device as nat);
    ok := WriteString(env, user, writer);
  }

  method WritePairJid(env: Env, user: string, server: string, writer: ByteWriter) returns (ok: bool)
    requires Utf8Bounded(env) && writer.Valid()
    modifies writer, writer.buffer
    ensures writer.Valid() && writer.Kept()
    ensures ok <==> (user == "" || StringFits(env, user)) && StringFits(env, server)
    ensures ok ==> writer.Wrote([JID_PAIR] + (if user == "" then [LIST_EMPTY] else EncodedString(env, user))
        + EncodedString(env, server))
  {
    hide StringFits, EncodedString, Utf8Bounded;
    writer.WriteUint8(JID_PAIR as nat);
    if user == "" {
      writer.WriteUint8(LIST_EMPTY as nat);
    } else {
      ok := WriteString(env, user, writer);
      if !ok {
        return;
      }
    }
    ok := WriteString(env, server, writer);
  }

  method WriteListSize(size: nat, writer: ByteWriter) returns (ok: bool)
    requires writer.Valid()
    modifies writer, writer.buffer
    ensures writer.Valid() && writer.Kept()
    ensures ok <==> size < LIST_LIMIT
    ensures ok ==> writer.Wrote(ListHeader(size))
  {
    if size < 0x100 {
      writer.WriteUint8(LIST_8 as nat);
      writer.WriteUint8(size);
      return true;
    }
    if size >= LIST_LIMIT {
      return false;
    }
    writer.WriteUint8(LIST_16 as nat);
    writer.WriteUint16(size);
    return true;
  }

  method WriteValue(env: Env, value: string, writer: ByteWriter) returns (ok: bool)
    requires Utf8Bounded(env) && writer.Valid()
    modifies writer, writer.buffer
    ensures writer.Valid() && writer.Kept()
    ensures ok <==> ValueFits(env, value)
    ensures ok ==> writer.Wrote(EncodedValue(env, value))
  {
    hide StringFits, EncodedString, Utf8Bounded, JidForm;
    var r := TryWriteJid(env, value, writer);
    if r.NotAnAddress? {
      ok := WriteString(env, value, writer);
    } else {
      ok := r.Written?;
    }
  }

  method WriteAttrs(env: Env, attrs: seq<(string, string)>, writer: ByteWriter) returns (ok: bool)
    requires Utf8Bounded(env) && writer.Valid()
    modifies writer, writer.buffer
    ensures writer.Valid() && writer.Kept()
    ensures ok <==> AttrsFit(env, attrs)
    ensures ok ==> writer.Wrote(EncodedAttrs(env, attrs))
  {
    hide StringFits, ValueFits, EncodedString, EncodedValue, Utf8Bounded;
    ghost var whole := old(writer.Contents()) + EncodedAttrs(env, attrs);
    var i := 0;
    while i < |attrs|
      invariant 0 <= i <= |attrs| && writer.Valid() && writer.Kept()
      invariant forall j | 0 <= j < i :: StringFits(env, attrs[j].0) && ValueFits(env, attrs[j].1)
      invariant writer.Contents() + EncodedAttrs(env, attrs[i..]) == whole
    {
      ghost var before := writer.Contents();
      ok := WriteString(env, attrs[i].0, writer);
      if !ok {
        return;
      }
      ok := WriteValue(env, attrs[i].1, writer);
      if !ok {
        return;
      }
      assert attrs[i..][1..] == attrs[i + 1..];
      i := i + 1;
    }
    return true;
  }

  /** Throws, by answering false, exactly when some list or byte string of the node is too long. */
  method WriteNodeInternal(env: Env, node: Node, writer: ByteWriter) returns (ok: bool)
    requires Utf8Bounded(env) && writer.Valid()
    modifies writer, writer.buffer
    ensures writer.Valid() && writer.Kept()
    ensures ok <==> NodeFits(env, node)
    ensures ok ==> writer.Wrote(EncodedNode(env, node))
    decreases node, 1
  {
    hide StringFits, AttrsFit, ContentFits, EncodedString, EncodedAttrs, EncodedContent, ListHeader, Utf8Bounded;
    ok := WriteListSize(ListSize(node), writer);
    if !ok {
      return;
    }
    ok := WriteString(env, node.tag, writer);
    if !ok {
      return;
    }
    ok := WriteAttrs(env, node.attrs, writer);
    if !ok {
      return;
    }
    ok := WriteContent(env, node.content, writer);
  }

  method WriteContent(env: Env, content: Content, writer: ByteWriter) returns (ok: bool)
    requires Utf8Bounded(env) && writer.Valid()
    modifies writer, writer.buffer
    ensures writer.Valid() && writer.Kept()
    ensures ok <==> ContentFits(env, content)
    ensures ok ==> writer.Wrote(EncodedContent(env, content))
    decreases content, 1
  {
    hide BinaryHeader, ListHeader, NodeFits, EncodedNodes, Utf8Bounded;
    match content
    case Absent =>
      return true;
    case Text(s) =>
      ok := WriteUtf8WithLength(env, s, writer);
    case Raw(bytes) =>
      ok := WriteBinaryLength(|bytes|, writer);
      if ok {
        writer.WriteBytes(bytes);
      }
    case Children(nodes) =>
      ok := WriteListSize(|nodes|, writer);
      if ok {
        ok := WriteNodes(env, nodes, writer);
      }
  }

  method WriteNodes(env: Env, nodes: seq<Node>, writer: ByteWriter) returns (ok: bool)
    requires Utf8Bounded(env) && writer.Valid()
    modifies writer, writer.buffer
    ensures writer.Valid() && writer.Kept()
    ensures ok <==> forall i | 0 <= i < |nodes| :: NodeFits(env, nodes[i])
    ensures ok ==> writer.Wrote(EncodedNodes(env, nodes))
    decreases nodes, 0
  {
    hide NodeFits, EncodedNode, Utf8Bounded;
    ghost var whole := old(writer.Contents()) + EncodedNodes(env, nodes);
    var i := 0;
    while i < |nodes|
      invariant 0 <= i <= |nodes| && writer.Valid() && writer.Kept()
      invariant forall j | 0 <= j < i :: NodeFits(env, nodes[j])
      invariant writer.Contents() + EncodedNodes(env, nodes[i..]) == whole
    {
      ok := WriteNodeInternal(env, nodes[i], writer);
      if !ok {
        return;
      }
      assert nodes[i..][1..] == nodes[i + 1..];
      i := i + 1;
    }
    return true;
  }

  method EncodeBinaryNode(env: Env, node: Node) returns (r: Outcome<Bytes>)
    requires Utf8Bounded(env)
    ensures r == if NodeFits(env, node) then Returned(EncodedNode(env, node)) else Thrown
  {
    hide NodeFits, EncodedNode, Utf8Bounded;
    var writer := new ByteWriter();
    var ok := WriteNodeInternal(env, node, writer);
    if !ok {
      return Thrown;
    }
    var bytes := writer.ToUint8Array();
    assert [] + EncodedNode(env, node) == EncodedNode(env, node);
    return Returned(bytes);
  }

  method EncodeBinaryNodeStanza(env: Env, node: Node) returns (r: Outcome<Bytes>)
    requires Utf8Bounded(env)
    ensures r == if NodeFits(env, node) then Returned(EncodedStanza(env, node)) else Thrown
  {
    hide NodeFits, EncodedNode, Utf8Bounded;
    var writer := new ByteWriter();
    writer.WriteUint8(0x00);
    assert writer.Contents() == [0];
    var ok := WriteNodeInternal(env, node, writer);
    if !ok {
      return Thrown;
    }
    var bytes := writer.ToUint8Array();
    return Returned(bytes);
  }
}
