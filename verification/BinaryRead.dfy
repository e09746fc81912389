/** Reading stanza nodes back from bytes: every function takes a position and returns the next one. */
module BinaryRead {
  import opened Prelude
  import opened BinaryTokens
  import opened BinaryWire
  import opened Text

  /** A value and the position after it, or a thrown error. */
  type Parsed<+T> = Outcome<(T, nat)>

  /** What a token stands for in a value position. */
  datatype Value = Null | TextValue(s: string) | BytesValue(bytes: Bytes)

  function Take(data: Bytes, at: nat, length: nat): (r: Parsed<Bytes>)
    ensures r.Returned? ==> r.value.1 == at + length <= |data|
  {
    if at + length <= |data| then Returned((data[at..at + length], at + length)) else Thrown
  }

  function Number16(data: Bytes, at: nat): (r: Parsed<nat>)
    ensures r.Returned? ==> r.value.1 == at + 2 <= |data|
  {
    if at + 2 > |data| then Thrown else Returned((0x100 * (data[at] as nat) + data[at + 1] as nat, at + 2))
  }

  predicate IsBinary(token: byte) {
    token == BINARY_8 || token == BINARY_20 || token == BINARY_32
  }

  /** The length a binary token announces. */
  function ParsedLength(data: Bytes, token: byte, at: nat): (r: Parsed<nat>)
    ensures r.Returned? ==> at < r.value.1 <= |data|
  {
    if token == BINARY_8 then
      if at >= |data| then Thrown else Returned((data[at] as nat, at + 1))
    else if token == BINARY_20 then
      if at + 3 > |data| then Thrown
      else Returned((0x1_0000 * (data[at] as nat % 16) + 0x100 * (data[at + 1] as nat) + data[at + 2] as nat, at + 3))
    else if token == BINARY_32 then
      if at + 4 > |data| then Thrown
      else Returned((0x100_0000 * (data[at] as nat) + 0x1_0000 * (data[at + 1] as nat)
                     + 0x100 * (data[at + 2] as nat) + data[at + 3] as nat, at + 4))
    else Thrown
  }

  function ParsedBinary(data: Bytes, token: byte, at: nat): (r: Parsed<Bytes>)
    ensures r.Returned? ==> at <= r.value.1 <= |data|
  {
    match ParsedLength(data, token, at)
    case Thrown => Thrown
    case Returned((length, start)) => Take(data, start, length)
  }

  /** Two characters of the alphabet for every byte. */
  function Unpack(b: Bytes, p: Packing): (s: string)
    ensures |s| == 2 * |b|
  {
    if b == [] then "" else [Alphabet(p)[b[0] as nat / 16], Alphabet(p)[b[0] as nat % 16]] + Unpack(b[1..], p)
  }

  function ParsedPacked(data: Bytes, p: Packing, at: nat): (r: Parsed<string>)
    ensures r.Returned? ==> at < r.value.1 <= |data|
  {
    if at >= |data| then Thrown
    else
      var odd, byteCount := data[at] as nat / 0x80, data[at] as nat % 0x80;
      if 2 * byteCount < odd then Thrown
      else match Take(data, at + 1, byteCount)
        case Thrown => Thrown
        case Returned((b, next)) => Returned((Unpack(b, p)[..2 * byteCount - odd], next))
  }

  function ParsedString(env: Env, data: Bytes, token: byte, at: nat): (r: Parsed<string>)
    requires at <= |data|
    ensures r.Returned? ==> at <= r.value.1 <= |data|
  {
    var tables, code := env.tables, token as nat;
    if 0 < code <= |tables.single| then Returned((tables.single[code - 1], at))
    else if DICTIONARY_0 <= code <= DICTIONARY_3 then
      if at >= |data| then Thrown
      else
        var dictionary, index := code - DICTIONARY_0, data[at] as nat;
        if dictionary < |tables.dictionaries| && index < |tables.dictionaries[dictionary]|
        then Returned((tables.dictionaries[dictionary][index], at + 1)) else Thrown
    else if token == NIBBLE_8 then ParsedPacked(data, Nibble, at)
    else if token == HEX_8 then ParsedPacked(data, Hex, at)
    else if IsBinary(token) then
      match ParsedBinary(data, token, at)
      case Thrown => Thrown
      case Returned((b, next)) => Returned((env.text(b), next))
    else Thrown
  }

  /** A string with its token in front. */
  function NextString(env: Env, data: Bytes, at: nat): (r: Parsed<string>)
    ensures r.Returned? ==> at < r.value.1 <= |data|
  {
    if at >= |data| then Thrown else ParsedString(env, data, data[at], at + 1)
  }

  function ParsedJidPair(env: Env, data: Bytes, at: nat): (r: Parsed<string>)
    ensures r.Returned? ==> at <= r.value.1 <= |data|
  {
    if at >= |data| then Thrown
    else
      var first: Parsed<string> := if data[at] == LIST_EMPTY then Returned(("", at + 1)) else NextString(env, data, at);
      match first
      case Thrown => Thrown
      case Returned((user, mid)) =>
        match NextString(env, data, mid)
        case Thrown => Thrown
        case Returned((server, next)) => Returned((PairAddress(user, server), next))
  }

  function ParsedJidU(env: Env, data: Bytes, at: nat): (r: Parsed<string>)
    ensures r.Returned? ==> at <= r.value.1 <= |data|
  {
    if at + 2 > |data| then Thrown
    else
      match NextString(env, data, at + 2)
      case Thrown => Thrown
      case Returned((user, next)) => Returned((DeviceAddress(user, data[at + 1] as nat, DomainOf(data[at])), next))
  }

  function ParsedJidInterop(env: Env, data: Bytes, at: nat): (r: Parsed<string>)
    ensures r.Returned? ==> at <= r.value.1 <= |data|
  {
    match NextString(env, data, at)
    case Thrown => Thrown
    case Returned((user, mid)) =>
      if mid + 4 > |data| then Thrown
      else
        var device, integrator := Number16(data, mid).value.0, Number16(data, mid + 2).value.0;
        match NextString(env, data, mid + 4)
        case Thrown => Thrown
        case Returned((_, next)) => Returned((Show(integrator) + "-" + user + ":" + Show(device) + "@interop", next))
  }

  function ParsedJidFb(env: Env, data: Bytes, at: nat): (r: Parsed<string>)
    ensures r.Returned? ==> at <= r.value.1 <= |data|
  {
    match NextString(env, data, at)
    case Thrown => Thrown
    case Returned((user, mid)) =>
      if mid + 2 > |data| then Thrown
      else
        match NextString(env, data, mid + 2)
        case Thrown => Thrown
        case Returned((_, next)) => Returned((user + ":" + Show(Number16(data, mid).value.0) + "@msgr", next))
  }

  function AsText(r: Parsed<string>): (v: Parsed<Value>) {
    match r
    case Thrown => Thrown
    case Returned((s, next)) => Returned((TextValue(s), next))
  }

  function ParsedValue(env: Env, data: Bytes, token: byte, at: nat, forAttr: bool): (r: Parsed<Value>)
    requires at <= |data|
    ensures r.Returned? ==> at <= r.value.1 <= |data|
  {
    if token == LIST_EMPTY then Returned((Null, at))
    else if token == JID_PAIR then AsText(ParsedJidPair(env, data, at))
    else if token == JID_U then AsText(ParsedJidU(env, data, at))
    else if token == JID_INTEROP then AsText(ParsedJidInterop(env, data, at))
    else if token == JID_FB then AsText(ParsedJidFb(env, data, at))
    else if IsBinary(token) then
      match ParsedBinary(data, token, at)
      case Thrown => Thrown
      case Returned((b, next)) => Returned((if forAttr then TextValue(env.text(b)) else BytesValue(b), next))
    else AsText(ParsedString(env, data, token, at))
  }

  /** A value that must be text, its token in front: a tag, an attribute name or an attribute value. */
  function NextText(env: Env, data: Bytes, at: nat): (r: Parsed<string>)
    ensures r.Returned? ==> at < r.value.1 <= |data|
  {
    if at >= |data| then Thrown
    else match ParsedValue(env, data, data[at], at + 1, true)
      case Returned((TextValue(s), next)) => Returned((s, next))
      case _ => Thrown
  }

  function ParsedAttrs(env: Env, data: Bytes, at: nat, remaining: nat,
      attrs: seq<(string, string)>): (r: Parsed<seq<(string, string)>>)
    requires at <= |data|
    ensures r.Returned? ==> at <= r.value.1 <= |data|
    decreases remaining
  {
    if remaining <= 1 then Returned((attrs, at))
    else match NextText(env, data, at)
      case Thrown => Thrown
      case Returned((key, mid)) =>
        match NextText(env, data, mid)
        case Thrown => Thrown
        case Returned((value, next)) => ParsedAttrs(env, data, next, remaining - 2, SetAttr(attrs, key, value))
  }

  /** The size of a list whose first byte is at `at`. */
  function ParsedListSize(data: Bytes, at: nat): (r: Parsed<nat>)
    ensures r.Returned? ==> at < r.value.1 <= |data|
  {
    if at + 2 > |data| then Thrown
    else if data[at] == LIST_8 then Returned((data[at + 1] as nat, at + 2))
    else if data[at] == LIST_16 then Number16(data, at + 1)
    else Thrown
  }

  function ParsedNode(env: Env, data: Bytes, at: nat): (r: Parsed<Node>)
    ensures r.Returned? ==> at < r.value.1 <= |data|
    decreases |data| - at, 0, 0
  {
    match ParsedListSize(data, at)
    case Thrown => Thrown
    case Returned((listSize, afterSize)) =>
      if listSize == 0 then Thrown
      else match NextText(env, data, afterSize)
        case Thrown => Thrown
        case Returned((tag, afterTag)) =>
          if tag == "" then Thrown
          else match ParsedAttrs(env, data, afterTag, listSize - 1, [])
            case Thrown => Thrown
            case Returned((attrs, afterAttrs)) =>
              if listSize % 2 == 1 then Returned((Node(tag, attrs, Absent), afterAttrs))
              else match ParsedContent(env, data, afterAttrs)
                case Thrown => Thrown
                case Returned((content, next)) => Returned((Node(tag, attrs, content), next))
  }

  function ParsedContent(env: Env, data: Bytes, at: nat): (r: Parsed<Content>)
    ensures r.Returned? ==> at < r.value.1 <= |data|
    decreases |data| - at, 0, 0
  {
    if at >= |data| then Thrown
    else if data[at] == LIST_EMPTY then Returned((Absent, at + 1))
    else if data[at] == LIST_8 || data[at] == LIST_16 then
      match ParsedListSize(data, at)
      case Thrown => Thrown
      case Returned((count, afterCount)) =>
        match ParsedNodes(env, data, afterCount, count)
        case Thrown => Thrown
        case Returned((nodes, next)) => Returned((Children(nodes), next))
    else match ParsedValue(env, data, data[at], at + 1, false)
      case Thrown => Thrown
      case Returned((Null, next)) => Returned((Absent, next))
      case Returned((TextValue(s), next)) => Returned((Raw(env.utf8(s)), next))
      case Returned((BytesValue(b), next)) => Returned((Raw(b), next))
  }

  function ParsedNodes(env: Env, data: Bytes, at: nat, count: nat): (r: Parsed<seq<Node>>)
    requires at <= |data|
    ensures r.Returned? ==> at <= r.value.1 <= |data|
    decreases |data| - at, 1, count
  {
    if count == 0 then Returned(([], at))
    else match ParsedNode(env, data, at)
      case Thrown => Thrown
      case Returned((node, mid)) =>
        match ParsedNodes(env, data, mid, count - 1)
        case Thrown => Thrown
        case Returned((nodes, next)) => Returned(([node] + nodes, next))
  }

  /** `decodeBinaryNode`: whatever follows the node is ignored. */
  function DecodedNode(env: Env, data: Bytes): (r: Outcome<Node>) {
    match ParsedNode(env, data, 0)
    case Thrown => Thrown
    case Returned((node, _)) => Returned(node)
  }

  const STREAM_END: byte := 2

  /** A framed stanza; `inflate` undoes the compression, or fails. */
  function DecodedStanza(env: Env, inflate: Bytes -> Outcome<Bytes>, stanza: Bytes): (r: Outcome<Node>) {
    if stanza == [] || stanza == [STREAM_END] then Thrown
    else
      var body := if stanza[0] / 2 % 2 == 1 then inflate(stanza[1..]) else Returned(stanza[1..]);
      if body.Thrown? then Thrown else DecodedNode(env, body.value)
  }
}
