/**
 * The binary form of stanza nodes: what the encoder writes for a node, and what
 * of the node that form can carry. Shifts and masks of non-negative numbers
 * are written as quotients and remainders.
 */
module BinaryWire {
  import opened Prelude
  import opened BinaryTokens
  import opened Text

  const LIST_EMPTY: byte := 0
  const JID_INTEROP: byte := 245
  const JID_FB: byte := 246
  const JID_U: byte := 247
  const LIST_8: byte := 248
  const LIST_16: byte := 249
  const JID_PAIR: byte := 250
  const HEX_8: byte := 251
  const BINARY_8: byte := 252
  const BINARY_20: byte := 253
  const BINARY_32: byte := 254
  const NIBBLE_8: byte := 255

  const DOMAIN_PN: byte := 0x00
  const DOMAIN_LID: byte := 0x01
  const DOMAIN_HOSTED: byte := 0x80
  const DOMAIN_HOSTED_LID: byte := 0x81

  const HOST_DOMAIN := "s.whatsapp.net"
  const LID_SERVER := "lid"
  const HOSTED_SERVER := "hosted"
  const HOSTED_LID_SERVER := "hosted.lid"

  /** A character is a Unicode scalar value; the source's strings count it as one or two UTF-16 units. */
  datatype Node = Node(tag: string, attrs: seq<(string, string)>, content: Content)

  datatype Content = Absent | Text(s: string) | Raw(bytes: Bytes) | Children(nodes: seq<Node>)

  /** The token tables, the encoder's lookup, and the text encoding in both directions. */
  datatype Env = Env(tables: Tables, tokens: map<string, nat>, utf8: string -> Bytes, text: Bytes -> string)

  /** The tables fit their codes and the encoder's lookup is right. */
  predicate Proper(env: Env) {
    ProperTables(env.tables) && SoundTokens(env.tables, env.tokens)
  }

  /** `s.length` of the source: a character above U+FFFF is a pair of units. */
  function Units(s: string): (n: nat)
    ensures n >= |s|
  {
    if s == "" then 0 else (if s[0] > '\U{FFFF}' then 2 else 1) + Units(s[1..])
  }

  /** No unit of a string takes more than three bytes. */
  ghost predicate Utf8Bounded(env: Env) {
    forall s :: |env.utf8(s)| <= 3 * Units(s)
  }

  // ----------------------------------------------------------------- numbers

  function BigEndian2(n: nat): (b: Bytes)
    ensures |b| == 2
  {
    [(n / 0x100 % 0x100) as byte, (n % 0x100) as byte]
  }

  function BigEndian4(n: nat): (b: Bytes)
    ensures |b| == 4
  {
    [(n / 0x100_0000 % 0x100) as byte, (n / 0x1_0000 % 0x100) as byte, (n / 0x100 % 0x100) as byte, (n % 0x100) as byte]
  }

  const BINARY_LIMIT := 0x1_0000_0000
  const LIST_LIMIT := 0x1_0000

  function BinaryHeader(length: nat): (b: Bytes)
    ensures b != []
  {
    if length < 0x100 then [BINARY_8, length as byte]
    else if length < 0x10_0000 then
      [BINARY_20, (length / 0x1_0000 % 0x100) as byte, (length / 0x100 % 0x100) as byte, (length % 0x100) as byte]
    else [BINARY_32] + BigEndian4(length)
  }

  function ListHeader(size: nat): (b: Bytes)
    ensures b != []
  {
    if size < 0x100 then [LIST_8, size as byte] else [LIST_16] + BigEndian2(size)
  }

  // ---------------------------------------------------------- packed strings

  datatype Packing = NotPacked | Nibble | Hex

  const NIBBLE_ALPHABET := "0123456789-.\U{FFFD}\U{FFFD}\U{FFFD}\U{FFFD}"
  const HEX_ALPHABET := "0123456789ABCDEF"

  function Alphabet(p: Packing): (a: string)
    ensures |a| == 16
  {
    if p.Hex? then HEX_ALPHABET else NIBBLE_ALPHABET
  }

  predicate NibbleChar(c: char) {
    IsDigit(c) || c == '-' || c == '.'
  }

  predicate HexChar(c: char) {
    IsDigit(c) || 'A' <= c <= 'F'
  }

  predicate AllIn(s: string, p: Packing) {
    forall i | 0 <= i < |s| :: if p.Hex? then HexChar(s[i]) else NibbleChar(s[i])
  }

  function Classify(s: string): (p: Packing) {
    if |s| == 0 || |s| >= 128 then NotPacked
    else if AllIn(s, Nibble) then Nibble
    else if AllIn(s, Hex) then Hex
    else NotPacked
  }

  /** The four bits of a character of the alphabet. */
  function NibbleOf(c: char, p: Packing): (n: nat)
    requires if p.Hex? then HexChar(c) else NibbleChar(c)
    ensures n < 16 && Alphabet(p)[n] == c
  {
    if IsDigit(c) then c as int - '0' as int
    else if p.Hex? then c as int - 55
    else if c == '-' then 10 else 11
  }

  function FirstPair(s: string, p: Packing): (b: byte)
    requires s != "" && AllIn(s, p)
  {
    (16 * NibbleOf(s[0], p) + if |s| > 1 then NibbleOf(s[1], p) else 15) as byte
  }

  function AfterPair(s: string): (rest: string) {
    if |s| > 1 then s[2..] else ""
  }

  /** Two characters a byte; a last odd one is completed with four one bits. */
  function Pack(s: string, p: Packing): (b: Bytes)
    requires AllIn(s, p)
    ensures |b| == (|s| + 1) / 2
    decreases |s|
  {
    if s == "" then [] else [FirstPair(s, p)] + Pack(AfterPair(s), p)
  }

  function PackedBytes(s: string, p: Packing): (b: Bytes)
    requires AllIn(s, p) && |s| < 128
    ensures |b| >= 2
  {
    var length := (|s| + 1) / 2;
    [if p.Hex? then HEX_8 else NIBBLE_8, (if |s| % 2 == 1 then length + 0x80 else length) as byte] + Pack(s, p)
  }

  // ----------------------------------------------------------------- strings

  function TokenBytes(token: nat): (b: Bytes)
    ensures b != []
  {
    if token < MERGED_TOKEN_DICTIONARY_FLAG then [(token % 0x100) as byte]
    else [((DICTIONARY_0 + token / 0x100 % 0x100) % 0x100) as byte, (token % 0x100) as byte]
  }

  function EncodedText(env: Env, s: string): (b: Bytes)
    ensures b != []
  {
    BinaryHeader(|env.utf8(s)|) + env.utf8(s)
  }

  function EncodedString(env: Env, s: string): (b: Bytes)
    ensures b != []
  {
    if s in env.tokens then TokenBytes(env.tokens[s])
    else match Classify(s)
      case NotPacked => EncodedText(env, s)
      case p => PackedBytes(s, p)
  }

  /** What a written string is read back as. */
  function StringAsRead(env: Env, s: string): (t: string) {
    if s in env.tokens || !Classify(s).NotPacked? then s else env.text(env.utf8(s))
  }

  predicate StringFits(env: Env, s: string) {
    s !in env.tokens && Classify(s).NotPacked? ==> |env.utf8(s)| < BINARY_LIMIT
  }

  // -------------------------------------------------------------------- JIDs

  datatype Jid = NotJid | DeviceJid(domainType: byte, device: byte, user: string)
      | PairJid(user: string, server: string)

  /** `s.indexOf(c)`, with the length for "not found". */
  function IndexOf(s: string, c: char): (i: nat)
    ensures i <= |s| && (i < |s| ==> s[i] == c) && forall j | 0 <= j < i :: s[j] != c
  {
    if s == "" || s[0] == c then 0 else 1 + IndexOf(s[1..], c)
  }

  function DomainType(server: string): (d: Option<byte>) {
    if server == LID_SERVER then Some(DOMAIN_LID)
    else if server == HOSTED_LID_SERVER then Some(DOMAIN_HOSTED_LID)
    else if server == HOST_DOMAIN then Some(DOMAIN_PN)
    else if server == HOSTED_SERVER then Some(DOMAIN_HOSTED)
    else None
  }

  predicate IsDeviceText(s: string) {
    IsDigits(s) && NatValue(s) <= 255
  }

  /** How an attribute value is written as an address, if it is. */
  function JidForm(value: string): (j: Jid) {
    var at := IndexOf(value, '@');
    if at == 0 || at >= |value| - 1 || '@' in value[at + 1..] then NotJid
    else
      var server, colon := value[at + 1..], IndexOf(value, ':');
      if colon >= at then PairJid(value[..at], server)
      else if !IsDeviceText(value[colon + 1..at]) then NotJid
      else
        var device, user := NatValue(value[colon + 1..at]), value[..colon];
        if DomainType(server).Some? && device != 0 && user != ""
        then DeviceJid(DomainType(server).value, device as byte, user)
        else PairJid(user, server)
  }

  function EncodedValue(env: Env, value: string): (b: Bytes)
    ensures b != []
  {
    match JidForm(value)
    case NotJid => EncodedString(env, value)
    case DeviceJid(domainType, device, user) => [JID_U, domainType, device] + EncodedString(env, user)
    case PairJid(user, server) =>
      [JID_PAIR] + (if user == "" then [LIST_EMPTY] else EncodedString(env, user)) + EncodedString(env, server)
  }

  predicate ValueFits(env: Env, value: string) {
    match JidForm(value)
    case NotJid => StringFits(env, value)
    case DeviceJid(_, _, user) => StringFits(env, user)
    case PairJid(user, server) => (user == "" || StringFits(env, user)) && StringFits(env, server)
  }

  /** The domain a reader gives to a domain type: the two exact values first, then the mask tests. */
  function DomainOf(domainType: byte): (server: string) {
    if domainType == DOMAIN_LID then LID_SERVER
    else if domainType == DOMAIN_HOSTED_LID then HOSTED_LID_SERVER
    else if domainType >= 0x80 && domainType % 2 == 0 then HOSTED_SERVER
    else HOST_DOMAIN
  }

  function DeviceAddress(user: string, device: nat, domain: string): (s: string) {
    if device > 0 then user + ":" + Show(device) + "@" + domain else user + "@" + domain
  }

  function PairAddress(user: string, server: string): (s: string) {
    if user == "" then server else user + "@" + server
  }

  /** What a written attribute value is read back as. */
  function ValueAsRead(env: Env, value: string): (t: string) {
    match JidForm(value)
    case NotJid => StringAsRead(env, value)
    case DeviceJid(domainType, device, user) =>
      DeviceAddress(StringAsRead(env, user), device as int, DomainOf(domainType))
    case PairJid(user, server) =>
      PairAddress(if user == "" then "" else StringAsRead(env, user), StringAsRead(env, server))
  }

  // ------------------------------------------------------------------- nodes

  function ListSize(n: Node): (size: nat) {
    1 + 2 * |n.attrs| + if n.content.Absent? then 0 else 1
  }

  function EncodedAttrs(env: Env, attrs: seq<(string, string)>): (b: Bytes) {
    if attrs == [] then []
    else EncodedString(env, attrs[0].0) + EncodedValue(env, attrs[0].1) + EncodedAttrs(env, attrs[1..])
  }

  function EncodedNode(env: Env, n: Node): (b: Bytes)
    ensures b != []
    decreases n, 1
  {
    ListHeader(ListSize(n)) + EncodedString(env, n.tag) + EncodedAttrs(env, n.attrs) + EncodedContent(env, n.content)
  }

  function EncodedContent(env: Env, c: Content): (b: Bytes)
    decreases c, 1
  {
    match c
    case Absent => []
    case Text(s) => EncodedText(env, s)
    case Raw(bytes) => BinaryHeader(|bytes|) + bytes
    case Children(nodes) => ListHeader(|nodes|) + EncodedNodes(env, nodes)
  }

  function EncodedNodes(env: Env, nodes: seq<Node>): (b: Bytes)
    decreases nodes, 0
  {
    if nodes == [] then [] else EncodedNode(env, nodes[0]) + EncodedNodes(env, nodes[1..])
  }

  /** A node framed for the transport, its flag byte saying "not compressed". */
  function EncodedStanza(env: Env, n: Node): (b: Bytes) {
    [0] + EncodedNode(env, n)
  }

  predicate AttrsFit(env: Env, attrs: seq<(string, string)>) {
    forall i | 0 <= i < |attrs| :: StringFits(env, attrs[i].0) && ValueFits(env, attrs[i].1)
  }

  /** Every list and every byte string is short enough for the format; the encoder throws otherwise. */
  predicate NodeFits(env: Env, n: Node)
    decreases n, 1
  {
    ListSize(n) < LIST_LIMIT && StringFits(env, n.tag) && AttrsFit(env, n.attrs) && ContentFits(env, n.content)
  }

  predicate ContentFits(env: Env, c: Content)
    decreases c, 1
  {
    match c
    case Absent => true
    case Text(s) => |env.utf8(s)| < BINARY_LIMIT
    case Raw(bytes) => |bytes| < BINARY_LIMIT
    case Children(nodes) => |nodes| < LIST_LIMIT && forall i | 0 <= i < |nodes| :: NodeFits(env, nodes[i])
  }

  /** `attrs[key] = value`: a known key keeps its place. */
  function SetAttr(attrs: seq<(string, string)>, key: string, value: string): (r: seq<(string, string)>) {
    if attrs == [] then [(key, value)]
    else if attrs[0].0 == key then [(key, value)] + attrs[1..]
    else [attrs[0]] + SetAttr(attrs[1..], key, value)
  }

  function AttrsAsRead(env: Env, before: seq<(string, string)>,
      attrs: seq<(string, string)>): (r: seq<(string, string)>)
    decreases |attrs|
  {
    if attrs == [] then before
    else AttrsAsRead(env, SetAttr(before, StringAsRead(env, attrs[0].0), ValueAsRead(env, attrs[0].1)), attrs[1..])
  }

  /** What a written node is read back as: text content as its bytes, strings and addresses as read. */
  function NodeAsRead(env: Env, n: Node): (r: Node)
    decreases n, 1
  {
    Node(StringAsRead(env, n.tag), AttrsAsRead(env, [], n.attrs), ContentAsRead(env, n.content))
  }

  function ContentAsRead(env: Env, c: Content): (r: Content)
    decreases c, 1
  {
    match c
    case Text(s) => Raw(env.utf8(s))
    case Children(nodes) => Children(NodesAsRead(env, nodes))
    case _ => c
  }

  function NodesAsRead(env: Env, nodes: seq<Node>): (r: seq<Node>)
    ensures |r| == |nodes|
    decreases nodes, 0
  {
    if nodes == [] then [] else [NodeAsRead(env, nodes[0])] + NodesAsRead(env, nodes[1..])
  }

  /** No tag of the tree is read back as the empty string, which a reader refuses. */
  predicate Tagged(env: Env, n: Node)
    decreases n, 1
  {
    StringAsRead(env, n.tag) != "" && (n.content.Children? ==> AllTagged(env, n.content.nodes))
  }

  predicate AllTagged(env: Env, nodes: seq<Node>)
    decreases nodes, 0
  {
    nodes != [] ==> Tagged(env, nodes[0]) && AllTagged(env, nodes[1..])
  }
}
