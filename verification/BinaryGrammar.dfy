/**
 * The wire grammar of stanza nodes, byte by byte: every form a node can take on
 * the wire, the bytes of each form, and what it stands for. Nothing here comes
 * from the encoder or the reader; all codes are written out.
 */
module BinaryGrammar {
  import opened Prelude
  import opened BinaryTokens
  import opened BinaryWire
  import opened Text

  /** How the length of a byte string is written; the upper half of the first of three length bytes is ignored. */
  datatype LengthForm = Length8 | Length20(ignored: byte) | Length32

  datatype TextForm = OneByte(code: byte) | TwoBytes(dictionary: byte, index: byte)
      | Packed(hex: bool, odd: bool, pairs: Bytes) | Blob(length: LengthForm, bytes: Bytes)

  datatype ValueForm = Plain(text: TextForm)
      | Pair(name: Option<TextForm>, server: TextForm)
      | Device(domain: byte, device: byte, user: TextForm)
      | Interop(user: TextForm, number: nat, integrator: nat, server: TextForm)
      | Messenger(user: TextForm, number: nat, server: TextForm)

  datatype ContentForm = Missing | Nothing | Value(value: ValueForm) | Listed(wide: bool, nodes: seq<NodeForm>)

  datatype NodeForm = NodeForm(wide: bool, tag: ValueForm, attrs: seq<(ValueForm, ValueForm)>, content: ContentForm)

  // -------------------------------------------------------------------- bytes

  /** The digit of `n` to base 256 at a weight. */
  function Digit(n: nat, weight: nat): (b: byte)
    requires weight > 0
  {
    (n / weight % 256) as byte
  }

  function LengthBytes(form: LengthForm, n: nat): (b: Bytes) {
    match form
    case Length8 => [252, Digit(n, 1)]
    case Length20(ignored) => [253, Digit(16 * (ignored as nat) + n / 65536, 1), Digit(n, 256), Digit(n, 1)]
    case Length32 => [254, Digit(n, 16777216), Digit(n, 65536), Digit(n, 256), Digit(n, 1)]
  }

  function TextBytes(t: TextForm): (b: Bytes) {
    match t
    case OneByte(code) => [code]
    case TwoBytes(dictionary, index) => [Digit(236 + dictionary as nat, 1), index]
    case Packed(hex, odd, pairs) =>
      [if hex then 251 else 255, Digit(|pairs| + if odd then 128 else 0, 1)] + pairs
    case Blob(length, bytes) => LengthBytes(length, |bytes|) + bytes
  }

  function NumberBytes(n: nat): (b: Bytes) {
    [Digit(n, 256), Digit(n, 1)]
  }

  function ValueBytes(v: ValueForm): (b: Bytes) {
    match v
    case Plain(text) => TextBytes(text)
    case Pair(None, server) => [250] + ([0] + TextBytes(server))
    case Pair(Some(name), server) => [250] + (TextBytes(name) + TextBytes(server))
    case Device(domain, device, user) => [247] + ([domain] + ([device] + TextBytes(user)))
    case Interop(user, number, integrator, server) =>
      [245] + (TextBytes(user) + (NumberBytes(number) + (NumberBytes(integrator) + TextBytes(server))))
    case Messenger(user, number, server) => [246] + (TextBytes(user) + (NumberBytes(number) + TextBytes(server)))
  }

  function SizeBytes(wide: bool, n: nat): (b: Bytes) {
    if wide then [249, Digit(n, 256), Digit(n, 1)] else [248, Digit(n, 1)]
  }

  function AttrsBytes(attrs: seq<(ValueForm, ValueForm)>): (b: Bytes) {
    if attrs == [] then [] else ValueBytes(attrs[0].0) + (ValueBytes(attrs[0].1) + AttrsBytes(attrs[1..]))
  }

  /** A list of the tag, of a name and a value for every attribute, and of the content if there is one. */
  function Items(n: NodeForm): (k: nat) {
    1 + 2 * |n.attrs| + if n.content.Missing? then 0 else 1
  }

  function NodeBytes(n: NodeForm): (b: Bytes)
    decreases n, 1
  {
    SizeBytes(n.wide, Items(n)) + (ValueBytes(n.tag) + (AttrsBytes(n.attrs) + ContentBytes(n.content)))
  }

  function ContentBytes(c: ContentForm): (b: Bytes)
    decreases c, 1
  {
    match c
    case Missing => []
    case Nothing => [0]
    case Value(value) => ValueBytes(value)
    case Listed(wide, nodes) => SizeBytes(wide, |nodes|) + NodesBytes(nodes)
  }

  function NodesBytes(nodes: seq<NodeForm>): (b: Bytes)
    decreases nodes, 0
  {
    if nodes == [] then [] else NodeBytes(nodes[0]) + NodesBytes(nodes[1..])
  }

  // -------------------------------------------------------------- well-formed

  predicate LengthFits(form: LengthForm, n: nat) {
    match form
    case Length8 => n < 0x100
    case Length20(ignored) => ignored < 16 && n < 0x10_0000
    case Length32 => n < 0x1_0000_0000
  }

  predicate TextStands(t: Tables, text: TextForm) {
    match text
    case OneByte(code) => 1 <= code as nat <= |t.single|
    case TwoBytes(dictionary, index) =>
      dictionary as nat < |t.dictionaries| && index as nat < |t.dictionaries[dictionary]|
    case Packed(_, odd, pairs) => |pairs| < 128 && (odd ==> pairs != [])
    case Blob(length, bytes) => LengthFits(length, |bytes|)
  }

  predicate ValueStands(t: Tables, v: ValueForm) {
    match v
    case Plain(text) => TextStands(t, text)
    case Pair(name, server) => (name.Some? ==> TextStands(t, name.value)) && TextStands(t, server)
    case Device(_, _, user) => TextStands(t, user)
    case Interop(user, number, integrator, server) =>
      TextStands(t, user) && number < 0x1_0000 && integrator < 0x1_0000 && TextStands(t, server)
    case Messenger(user, number, server) => TextStands(t, user) && number < 0x1_0000 && TextStands(t, server)
  }

  predicate SizeFits(wide: bool, n: nat) {
    n < if wide then 0x1_0000 else 0x100
  }

  predicate AttrsStand(t: Tables, attrs: seq<(ValueForm, ValueForm)>) {
    forall i | 0 <= i < |attrs| :: ValueStands(t, attrs[i].0) && ValueStands(t, attrs[i].1)
  }

  predicate NodeStands(env: Env, n: NodeForm)
    decreases n, 1
  {
    && SizeFits(n.wide, Items(n)) && ValueStands(env.tables, n.tag) && ValueMeans(env, n.tag) != ""
    && AttrsStand(env.tables, n.attrs) && ContentStands(env, n.content)
  }

  predicate ContentStands(env: Env, c: ContentForm)
    decreases c, 1
  {
    match c
    case Missing => true
    case Nothing => true
    case Value(value) => ValueStands(env.tables, value)
    case Listed(wide, nodes) => SizeFits(wide, |nodes|) && NodesStand(env, nodes)
  }

  predicate NodesStand(env: Env, nodes: seq<NodeForm>)
    decreases nodes, 0
  {
    nodes != [] ==> NodeStands(env, nodes[0]) && NodesStand(env, nodes[1..])
  }

  // ----------------------------------------------------------------- meanings

  /** Four bits of a packed string; the four unused nibbles read as the replacement character. */
  function Symbol(hex: bool, n: nat): (c: char)
    requires n < 16
  {
    if n < 10 then "0123456789"[n]
    else if hex then "ABCDEF"[n - 10]
    else if n == 10 then '-' else if n == 11 then '.' else '\U{FFFD}'
  }

  function TextMeans(env: Env, t: TextForm): (s: string)
    requires TextStands(env.tables, t)
  {
    match t
    case OneByte(code) => env.tables.single[code as nat - 1]
    case TwoBytes(dictionary, index) => env.tables.dictionaries[dictionary][index]
    case Packed(hex, odd, pairs) =>
      seq(2 * |pairs| - if odd then 1 else 0, i requires 0 <= i < 2 * |pairs| =>
        Symbol(hex, if i % 2 == 0 then pairs[i / 2] as nat / 16 else pairs[i / 2] as nat % 16))
    case Blob(_, bytes) => env.text(bytes)
  }

  /** The four domains that carry devices: two exact codes, any other even code from 128 on, and all the rest. */
  function DomainMeans(domain: byte): (s: string) {
    if domain == 1 then "lid"
    else if domain == 129 then "hosted.lid"
    else if domain >= 128 && domain % 2 == 0 then "hosted"
    else "s.whatsapp.net"
  }

  function ValueMeans(env: Env, v: ValueForm): (s: string)
    requires ValueStands(env.tables, v)
  {
    match v
    case Plain(text) => TextMeans(env, text)
    case Pair(name, server) =>
      var user := if name.Some? then TextMeans(env, name.value) else "";
      if user == "" then TextMeans(env, server) else user + "@" + TextMeans(env, server)
    case Device(domain, device, user) =>
      TextMeans(env, user) + (if device > 0 then ":" + Show(device as nat) else "") + "@" + DomainMeans(domain)
    case Interop(user, number, integrator, _) =>
      Show(integrator) + "-" + TextMeans(env, user) + ":" + Show(number) + "@interop"
    case Messenger(user, number, _) => TextMeans(env, user) + ":" + Show(number) + "@msgr"
  }

  function FirstNames(pairs: seq<(string, string)>): (names: seq<string>) {
    if pairs == [] then []
    else
      var names, last := FirstNames(pairs[..|pairs| - 1]), pairs[|pairs| - 1].0;
      if last in names then names else names + [last]
  }

  function LastValue(pairs: seq<(string, string)>, name: string): (value: string) {
    if pairs == [] then ""
    else if pairs[|pairs| - 1].0 == name then pairs[|pairs| - 1].1 else LastValue(pairs[..|pairs| - 1], name)
  }

  /** Every name once, where it first stood, with the value it was given last. */
  function Assigned(pairs: seq<(string, string)>): (attrs: seq<(string, string)>) {
    var names := FirstNames(pairs);
    seq(|names|, i requires 0 <= i < |names| => (names[i], LastValue(pairs, names[i])))
  }

  function AttrsMean(env: Env, attrs: seq<(ValueForm, ValueForm)>): (pairs: seq<(string, string)>)
    requires AttrsStand(env.tables, attrs)
  {
    seq(|attrs|, i requires 0 <= i < |attrs| => (ValueMeans(env, attrs[i].0), ValueMeans(env, attrs[i].1)))
  }

  function NodeMeans(env: Env, n: NodeForm): (r: Node)
    requires NodeStands(env, n)
    decreases n, 1
  {
    Node(ValueMeans(env, n.tag), Assigned(AttrsMean(env, n.attrs)), ContentMeans(env, n.content))
  }

  /** A byte string is itself, any other value the bytes of its text. */
  function ContentMeans(env: Env, c: ContentForm): (r: Content)
    requires ContentStands(env, c)
    decreases c, 1
  {
    match c
    case Missing => Absent
    case Nothing => Absent
    case Value(Plain(Blob(_, bytes))) => Raw(bytes)
    case Value(value) => Raw(env.utf8(ValueMeans(env, value)))
    case Listed(_, nodes) => Children(NodesMean(env, nodes))
  }

  function NodesMean(env: Env, nodes: seq<NodeForm>): (r: seq<Node>)
    requires NodesStand(env, nodes)
    decreases nodes, 0
  {
    if nodes == [] then [] else [NodeMeans(env, nodes[0])] + NodesMean(env, nodes[1..])
  }
}
