/** What the reader makes of the bytes the encoder writes. */
module BinaryRoundTrip {
  import opened Prelude
  import opened Slices
  import opened BinaryTokens
  import opened BinaryWire
  import opened BinaryRead

  // ----------------------------------------------------------------- binaries

  lemma TakeHas(data: Bytes, at: nat, b: Bytes)
    requires Has(data, at, b)
    ensures Take(data, at, |b|) == Returned((b, at + |b|))
  {
  }

  lemma BinaryReadsBack(data: Bytes, at: nat, b: Bytes)
    requires |b| < BINARY_LIMIT && Has(data, at, BinaryHeader(|b|) + b)
    ensures at < |data| && IsBinary(data[at])
    ensures ParsedBinary(data, data[at], at + 1) == Returned((b, at + |BinaryHeader(|b|) + b|))
  {
    var header := BinaryHeader(|b|);
    HasBoth(data, at, header, b);
    HasAt(data, at, header);
    TakeHas(data, at + |header|, b);
    hide Has;
    assert data[at] == header[0] && data[at + 1] == header[1];
    if |b| >= 0x100 {
      assert data[at + 2] == header[2] && data[at + 3] == header[3];
      if |b| >= 0x10_0000 {
        assert data[at + 4] == header[4];
        Digits4(|b|);
      } else {
        Digits3(|b|);
      }
    }
  }

  lemma Digits3(n: nat)
    requires n < 0x10_0000
    ensures n == 0x1_0000 * (n / 0x1_0000 % 0x100 % 16) + 0x100 * (n / 0x100 % 0x100) + n % 0x100
  {
  }

  lemma Digits4(n: nat)
    requires n < 0x1_0000_0000
    ensures n == 0x100_0000 * (n / 0x100_0000 % 0x100) + 0x1_0000 * (n / 0x1_0000 % 0x100)
        + 0x100 * (n / 0x100 % 0x100) + n % 0x100
  {
  }

  lemma ListSizeReadsBack(data: Bytes, at: nat, size: nat)
    requires size < LIST_LIMIT && Has(data, at, ListHeader(size))
    ensures ParsedListSize(data, at) == Returned((size, at + |ListHeader(size)|))
    ensures at < |data| && (data[at] == LIST_8 || data[at] == LIST_16)
  {
    var header := ListHeader(size);
    HasAt(data, at, header);
    assert data[at] == header[0] && data[at + 1] == header[1];
    if size >= 0x100 {
      assert data[at + 2] == header[2];
    }
  }

  // ------------------------------------------------------------------ strings

  lemma PackByte(s: string, p: Packing)
    requires s != "" && AllIn(s, p)
    ensures AllIn(AfterPair(s), p)
    ensures Alphabet(p)[FirstPair(s, p) as nat / 16] == s[0]
        && (|s| > 1 ==> Alphabet(p)[FirstPair(s, p) as nat % 16] == s[1])
  {
    hide Alphabet, NibbleChar, HexChar;
    var high, low := NibbleOf(s[0], p), if |s| > 1 then NibbleOf(s[1], p) else 15;
    assert FirstPair(s, p) as nat / 16 == high && FirstPair(s, p) as nat % 16 == low;
  }

  lemma UnpackByte(first: byte, later: Bytes, p: Packing)
    ensures Unpack([first] + later, p)
        == [Alphabet(p)[first as nat / 16], Alphabet(p)[first as nat % 16]] + Unpack(later, p)
  {
    hide Alphabet;
    assert ([first] + later)[1..] == later;
  }

  lemma JoinPair(s: string, u: string, x: char, y: char)
    requires s != "" && x == s[0] && (|s| > 1 ==> y == s[1])
    requires |u| >= |AfterPair(s)| && u[..|AfterPair(s)|] == AfterPair(s)
    ensures |[x, y] + u| >= |s| && ([x, y] + u)[..|s|] == s
  {
    if |s| > 1 {
      assert s == [s[0], s[1]] + s[2..];
      assert ([x, y] + u)[..|s|] == [x, y] + u[..|s| - 2];
    }
  }

  lemma {:induction false} UnpackPack(s: string, p: Packing)
    requires AllIn(s, p)
    ensures |Unpack(Pack(s, p), p)| >= |s| && Unpack(Pack(s, p), p)[..|s|] == s
    decreases |s|
  {
    if s != "" {
      PackByte(s, p);
      var first := FirstPair(s, p);
      assert Pack(s, p) == [first] + Pack(AfterPair(s), p);
      hide Pack, Unpack, Alphabet, AllIn, FirstPair;
      UnpackPack(AfterPair(s), p);
      UnpackByte(first, Pack(AfterPair(s), p), p);
      JoinPair(s, Unpack(Pack(AfterPair(s), p), p), Alphabet(p)[first as nat / 16], Alphabet(p)[first as nat % 16]);
    }
  }

  lemma PackedReadsBack(data: Bytes, at: nat, s: string, p: Packing)
    requires AllIn(s, p) && |s| < 128 && Has(data, at, PackedBytes(s, p))
    ensures at < |data| && data[at] == (if p.Hex? then HEX_8 else NIBBLE_8)
    ensures ParsedPacked(data, p, at + 1) == Returned((s, at + |PackedBytes(s, p)|))
  {
    hide Has, AllIn, Pack, Unpack;
    var b := Pack(s, p);
    var first, second := if p.Hex? then HEX_8 else NIBBLE_8, (if |s| % 2 == 1 then |b| + 0x80 else |b|) as byte;
    assert PackedBytes(s, p) == [first, second] + b;
    assert [first, second] + b == [first] + ([second] + b);
    HasByte(data, at, first, [second] + b);
    HasByte(data, at + 1, second, b);
    TakeHas(data, at + 2, b);
    UnpackPack(s, p);
    hide Take;
    assert second as nat % 0x80 == |b| && 2 * |b| - second as nat / 0x80 == |s|;
  }

  /** A token that opens a plain string in every position. */
  predicate OpensString(token: byte) {
    token != LIST_EMPTY && token != LIST_8 && token != LIST_16
    && token != JID_PAIR && token != JID_U && token != JID_INTEROP && token != JID_FB
  }

  lemma TokenReadsBack(env: Env, data: Bytes, at: nat, token: nat, s: string)
    requires ProperTables(env.tables) && Denotes(env.tables, token, s) && Has(data, at, TokenBytes(token))
    ensures at < |data| && OpensString(data[at]) && !IsBinary(data[at])
    ensures NextString(env, data, at) == Returned((s, at + |TokenBytes(token)|))
  {
    var b := TokenBytes(token);
    HasAt(data, at, b);
    assert data[at] == b[0];
    if token >= MERGED_TOKEN_DICTIONARY_FLAG {
      assert data[at + 1] == b[1];
    }
  }

  /** A written string is read back, in every position that reads strings. */
  lemma StringReadsBack(env: Env, data: Bytes, at: nat, s: string)
    requires Proper(env) && StringFits(env, s) && Has(data, at, EncodedString(env, s))
    ensures at < |data| && OpensString(data[at])
    ensures NextString(env, data, at) == Returned((StringAsRead(env, s), at + |EncodedString(env, s)|))
  {
    hide Has, Denotes, AllIn, TokenBytes, PackedBytes, BinaryHeader, ParsedPacked, ParsedBinary;
    if s in env.tokens {
      TokenReadsBack(env, data, at, env.tokens[s], s);
    } else {
      match Classify(s)
      case NotPacked => BinaryReadsBack(data, at, env.utf8(s));
      case p => PackedReadsBack(data, at, s, p);
    }
  }

  lemma StringIsText(env: Env, data: Bytes, at: nat)
    requires ProperTables(env.tables) && at < |data| && OpensString(data[at])
    ensures NextText(env, data, at) == NextString(env, data, at)
  {
    hide ParsedPacked, ParsedBinary;
  }

  // ------------------------------------------------------------------- values

  lemma DeviceReadsBack(env: Env, data: Bytes, at: nat, domainType: byte, device: byte, user: string)
    requires Proper(env) && StringFits(env, user)
        && Has(data, at, [JID_U, domainType, device] + EncodedString(env, user))
    ensures NextText(env, data, at)
         == Returned((DeviceAddress(StringAsRead(env, user), device as nat, DomainOf(domainType)),
                      at + 3 + |EncodedString(env, user)|))
  {
    hide Has, EncodedString, StringAsRead, StringFits, Proper, NextString, DeviceAddress, DomainOf;
    var s := EncodedString(env, user);
    assert [JID_U, domainType, device] + s == [JID_U] + ([domainType] + ([device] + s));
    HasByte(data, at, JID_U, [domainType] + ([device] + s));
    HasByte(data, at + 1, domainType, [device] + s);
    HasByte(data, at + 2, device, s);
    StringReadsBack(env, data, at + 3, user);
  }

  lemma PairReadsBack(env: Env, data: Bytes, at: nat, user: string, server: string)
    requires Proper(env) && (user == "" || StringFits(env, user)) && StringFits(env, server)
    requires Has(data, at, [JID_PAIR] + (if user == "" then [LIST_EMPTY] else EncodedString(env, user))
        + EncodedString(env, server))
    ensures var first := if user == "" then [LIST_EMPTY] else EncodedString(env, user);
      NextText(env, data, at)
      == Returned((PairAddress(if user == "" then "" else StringAsRead(env, user), StringAsRead(env, server)),
                   at + 1 + |first| + |EncodedString(env, server)|))
  {
    hide Has, EncodedString, StringAsRead, StringFits, Proper, NextString, PairAddress;
    var first := if user == "" then [LIST_EMPTY] else EncodedString(env, user);
    var s := EncodedString(env, server);
    assert [JID_PAIR] + first + s == [JID_PAIR] + (first + s);
    HasByte(data, at, JID_PAIR, first + s);
    HasBoth(data, at + 1, first, s);
    if user == "" {
      HasByte(data, at + 1, LIST_EMPTY, s);
    } else {
      StringReadsBack(env, data, at + 1, user);
    }
    StringReadsBack(env, data, at + 1 + |first|, server);
  }

  /** A written attribute value is read back. */
  lemma ValueReadsBack(env: Env, data: Bytes, at: nat, value: string)
    requires Proper(env) && ValueFits(env, value)
    ensures Has(data, at, EncodedValue(env, value)) ==>
      NextText(env, data, at) == Returned((ValueAsRead(env, value), at + |EncodedValue(env, value)|))
  {
    hide Has, EncodedString, StringAsRead, StringFits, NextString, NextText, JidForm, PairAddress, DeviceAddress,
      DomainOf;
    if Has(data, at, EncodedValue(env, value)) {
      match JidForm(value)
      case NotJid =>
        StringReadsBack(env, data, at, value);
        StringIsText(env, data, at);
      case DeviceJid(domainType, device, user) => DeviceReadsBack(env, data, at, domainType, device, user);
      case PairJid(user, server) => PairReadsBack(env, data, at, user, server);
    }
  }

  /** A written tag or attribute name is read back. */
  lemma NameReadsBack(env: Env, data: Bytes, at: nat, s: string)
    requires Proper(env) && StringFits(env, s) && Has(data, at, EncodedString(env, s))
    ensures NextText(env, data, at) == Returned((StringAsRead(env, s), at + |EncodedString(env, s)|))
  {
    hide Has, EncodedString, StringAsRead, StringFits, NextString, NextText;
    StringReadsBack(env, data, at, s);
    StringIsText(env, data, at);
  }

  lemma {:induction false} AttrsReadBack(env: Env, data: Bytes, at: nat, remaining: nat, before: seq<(string, string)>,
      attrs: seq<(string, string)>)
    requires Proper(env) && AttrsFit(env, attrs) && Has(data, at, EncodedAttrs(env, attrs)) && at <= |data|
    requires remaining == 2 * |attrs| || remaining == 2 * |attrs| + 1
    ensures ParsedAttrs(env, data, at, remaining, before)
         == Returned((AttrsAsRead(env, before, attrs), at + |EncodedAttrs(env, attrs)|))
    decreases |attrs|
  {
    hide Has, EncodedString, EncodedValue, StringAsRead, ValueAsRead, StringFits, ValueFits, NextText, SetAttr, Proper;
    if attrs != [] {
      var (key, value) := attrs[0];
      var rest := attrs[1..];
      AttrsFitRest(env, attrs);
      hide AttrsFit;
      HasBoth(data, at, EncodedString(env, key) + EncodedValue(env, value), EncodedAttrs(env, rest));
      HasBoth(data, at, EncodedString(env, key), EncodedValue(env, value));
      NameReadsBack(env, data, at, key);
      var mid := at + |EncodedString(env, key)|;
      ValueReadsBack(env, data, mid, value);
      var next := mid + |EncodedValue(env, value)|;
      AttrsReadBack(env, data, next, remaining - 2, SetAttr(before, StringAsRead(env, key), ValueAsRead(env, value)),
        rest);
    }
  }

  lemma AttrsFitRest(env: Env, attrs: seq<(string, string)>)
    requires attrs != [] && AttrsFit(env, attrs)
    ensures StringFits(env, attrs[0].0) && ValueFits(env, attrs[0].1) && AttrsFit(env, attrs[1..])
  {
    hide StringFits, ValueFits;
  }

  // -------------------------------------------------------------------- nodes

  /** What reading a written node gives: the node as read, or nothing when some tag reads as empty. */
  function NodeResult(env: Env, n: Node, next: nat): (r: Parsed<Node>) {
    if Tagged(env, n) then Returned((NodeAsRead(env, n), next)) else Thrown
  }

  function NodesResult(env: Env, nodes: seq<Node>, next: nat): (r: Parsed<seq<Node>>) {
    if AllTagged(env, nodes) then Returned((NodesAsRead(env, nodes), next)) else Thrown
  }

  function ContentResult(env: Env, c: Content, next: nat): (r: Parsed<Content>) {
    if c.Children? && !AllTagged(env, c.nodes) then Thrown else Returned((ContentAsRead(env, c), next))
  }

  /** The parts of a node put together. */
  lemma NodeFromParts(env: Env, data: Bytes, at: nat, size: nat, tag: string, attrs: seq<(string, string)>, a: nat,
      b: nat, c: nat)
    requires size > 0 && ParsedListSize(data, at) == Returned((size, a)) && NextText(env, data, a) == Returned((tag, b))
    requires ParsedAttrs(env, data, b, size - 1, []) == Returned((attrs, c))
    ensures ParsedNode(env, data, at)
         == if tag == "" then Thrown
            else if size % 2 == 1 then Returned((Node(tag, attrs, Absent), c))
            else match ParsedContent(env, data, c)
              case Thrown => Thrown
              case Returned((content, next)) => Returned((Node(tag, attrs, content), next))
  {
    hide NextText, ParsedAttrs, ParsedContent, ParsedListSize;
  }

  lemma SplitNode(env: Env, data: Bytes, at: nat, n: Node)
    requires Has(data, at, EncodedNode(env, n))
    ensures var a := at + |ListHeader(ListSize(n))|;
      var b := a + |EncodedString(env, n.tag)|;
      var c := b + |EncodedAttrs(env, n.attrs)|;
      && Has(data, at, ListHeader(ListSize(n))) && Has(data, a, EncodedString(env, n.tag))
      && Has(data, b, EncodedAttrs(env, n.attrs)) && Has(data, c, EncodedContent(env, n.content))
      && at + |EncodedNode(env, n)| == c + |EncodedContent(env, n.content)|
  {
    hide Has, EncodedString, EncodedAttrs, EncodedContent, ListHeader, ListSize;
    var size, tag, attrs, content :=
      ListHeader(ListSize(n)), EncodedString(env, n.tag), EncodedAttrs(env, n.attrs), EncodedContent(env, n.content);
    HasBoth(data, at, size + tag + attrs, content);
    HasBoth(data, at, size + tag, attrs);
    HasBoth(data, at, size, tag);
  }

  lemma ResultFromParts(env: Env, n: Node, content: Parsed<Content>, next: nat)
    requires content == if n.content.Absent? then Returned((Absent, next)) else ContentResult(env, n.content, next)
    ensures NodeResult(env, n, next)
         == if StringAsRead(env, n.tag) == "" then Thrown
            else match content
              case Thrown => Thrown
              case Returned((c, at)) => Returned((Node(StringAsRead(env, n.tag), AttrsAsRead(env, [], n.attrs), c), at))
  {
    hide StringAsRead, AttrsAsRead;
    match n.content
    case Absent => assert ContentAsRead(env, n.content) == Absent;
    case Text(_) =>
    case Raw(_) =>
    case Children(nodes) =>
      assert ContentAsRead(env, n.content) == Children(NodesAsRead(env, nodes));
  }

  lemma FitParts(env: Env, n: Node)
    requires NodeFits(env, n)
    ensures ListSize(n) < LIST_LIMIT && StringFits(env, n.tag) && AttrsFit(env, n.attrs) && ContentFits(env, n.content)
    ensures ListSize(n) > 0 && (ListSize(n) % 2 == 1 <==> n.content.Absent?)
    ensures ListSize(n) - 1 == 2 * |n.attrs| + (if n.content.Absent? then 0 else 1)
    ensures n.content.Absent? ==> EncodedContent(env, n.content) == []
  {
    hide StringFits, AttrsFit, ContentFits;
  }

  /**
   * Decoding inverts encoding: for every node the encoder accepts, at any
   * position and whatever follows, the reader returns the node as read and
   * stops exactly at the end of the encoding, and it throws if and only if some
   * tag of the tree is read back as the empty string.
   */
  lemma {:induction false} NodeReadsBack(env: Env, data: Bytes, at: nat, n: Node)
    requires Proper(env) && NodeFits(env, n)
    ensures Has(data, at, EncodedNode(env, n))
        ==> ParsedNode(env, data, at) == NodeResult(env, n, at + |EncodedNode(env, n)|)
    decreases n, 1
  {
    hide *;
    if Has(data, at, EncodedNode(env, n)) {
      SplitNode(env, data, at, n);
      FitParts(env, n);
      var size, tag, attrs := ListSize(n), StringAsRead(env, n.tag), AttrsAsRead(env, [], n.attrs);
      ListSizeReadsBack(data, at, size);
      var a := at + |ListHeader(size)|;
      NameReadsBack(env, data, a, n.tag);
      var b := a + |EncodedString(env, n.tag)|;
      AttrsReadBack(env, data, b, size - 1, [], n.attrs);
      var c := b + |EncodedAttrs(env, n.attrs)|;
      NodeFromParts(env, data, at, size, tag, attrs, a, b, c);
      var next := at + |EncodedNode(env, n)|;
      if n.content.Absent? {
        ResultFromParts(env, n, Returned((Absent, next)), next);
      } else {
        ContentReadsBack(env, data, c, n.content);
        ResultFromParts(env, n, ContentResult(env, n.content, next), next);
      }
    }
  }

  lemma BytesReadBack(env: Env, data: Bytes, at: nat, b: Bytes)
    requires |b| < BINARY_LIMIT && Has(data, at, BinaryHeader(|b|) + b)
    ensures ParsedContent(env, data, at) == Returned((Raw(b), at + |BinaryHeader(|b|) + b|))
  {
    hide Has, BinaryHeader, ParsedBinary, ParsedListSize, ParsedNodes;
    BinaryReadsBack(data, at, b);
  }

  lemma ChildrenFromParts(env: Env, data: Bytes, at: nat, count: nat, afterCount: nat)
    requires at < |data| && (data[at] == LIST_8 || data[at] == LIST_16)
    requires ParsedListSize(data, at) == Returned((count, afterCount))
    ensures ParsedContent(env, data, at)
         == match ParsedNodes(env, data, afterCount, count)
            case Thrown => Thrown
            case Returned((nodes, next)) => Returned((Children(nodes), next))
  {
    hide ParsedListSize, ParsedNodes;
  }

  lemma {:induction false} ContentReadsBack(env: Env, data: Bytes, at: nat, c: Content)
    requires Proper(env) && !c.Absent? && ContentFits(env, c) && Has(data, at, EncodedContent(env, c))
    ensures ParsedContent(env, data, at) == ContentResult(env, c, at + |EncodedContent(env, c)|)
    decreases c, 1
  {
    hide Proper, Has, BinaryHeader, ListHeader, ParsedListSize, ParsedContent, AllTagged, EncodedNodes, NodesAsRead,
      NodeFits;
    match c
    case Text(s) => BytesReadBack(env, data, at, env.utf8(s));
    case Raw(bytes) => BytesReadBack(env, data, at, bytes);
    case Children(nodes) =>
      var header := ListHeader(|nodes|);
      HasBoth(data, at, header, EncodedNodes(env, nodes));
      ListSizeReadsBack(data, at, |nodes|);
      ChildrenFromParts(env, data, at, |nodes|, at + |header|);
      NodesReadBack(env, data, at + |header|, nodes);
  }

  lemma {:induction false} NodesReadBack(env: Env, data: Bytes, at: nat, nodes: seq<Node>)
    requires Proper(env) && (forall i | 0 <= i < |nodes| :: NodeFits(env, nodes[i]))
    requires Has(data, at, EncodedNodes(env, nodes)) && at <= |data|
    ensures ParsedNodes(env, data, at, |nodes|) == NodesResult(env, nodes, at + |EncodedNodes(env, nodes)|)
    decreases nodes, 0
  {
    hide Has, EncodedNode, NodeFits, NodeAsRead, Tagged, Proper, ParsedNode;
    if nodes != [] {
      HasBoth(data, at, EncodedNode(env, nodes[0]), EncodedNodes(env, nodes[1..]));
      NodeReadsBack(env, data, at, nodes[0]);
      var mid := at + |EncodedNode(env, nodes[0])|;
      if Tagged(env, nodes[0]) {
        NodesReadBack(env, data, mid, nodes[1..]);
      }
    }
  }
}
