/** Encoding again what was decoded: when the bytes are the same, in terms of the node that was written. */
module BinaryReencode {
  import opened Prelude
  import opened Text
  import opened BinaryWire
  import opened BinaryRead
  import opened BinaryCodec

  /** An address the encoder writes without a user. */
  predicate EmptyUser(value: string) {
    JidForm(value).PairJid? && JidForm(value).user == ""
  }

  lemma NotThere(s: string, c: char)
    requires c !in s
    ensures IndexOf(s, c) == |s|
  {
  }

  lemma PlainForm(server: string)
    requires '@' !in server
    ensures JidForm(server).NotJid?
  {
    NotThere(server, '@');
  }

  lemma AddressForm(user: string, server: string)
    requires user != "" && '@' !in user && ':' !in user && server != "" && '@' !in server
    ensures JidForm(user + "@" + server) == PairJid(user, server)
  {
    hide IndexOf, IsDeviceText, DomainType;
    var value := user + "@" + server;
    FirstAt(value, '@', |user|);
    assert value[|user| + 1..] == server && value[..|user|] == user;
    assert forall j | 0 <= j <= |user| :: value[j] != ':';
  }

  /** Where the parts of a device address stand. */
  lemma DevicePieces(user: string, digits: string, server: string)
    requires '@' !in user && ':' !in user && '@' !in digits
    ensures var value := user + ":" + digits + "@" + server;
      var at, colon := |user| + 1 + |digits|, |user|;
      && IndexOf(value, '@') == at && IndexOf(value, ':') == colon
      && value[at + 1..] == server && value[..colon] == user && value[colon + 1..at] == digits
  {
    hide IndexOf;
    var front, back := user + ":", digits + ("@" + server);
    var value := user + ":" + digits + "@" + server;
    assert value == front + back;
    FirstAt(value, ':', |user|);
    assert forall j | 0 <= j < |user| + 1 :: value[j] == front[j];
    assert forall j | 0 <= j < |digits| :: value[|front| + j] == digits[j];
    assert forall j | |front| <= j < |front| + |digits| :: value[j] == digits[j - |front|];
    FirstAt(value, '@', |front| + |digits|);
  }

  lemma ShownDevice(n: nat)
    requires n <= 255
    ensures '@' !in Show(n) && IsDeviceText(Show(n)) && NatValue(Show(n)) == n
  {
    NatValueShow(n);
    hide ShowNat, NatValue;
    var s := Show(n);
    assert forall i | 0 <= i < |s| :: IsDigit(s[i]);
  }

  lemma ServersHaveNoSeparator(server: string)
    requires DomainType(server).Some?
    ensures server != "" && '@' !in server
  {
  }

  lemma DeviceForm(user: string, device: nat, server: string)
    requires user != "" && '@' !in user && ':' !in user && 0 < device <= 255 && DomainType(server).Some?
    ensures JidForm(user + ":" + Show(device) + "@" + server)
         == DeviceJid(DomainType(server).value, device as byte, user)
  {
    hide *;
    ShownDevice(device);
    ServersHaveNoSeparator(server);
    DevicePieces(user, Show(device), server);
    FormFromPieces(user + ":" + Show(device) + "@" + server, |user| + 1 + |Show(device)|, |user|);
  }

  lemma FormFromPieces(value: string, at: nat, colon: nat)
    requires IndexOf(value, '@') == at && IndexOf(value, ':') == colon && 0 < colon < at < |value| - 1
    requires '@' !in value[at + 1..] && DomainType(value[at + 1..]).Some?
    requires IsDeviceText(value[colon + 1..at]) && NatValue(value[colon + 1..at]) > 0
    ensures JidForm(value)
         == DeviceJid(DomainType(value[at + 1..]).value, NatValue(value[colon + 1..at]) as byte, value[..colon])
  {
    hide IndexOf, DomainType, NatValue, IsDigits;
  }

  /** The user part of an address holds neither separator, its server no further '@'. */
  lemma JidParts(value: string)
    requires !JidForm(value).NotJid?
    ensures match JidForm(value)
      case DeviceJid(domainType, device, user) =>
        && user != "" && '@' !in user && ':' !in user && device > 0
        && DomainType(DomainOf(domainType)) == Some(domainType)
      case PairJid(user, server) => '@' !in user && server != "" && '@' !in server
  {
    hide IndexOf, IsDeviceText, NatValue;
  }

  /** A user written in front of a server is cut at the first colon, if any comes before the '@'. */
  lemma UserIsCut(value: string)
    requires JidForm(value).PairJid?
    ensures var form := JidForm(value);
      ':' !in form.user || value == form.user + "@" + form.server
  {
    hide IndexOf, IsDeviceText, NatValue, DomainType;
    JidShape(value);
  }

  /**
   * Encoding a value that was read back gives the bytes it was read from,
   * except for an address without a user, which comes back as its server and
   * takes two bytes less.
   */
  lemma ValueReencodes(env: Env, value: string)
    requires PiecesKept(env, value)
    ensures EmptyUser(value) ==> |EncodedValue(env, ValueAsRead(env, value))| + 2 == |EncodedValue(env, value)|
    ensures !EmptyUser(value) ==> EncodedValue(env, ValueAsRead(env, value)) == EncodedValue(env, value)
    ensures ValueFits(env, value) ==> ValueFits(env, ValueAsRead(env, value))
  {
    hide JidForm, StringAsRead, EncodedString, StringFits, IndexOf, Show, DomainType, DomainOf;
    match JidForm(value)
    case NotJid =>
    case DeviceJid(domainType, device, user) =>
      JidParts(value);
      DeviceForm(user, device as nat, DomainOf(domainType));
    case PairJid(user, server) =>
      JidParts(value);
      if user == "" {
        PlainForm(server);
      } else if ':' !in user {
        AddressForm(user, server);
      } else {
        UserIsCut(value);
      }
  }

  /** One such address: what is left of it is its server. */
  lemma EmptyUserDropped(env: Env)
    requires StringAsRead(env, "lid") == "lid"
    ensures EmptyUser(":5@lid") && ValueAsRead(env, ":5@lid") == "lid"
  {
    hide IndexOf, StringAsRead, NatValue, IsDigits;
    var value := ":5@lid";
    FirstAt(value, '@', 2);
    FirstAt(value, ':', 0);
    assert value[3..] == "lid" && value[1..2] == ['5'] && value[..0] == "";
    OneDigit('5');
    assert JidForm(value) == PairJid("", "lid");
  }

  // ------------------------------------------------------------- whole nodes

  /** The strings of the attributes survive the text encoding. */
  predicate AttrTextKept(env: Env, attrs: seq<(string, string)>) {
    forall i | 0 <= i < |attrs| :: StringAsRead(env, attrs[i].0) == attrs[i].0 && PiecesKept(env, attrs[i].1)
  }

  /** Every string written for the tree survives the text encoding. */
  predicate TextKept(env: Env, n: Node)
    decreases n, 1
  {
    && StringAsRead(env, n.tag) == n.tag && AttrTextKept(env, n.attrs)
    && (n.content.Children? ==> AllTextKept(env, n.content.nodes))
  }

  predicate AllTextKept(env: Env, nodes: seq<Node>)
    decreases nodes, 0
  {
    nodes != [] ==> TextKept(env, nodes[0]) && AllTextKept(env, nodes[1..])
  }

  function EmptyUsersIn(attrs: seq<(string, string)>): (k: nat) {
    if attrs == [] then 0 else (if EmptyUser(attrs[0].1) then 1 else 0) + EmptyUsersIn(attrs[1..])
  }

  /** How many attribute values of the tree are addresses without a user. */
  function EmptyUsers(n: Node): (k: nat)
    decreases n, 1
  {
    EmptyUsersIn(n.attrs) + ContentEmptyUsers(n.content)
  }

  function ContentEmptyUsers(c: Content): (k: nat)
    decreases c, 1
  {
    if c.Children? then AllEmptyUsers(c.nodes) else 0
  }

  function AllEmptyUsers(nodes: seq<Node>): (k: nat)
    decreases nodes, 0
  {
    if nodes == [] then 0 else EmptyUsers(nodes[0]) + AllEmptyUsers(nodes[1..])
  }

  /** `after` is `before`, or two bytes shorter for each of `k` losses. */
  predicate Shrinks(after: Bytes, before: Bytes, k: nat) {
    |after| + 2 * k == |before| && (k == 0 ==> after == before)
  }

  lemma ShrinkBoth(a: Bytes, b: Bytes, j: nat, c: Bytes, d: Bytes, k: nat)
    requires Shrinks(a, b, j) && Shrinks(c, d, k)
    ensures Shrinks(a + c, b + d, j + k)
  {
  }

  lemma AttrTextKeptFirst(env: Env, attrs: seq<(string, string)>)
    requires attrs != [] && AttrTextKept(env, attrs)
    ensures StringAsRead(env, attrs[0].0) == attrs[0].0 && PiecesKept(env, attrs[0].1) && AttrTextKept(env, attrs[1..])
  {
    hide StringAsRead, PiecesKept;
  }

  lemma {:induction false} AttrsReencode(env: Env, attrs: seq<(string, string)>)
    requires AttrTextKept(env, attrs)
    ensures Shrinks(EncodedAttrs(env, Mapped(env, attrs)), EncodedAttrs(env, attrs), EmptyUsersIn(attrs))
    ensures AttrsFit(env, attrs) ==> AttrsFit(env, Mapped(env, attrs))
  {
    hide StringAsRead, ValueAsRead, PiecesKept, EmptyUser, EncodedString, EncodedValue, StringFits, ValueFits;
    hide AttrTextKept, Mapped;
    if attrs == [] {
      assert Mapped(env, attrs) == [];
    } else {
      var (name, value) := attrs[0];
      AttrTextKeptFirst(env, attrs);
      AttrsReencode(env, attrs[1..]);
      ValueReencodes(env, value);
      MappedFirst(env, attrs);
      var read, later := Mapped(env, attrs), Mapped(env, attrs[1..]);
      assert read[0] == (name, ValueAsRead(env, value)) && read[1..] == later;
      var s, k := EncodedString(env, name), if EmptyUser(value) then 1 else 0;
      ShrinkBoth(s, s, 0, EncodedValue(env, ValueAsRead(env, value)), EncodedValue(env, value), k);
      ShrinkBoth(s + EncodedValue(env, ValueAsRead(env, value)), s + EncodedValue(env, value), k,
                 EncodedAttrs(env, later), EncodedAttrs(env, attrs[1..]), EmptyUsersIn(attrs[1..]));
      if AttrsFit(env, attrs) {
        RestFits(env, attrs, read);
      }
    }
  }

  lemma RestFits(env: Env, attrs: seq<(string, string)>, read: seq<(string, string)>)
    requires attrs != [] && read != [] && AttrsFit(env, attrs)
    requires read[0].0 == attrs[0].0 && (ValueFits(env, attrs[0].1) ==> ValueFits(env, read[0].1))
    requires AttrsFit(env, attrs[1..]) ==> AttrsFit(env, read[1..])
    ensures AttrsFit(env, read)
  {
    hide StringFits, ValueFits;
    assert read == [read[0]] + read[1..];
  }

  lemma AttrNamesKept(env: Env, attrs: seq<(string, string)>)
    requires AttrTextKept(env, attrs)
    ensures NamesKept(env, attrs)
  {
    hide StringAsRead, PiecesKept;
  }

  /** A node with its attributes and content replaced, everything else the same. */
  lemma NodeShrinks(env: Env, n: Node, m: Node, j: nat, k: nat)
    requires m.tag == n.tag && |m.attrs| == |n.attrs| && (m.content.Absent? <==> n.content.Absent?)
    requires Shrinks(EncodedAttrs(env, m.attrs), EncodedAttrs(env, n.attrs), j)
    requires Shrinks(EncodedContent(env, m.content), EncodedContent(env, n.content), k)
    ensures Shrinks(EncodedNode(env, m), EncodedNode(env, n), j + k)
  {
    hide EncodedString, EncodedAttrs, EncodedContent, ListHeader, Shrinks;
    var head := ListHeader(ListSize(n)) + EncodedString(env, n.tag);
    SameShrinks(head);
    ShrinkBoth(head, head, 0, EncodedAttrs(env, m.attrs), EncodedAttrs(env, n.attrs), j);
    ShrinkBoth(head + EncodedAttrs(env, m.attrs), head + EncodedAttrs(env, n.attrs), j,
               EncodedContent(env, m.content), EncodedContent(env, n.content), k);
  }

  lemma SameShrinks(b: Bytes)
    ensures Shrinks(b, b, 0)
  {
  }

  lemma {:induction false} NodeReencodes(env: Env, n: Node)
    requires Distinct(n) && TextKept(env, n)
    ensures Shrinks(EncodedNode(env, NodeAsRead(env, n)), EncodedNode(env, n), EmptyUsers(n))
    ensures NodeFits(env, n) ==> NodeFits(env, NodeAsRead(env, n))
    decreases n, 1
  {
    hide StringAsRead, AttrTextKept, DistinctAttrs, EncodedNode, EncodedAttrs, AttrsFit, StringFits, Shrinks,
      EmptyUsersIn;
    hide Mapped, AttrsAsRead, EncodedContent, ContentAsRead, ContentFits;
    AttrNamesKept(env, n.attrs);
    hide NamesKept;
    assert [] + n.attrs == n.attrs && [] + Mapped(env, n.attrs) == Mapped(env, n.attrs);
    NamedAttrsAsRead(env, [], n.attrs);
    AttrsReencode(env, n.attrs);
    ContentReencodes(env, n.content);
    var m := NodeAsRead(env, n);
    NodeShrinks(env, n, m, EmptyUsersIn(n.attrs), ContentEmptyUsers(n.content));
  }

  lemma {:induction false} ContentReencodes(env: Env, c: Content)
    requires c.Children? ==> AllDistinct(c.nodes) && AllTextKept(env, c.nodes)
    ensures ContentAsRead(env, c).Absent? <==> c.Absent?
    ensures Shrinks(EncodedContent(env, ContentAsRead(env, c)), EncodedContent(env, c), ContentEmptyUsers(c))
    ensures ContentFits(env, c) ==> ContentFits(env, ContentAsRead(env, c))
    decreases c, 1
  {
    hide BinaryHeader, ListHeader, EncodedNodes, NodesAsRead, AllDistinct, AllTextKept, NodeFits, AllEmptyUsers;
    match c
    case Absent => assert ContentAsRead(env, c) == c;
    case Text(s) => assert ContentAsRead(env, c) == Raw(env.utf8(s));
    case Raw(_) => assert ContentAsRead(env, c) == c;
    case Children(nodes) =>
      NodesReencode(env, nodes);
      var read := NodesAsRead(env, nodes);
      var header := ListHeader(|nodes|);
      assert ContentAsRead(env, c) == Children(read);
      ShrinkBoth(header, header, 0, EncodedNodes(env, read), EncodedNodes(env, nodes), AllEmptyUsers(nodes));
  }

  lemma {:induction false} NodesReencode(env: Env, nodes: seq<Node>)
    requires AllDistinct(nodes) && AllTextKept(env, nodes)
    ensures Shrinks(EncodedNodes(env, NodesAsRead(env, nodes)), EncodedNodes(env, nodes), AllEmptyUsers(nodes))
    ensures (forall i | 0 <= i < |nodes| :: NodeFits(env, nodes[i]))
        ==> forall i | 0 <= i < |nodes| :: NodeFits(env, NodesAsRead(env, nodes)[i])
    decreases nodes, 0
  {
    hide EncodedNode, NodeAsRead, Distinct, TextKept, NodeFits, EmptyUsers;
    if nodes != [] {
      NodeReencodes(env, nodes[0]);
      NodesReencode(env, nodes[1..]);
      var read := NodesAsRead(env, nodes);
      assert read[0] == NodeAsRead(env, nodes[0]) && read[1..] == NodesAsRead(env, nodes[1..]);
      ShrinkBoth(EncodedNode(env, read[0]), EncodedNode(env, nodes[0]), EmptyUsers(nodes[0]),
                 EncodedNodes(env, read[1..]), EncodedNodes(env, nodes[1..]), AllEmptyUsers(nodes[1..]));
      if forall i | 0 <= i < |nodes| :: NodeFits(env, nodes[i]) {
        assert forall i | 0 <= i < |nodes[1..]| :: nodes[1..][i] == nodes[i + 1];
        forall i | 0 <= i < |nodes| ensures NodeFits(env, read[i]) {
          if i > 0 {
            assert read[1..][i - 1] == read[i];
          }
        }
      }
    }
  }

  /**
   * For every node whose strings survive the text encoding, decoding its bytes
   * and encoding the result gives the same bytes if and only if no attribute
   * value of the tree is an address without a user; each such value costs two
   * bytes. The encoder accepts the decoded node in either case.
   */
  lemma ReencodingIsIdentical(env: Env, n: Node)
    requires Proper(env) && NodeFits(env, n) && Tagged(env, n) && Distinct(n) && TextKept(env, n)
    ensures DecodedNode(env, EncodedNode(env, n)) == Returned(NodeAsRead(env, n)) && NodeFits(env, NodeAsRead(env, n))
    ensures EncodedNode(env, DecodedNode(env, EncodedNode(env, n)).value) == EncodedNode(env, n) <==> EmptyUsers(n) == 0
    ensures |EncodedNode(env, NodeAsRead(env, n))| + 2 * EmptyUsers(n) == |EncodedNode(env, n)|
  {
    NodeReencodes(env, n);
    hide EncodedNode, NodeAsRead, DecodedNode, NodeFits, Tagged, Distinct, TextKept, Proper, EmptyUsers;
    DecodeEncode(env, n, []);
    assert EncodedNode(env, n) + [] == EncodedNode(env, n);
  }

  // -------------------------------------------------- exact trees, by input

  predicate PlainAttrs(attrs: seq<(string, string)>) {
    forall i | 0 <= i < |attrs| :: PlainAddress(attrs[i].1)
  }

  /** Every attribute value of the tree is no address, or a plain one. */
  predicate AllPlain(n: Node)
    decreases n, 1
  {
    PlainAttrs(n.attrs) && (n.content.Children? ==> NodesPlain(n.content.nodes))
  }

  predicate NodesPlain(nodes: seq<Node>)
    decreases nodes, 0
  {
    nodes != [] ==> AllPlain(nodes[0]) && NodesPlain(nodes[1..])
  }

  lemma AttrsPlain(env: Env, attrs: seq<(string, string)>)
    requires AttrTextKept(env, attrs)
    ensures AttrsKept(env, attrs) <==> PlainAttrs(attrs)
  {
    hide StringAsRead, ValueAsRead, PiecesKept, PlainAddress;
    forall i | 0 <= i < |attrs| ensures AttrKept(env, attrs[i]) <==> PlainAddress(attrs[i].1) {
      ValueExact(env, attrs[i].1);
    }
  }

  lemma {:induction false} FaithfulIsPlain(env: Env, n: Node)
    requires TextKept(env, n)
    ensures Faithful(env, n) <==> AllPlain(n)
    decreases n, 1
  {
    hide StringAsRead, AttrTextKept, AttrsKept, PlainAttrs;
    AttrsPlain(env, n.attrs);
    if n.content.Children? {
      AllFaithfulArePlain(env, n.content.nodes);
    }
  }

  lemma {:induction false} AllFaithfulArePlain(env: Env, nodes: seq<Node>)
    requires AllTextKept(env, nodes)
    ensures AllFaithful(env, nodes) <==> NodesPlain(nodes)
    decreases nodes, 0
  {
    hide TextKept, Faithful, AllPlain;
    if nodes != [] {
      FaithfulIsPlain(env, nodes[0]);
      AllFaithfulArePlain(env, nodes[1..]);
    }
  }

  /**
   * A node whose strings survive the text encoding comes back as it was, texts
   * as bytes, if and only if every attribute value is no address or a plain one.
   */
  lemma NodeExactByAddress(env: Env, n: Node)
    requires Distinct(n) && TextKept(env, n)
    ensures NodeAsRead(env, n) == AsBytes(env, n) <==> AllPlain(n)
  {
    hide *;
    NodeExact(env, n);
    FaithfulIsPlain(env, n);
  }
}
