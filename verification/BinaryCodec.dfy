/** The whole codec: what encoding followed by decoding preserves, and when it preserves everything. */
module BinaryCodec {
  import opened Prelude
  import opened Text
  import opened BinaryWire
  import opened BinaryRead
  import opened BinaryPrefix
  import opened BinaryRoundTrip

  /** Encoding then decoding, with any bytes behind: the node as read, unless one of its tags reads as empty. */
  lemma DecodeEncode(env: Env, n: Node, more: Bytes)
    requires Proper(env) && NodeFits(env, n)
    ensures DecodedNode(env, EncodedNode(env, n) + more)
         == if Tagged(env, n) then Returned(NodeAsRead(env, n)) else Thrown
  {
    hide ParsedNode, EncodedNode, NodeFits, Tagged, NodeAsRead, Proper;
    NodeReadsBack(env, EncodedNode(env, n) + more, 0, n);
  }

  /** An encoded node cut short anywhere is always refused. */
  lemma TruncatedThrows(env: Env, n: Node, k: nat)
    requires Proper(env) && NodeFits(env, n)
    ensures k < |EncodedNode(env, n)| ==> DecodedNode(env, EncodedNode(env, n)[..k]) == Thrown
  {
    hide ParsedNode, EncodedNode, NodeFits, Tagged, NodeAsRead, Proper;
    if k < |EncodedNode(env, n)| {
      NodeReadsBack(env, EncodedNode(env, n), 0, n);
      NodeCut(env, EncodedNode(env, n), 0, k);
    }
  }

  /** The encoding is free of prefixes: a node's bytes open another's only if both read as the same node. */
  lemma PrefixFree(env: Env, a: Node, b: Node)
    requires Proper(env) && NodeFits(env, a) && NodeFits(env, b) && Tagged(env, a)
    ensures EncodedNode(env, a) <= EncodedNode(env, b) ==>
      EncodedNode(env, a) == EncodedNode(env, b) && NodeAsRead(env, a) == NodeAsRead(env, b)
  {
    hide ParsedNode, EncodedNode, NodeFits, Tagged, NodeAsRead, Proper;
    var x, y := EncodedNode(env, a), EncodedNode(env, b);
    if x <= y {
      assert y[..|x|] == x;
      TruncatedThrows(env, b, |x|);
      NodeReadsBack(env, x, 0, a);
      NodeReadsBack(env, y, 0, b);
    }
  }

  // ------------------------------------------------------- exact round trips

  lemma {:induction false} LeadingDigit(n: nat)
    ensures ShowNat(n)[0] == '0' <==> n == 0
  {
    if n >= 10 {
      LeadingDigit(n / 10);
    }
  }

  lemma NatValueAppend(front: string, last: char)
    requires IsDigits(front) && IsDigit(last)
    ensures IsDigits(front + [last]) && NatValue(front + [last]) == 10 * NatValue(front) + (last as int - '0' as int)
  {
    assert (front + [last])[..|front|] == front;
  }

  lemma OneDigit(c: char)
    requires IsDigit(c)
    ensures IsDigits([c]) && NatValue([c]) == c as int - '0' as int
  {
    assert [c][..0] == "";
  }

  lemma ShowDigits(front: nat, last: char)
    requires front > 0 && IsDigit(last)
    ensures ShowNat(10 * front + (last as int - '0' as int)) == ShowNat(front) + [last]
  {
  }

  lemma {:induction false} ShowNatValue(s: string)
    requires IsDigits(s) && s[0] != '0'
    ensures NatValue(s) > 0 && ShowNat(NatValue(s)) == s
  {
    var front, last := s[..|s| - 1], s[|s| - 1];
    assert s == front + [last] && IsDigit(last);
    if front == "" {
      OneDigit(last);
      assert s == [last];
    } else {
      assert IsDigits(front) && front[0] == s[0];
      hide NatValue, ShowNat, IsDigits;
      ShowNatValue(front);
      NatValueAppend(front, last);
      ShowDigits(NatValue(front), last);
    }
  }

  /** A device number is printed as it was written if and only if it has no leading zero. */
  lemma DeviceTextExact(s: string)
    requires IsDigits(s) && NatValue(s) != 0
    ensures Show(NatValue(s)) == s <==> s[0] != '0'
  {
    if s[0] != '0' {
      ShowNatValue(s);
    } else {
      LeadingDigit(NatValue(s));
    }
  }

  /** The strings written for a value are read back as they are. */
  predicate PiecesKept(env: Env, value: string) {
    match JidForm(value)
    case NotJid => StringAsRead(env, value) == value
    case DeviceJid(_, _, user) => StringAsRead(env, user) == user
    case PairJid(user, server) => (user == "" || StringAsRead(env, user) == user) && StringAsRead(env, server) == server
  }

  /**
   * A value written as an address has no device part, or one without leading
   * zeros, behind a user, on one of the four domains that carry devices.
   */
  predicate PlainAddress(value: string) {
    var at, colon := IndexOf(value, '@'), IndexOf(value, ':');
    colon < at < |value| && !JidForm(value).NotJid? ==>
      DomainType(value[at + 1..]).Some? && colon > 0 && value[colon + 1] != '0'
  }

  lemma SplitAt(s: string, i: nat)
    requires i < |s|
    ensures s == s[..i] + [s[i]] + s[i + 1..]
  {
  }

  /** The parts of an address, back to back. */
  lemma JidShape(value: string)
    requires !JidForm(value).NotJid?
    ensures var at := IndexOf(value, '@');
      0 < at < |value| - 1 && value == value[..at] + "@" + value[at + 1..]
  {
    hide IndexOf, IsDeviceText, DomainType;
    SplitAt(value, IndexOf(value, '@'));
  }

  lemma DeviceShape(value: string)
    requires !JidForm(value).NotJid? && IndexOf(value, ':') < IndexOf(value, '@')
    ensures var at, colon := IndexOf(value, '@'), IndexOf(value, ':');
      var user, digits, server := value[..colon], value[colon + 1..at], value[at + 1..];
      && IsDigits(digits) && NatValue(digits) <= 255 && digits[0] == value[colon + 1]
      && value == user + ":" + digits + "@" + server
      && JidForm(value) == if DomainType(server).Some? && NatValue(digits) != 0 && user != ""
         then DeviceJid(DomainType(server).value, NatValue(digits) as byte, user) else PairJid(user, server)
  {
    hide IndexOf, DomainType, NatValue;
    var at, colon := IndexOf(value, '@'), IndexOf(value, ':');
    JidShape(value);
    SplitAt(value[..at], colon);
    assert value[..at][colon + 1..] == value[colon + 1..at] && value[..at][..colon] == value[..colon];
  }

  lemma DomainReads(server: string)
    requires DomainType(server).Some?
    ensures DomainOf(DomainType(server).value) == server
  {
  }

  /**
   * An attribute value survives the round trip if and only if it is not an
   * address or is a plain one. What is lost otherwise: a device number on any
   * other server, a device 0, leading zeros, and the device of an empty user.
   */
  lemma ValueExact(env: Env, value: string)
    requires PiecesKept(env, value)
    ensures ValueAsRead(env, value) == value <==> PlainAddress(value)
  {
    hide StringAsRead, IsDeviceText, DomainType, DomainOf, Show, NatValue;
    var form := JidForm(value);
    if !form.NotJid? {
      JidShape(value);
      var at, colon := IndexOf(value, '@'), IndexOf(value, ':');
      if colon < at {
        DevicePartExact(env, value);
      } else {
        assert form == PairJid(value[..at], value[at + 1..]);
      }
    }
  }

  lemma DevicePartExact(env: Env, value: string)
    requires !JidForm(value).NotJid? && IndexOf(value, ':') < IndexOf(value, '@') && PiecesKept(env, value)
    ensures ValueAsRead(env, value) == value <==> PlainAddress(value)
  {
    hide StringAsRead, DomainType, DomainOf, Show, NatValue, JidForm, IndexOf;
    DeviceShape(value);
    JidShape(value);
    var at, colon := IndexOf(value, '@'), IndexOf(value, ':');
    var user, digits, server := value[..colon], value[colon + 1..at], value[at + 1..];
    if DomainType(server).Some? && NatValue(digits) != 0 && user != "" {
      DomainReads(server);
      DeviceTextExact(digits);
      hide IsDigits;
      var shown := Show(NatValue(digits));
      assert ValueAsRead(env, value) == user + ":" + shown + "@" + server;
      Middle(user + ":", shown, digits, "@" + server);
      assert user + ":" + shown + "@" + server == (user + ":") + shown + ("@" + server);
      assert user + ":" + digits + "@" + server == (user + ":") + digits + ("@" + server);
    } else {
      assert |ValueAsRead(env, value)| <= |user| + 1 + |server| < |value|;
      if digits[0] != '0' {
        ShowNatValue(digits);
      }
    }
  }

  lemma Middle(a: string, b: string, c: string, d: string)
    ensures a + b + d == a + c + d ==> b == c
  {
    if a + b + d == a + c + d {
      assert |b| == |c|;
      assert b == (a + b + d)[|a|..|a| + |b|];
      assert c == (a + c + d)[|a|..|a| + |c|];
    }
  }

  lemma FirstAt(s: string, c: char, i: nat)
    requires i < |s| && s[i] == c && forall j | 0 <= j < i :: s[j] != c
    ensures IndexOf(s, c) == i
  {
  }

  /** One such loss: the device of a group member's address is dropped. */
  lemma GroupDeviceDropped(env: Env)
    requires StringAsRead(env, "g.us") == "g.us"
    ensures ValueAsRead(env, "1:5@g.us") == "1@g.us"
  {
    hide IndexOf, StringAsRead, NatValue, IsDigits;
    var value := "1:5@g.us";
    FirstAt(value, '@', 3);
    FirstAt(value, ':', 1);
    assert value[4..] == "g.us" && value[2..3] == ['5'] && value[..1] == "1";
    OneDigit('5');
    assert JidForm(value) == PairJid("1", "g.us");
    DigitReads(env, '1');
  }

  lemma DigitReads(env: Env, c: char)
    requires IsDigit(c)
    ensures StringAsRead(env, [c]) == [c]
  {
    assert AllIn([c], Nibble);
  }

  // ------------------------------------------------------------- whole nodes

  /** The node with every text content as the bytes it is written as. */
  function AsBytes(env: Env, n: Node): (r: Node)
    decreases n, 1
  {
    match n.content
    case Text(s) => n.(content := Raw(env.utf8(s)))
    case Children(nodes) => n.(content := Children(AllAsBytes(env, nodes)))
    case _ => n
  }

  function AllAsBytes(env: Env, nodes: seq<Node>): (r: seq<Node>)
    ensures |r| == |nodes|
    decreases nodes, 0
  {
    if nodes == [] then [] else [AsBytes(env, nodes[0])] + AllAsBytes(env, nodes[1..])
  }

  predicate DistinctAttrs(attrs: seq<(string, string)>) {
    forall i, j | 0 <= i < j < |attrs| :: attrs[i].0 != attrs[j].0
  }

  predicate AttrKept(env: Env, attr: (string, string)) {
    StringAsRead(env, attr.0) == attr.0 && ValueAsRead(env, attr.1) == attr.1
  }

  predicate AttrsKept(env: Env, attrs: seq<(string, string)>) {
    forall i | 0 <= i < |attrs| :: AttrKept(env, attrs[i])
  }

  /** Attribute names are distinct throughout the tree, as the keys of objects are. */
  predicate Distinct(n: Node)
    decreases n, 1
  {
    DistinctAttrs(n.attrs) && (n.content.Children? ==> AllDistinct(n.content.nodes))
  }

  predicate AllDistinct(nodes: seq<Node>)
    decreases nodes, 0
  {
    nodes != [] ==> Distinct(nodes[0]) && AllDistinct(nodes[1..])
  }

  /** Every tag, attribute name and attribute value of the tree is one that survives. */
  predicate Faithful(env: Env, n: Node)
    decreases n, 1
  {
    StringAsRead(env, n.tag) == n.tag && AttrsKept(env, n.attrs)
      && (n.content.Children? ==> AllFaithful(env, n.content.nodes))
  }

  predicate AllFaithful(env: Env, nodes: seq<Node>)
    decreases nodes, 0
  {
    nodes != [] ==> Faithful(env, nodes[0]) && AllFaithful(env, nodes[1..])
  }

  predicate HasKey(attrs: seq<(string, string)>, key: string) {
    exists i :: 0 <= i < |attrs| && attrs[i].0 == key
  }

  lemma {:induction false} SetAttrShape(attrs: seq<(string, string)>, key: string, value: string)
    ensures if HasKey(attrs, key) then |SetAttr(attrs, key, value)| == |attrs|
        else SetAttr(attrs, key, value) == attrs + [(key, value)]
  {
    if attrs != [] && attrs[0].0 != key {
      SetAttrShape(attrs[1..], key, value);
      if i :| 0 <= i < |attrs| && attrs[i].0 == key {
        assert attrs[1..][i - 1].0 == key;
      }
      if i :| 0 <= i < |attrs[1..]| && attrs[1..][i].0 == key {
        assert attrs[i + 1].0 == key;
      }
    }
  }

  function Mapped(env: Env, attrs: seq<(string, string)>): (r: seq<(string, string)>)
    ensures |r| == |attrs|
  {
    seq(|attrs|, i requires 0 <= i < |attrs| => (StringAsRead(env, attrs[i].0), ValueAsRead(env, attrs[i].1)))
  }

  lemma MappedFirst(env: Env, attrs: seq<(string, string)>)
    requires attrs != []
    ensures Mapped(env, attrs)
        == [(StringAsRead(env, attrs[0].0), ValueAsRead(env, attrs[0].1))] + Mapped(env, attrs[1..])
  {
    hide StringAsRead, ValueAsRead;
  }

  /** Attributes are read back one by one unless two of their names collide. */
  lemma {:induction false} AttrsAsReadShape(env: Env, before: seq<(string, string)>, attrs: seq<(string, string)>)
    ensures |AttrsAsRead(env, before, attrs)| <= |before| + |attrs|
    ensures |AttrsAsRead(env, before, attrs)| == |before| + |attrs|
        ==> AttrsAsRead(env, before, attrs) == before + Mapped(env, attrs)
    decreases |attrs|
  {
    hide StringAsRead, ValueAsRead, SetAttr, HasKey, Mapped;
    if attrs == [] {
      assert before + Mapped(env, attrs) == before;
    } else {
      var key, value := StringAsRead(env, attrs[0].0), ValueAsRead(env, attrs[0].1);
      SetAttrShape(before, key, value);
      AttrsAsReadShape(env, SetAttr(before, key, value), attrs[1..]);
      MappedFirst(env, attrs);
      assert before + [(key, value)] + Mapped(env, attrs[1..]) == before + ([(key, value)] + Mapped(env, attrs[1..]));
    }
  }

  predicate NamesKept(env: Env, attrs: seq<(string, string)>) {
    forall i | 0 <= i < |attrs| :: StringAsRead(env, attrs[i].0) == attrs[i].0
  }

  /** Distinct names that survive keep every attribute in its place. */
  lemma {:induction false} NamedAttrsAsRead(env: Env, before: seq<(string, string)>, attrs: seq<(string, string)>)
    requires DistinctAttrs(before + attrs) && NamesKept(env, attrs)
    ensures AttrsAsRead(env, before, attrs) == before + Mapped(env, attrs)
    decreases |attrs|
  {
    hide StringAsRead, ValueAsRead, SetAttr, Mapped, DistinctAttrs;
    if attrs == [] {
      assert before + Mapped(env, attrs) == before;
    } else {
      var name, value := attrs[0].0, ValueAsRead(env, attrs[0].1);
      NameIsNew(before, attrs, value);
      SetAttrShape(before, name, value);
      assert NamesKept(env, attrs[1..]);
      NamedAttrsAsRead(env, before + [(name, value)], attrs[1..]);
      MappedFirst(env, attrs);
      assert before + [(name, value)] + Mapped(env, attrs[1..]) == before + ([(name, value)] + Mapped(env, attrs[1..]));
    }
  }

  lemma NameIsNew(before: seq<(string, string)>, attrs: seq<(string, string)>, value: string)
    requires attrs != [] && DistinctAttrs(before + attrs)
    ensures !HasKey(before, attrs[0].0) && DistinctAttrs(before + [(attrs[0].0, value)] + attrs[1..])
  {
    var all, next := before + attrs, before + [(attrs[0].0, value)] + attrs[1..];
    assert forall i | 0 <= i < |all| :: next[i].0 == all[i].0;
    forall i | 0 <= i < |before| ensures before[i].0 != attrs[0].0 {
      assert all[i] == before[i] && all[|before|] == attrs[0];
    }
  }

  lemma KeptIsMapped(env: Env, attrs: seq<(string, string)>)
    ensures AttrsKept(env, attrs) <==> Mapped(env, attrs) == attrs
    ensures AttrsKept(env, attrs) ==> NamesKept(env, attrs)
  {
    hide StringAsRead, ValueAsRead;
    if Mapped(env, attrs) == attrs {
      forall i | 0 <= i < |attrs| ensures AttrKept(env, attrs[i]) {
        assert Mapped(env, attrs)[i] == attrs[i];
      }
    }
    if AttrsKept(env, attrs) {
      forall i | 0 <= i < |attrs|
        ensures Mapped(env, attrs)[i] == attrs[i] && StringAsRead(env, attrs[i].0) == attrs[i].0
      {
        assert AttrKept(env, attrs[i]);
      }
    }
  }

  lemma AttrsExact(env: Env, attrs: seq<(string, string)>)
    requires DistinctAttrs(attrs)
    ensures AttrsAsRead(env, [], attrs) == attrs <==> AttrsKept(env, attrs)
  {
    hide AttrsAsRead, AttrsKept, NamesKept, Mapped, DistinctAttrs;
    assert [] + attrs == attrs && [] + Mapped(env, attrs) == Mapped(env, attrs);
    KeptIsMapped(env, attrs);
    if AttrsKept(env, attrs) {
      NamedAttrsAsRead(env, [], attrs);
    }
    AttrsAsReadShape(env, [], attrs);
  }

  /**
   * A node comes back as it was, text contents as bytes, if and only if every
   * tag, attribute name and attribute value of its tree survives.
   */
  lemma {:induction false} NodeExact(env: Env, n: Node)
    requires Distinct(n)
    ensures NodeAsRead(env, n) == AsBytes(env, n) <==> Faithful(env, n)
    decreases n, 1
  {
    hide StringAsRead, AttrsAsRead, AttrsKept, DistinctAttrs;
    AttrsExact(env, n.attrs);
    match n.content
    case Absent => assert ContentAsRead(env, n.content) == n.content;
    case Text(_) =>
    case Raw(_) => assert ContentAsRead(env, n.content) == n.content;
    case Children(nodes) => NodesExact(env, nodes);
  }

  lemma {:induction false} NodesExact(env: Env, nodes: seq<Node>)
    requires AllDistinct(nodes)
    ensures NodesAsRead(env, nodes) == AllAsBytes(env, nodes) <==> AllFaithful(env, nodes)
    decreases nodes, 0
  {
    hide NodeAsRead, AsBytes, Distinct, Faithful;
    if nodes != [] {
      NodeExact(env, nodes[0]);
      NodesExact(env, nodes[1..]);
      var r, b := NodesAsRead(env, nodes), AllAsBytes(env, nodes);
      assert r[0] == NodeAsRead(env, nodes[0]) && r[1..] == NodesAsRead(env, nodes[1..]);
      assert b[0] == AsBytes(env, nodes[0]) && b[1..] == AllAsBytes(env, nodes[1..]);
      if r[0] == b[0] && r[1..] == b[1..] {
        assert r == [r[0]] + r[1..] && b == [b[0]] + b[1..];
      }
    }
  }

  lemma {:induction false} AsBytesEncodes(env: Env, n: Node)
    ensures EncodedNode(env, AsBytes(env, n)) == EncodedNode(env, n)
    decreases n, 1
  {
    hide EncodedString, EncodedAttrs, BinaryHeader, ListHeader;
    match n.content
    case Absent =>
    case Text(_) =>
    case Raw(_) =>
    case Children(nodes) => AllAsBytesEncode(env, nodes);
  }

  lemma {:induction false} AllAsBytesEncode(env: Env, nodes: seq<Node>)
    ensures EncodedNodes(env, AllAsBytes(env, nodes)) == EncodedNodes(env, nodes)
    decreases nodes, 0
  {
    hide EncodedNode, AsBytes;
    if nodes != [] {
      AsBytesEncodes(env, nodes[0]);
      AllAsBytesEncode(env, nodes[1..]);
      assert AllAsBytes(env, nodes)[1..] == AllAsBytes(env, nodes[1..]);
    }
  }

  /** Decoding what was written and encoding it again gives the same bytes, for every faithful node. */
  lemma FaithfulReencodes(env: Env, n: Node)
    requires Proper(env) && NodeFits(env, n) && Distinct(n) && Faithful(env, n) && Tagged(env, n)
    ensures DecodedNode(env, EncodedNode(env, n)) == Returned(AsBytes(env, n))
    ensures EncodedNode(env, DecodedNode(env, EncodedNode(env, n)).value) == EncodedNode(env, n)
  {
    hide *;
    DecodeEncode(env, n, []);
    assert EncodedNode(env, n) + [] == EncodedNode(env, n);
    NodeExact(env, n);
    AsBytesEncodes(env, n);
  }

  // ----------------------------------------------------------------- stanzas

  /**
   * The second-lowest bit of the flag byte alone decides whether the body is
   * inflated; no stanza at all and a bare end of the stream are refused.
   */
  lemma StanzaFlags(env: Env, inflate: Bytes -> Outcome<Bytes>, flag: byte, body: Bytes)
    ensures DecodedStanza(env, inflate, []) == Thrown && DecodedStanza(env, inflate, [2]) == Thrown
    ensures flag % 4 <= 1 ==> DecodedStanza(env, inflate, [flag] + body) == DecodedNode(env, body)
    ensures flag % 4 >= 2 && (flag != 2 || body != []) ==>
      DecodedStanza(env, inflate, [flag] + body)
      == if inflate(body).Thrown? then Thrown else DecodedNode(env, inflate(body).value)
  {
    hide DecodedNode;
    assert ([flag] + body)[1..] == body && ([flag] + body)[0] == flag;
    assert flag % 4 <= 1 <==> flag / 2 % 2 == 0;
  }

  /** A stanza survives framing, plain or compressed by anything `inflate` undoes. */
  lemma StanzaRoundTrip(env: Env, n: Node, inflate: Bytes -> Outcome<Bytes>, compressed: Bytes)
    requires Proper(env) && NodeFits(env, n) && Tagged(env, n) && compressed != []
    ensures DecodedStanza(env, inflate, EncodedStanza(env, n)) == Returned(NodeAsRead(env, n))
    ensures inflate(compressed) == Returned(EncodedNode(env, n)) ==>
      DecodedStanza(env, inflate, [2] + compressed) == Returned(NodeAsRead(env, n))
  {
    hide DecodedNode, EncodedNode, NodeFits, Tagged, NodeAsRead, Proper;
    var b := EncodedNode(env, n);
    DecodeEncode(env, n, []);
    assert b + [] == b;
    assert EncodedStanza(env, n)[1..] == b && ([2] + compressed)[1..] == compressed;
    assert EncodedStanza(env, n)[0] == 0 && ([2] + compressed)[0] == 2;
    assert ([2] + compressed)[1] == compressed[0];
  }
}
