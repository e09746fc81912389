/** The bytes the encoder writes, in the codes of the wire grammar. */
module BinaryBytes {
  import opened Prelude
  import opened BinaryTokens
  import opened BinaryWire
  import opened BinaryGrammar
  import opened BinaryCodec
  import opened BinaryReencode
  import opened Text

  // ------------------------------------------------------------------- headers

  /** The shortest of the three length forms. */
  function Shortest(n: nat): (form: LengthForm) {
    if n < 0x100 then Length8 else if n < 0x10_0000 then Length20(0) else Length32
  }

  lemma HeadersWritten(n: nat)
    ensures n < 0x1_0000 ==> ListHeader(n) == SizeBytes(n >= 0x100, n)
    ensures n < 0x1_0000_0000 ==> BinaryHeader(n) == LengthBytes(Shortest(n), n)
  {
    assert 16 * 0 + n / 65536 == n / 65536;
  }

  /** Text content is always written as a byte string with the shortest length, whatever tokens there are. */
  lemma ContentWritten(env: Env, c: Content)
    requires ContentFits(env, c)
    ensures c.Text? ==>
      EncodedContent(env, c) == TextBytes(Blob(Shortest(|env.utf8(c.s)|), env.utf8(c.s)))
    ensures c.Raw? ==> EncodedContent(env, c) == TextBytes(Blob(Shortest(|c.bytes|), c.bytes))
    ensures c.Children? ==>
      EncodedContent(env, c) == SizeBytes(|c.nodes| >= 0x100, |c.nodes|) + EncodedNodes(env, c.nodes)
  {
    hide BinaryHeader, ListHeader, SizeBytes, LengthBytes, EncodedNodes, NodeFits;
    match c
    case Absent =>
    case Text(s) => HeadersWritten(|env.utf8(s)|);
    case Raw(bytes) => HeadersWritten(|bytes|);
    case Children(nodes) => HeadersWritten(|nodes|);
  }

  // ------------------------------------------------------------------- strings

  /** One byte, the place of the text among the single-byte tokens counted from 1. */
  predicate SingleFor(t: Tables, s: string, b: Bytes) {
    |b| == 1 && 1 <= b[0] as nat <= |t.single| && t.single[b[0] as nat - 1] == s
  }

  /** Two bytes, the dictionary counted from 236 and the place of the text in it. */
  predicate EntryFor(t: Tables, d: nat, s: string, b: Bytes)
    requires d < |t.dictionaries|
  {
    |b| == 2 && b[0] as nat == 236 + d && b[1] as nat < |t.dictionaries[d]| && t.dictionaries[d][b[1]] == s
  }

  /** A text with a single-byte token is written as that token, any other by the first dictionary that holds it. */
  lemma TokensWritten(env: Env, s: string)
    requires ProperTables(env.tables) && Complete(env.tables, env.tokens)
    ensures s in env.tables.single ==> SingleFor(env.tables, s, EncodedString(env, s))
    ensures forall d: nat | s !in env.tables.single && FirstIn(env.tables, 0, s, d) ::
      EntryFor(env.tables, d, s, EncodedString(env, s))
    ensures s in env.tokens <==> s in env.tables.single || InDictionaries(env.tables, 0, s)
  {
    hide SingleFor, EntryFor, EncodedString;
    if s in env.tables.single {
      SingleWritten(env, s);
    } else {
      forall d: nat | FirstIn(env.tables, 0, s, d) ensures EntryFor(env.tables, d, s, EncodedString(env, s)) {
        EntryWritten(env, s, d);
      }
    }
  }

  lemma SingleWritten(env: Env, s: string)
    requires ProperTables(env.tables) && Complete(env.tables, env.tokens) && s in env.tables.single
    ensures SingleFor(env.tables, s, EncodedString(env, s))
  {
    hide Classify, EncodedText, PackedBytes;
    assert Denotes(env.tables, env.tokens[s], s);
  }

  lemma EntryWritten(env: Env, s: string, d: nat)
    requires ProperTables(env.tables) && Complete(env.tables, env.tokens)
    requires s !in env.tables.single && FirstIn(env.tables, 0, s, d)
    ensures EntryFor(env.tables, d, s, EncodedString(env, s))
  {
    hide Classify, EncodedText, PackedBytes;
    var token := env.tokens[s];
    assert Denotes(env.tables, token, s) && TokenOf(token, d);
    assert |env.tables.dictionaries[d]| <= 256;
  }

  /** The pairs of a packed string: four bits for each character, and four one bits behind an odd last one. */
  predicate PairsSpell(pairs: Bytes, s: string, hex: bool) {
    && |pairs| == (|s| + 1) / 2
    && (forall i | 0 <= i < |s| ::
      s[i] == Symbol(hex, if i % 2 == 0 then pairs[i / 2] as nat / 16 else pairs[i / 2] as nat % 16))
    && (|s| % 2 == 1 ==> pairs[|s| / 2] % 16 == 15)
  }

  lemma CodeOf(c: char, p: Packing)
    requires if p.Hex? then HexChar(c) else NibbleChar(c)
    ensures Symbol(p.Hex?, NibbleOf(c, p)) == c
  {
  }

  lemma FirstSpells(s: string, p: Packing)
    requires s != "" && AllIn(s, p)
    ensures Symbol(p.Hex?, FirstPair(s, p) as nat / 16) == s[0] && AllIn(AfterPair(s), p)
    ensures if |s| > 1 then Symbol(p.Hex?, FirstPair(s, p) as nat % 16) == s[1] else FirstPair(s, p) % 16 == 15
  {
    hide NibbleOf, NibbleChar, HexChar, Symbol;
    CodeOf(s[0], p);
    if |s| > 1 {
      CodeOf(s[1], p);
    }
    var high, low := NibbleOf(s[0], p), if |s| > 1 then NibbleOf(s[1], p) else 15;
    assert FirstPair(s, p) as nat / 16 == high && FirstPair(s, p) as nat % 16 == low;
  }

  lemma SpellMore(first: byte, later: Bytes, s: string, hex: bool)
    requires s != "" && PairsSpell(later, AfterPair(s), hex) && Symbol(hex, first as nat / 16) == s[0]
    requires if |s| > 1 then Symbol(hex, first as nat % 16) == s[1] else first % 16 == 15
    ensures PairsSpell([first] + later, s, hex)
  {
    hide Symbol;
    var pairs, rest := [first] + later, AfterPair(s);
    forall i | 0 <= i < |s|
      ensures s[i] == Symbol(hex, if i % 2 == 0 then pairs[i / 2] as nat / 16 else pairs[i / 2] as nat % 16)
    {
      if i >= 2 {
        assert s[i] == rest[i - 2] && later[(i - 2) / 2] == pairs[i / 2];
      }
    }
    if |s| > 1 && |s| % 2 == 1 {
      assert pairs[|s| / 2] == later[|rest| / 2];
    }
  }

  lemma {:induction false} PackSpells(s: string, p: Packing)
    requires AllIn(s, p)
    ensures PairsSpell(Pack(s, p), s, p.Hex?)
    decreases |s|
  {
    hide AllIn, FirstPair;
    if s != "" {
      FirstSpells(s, p);
      hide PairsSpell, Symbol;
      PackSpells(AfterPair(s), p);
      SpellMore(FirstPair(s, p), Pack(AfterPair(s), p), s, p.Hex?);
    }
  }

  predicate Only(s: string, alphabet: string) {
    forall i | 0 <= i < |s| :: s[i] in alphabet
  }

  lemma AlphabetsAre(s: string)
    ensures AllIn(s, Nibble) <==> Only(s, "0123456789-.")
    ensures AllIn(s, Hex) <==> Only(s, "0123456789ABCDEF")
  {
    forall c: char ensures NibbleChar(c) <==> c in "0123456789-." {
      NibbleLetters(c);
    }
    forall c: char ensures HexChar(c) <==> c in "0123456789ABCDEF" {
      HexLetters(c);
    }
    hide NibbleChar, HexChar;
  }

  lemma NibbleLetters(c: char)
    ensures NibbleChar(c) <==> c in "0123456789-."
  {
  }

  lemma HexLetters(c: char)
    ensures HexChar(c) <==> c in "0123456789ABCDEF"
  {
  }

  /** The packed form of a text, its length odd or even. */
  ghost predicate PackedFor(s: string, hex: bool, b: Bytes) {
    exists pairs: Bytes :: PairsSpell(pairs, s, hex) && b == TextBytes(Packed(hex, |s| % 2 == 1, pairs))
  }

  /** How a text without a token is written: packed from one of two alphabets when it is short, or as its bytes. */
  lemma TextsWritten(env: Env, s: string)
    requires s !in env.tokens && StringFits(env, s)
    ensures var short := 1 <= |s| <= 127;
      if short && Only(s, "0123456789-.") then PackedFor(s, false, EncodedString(env, s))
      else if short && Only(s, "0123456789ABCDEF") then PackedFor(s, true, EncodedString(env, s))
      else EncodedString(env, s) == TextBytes(Blob(Shortest(|env.utf8(s)|), env.utf8(s)))
  {
    hide AllIn, Only, Pack, PairsSpell, BinaryHeader, LengthBytes;
    AlphabetsAre(s);
    match Classify(s)
    case NotPacked => HeadersWritten(|env.utf8(s)|);
    case p =>
      PackSpells(s, p);
      var pairs := Pack(s, p);
      assert EncodedString(env, s) == TextBytes(Packed(p.Hex?, |s| % 2 == 1, pairs));
  }

  /** A short text of digits without a token opens with 255. */
  lemma DigitsWritten(env: Env, s: string)
    requires s !in env.tokens && IsDigits(s) && |s| <= 127
    ensures EncodedString(env, s)[0] == 255 && EncodedString(env, s)[1] as nat % 128 == (|s| + 1) / 2
  {
    assert AllIn(s, Nibble);
  }

  // ----------------------------------------------------------------- addresses

  /** The codes of the four servers whose addresses carry a device. */
  function DomainCode(server: string): (code: Option<byte>) {
    match server
    case "s.whatsapp.net" => Some(0)
    case "lid" => Some(1)
    case "hosted" => Some(128)
    case "hosted.lid" => Some(129)
    case _ => None
  }

  /** A user that holds neither separator, and a server that can stand behind one. */
  predicate Parts(user: string, server: string) {
    '@' !in user && ':' !in user && server != "" && '@' !in server
  }

  /**
   * `user:digits@server`: with a device above 0 and a user, on one of the four
   * servers, its own form; with any other number up to 255 the user and the
   * server alone; with anything else for a device, a text.
   */
  lemma DeviceAddressWritten(env: Env, user: string, digits: string, server: string)
    requires Parts(user, server) && '@' !in digits
    ensures var value := user + ":" + digits + "@" + server;
      EncodedValue(env, value)
      == if !IsDigits(digits) || NatValue(digits) > 255 then EncodedString(env, value)
         else if user == "" then [250, 0] + EncodedString(env, server)
         else if NatValue(digits) > 0 && DomainCode(server).Some?
         then [247, DomainCode(server).value, NatValue(digits) as byte] + EncodedString(env, user)
         else [250] + EncodedString(env, user) + EncodedString(env, server)
  {
    hide EncodedString, IsDigits, NatValue, IndexOf, JidForm, DomainCode, DomainType;
    FormOfPieces(user, digits, server);
    DomainCodes(server);
    assert [250] + [0] == [250, 0];
  }

  lemma FormOfPieces(user: string, digits: string, server: string)
    requires Parts(user, server) && '@' !in digits
    ensures JidForm(user + ":" + digits + "@" + server)
         == if !IsDeviceText(digits) then NotJid
            else if DomainType(server).Some? && NatValue(digits) != 0 && user != ""
            then DeviceJid(DomainType(server).value, NatValue(digits) as byte, user)
            else PairJid(user, server)
  {
    hide IsDigits, NatValue, IndexOf, DomainType;
    DevicePieces(user, digits, server);
  }

  lemma DomainCodes(server: string)
    ensures DomainType(server) == DomainCode(server)
  {
  }

  /** The device as it is printed. */
  lemma DeviceWritten(env: Env, user: string, device: nat, server: string)
    requires Parts(user, server) && user != "" && 0 < device <= 255 && DomainCode(server).Some?
    ensures EncodedValue(env, user + ":" + Show(device) + "@" + server)
         == [247, DomainCode(server).value, device as byte] + EncodedString(env, user)
  {
    hide EncodedString, EncodedValue, NatValue, DomainCode;
    ShownDevice(device);
    DeviceAddressWritten(env, user, Show(device), server);
  }

  /** `user@server`. */
  lemma PairWritten(env: Env, user: string, server: string)
    requires Parts(user, server) && user != ""
    ensures EncodedValue(env, user + "@" + server) == [250] + EncodedString(env, user) + EncodedString(env, server)
  {
    hide EncodedString, JidForm;
    AddressForm(user, server);
  }

  /** Every value that is not of one of these two shapes is a text: no '@', one at either end, or two of them. */
  lemma OthersWritten(env: Env, front: string, back: string)
    requires '@' !in front && (front == "" || back == "" || '@' in back)
    ensures EncodedValue(env, front + "@" + back) == EncodedString(env, front + "@" + back)
    ensures EncodedValue(env, front) == EncodedString(env, front)
  {
    hide EncodedString, IsDeviceText, NatValue, DomainType, IndexOf;
    var value := front + "@" + back;
    FirstAt(value, '@', |front|);
    assert value[|front| + 1..] == back;
    PlainForm(front);
  }

  // -------------------------------------------------------------- a whole stanza

  /** Four single-byte tokens and no dictionary. */
  predicate FourTokens(env: Env) {
    env.tokens == map["message" := 1, "to" := 2, "id" := 3, "ack" := 4]
  }

  /** A message to a device, with an identifier and one acknowledgement inside. */
  const SMALL := Node("message", [("to", "1:5@lid"), ("id", "3A")], Children([Node("ack", [], Raw([7]))]))

  /** The recipient behind its name, then the identifier behind its own. */
  const SMALL_ATTRS: Bytes := [2] + [247, 1, 5, 255, 129, 0x1F] + ([3] + [251, 1, 0x3A] + [])

  lemma SmallTexts(env: Env)
    requires FourTokens(env)
    ensures EncodedString(env, "1") == [255, 129, 0x1F] && EncodedString(env, "3A") == [251, 1, 0x3A]
  {
    assert AllIn("1", Nibble) && AfterPair("1") == "" && AfterPair("3A") == "";
    assert "3A"[1] == 'A' && !AllIn("3A", Nibble) && AllIn("3A", Hex);
    assert FirstPair("1", Nibble) == 0x1F && FirstPair("3A", Hex) == 0x3A;
  }

  lemma SmallValues(env: Env)
    requires FourTokens(env)
    ensures EncodedValue(env, "1:5@lid") == [247, 1, 5, 255, 129, 0x1F]
    ensures EncodedValue(env, "3A") == [251, 1, 0x3A]
  {
    SmallTexts(env);
    hide *;
    FiveIsShown();
    var value := "1" + ":" + Show(5) + "@" + "lid";
    assert value == "1:5@lid";
    DeviceWritten(env, "1", 5, "lid") by {
      LidCode();
    }
    LidCode();
    assert [247, 1, 5] + [255, 129, 0x1F] == [247, 1, 5, 255, 129, 0x1F];
    OthersWritten(env, "3A", "");
  }

  lemma FiveIsShown()
    ensures Show(5) == "5"
  {
  }

  lemma LidCode()
    ensures DomainCode("lid") == Some(1) && Parts("1", "lid")
  {
  }

  lemma SmallAttrs(env: Env)
    requires FourTokens(env)
    ensures EncodedAttrs(env, SMALL.attrs) == SMALL_ATTRS
  {
    SmallValues(env);
    SmallNames(env);
    hide EncodedAttrs, EncodedValue, EncodedString, FourTokens;
    OneAttr(env, "id", "3A", []);
    OneAttr(env, "to", "1:5@lid", [("id", "3A")]);
    assert SMALL.attrs == [("to", "1:5@lid")] + [("id", "3A")];
    assert [("id", "3A")] + [] == [("id", "3A")];
  }

  lemma SmallNames(env: Env)
    requires FourTokens(env)
    ensures EncodedString(env, "message") == [1] && EncodedString(env, "to") == [2] && EncodedString(env, "id") == [3]
  {
  }

  /** The value of an attribute comes behind its name, the other attributes behind both. */
  lemma OneAttr(env: Env, name: string, value: string, later: seq<(string, string)>)
    ensures EncodedAttrs(env, []) == []
    ensures EncodedAttrs(env, [(name, value)] + later)
         == EncodedString(env, name) + EncodedValue(env, value) + EncodedAttrs(env, later)
  {
    hide EncodedString, EncodedValue;
    assert ([(name, value)] + later)[1..] == later;
  }

  lemma SmallContent(env: Env)
    requires FourTokens(env)
    ensures EncodedContent(env, SMALL.content) == [248, 1, 248, 2, 4, 252, 1, 7]
  {
    hide EncodedContent;
    var ack := Node("ack", [], Raw([7]));
    assert EncodedNode(env, ack) == [248, 2, 4, 252, 1, 7] by {
      AckContent(env);
    }
    hide EncodedNode;
    assert EncodedNodes(env, [ack]) == [248, 2, 4, 252, 1, 7];
    ChildrenContent(env, [ack]);
  }

  lemma AckContent(env: Env)
    ensures EncodedContent(env, Raw([7])) == [252, 1, 7]
  {
  }

  lemma ChildrenContent(env: Env, nodes: seq<Node>)
    requires |nodes| < 256
    ensures EncodedContent(env, Children(nodes)) == [248, |nodes| as byte] + EncodedNodes(env, nodes)
  {
  }

  /** One stanza as it goes over the wire. */
  lemma SmallStanza(env: Env)
    requires FourTokens(env)
    ensures EncodedStanza(env, SMALL) == [0] + ([248, 6] + [1] + SMALL_ATTRS + [248, 1, 248, 2, 4, 252, 1, 7])
  {
    SmallAttrs(env);
    SmallContent(env);
    SmallNames(env);
    SmallHeader();
    hide EncodedAttrs, EncodedContent, EncodedString, ListHeader, SMALL_ATTRS, SMALL;
  }

  lemma SmallHeader()
    ensures ListHeader(ListSize(SMALL)) == [248, 6] && SMALL.tag == "message"
  {
  }
}
