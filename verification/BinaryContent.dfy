/** Content and addresses that the reader accepts although the encoder does not write them. */
module BinaryContent {
  import opened Prelude
  import opened Slices
  import opened BinaryTokens
  import opened BinaryWire
  import opened BinaryRead
  import opened BinaryGrammar
  import opened BinaryExact
  import opened BinaryForms
  import opened BinaryRoundTrip
  import opened Text

  /**
   * Content written as a string in any of its forms is read as the bytes of
   * that string, and the reader stops at its end.
   */
  lemma StringAsContent(env: Env, data: Bytes, at: nat, s: string)
    requires Proper(env) && StringFits(env, s) && Has(data, at, EncodedString(env, s))
    ensures ParsedContent(env, data, at) == Returned((Raw(env.utf8(s)), at + |EncodedString(env, s)|))
  {
    hide Has, Proper, Classify, BinaryHeader, TokenBytes, PackedBytes, ParsedContent;
    if s !in env.tokens && Classify(s).NotPacked? {
      BytesReadBack(env, data, at, env.utf8(s));
    } else {
      StringReadsBack(env, data, at, s);
      NotBinary(env, data, at, s);
      TextAsContent(env, data, at, s, at + |EncodedString(env, s)|);
    }
  }

  lemma NotBinary(env: Env, data: Bytes, at: nat, s: string)
    requires Proper(env) && (s in env.tokens || !Classify(s).NotPacked?)
    requires Has(data, at, EncodedString(env, s))
    ensures at < |data| && !IsBinary(data[at])
  {
    hide AllIn, Pack;
    HasAt(data, at, EncodedString(env, s));
    assert data[at] == EncodedString(env, s)[0];
  }

  lemma TextAsContent(env: Env, data: Bytes, at: nat, s: string, next: nat)
    requires at < |data| && OpensString(data[at]) && !IsBinary(data[at])
    requires NextString(env, data, at) == Returned((s, next))
    ensures ParsedContent(env, data, at) == Returned((Raw(env.utf8(s)), next))
  {
    hide ParsedString;
  }

  /** Content written as an address is read as the bytes of the address as read. */
  lemma AddressAsContent(env: Env, data: Bytes, at: nat, value: string)
    requires Proper(env) && ValueFits(env, value) && !JidForm(value).NotJid?
    requires Has(data, at, EncodedValue(env, value))
    ensures ParsedContent(env, data, at)
         == Returned((Raw(env.utf8(ValueAsRead(env, value))), at + |EncodedValue(env, value)|))
  {
    hide Proper, ValueFits, JidForm, NextText, ValueAsRead, ParsedContent;
    ValueReadsBack(env, data, at, value);
    HasAt(data, at, EncodedValue(env, value));
    assert data[at] == EncodedValue(env, value)[0] && (data[at] == JID_U || data[at] == JID_PAIR);
    hide EncodedValue, Has;
    AddressText(env, data, at);
  }

  lemma AddressText(env: Env, data: Bytes, at: nat)
    requires at < |data| && (data[at] == 245 || data[at] == 246 || data[at] == 247 || data[at] == 250)
    requires NextText(env, data, at).Returned?
    ensures var (s, next) := NextText(env, data, at).value;
      ParsedContent(env, data, at) == Returned((Raw(env.utf8(s)), next))
  {
    hide ParsedJidPair, ParsedJidU, ParsedJidInterop, ParsedJidFb;
  }

  /** A string as the encoder writes it is a text form, and stands for the string as read. */
  lemma WrittenText(env: Env, s: string) returns (t: TextForm)
    requires Proper(env) && StringFits(env, s)
    ensures TextStands(env.tables, t) && TextBytes(t) == EncodedString(env, s)
    ensures TextMeans(env, t) == StringAsRead(env, s)
  {
    var data := EncodedString(env, s);
    ProperHasTables(env);
    hide *;
    StartHas(data, data);
    StringReadsBack(env, data, 0, s);
    t := AcceptedText(env, data, 0);
    TextReads(env, data, 0, t);
    StartHas(data, TextBytes(t));
    assert TextBytes(t) <= data && |TextBytes(t)| == |data|;
  }

  lemma ProperHasTables(env: Env)
    requires Proper(env)
    ensures ProperTables(env.tables)
  {
  }

  /** A value and content are read from the bytes of a form alike. */
  lemma FormIsRead(env: Env, data: Bytes, at: nat, v: ValueForm)
    requires Proper(env) && ValueStands(env.tables, v) && !v.Plain? && Has(data, at, ValueBytes(v))
    ensures NextText(env, data, at) == Returned((ValueMeans(env, v), at + |ValueBytes(v)|))
    ensures ParsedContent(env, data, at) == Returned((Raw(env.utf8(ValueMeans(env, v))), at + |ValueBytes(v)|))
  {
    ProperHasTables(env);
    hide Proper, ProperTables, ValueStands, ValueMeans, ValueBytes, Has, NextText, ParsedContent;
    TextValueReads(env, data, at, v);
    ValueContentReads(env, data, at, v);
  }

  lemma TwoDigits(n: nat)
    requires n < 65536
    ensures NumberBytes(n) == [(n / 256) as byte, (n % 256) as byte]
  {
  }

  lemma InteropForm(env: Env, v: ValueForm)
    requires v.Interop? && TextStands(env.tables, v.user) && TextStands(env.tables, v.server)
    requires v.number < 65536 && v.integrator < 65536
    ensures ValueStands(env.tables, v)
    ensures ValueBytes(v)
         == [245] + (TextBytes(v.user) + (NumberBytes(v.number) + (NumberBytes(v.integrator) + TextBytes(v.server))))
    ensures ValueMeans(env, v)
         == Show(v.integrator) + "-" + TextMeans(env, v.user) + ":" + Show(v.number) + "@interop"
  {
    hide TextStands, TextBytes, TextMeans, NumberBytes, Show;
  }

  lemma MessengerForm(env: Env, v: ValueForm)
    requires v.Messenger? && TextStands(env.tables, v.user) && TextStands(env.tables, v.server) && v.number < 65536
    ensures ValueStands(env.tables, v)
    ensures ValueBytes(v) == [246] + (TextBytes(v.user) + (NumberBytes(v.number) + TextBytes(v.server)))
    ensures ValueMeans(env, v) == TextMeans(env, v.user) + ":" + Show(v.number) + "@msgr"
  {
    hide TextStands, TextBytes, TextMeans, NumberBytes, Show;
  }

  /**
   * `[245]`, a user, a device and an integrator of two bytes each, the higher
   * one first, and a server: the address on "interop", as a value and as content.
   */
  lemma InteropAddress(env: Env, data: Bytes, at: nat, user: string, device: nat, integrator: nat, server: string,
      b: Bytes)
    requires Proper(env) && StringFits(env, user) && StringFits(env, server) && device < 65536 && integrator < 65536
    requires b == [245] + (EncodedString(env, user) + ([(device / 256) as byte, (device % 256) as byte]
        + ([(integrator / 256) as byte, (integrator % 256) as byte] + EncodedString(env, server))))
    ensures var address := Show(integrator) + "-" + StringAsRead(env, user) + ":" + Show(device) + "@interop";
      Has(data, at, b) ==>
        NextText(env, data, at) == Returned((address, at + |b|))
        && ParsedContent(env, data, at) == Returned((Raw(env.utf8(address)), at + |b|))
  {
    hide *;
    var u := WrittenText(env, user);
    var s := WrittenText(env, server);
    var v := Interop(u, device, integrator, s);
    TwoDigits(device);
    TwoDigits(integrator);
    InteropForm(env, v);
    if Has(data, at, b) {
      FormIsRead(env, data, at, v);
    }
  }

  /** `[246]`, a user, a device of two bytes, and a server: the address on "msgr". */
  lemma MessengerAddress(env: Env, data: Bytes, at: nat, user: string, device: nat, server: string, b: Bytes)
    requires Proper(env) && StringFits(env, user) && StringFits(env, server) && device < 65536
    requires b == [246] + (EncodedString(env, user) + ([(device / 256) as byte, (device % 256) as byte]
        + EncodedString(env, server)))
    ensures var address := StringAsRead(env, user) + ":" + Show(device) + "@msgr";
      Has(data, at, b) ==>
        NextText(env, data, at) == Returned((address, at + |b|))
        && ParsedContent(env, data, at) == Returned((Raw(env.utf8(address)), at + |b|))
  {
    hide *;
    var u := WrittenText(env, user);
    var s := WrittenText(env, server);
    var v := Messenger(u, device, s);
    TwoDigits(device);
    MessengerForm(env, v);
    if Has(data, at, b) {
      FormIsRead(env, data, at, v);
    }
  }
}
