/** Reading a prefix of some bytes: the reader never guesses. */
module BinaryPrefix {
  import opened Prelude
  import opened BinaryWire
  import opened BinaryRead

  /** What is left of a result when only the first `k` bytes are there. */
  function Cut<T>(r: Parsed<T>, k: nat): (c: Parsed<T>) {
    if r.Returned? && r.value.1 <= k then r else Thrown
  }

  lemma TakeCut(data: Bytes, at: nat, length: nat, k: nat)
    requires k <= |data|
    ensures Take(data[..k], at, length) == Cut(Take(data, at, length), k)
  {
    if at + length <= k {
      assert data[..k][at..at + length] == data[at..at + length];
    }
  }

  lemma BinaryCut(data: Bytes, token: byte, at: nat, k: nat)
    requires k <= |data|
    ensures ParsedBinary(data[..k], token, at) == Cut(ParsedBinary(data, token, at), k)
  {
    hide Take;
    match ParsedLength(data, token, at)
    case Thrown =>
    case Returned((length, start)) => TakeCut(data, start, length, k);
  }

  lemma PackedCut(data: Bytes, p: Packing, at: nat, k: nat)
    requires k <= |data|
    ensures ParsedPacked(data[..k], p, at) == Cut(ParsedPacked(data, p, at), k)
  {
    hide Unpack, Take;
    if at < k {
      TakeCut(data, at + 1, data[at] as nat % 0x80, k);
    }
  }

  lemma StringCut(env: Env, data: Bytes, token: byte, at: nat, k: nat)
    requires at <= k <= |data|
    ensures ParsedString(env, data[..k], token, at) == Cut(ParsedString(env, data, token, at), k)
  {
    hide ParsedPacked, ParsedBinary;
    PackedCut(data, Nibble, at, k);
    PackedCut(data, Hex, at, k);
    BinaryCut(data, token, at, k);
  }

  lemma NextStringCut(env: Env, data: Bytes, at: nat, k: nat)
    requires k <= |data|
    ensures NextString(env, data[..k], at) == Cut(NextString(env, data, at), k)
  {
    hide ParsedString;
    if at < k {
      StringCut(env, data, data[at], at + 1, k);
    }
  }

  lemma JidPairCut(env: Env, data: Bytes, at: nat, k: nat)
    requires k <= |data|
    ensures ParsedJidPair(env, data[..k], at) == Cut(ParsedJidPair(env, data, at), k)
  {
    hide NextString, PairAddress;
    if at < k {
      NextStringCut(env, data, at, k);
      NextStringCut(env, data, at + 1, k);
      if NextString(env, data, at).Returned? {
        NextStringCut(env, data, NextString(env, data, at).value.1, k);
      }
    }
  }

  lemma JidUCut(env: Env, data: Bytes, at: nat, k: nat)
    requires k <= |data|
    ensures ParsedJidU(env, data[..k], at) == Cut(ParsedJidU(env, data, at), k)
  {
    hide NextString, DeviceAddress;
    NextStringCut(env, data, at + 2, k);
  }

  lemma Number16Cut(data: Bytes, at: nat, k: nat)
    requires k <= |data|
    ensures Number16(data[..k], at) == Cut(Number16(data, at), k)
  {
  }

  lemma JidInteropCut(env: Env, data: Bytes, at: nat, k: nat)
    requires k <= |data|
    ensures ParsedJidInterop(env, data[..k], at) == Cut(ParsedJidInterop(env, data, at), k)
  {
    hide NextString;
    NextStringCut(env, data, at, k);
    if NextString(env, data, at).Returned? {
      var mid := NextString(env, data, at).value.1;
      Number16Cut(data, mid, k);
      Number16Cut(data, mid + 2, k);
      NextStringCut(env, data, mid + 4, k);
    }
  }

  lemma JidFbCut(env: Env, data: Bytes, at: nat, k: nat)
    requires k <= |data|
    ensures ParsedJidFb(env, data[..k], at) == Cut(ParsedJidFb(env, data, at), k)
  {
    hide NextString;
    NextStringCut(env, data, at, k);
    if NextString(env, data, at).Returned? {
      var mid := NextString(env, data, at).value.1;
      Number16Cut(data, mid, k);
      NextStringCut(env, data, mid + 2, k);
    }
  }

  lemma ValueCut(env: Env, data: Bytes, token: byte, at: nat, forAttr: bool, k: nat)
    requires at <= k <= |data|
    ensures ParsedValue(env, data[..k], token, at, forAttr) == Cut(ParsedValue(env, data, token, at, forAttr), k)
  {
    hide ParsedJidPair, ParsedJidU, ParsedJidInterop, ParsedJidFb, ParsedBinary, ParsedString;
    JidPairCut(env, data, at, k);
    JidUCut(env, data, at, k);
    JidInteropCut(env, data, at, k);
    JidFbCut(env, data, at, k);
    BinaryCut(data, token, at, k);
    StringCut(env, data, token, at, k);
  }

  lemma NextTextCut(env: Env, data: Bytes, at: nat, k: nat)
    requires k <= |data|
    ensures NextText(env, data[..k], at) == Cut(NextText(env, data, at), k)
  {
    hide ParsedValue;
    if at < k {
      ValueCut(env, data, data[at], at + 1, true, k);
    }
  }

  lemma {:induction false} AttrsCut(env: Env, data: Bytes, at: nat, remaining: nat, attrs: seq<(string, string)>,
      k: nat)
    requires at <= k <= |data|
    ensures ParsedAttrs(env, data[..k], at, remaining, attrs) == Cut(ParsedAttrs(env, data, at, remaining, attrs), k)
    decreases remaining
  {
    hide NextText, SetAttr;
    if remaining > 1 {
      NextTextCut(env, data, at, k);
      match NextText(env, data, at)
      case Thrown =>
      case Returned((key, mid)) =>
        NextTextCut(env, data, mid, k);
        match NextText(env, data, mid)
        case Thrown =>
        case Returned((value, next)) =>
          if next <= k {
            AttrsCut(env, data, next, remaining - 2, SetAttr(attrs, key, value), k);
          }
    }
  }

  lemma ListSizeCut(data: Bytes, at: nat, k: nat)
    requires k <= |data|
    ensures ParsedListSize(data[..k], at) == Cut(ParsedListSize(data, at), k)
  {
    hide Number16;
    Number16Cut(data, at + 1, k);
  }

  /**
   * For any bytes, any position and any cut: reading the first `k` bytes gives
   * the node that reading all of them gives when that node ends by `k`, and
   * throws otherwise. Bytes after a node never influence it, and no proper
   * prefix of a node is mistaken for a node.
   */
  lemma {:induction false} NodeCut(env: Env, data: Bytes, at: nat, k: nat)
    requires k <= |data|
    ensures ParsedNode(env, data[..k], at) == Cut(ParsedNode(env, data, at), k)
    decreases |data| - at, 0, 0
  {
    hide NextText, ParsedAttrs, ParsedListSize, ParsedContent;
    ListSizeCut(data, at, k);
    match ParsedListSize(data, at)
    case Thrown =>
    case Returned((listSize, afterSize)) =>
      if afterSize <= k && listSize > 0 {
        NextTextCut(env, data, afterSize, k);
        match NextText(env, data, afterSize)
        case Thrown =>
        case Returned((tag, afterTag)) =>
          if afterTag <= k {
            AttrsCut(env, data, afterTag, listSize - 1, [], k);
            match ParsedAttrs(env, data, afterTag, listSize - 1, [])
            case Thrown =>
            case Returned((attrs, afterAttrs)) =>
              ContentCut(env, data, afterAttrs, k);
          }
      }
  }

  lemma {:induction false} ContentCut(env: Env, data: Bytes, at: nat, k: nat)
    requires k <= |data|
    ensures ParsedContent(env, data[..k], at) == Cut(ParsedContent(env, data, at), k)
    decreases |data| - at, 0, 0
  {
    hide ParsedListSize, ParsedValue, ParsedNodes;
    if at < k {
      ListSizeCut(data, at, k);
      ValueCut(env, data, data[at], at + 1, false, k);
      match ParsedListSize(data, at)
      case Thrown =>
      case Returned((count, afterCount)) =>
        if afterCount <= k {
          NodesCut(env, data, afterCount, count, k);
        }
    }
  }

  lemma {:induction false} NodesCut(env: Env, data: Bytes, at: nat, count: nat, k: nat)
    requires at <= k <= |data|
    ensures ParsedNodes(env, data[..k], at, count) == Cut(ParsedNodes(env, data, at, count), k)
    decreases |data| - at, 1, count
  {
    hide ParsedNode;
    if count > 0 {
      NodeCut(env, data, at, k);
      match ParsedNode(env, data, at)
      case Thrown =>
      case Returned((node, mid)) =>
        if mid <= k {
          NodesCut(env, data, mid, count - 1, k);
        }
    }
  }
}
