/** The token tables of the binary stanza format and the encoder's merged lookup. */
module BinaryTokens {

  const MERGED_TOKEN_DICTIONARY_FLAG := 0x1_0000
  const DICTIONARY_0 := 236
  const DICTIONARY_3 := 239

  /** The single-byte tokens and the dictionaries of two-byte tokens. */
  datatype Tables = Tables(single: seq<string>, dictionaries: seq<seq<string>>)

  /** Every single-byte token has a code below the first dictionary's, every dictionary entry a byte. */
  predicate ProperTables(t: Tables) {
    |t.single| < DICTIONARY_0 && |t.dictionaries| <= 4 && forall d | d in t.dictionaries :: |d| <= 256
  }

  function DictionaryToken(dictionary: nat, index: nat): (token: nat) {
    MERGED_TOKEN_DICTIONARY_FLAG + 256 * dictionary + index
  }

  /** The text `token` stands for: a single-byte code, or a flagged dictionary and index. */
  predicate Denotes(t: Tables, token: nat, value: string) {
    if token < MERGED_TOKEN_DICTIONARY_FLAG then 0 < token <= |t.single| && t.single[token - 1] == value
    else
      var dictionary, index := token / 256 % 256, token % 256;
      dictionary < |t.dictionaries| && index < |t.dictionaries[dictionary]|
        && t.dictionaries[dictionary][index] == value
  }

  predicate SoundTokens(t: Tables, tokens: map<string, nat>) {
    forall value | value in tokens :: Denotes(t, tokens[value], value)
  }

  lemma DictionaryTokenDenotes(t: Tables, dictionary: nat, index: nat)
    requires ProperTables(t) && dictionary < |t.dictionaries| && index < |t.dictionaries[dictionary]|
    ensures Denotes(t, DictionaryToken(dictionary, index), t.dictionaries[dictionary][index])
  {
    assert |t.dictionaries[dictionary]| <= 256;
    assert DictionaryToken(dictionary, index) == 256 * (256 + dictionary) + index;
  }

  /** `map.set(values[i], i + first)` for every `i` in turn. */
  method IndexMap(values: seq<string>, first: nat) returns (m: map<string, nat>)
    ensures forall value :: value in m <==> value in values
    ensures forall value | value in m :: first <= m[value] < first + |values| && values[m[value] - first] == value
  {
    m := map[];
    var i := 0;
    while i < |values|
      invariant 0 <= i <= |values|
      invariant forall value :: value in m <==> value in values[..i]
      invariant forall value | value in m :: first <= m[value] < first + i && values[m[value] - first] == value
    {
      assert values[..i + 1] == values[..i] + [values[i]];
      m := m[values[i] := i + first];
      i := i + 1;
    }
    assert values[..i] == values;
  }

  /** The value is in some dictionary from `from` on. */
  predicate InDictionaries(t: Tables, from: nat, value: string) {
    exists i :: from <= i < |t.dictionaries| && value in t.dictionaries[i]
  }

  /** Of the dictionaries from `from` on, the first to hold the text is `i`. */
  predicate FirstIn(t: Tables, from: nat, value: string, i: nat) {
    from <= i < |t.dictionaries| && value in t.dictionaries[i] && forall j | from <= j < i ::
      value !in t.dictionaries[j]
  }

  predicate TokenOf(token: nat, i: nat) {
    token / 256 == 256 + i
  }

  /** `m` holds the texts of the dictionaries from `from` on, each under its token in the first that holds it. */
  ghost predicate Merged(t: Tables, m: map<string, nat>, from: nat) {
    && SoundTokens(t, m)
    && (forall value :: value in m <==> InDictionaries(t, from, value))
    && (forall value, i | FirstIn(t, from, value, i) :: value in m && TokenOf(m[value], i))
  }

  function TokensOf(i: nat, indices: map<string, nat>): (m: map<string, nat>) {
    map value | value in indices :: DictionaryToken(i, indices[value])
  }

  ghost predicate Indexes(indices: map<string, nat>, values: seq<string>) {
    && (forall value :: value in indices <==> value in values)
    && (forall value | value in indices :: indices[value] < |values| && values[indices[value]] == value)
  }

  lemma TokensOfDenote(t: Tables, i: nat, indices: map<string, nat>)
    requires ProperTables(t) && i < |t.dictionaries| && Indexes(indices, t.dictionaries[i])
    ensures forall value | value in indices ::
      Denotes(t, TokensOf(i, indices)[value], value) && TokenOf(TokensOf(i, indices)[value], i)
  {
    forall value | value in indices
      ensures Denotes(t, TokensOf(i, indices)[value], value) && TokenOf(TokensOf(i, indices)[value], i)
    {
      DictionaryTokenDenotes(t, i, indices[value]);
      assert |t.dictionaries[i]| <= 256;
    }
  }

  /** Setting the tokens of an earlier dictionary over those of the later ones. */
  lemma MergeStep(t: Tables, m: map<string, nat>, i: nat, indices: map<string, nat>)
    requires ProperTables(t) && i < |t.dictionaries| && Merged(t, m, i + 1) && Indexes(indices, t.dictionaries[i])
    ensures Merged(t, m + TokensOf(i, indices), i)
  {
    TokensOfDenote(t, i, indices);
    hide Denotes, TokenOf, ProperTables, DictionaryToken;
    var next := m + TokensOf(i, indices);
    forall value ensures value in next <==> InDictionaries(t, i, value) {
      DictionariesFrom(t, i, value);
    }
    hide InDictionaries;
    forall value, k: nat | FirstIn(t, i, value, k) ensures value in next && TokenOf(next[value], k) {
      if k > i {
        assert FirstIn(t, i + 1, value, k);
      }
    }
  }

  lemma DictionariesFrom(t: Tables, i: nat, value: string)
    requires i < |t.dictionaries|
    ensures InDictionaries(t, i, value) <==> value in t.dictionaries[i] || InDictionaries(t, i + 1, value)
  {
  }

  /**
   * The lookup holds exactly the texts of all tables, each under a token that
   * stands for it: a single-byte one if there is one, and the token of the
   * first dictionary that holds it otherwise.
   */
  ghost predicate Complete(t: Tables, m: map<string, nat>) {
    && SoundTokens(t, m)
    && (forall value :: value in m <==> value in t.single || InDictionaries(t, 0, value))
    && (forall value | value in t.single :: m[value] < MERGED_TOKEN_DICTIONARY_FLAG)
    && (forall value, i | value !in t.single && FirstIn(t, 0, value, i) :: value in m && TokenOf(m[value], i))
  }

  /** The dictionaries are merged from the last to the first, the single-byte tokens over them. */
  method MergedTokenMap(t: Tables) returns (m: map<string, nat>)
    requires ProperTables(t)
    ensures Complete(t, m)
  {
    m := map[];
    var i := |t.dictionaries|;
    while i > 0
      invariant 0 <= i <= |t.dictionaries|
      invariant Merged(t, m, i)
    {
      hide Merged;
      i := i - 1;
      var indices := IndexMap(t.dictionaries[i], 0);
      MergeStep(t, m, i, indices);
      m := m + TokensOf(i, indices);
    }
    var single := IndexMap(t.single, 1);
    SingleDenotes(t, single);
    hide Denotes, TokenOf;
    m := m + single;
  }

  lemma SingleDenotes(t: Tables, single: map<string, nat>)
    requires ProperTables(t)
    requires forall value | value in single ::
        1 <= single[value] < 1 + |t.single| && t.single[single[value] - 1] == value
    ensures SoundTokens(t, single) && forall value | value in single :: single[value] < MERGED_TOKEN_DICTIONARY_FLAG
  {
  }
}
