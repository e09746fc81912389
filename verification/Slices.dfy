/** Byte strings standing inside other byte strings. */
module Slices {
  import opened Prelude

  /** `s` stands in `data` at `offset`. */
  predicate Has(data: Bytes, offset: nat, s: Bytes) {
    offset + |s| <= |data| && data[offset..offset + |s|] == s
  }

  lemma HasBoth(data: Bytes, offset: nat, s: Bytes, t: Bytes)
    ensures Has(data, offset, s + t) <==> Has(data, offset, s) && Has(data, offset + |s|, t)
  {
    var end := offset + |s| + |t|;
    if end <= |data| {
      var d := data[offset..end];
      assert d[..|s|] == data[offset..offset + |s|] && d[|s|..] == data[offset + |s|..end];
      assert d == d[..|s|] + d[|s|..];
      assert (s + t)[..|s|] == s && (s + t)[|s|..] == t;
    }
  }

  lemma HasAt(data: Bytes, offset: nat, s: Bytes)
    requires Has(data, offset, s)
    ensures forall i | 0 <= i < |s| :: data[offset + i] == s[i]
  {
    forall i | 0 <= i < |s| ensures data[offset + i] == s[i] {
      assert data[offset..offset + |s|][i] == data[offset + i];
    }
  }

  lemma HasByte(data: Bytes, offset: nat, b: byte, later: Bytes)
    requires Has(data, offset, [b] + later)
    ensures offset < |data| && data[offset] == b && Has(data, offset + 1, later)
  {
    HasBoth(data, offset, [b], later);
    HasAt(data, offset, [b]);
    assert data[offset + 0] == [b][0];
  }
}
