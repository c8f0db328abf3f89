/** Byte strings, and what stands in them from an offset on. */
module ByteStrings {
  import opened Common

  type Bytes = seq<Byte>

  /** The bytes from `offset` on begin with s. */
  ghost predicate Holds(data: Bytes, offset: nat, s: Bytes) {
    offset + |s| <= |data| && data[offset..offset + |s|] == s
  }

  lemma HoldsBoth(data: Bytes, offset: nat, s: Bytes, t: Bytes)
    ensures Holds(data, offset, s + t) <==> Holds(data, offset, s) && Holds(data, offset + |s|, t)
  {
    if Holds(data, offset, s + t) {
      var both := data[offset..offset + |s + t|];
      assert both[..|s|] == data[offset..offset + |s|];
      assert both[|s|..] == data[offset + |s|..offset + |s| + |t|];
    }
    if Holds(data, offset, s) && Holds(data, offset + |s|, t) {
      assert data[offset..offset + |s + t|] == data[offset..offset + |s|] + data[offset + |s|..offset + |s| + |t|];
    }
  }

  lemma HoldsAt(data: Bytes, offset: nat, s: Bytes, i: nat)
    requires Holds(data, offset, s) && i < |s|
    ensures data[offset + i] == s[i]
  {
  }

}
