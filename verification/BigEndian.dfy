/** Unsigned integers as big-endian byte strings of fixed length. */
module BigEndian {
  import opened Common
  import opened ByteStrings

  const UINT64_LIMIT := 0x1_0000_0000_0000_0000

  function Digits(n: nat, k: nat): (s: Bytes)
    ensures |s| == k
  {
    if k == 0 then [] else Digits(n / 256, k - 1) + [(n % 256) as Byte]
  }

  function Value(s: Bytes): nat {
    if s == [] then 0 else 256 * Value(s[..|s| - 1]) + s[|s| - 1] as nat
  }

  function Capacity(k: nat): (n: nat)
    ensures n >= 1
  {
    if k == 0 then 1 else 256 * Capacity(k - 1)
  }

  lemma {:induction false} DigitsDenote(n: nat, k: nat)
    requires n < Capacity(k)
    ensures Value(Digits(n, k)) == n
  {
    if k > 0 {
      DigitsDenote(n / 256, k - 1);
      assert Digits(n, k)[..k - 1] == Digits(n / 256, k - 1);
    }
  }

  lemma {:induction false} ValueHasDigits(s: Bytes)
    ensures Value(s) < Capacity(|s|) && Digits(Value(s), |s|) == s
  {
    if s != [] {
      var k := |s| - 1;
      ValueHasDigits(s[..k]);
      assert s == s[..k] + [s[k]];
    }
  }

  lemma EightDigits()
    ensures Capacity(8) == UINT64_LIMIT
  {
  }

  lemma ValueOfPrefix(s: Bytes, k: nat)
    requires k < |s|
    ensures Value(s[..k + 1]) == 256 * Value(s[..k]) + s[k] as nat
  {
    assert s[..k + 1][..k] == s[..k];
  }

  /** The most significant byte comes first. */
  lemma EightBytesDenote(s: Bytes)
    requires |s| == 8
    ensures Value(s) ==
            0x100_0000_0000_0000 * s[0] as nat + 0x1_0000_0000_0000 * s[1] as nat + 0x100_0000_0000 * s[2] as nat
            + 0x1_0000_0000 * s[3] as nat + 0x100_0000 * s[4] as nat + 0x1_0000 * s[5] as nat + 0x100 * s[6] as nat
            + s[7] as nat
  {
    hide Value;
    assert s[..0] == [] && s[..8] == s;
    NothingDenotesZero();
    ValueOfPrefix(s, 0);
    ValueOfPrefix(s, 1);
    ValueOfPrefix(s, 2);
    ValueOfPrefix(s, 3);
    ValueOfPrefix(s, 4);
    ValueOfPrefix(s, 5);
    ValueOfPrefix(s, 6);
    ValueOfPrefix(s, 7);
  }

  lemma NothingDenotesZero()
    ensures Value([]) == 0
  {
  }

  /** Eight bytes and an unsigned 64-bit integer determine each other. */
  lemma Uint64RoundTrip(n: nat)
    requires n < UINT64_LIMIT
    ensures Value(Digits(n, 8)) == n
  {
    EightDigits();
    DigitsDenote(n, 8);
  }

  /** Stores the value in the eight bytes from `at` on. */
  method PutUint64(buf: array<Byte>, at: nat, value: nat)
    requires at + 8 <= buf.Length && value < UINT64_LIMIT
    modifies buf
    ensures buf[..] == old(buf[..at]) + Digits(value, 8) + old(buf[at + 8..])
  {
    var left := value;
    ghost var goal := Digits(value, 8);
    for i := 8 downto 0
      invariant Digits(left, i) == goal[..i]
      invariant buf[..at] == old(buf[..at]) && buf[at + 8..] == old(buf[at + 8..])
      invariant buf[at + i..at + 8] == goal[i..]
    {
      assert Digits(left, i + 1) == Digits(left / 256, i) + [(left % 256) as Byte];
      assert goal[..i + 1][i] == goal[i];
      buf[at + i] := (left % 256) as Byte;
      left := left / 256;
    }
    assert buf[..] == buf[..at] + buf[at..at + 8] + buf[at + 8..];
  }
}
