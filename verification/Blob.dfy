/** Bytes in memory that a parser looks at. */
module Blob {
  type Byte = b: nat | b < 0x100

  predicate Holds(blob: seq<Byte>, i: nat, s: seq<Byte>) {
    i + |s| <= |blob| && blob[i..i + |s|] == s
  }

  lemma HoldsParts(blob: seq<Byte>, i: nat, a: seq<Byte>, b: seq<Byte>)
    requires Holds(blob, i, a + b)
    ensures Holds(blob, i, a) && Holds(blob, i + |a|, b)
  {
    assert blob[i..i + |a|] == (a + b)[..|a|] == a;
    assert blob[i + |a|..i + |a| + |b|] == (a + b)[|a|..] == b;
  }

  lemma HoldsBounds(blob: seq<Byte>, i: nat, s: seq<Byte>)
    requires Holds(blob, i, s)
    ensures i + |s| <= |blob| && blob[i..i + |s|] == s
  {
  }

  /** The C string at an offset: strlen is its length, and strcmp compares it. */
  function StringAt(blob: seq<Byte>, i: nat): seq<Byte>
    decreases |blob| - i
  {
    if i >= |blob| || blob[i] == 0 then [] else [blob[i]] + StringAt(blob, i + 1)
  }

  function Ascii(s: string): seq<Byte>
    requires forall k | 0 <= k < |s| :: s[k] < 128 as char
  {
    seq(|s|, k requires 0 <= k < |s| => s[k] as nat)
  }

  lemma {:induction false} StringIs(blob: seq<Byte>, i: nat, name: seq<Byte>)
    requires Holds(blob, i, name + [0]) && 0 !in name
    ensures StringAt(blob, i) == name
    decreases |name|
  {
    assert blob[i] == (name + [0])[0];
    if name != [] {
      assert name + [0] == [name[0]] + (name[1..] + [0]);
      HoldsParts(blob, i, [name[0]], name[1..] + [0]);
      StringIs(blob, i + 1, name[1..]);
    }
  }
}
