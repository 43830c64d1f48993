/** The heap of src/memalloc.c as a list of sections, and first-fit allocation on that list. */
module HeapView {
  import opened Words

  /** A section starts with its header; size counts header and payload, and is 0 for a free first section. */
  datatype Section = Section(at: nat, size: nat)

  /** Sizes of one build: bytes in a word, and 2 to the number of bits of a word. */
  datatype Arch = Arch(word: nat, modulus: nat)

  predicate ArchOk(m: Arch) {
    m.word > 0 && 16 % m.word == 0 && m.modulus % m.word == 0 && m.modulus % 16 == 0 && m.modulus > 64
  }

  /** sizeof(struct alloc_section) */
  function Header(m: Arch): nat { 2 * m.word }

  function Aligned(m: Arch, a: int): bool
    requires m.word > 0
  {
    a % m.word == 0
  }

  /** The room a section takes: the header is there even when the section is free. */
  function Extent(m: Arch, s: Section): nat {
    if s.size < Header(m) then Header(m) else s.size
  }

  /** Where the gap behind section i ends. */
  function GapEnd(v: seq<Section>, end: nat, i: nat): nat
    requires i < |v|
  {
    if i + 1 < |v| then v[i + 1].at else end
  }

  /** Address-ordered, aligned and in bounds; only the first section may be free. */
  predicate Ordered(m: Arch, v: seq<Section>, start: nat, end: nat)
    requires ArchOk(m)
  {
    && |v| > 0 && v[0].at == start > 0 && end < m.modulus
    && (forall i | 0 <= i < |v| :: SectionOk(m, v[i], i))
    && Spaced(m, v, end)
  }

  /** Each section ends before the next one, or before the end of the heap. */
  predicate Spaced(m: Arch, v: seq<Section>, end: nat) {
    forall i {:trigger GapEnd(v, end, i)} | 0 <= i < |v| :: v[i].at + Extent(m, v[i]) <= GapEnd(v, end, i)
  }

  predicate SectionOk(m: Arch, s: Section, i: nat)
    requires m.word > 0
  {
    Aligned(m, s.at) && Aligned(m, s.size) && (s.size >= 3 * m.word || (i == 0 && s.size == 0))
  }

  lemma {:induction false} Later(m: Arch, v: seq<Section>, end: nat, i: nat, j: nat)
    requires Spaced(m, v, end) && i < j < |v|
    ensures v[i].at + Extent(m, v[i]) <= v[j].at
  {
    hide Extent;
    if i < j - 1 {
      Later(m, v, end, i, j - 1);
    }
    assert v[j - 1].at + Extent(m, v[j - 1]) <= GapEnd(v, end, j - 1) == v[j].at;
  }

  predicate InPayload(m: Arch, s: Section, a: int) {
    s.at + Header(m) <= a < s.at + s.size
  }

  predicate InHeader(m: Arch, s: Section, a: int) {
    s.at <= a < s.at + Header(m)
  }

  /** No address belongs to two live payloads, or to a payload and a header. */
  lemma PayloadsDisjoint(m: Arch, v: seq<Section>, start: nat, end: nat, i: nat, j: nat, a: int)
    requires ArchOk(m) && Ordered(m, v, start, end) && i < |v| && j < |v| && InPayload(m, v[i], a)
    ensures start < a < end
    ensures !InHeader(m, v[j], a)
    ensures InPayload(m, v[j], a) ==> i == j
  {
    if i < j {
      Later(m, v, end, i, j);
    } else if j < i {
      Later(m, v, end, j, i);
    }
    if i > 0 {
      Later(m, v, end, 0, i);
    }
    if i + 1 < |v| {
      Later(m, v, end, i, |v| - 1);
    }
    assert v[|v| - 1].at + Extent(m, v[|v| - 1]) <= GapEnd(v, end, |v| - 1) == end;
  }

  // --- allocation ---------------------------------------------------------------------------------

  /** What a request takes up over unbounded integers: rounded to whole words, with a header. */
  function Need(m: Arch, n: nat): nat
    requires ArchOk(m)
  {
    n + (if n % m.word == 0 then 0 else m.word - n % m.word) + Header(m)
  }

  predicate Fits(v: seq<Section>, end: nat, need: nat, i: nat)
    requires i < |v|
  {
    v[i].at + v[i].size + need <= GapEnd(v, end, i)
  }

  /** The lowest gap that is large enough. */
  predicate FirstFit(v: seq<Section>, end: nat, need: nat, i: nat) {
    i < |v| && Fits(v, end, need, i) && forall j | 0 <= j < i :: !Fits(v, end, need, j)
  }

  predicate NoFit(v: seq<Section>, end: nat, need: nat) {
    forall j | 0 <= j < |v| :: !Fits(v, end, need, j)
  }

  /** The list with a section of the given size in gap i; a free first section is used in place. */
  function Insert(v: seq<Section>, i: nat, size: nat): seq<Section>
    requires i < |v|
  {
    if v[i].size == 0 then v[i := Section(v[i].at, size)]
    else v[..i + 1] + [Section(v[i].at + v[i].size, size)] + v[i + 1..]
  }

  /** The index of the section that Insert makes. */
  function Inserted(v: seq<Section>, i: nat): nat
    requires i < |v|
  {
    if v[i].size == 0 then i else i + 1
  }

  function Remove(v: seq<Section>, i: nat): seq<Section>
    requires i < |v|
  {
    if i == 0 then v[0 := Section(v[0].at, 0)] else v[..i] + v[i + 1..]
  }

  lemma InsertOrdered(m: Arch, v: seq<Section>, start: nat, end: nat, i: nat, size: nat)
    requires ArchOk(m) && Ordered(m, v, start, end) && i < |v| && Fits(v, end, size, i)
    requires Aligned(m, size) && size >= 3 * m.word
    ensures Ordered(m, Insert(v, i, size), start, end)
  {
    var u := Insert(v, i, size);
    var e := if v[i].size == 0 then i else i + 1;
    AlignedSum(m, v[i].at, v[i].size);
    assert SectionOk(m, v[i], i) && SectionOk(m, u[e], e);
    assert Spaced(m, v, end) && forall k | 0 <= k < |v| :: SectionOk(m, v[k], k);
    hide ArchOk, Aligned;
    forall k | 0 <= k < |u| ensures SectionOk(m, u[k], k) && u[k].at + Extent(m, u[k]) <= GapEnd(u, end, k) {
      if k < e {
        assert SectionOk(m, v[k], k) && v[k].at + Extent(m, v[k]) <= GapEnd(v, end, k);
      } else if k > e {
        var j := k - |u| + |v|;
        assert u[k] == v[j] && SectionOk(m, v[j], j) && v[j].at + Extent(m, v[j]) <= GapEnd(v, end, j);
        assert k + 1 < |u| ==> u[k + 1] == v[j + 1];
      }
    }
  }

  /** A section that reaches past its gap breaks the list. */
  lemma InsertOverlaps(m: Arch, v: seq<Section>, start: nat, end: nat, i: nat, size: nat)
    requires ArchOk(m) && i < |v| && !Fits(v, end, size, i) && size >= 3 * m.word
    ensures !Ordered(m, Insert(v, i, size), start, end)
  {
    var u, e := Insert(v, i, size), Inserted(v, i);
    assert GapEnd(u, end, e) == GapEnd(v, end, i) < u[e].at + Extent(m, u[e]);
  }

  lemma AlignedSum(m: Arch, a: nat, b: nat)
    requires m.word > 0 && Aligned(m, a) && Aligned(m, b)
    ensures Aligned(m, a + b)
  {
    var p, q := a / m.word, b / m.word;
    assert a == p * m.word && b == q * m.word;
    assert a + b == (p + q) * m.word;
    DivModUnique(a + b, m.word, p + q, 0);
  }

  lemma RemoveOrdered(m: Arch, v: seq<Section>, start: nat, end: nat, i: nat)
    requires ArchOk(m) && Ordered(m, v, start, end) && i < |v|
    ensures Ordered(m, Remove(v, i), start, end)
  {
    var u := Remove(v, i);
    assert Aligned(m, 0);
    hide ArchOk, Aligned;
    forall k | 0 <= k < |u| ensures SectionOk(m, u[k], k) && u[k].at + Extent(m, u[k]) <= GapEnd(u, end, k) {
      assert SectionOk(m, v[k], k) && v[k].at + Extent(m, v[k]) <= GapEnd(v, end, k);
      if i > 0 {
        if k == i - 1 {
          assert v[i].at + Extent(m, v[i]) <= GapEnd(v, end, i);
        } else if k >= i {
          assert u[k] == v[k + 1] && SectionOk(m, v[k + 1], k + 1);
          assert v[k + 1].at + Extent(m, v[k + 1]) <= GapEnd(v, end, k + 1);
          assert k + 1 < |u| ==> u[k + 1] == v[k + 2];
        }
      }
    }
  }

  /** Freeing what was just allocated gives the same list back. */
  lemma RemoveInserted(m: Arch, v: seq<Section>, start: nat, end: nat, i: nat, size: nat)
    requires ArchOk(m) && Ordered(m, v, start, end) && i < |v|
    ensures Inserted(v, i) < |Insert(v, i, size)|
    ensures Insert(v, i, size)[Inserted(v, i)] == Section(v[i].at + v[i].size, size)
    ensures Remove(Insert(v, i, size), Inserted(v, i)) == v
  {
    assert SectionOk(m, v[i], i);
    hide ArchOk, Ordered;
    if v[i].size == 0 {
      assert v[0 := Section(v[0].at, size)][0 := v[0]] == v;
    } else {
      var u := Insert(v, i, size);
      assert u[..i + 1] == v[..i + 1] && u[i + 2..] == v[i + 1..];
      assert v[..i + 1] + v[i + 1..] == v;
    }
  }

  /** Gaps are found from low addresses to high ones. */
  lemma LowestGap(m: Arch, v: seq<Section>, start: nat, end: nat, need: nat, i: nat, j: nat)
    requires ArchOk(m) && Ordered(m, v, start, end) && FirstFit(v, end, need, i) && j < |v| && Fits(v, end, need, j)
    ensures v[i].at + v[i].size <= v[j].at + v[j].size
  {
    if i < j {
      Later(m, v, end, i, j);
    }
  }

  // --- freeing ------------------------------------------------------------------------------------

  /** p was returned by kmalloc for section i, and not yet freed. */
  predicate Live(m: Arch, v: seq<Section>, p: int, i: nat) {
    i < |v| && v[i].size > 0 && p == v[i].at + Header(m)
  }

  predicate NotLive(m: Arch, v: seq<Section>, p: int) {
    forall i | 0 <= i < |v| :: !Live(m, v, p, i)
  }
}
