/** The allocator as it works in place: the section headers are words of the memory that is given out. */
module HeapMemory {
  import opened Options
  import opened Words
  import opened HeapView
  import opened Heap
  import opened HeapMeaning

  // --- the list in memory -------------------------------------------------------------------------

  /** A header is two words: size, then the link. */
  predicate HeaderAt(m: Arch, mem: map<int, int>, s: Section, next: int) {
    s.at in mem && s.at + m.word in mem && mem[s.at] == s.size && mem[s.at + m.word] == next
  }

  function NextOf(v: seq<Section>, i: nat): int
    requires i < |v|
  {
    if i + 1 < |v| then v[i + 1].at else 0
  }

  /** Every section's header is in memory and leads to the next one. */
  predicate Threaded(m: Arch, mem: map<int, int>, v: seq<Section>) {
    forall k | 0 <= k < |v| :: Linked(m, mem, v, k)
  }

  predicate Linked(m: Arch, mem: map<int, int>, v: seq<Section>, k: nat)
    requires k < |v|
  {
    HeaderAt(m, mem, v[k], NextOf(v, k))
  }

  /** Where kmalloc_stack stores the address of the allocation p. */
  function StackWord(m: Arch, p: nat, size: nat): nat
    requires m.modulus > 0
  {
    Wrap(m, p + size + 0x10) - Wrap(m, p + size + 0x10) % 16
  }

  /** Before kallocinit there is no list. */
  predicate ListOk(m: Arch, mem: map<int, int>, v: seq<Section>, start: nat, end: nat) {
    && ArchOk(m)
    && if v == [] then start == end == 0 else Ordered(m, v, start, end) && Threaded(m, mem, v)
  }

  /** Nothing but the given addresses changed. */
  predicate SameBut(old_: map<int, int>, new_: map<int, int>, but: set<int>) {
    forall a | a in old_ && a !in but :: a in new_ && new_[a] == old_[a]
  }

  lemma InBounds(m: Arch, mem: map<int, int>, v: seq<Section>, start: nat, end: nat, k: nat)
    requires ListOk(m, mem, v, start, end) && k < |v|
    ensures Linked(m, mem, v, k)
    ensures 0 < start <= v[k].at < v[k].at + Header(m) <= v[k].at + Extent(m, v[k]) <= end < m.modulus
    ensures Aligned(m, v[k].at) && Aligned(m, v[k].size)
    ensures v[0].at == start && (NextOf(v, k) == 0 <==> k + 1 == |v|)
  {
    SectionInside(m, v, start, end, k);
    if k + 1 < |v| {
      SectionInside(m, v, start, end, k + 1);
    }
  }

  /** A header is the size, and then the address of the next section or 0. */
  lemma ListIs(m: Arch, mem: map<int, int>, v: seq<Section>, start: nat, end: nat, k: nat)
    requires ListOk(m, mem, v, start, end) && k < |v|
    ensures v[k].at in mem && mem[v[k].at] == v[k].size
    ensures v[k].at + m.word in mem && mem[v[k].at + m.word] == if k + 1 < |v| then v[k + 1].at else 0
  {
    assert Linked(m, mem, v, k);
  }

  lemma HeadersApart(m: Arch, v: seq<Section>, start: nat, end: nat, j: nat, k: nat)
    requires ArchOk(m) && Ordered(m, v, start, end) && j < k < |v|
    ensures v[j].at + Header(m) <= v[j].at + Extent(m, v[j]) <= v[k].at
  {
    Later(m, v, end, j, k);
  }

  lemma FirstIfFree(m: Arch, v: seq<Section>, start: nat, end: nat, i: nat)
    requires ArchOk(m) && Ordered(m, v, start, end) && i < |v|
    ensures m.word > 0 && ((v[i].size == 0 && i == 0) || v[i].size >= 3 * m.word)
  {
    assert SectionOk(m, v[i], i);
  }

  /** The stores of kmalloc put a section into the gap behind section i. */
  function StoreInsert(m: Arch, mem: map<int, int>, s: Section, size: nat): map<int, int>
    requires s.at + m.word in mem
  {
    mem[s.at + m.word := s.at + s.size][s.at + s.size := size][s.at + s.size + m.word := mem[s.at + m.word]]
  }

  lemma InsertedHeader(m: Arch, mem: map<int, int>, s: Section, size: nat, next: int)
    requires m.word > 0 && HeaderAt(m, mem, s, next)
    ensures s.at + m.word in mem
    ensures HeaderAt(m, StoreInsert(m, mem, s, size), Section(s.at + s.size, size), next)
    ensures s.size >= 3 * m.word ==> HeaderAt(m, StoreInsert(m, mem, s, size), s, s.at + s.size)
  {
  }

  lemma OtherHeader(m: Arch, mem: map<int, int>, s: Section, size: nat, t: Section, next: int)
    requires m.word > 0 && s.at + m.word in mem && HeaderAt(m, mem, t, next)
    requires t.at + Header(m) <= s.at || s.at + s.size + Header(m) <= t.at
    ensures HeaderAt(m, StoreInsert(m, mem, s, size), t, next)
  {
  }

  lemma InsertThreaded(m: Arch, mem: map<int, int>, v: seq<Section>, start: nat, end: nat, i: nat, size: nat)
    requires ArchOk(m) && Ordered(m, v, start, end) && Threaded(m, mem, v) && i < |v|
    requires Fits(v, end, size, i) && Aligned(m, size) && size >= 3 * m.word
    ensures Linked(m, mem, v, i)
    ensures Ordered(m, Insert(v, i, size), start, end)
    ensures Threaded(m, StoreInsert(m, mem, v[i], size), Insert(v, i, size))
  {
    hide ArchOk, Ordered, Fits, Aligned, HeaderAt, StoreInsert, Extent;
    InsertOrdered(m, v, start, end, i, size);
    var u, e := Insert(v, i, size), Inserted(v, i);
    FirstIfFree(m, v, start, end, i);
    assert Linked(m, mem, v, i);
    InsertedHeader(m, mem, v[i], size, NextOf(v, i));
    forall k | 0 <= k < |u| ensures Linked(m, StoreInsert(m, mem, v[i], size), u, k) {
      if k < i {
        HeadersApart(m, v, start, end, k, i);
        assert Linked(m, mem, v, k) && u[k] == v[k] && NextOf(u, k) == NextOf(v, k);
        OtherHeader(m, mem, v[i], size, v[k], NextOf(v, k));
      } else if k > e {
        var j := k - |u| + |v|;
        assert u[k] == v[j] && Linked(m, mem, v, j) && NextOf(u, k) == NextOf(v, j);
        HeadersApart(m, u, start, end, e, k);
        OtherHeader(m, mem, v[i], size, v[j], NextOf(v, j));
      }
    }
  }

  /** The stores of kfree take section i out. */
  function StoreRemove(m: Arch, mem: map<int, int>, v: seq<Section>, i: nat): map<int, int>
    requires i < |v|
  {
    var freed := mem[v[i].at := 0];
    if i == 0 then freed else freed[v[i - 1].at + m.word := NextOf(v, i)]
  }

  lemma RemoveThreaded(m: Arch, mem: map<int, int>, v: seq<Section>, start: nat, end: nat, i: nat)
    requires ArchOk(m) && Ordered(m, v, start, end) && Threaded(m, mem, v) && i < |v|
    ensures Ordered(m, Remove(v, i), start, end)
    ensures Threaded(m, StoreRemove(m, mem, v, i), Remove(v, i))
  {
    RemoveOrdered(m, v, start, end, i);
    var u := Remove(v, i);
    assert m.word > 0;
    hide ArchOk, Ordered, Extent;
    forall k | 0 <= k < |u| ensures Linked(m, StoreRemove(m, mem, v, i), u, k) {
      if k < i {
        assert Linked(m, mem, v, k);
        HeadersApart(m, v, start, end, k, i);
        if k < i - 1 {
          HeadersApart(m, v, start, end, k, i - 1);
        }
      } else {
        KeptBehind(m, mem, v, start, end, i, k);
      }
    }
  }

  lemma KeptBehind(m: Arch, mem: map<int, int>, v: seq<Section>, start: nat, end: nat, i: nat, k: nat)
    requires ArchOk(m) && Ordered(m, v, start, end) && Threaded(m, mem, v) && i < |v| && i <= k < |Remove(v, i)|
    ensures Linked(m, StoreRemove(m, mem, v, i), Remove(v, i), k)
  {
    assert m.word > 0;
    hide ArchOk, Ordered, Extent;
    var j := if i > 0 then k + 1 else k;
    assert Linked(m, mem, v, j);
    if j > i {
      HeadersApart(m, v, start, end, i, j);
      if i > 0 {
        HeadersApart(m, v, start, end, i - 1, j);
      }
    }
  }

  /** Stores outside the headers leave the list alone. */
  lemma PayloadStores(m: Arch, mem: map<int, int>, v: seq<Section>, start: nat, end: nat, i: nat, a: int, x: int)
    requires ListOk(m, mem, v, start, end) && i < |v| && InPayload(m, v[i], a)
    ensures ListOk(m, mem[a := x], v, start, end)
  {
    var after := mem[a := x];
    forall k | 0 <= k < |v| ensures Linked(m, after, v, k) {
      assert Linked(m, mem, v, k);
      PayloadsDisjoint(m, v, start, end, i, k, a);
    }
  }

  /** What a caller gets on a block that ends low enough. */
  lemma GrantMeans(m: Arch, mem: map<int, int>, v: seq<Section>, start: nat, end: nat, n: nat, p: nat,
                   u: seq<Section>, need: nat)
    requires ListOk(m, mem, v, start, end) && n < m.modulus && need == Need(m, n)
    requires end < 2 * start + m.word || end < start + 3 * m.word
    requires match Choice(m, v, end, n)
             case None => p == 0 && u == v
             case Some(i) => u == Insert(v, i, need) && p == v[i].at + v[i].size + Header(m)
    ensures p == 0 ==>
              n == 0 || forall k {:trigger v[k]} | 0 <= k < |v| ::
                          need > (if k + 1 < |v| then v[k + 1].at else end) - (v[k].at + v[k].size)
    ensures p != 0 ==>
              && start + 2 * m.word <= p && p + n <= end
              && (forall s: Section | s in v && s.size > 0 :: p + n <= s.at || s.at + s.size <= p - 2 * m.word)
              && (forall s: Section | s.size > 0 :: s in u <==> s in v || s == Section(p - 2 * m.word, need))
              && exists i | 0 <= i < |v| ::
                   && p - 2 * m.word == v[i].at + v[i].size
                   && forall k | 0 <= k < i ::
                        need > (if k + 1 < |v| then v[k + 1].at else end) - (v[k].at + v[k].size)
  {
    hide Choice, Need, Ordered, Insert, Aligned, GrantFits;
    NeedIs(m, n);
    if v != [] {
      ChoiceIs(m, v, start, end, n);
      LowGrantFits(m, v, start, end, n);
      if Choice(m, v, end, n).Some? {
        var i := Choice(m, v, end, n).value;
        GrantIs(m, v, start, end, n, i);
        InsertIs(m, v, start, end, i, need);
      }
    } else {
      Decision(m, v, end, n);
    }
  }

  lemma FitsBelow(m: Arch, mem: map<int, int>, v: seq<Section>, start: nat, end: nat, n: nat)
    requires ListOk(m, mem, v, start, end) && n < m.modulus
    requires end < 2 * start + m.word || end < start + 3 * m.word
    ensures GrantFits(m, v, end, n)
  {
    hide Choice, Need, Ordered;
    if v != [] {
      LowGrantFits(m, v, start, end, n);
    } else {
      Decision(m, v, end, n);
    }
  }

  /** A grant that fits stores a list again, and none of its addresses wraps. */
  lemma GrantThreaded(m: Arch, mem: map<int, int>, v: seq<Section>, start: nat, end: nat, i: nat, n: nat)
    requires ArchOk(m) && Ordered(m, v, start, end) && Threaded(m, mem, v) && n < m.modulus
    requires Choice(m, v, end, n) == Some(i) && i < |v| && GrantFits(m, v, end, n)
    ensures Linked(m, mem, v, i)
    ensures Threaded(m, StoreInsert(m, mem, v[i], Need(m, n)), Insert(v, i, Need(m, n)))
    ensures var at := v[i].at + v[i].size;
            Wrap(m, at + m.word) == at + m.word && Wrap(m, at + Header(m)) == at + Header(m) < m.modulus
  {
    hide Choice, Need, Wrap, Rounded, Ordered, Threaded, Aligned, Insert, StoreInsert, Linked;
    GrantedSize(m, v, end, n);
    InsertThreaded(m, mem, v, start, end, i, Need(m, n));
    SectionInside(m, v, start, end, i);
    EndBelow(m, v, start, end);
    WrapSmall(m, v[i].at + v[i].size + m.word);
    WrapSmall(m, v[i].at + v[i].size + Header(m));
  }

  lemma EndBelow(m: Arch, v: seq<Section>, start: nat, end: nat)
    requires ArchOk(m) && Ordered(m, v, start, end)
    ensures end < m.modulus
  {
  }

  lemma NotEmptied(v: seq<Section>, i: nat, size: nat)
    requires i < |v|
    ensures Insert(v, i, size) != []
  {
  }

  /** No list, no grant; and a request that wraps is refused. */
  lemma Decision(m: Arch, v: seq<Section>, end: nat, n: nat)
    requires ArchOk(m)
    ensures Choice(m, v, end, n).None? ==> GrantFits(m, v, end, n)
    ensures v == [] ==> Choice(m, v, end, n).None?
  {
    hide Wrap, Rounded;
  }

  // --- the code -----------------------------------------------------------------------------------

  class Allocator {
    const m: Arch
    var blockStart: nat                // mem_block_start
    var blockEnd: nat                  // mem_block_end
    var mem: map<int, int>             // words by address
    ghost var sections: seq<Section>

    ghost predicate Valid()
      reads this
    {
      ListOk(m, mem, sections, blockStart, blockEnd)
    }

    ghost function Now(): View
      reads this
    {
      View(sections, blockStart, blockEnd)
    }

    constructor (arch: Arch, words: map<int, int>)
      requires ArchOk(arch)
      ensures m == arch && Valid() && sections == [] && mem == words
    {
      m := arch;
      blockStart, blockEnd := 0, 0;
      sections := [];
      mem := words;
    }

    /** kallocinit, on a word-aligned block. */
    method Kallocinit(start: nat, end: nat)
      requires Valid() && Aligned(m, start) && 0 < start && end < m.modulus
      modifies this
      ensures Valid()
      ensures Now() == Step(m, old(Now()), Init(start, end))
      ensures if start + Header(m) <= end then SameBut(old(mem), mem, {start, start + m.word}) else mem == old(mem)
      ensures if start + 2 * m.word <= end then
                && sections == [Section(start, 0)] && blockStart == start && blockEnd == end
                && start in mem && mem[start] == 0 && start + m.word in mem && mem[start + m.word] == 0
              else sections == old(sections) && blockStart == old(blockStart) && blockEnd == old(blockEnd)
    {
      if start > end {
        return;
      }
      if end - start < Header(m) {
        return;
      }
      blockStart, blockEnd := start, end;
      mem := mem[start := 0][start + m.word := 0];
      sections := [Section(start, 0)];
      assert Aligned(m, 0);
    }

    method RoundUp(n: nat) returns (size: int)
      requires ArchOk(m)
      ensures size == Rounded(m, n)
    {
      size := n;
      if size % m.word != 0 {
        size := Wrap(m, size + (m.word - size % m.word));
      }
    }

    /** kmalloc: the traversal decides as Choice does, and the stores insert a section. */
    method Kmalloc(n: nat) returns (p: nat, ghost need: nat)
      requires Valid() && n < m.modulus
      modifies this`mem, this`sections
      ensures var v := old(sections);
              match Choice(m, v, blockEnd, n)
              case None => p == 0 && mem == old(mem) && sections == v
              case Some(i) =>
                var at := v[i].at + v[i].size;
                && p == Wrap(m, at + Header(m)) && sections == Insert(v, i, Need(m, n))
                && SameBut(old(mem), mem, {at, Wrap(m, at + m.word), v[i].at + m.word})
                && (GrantFits(m, v, blockEnd, n) ==> p == at + Header(m) && Wrap(m, at + m.word) == at + m.word)
      ensures Valid() <==> GrantFits(m, old(sections), blockEnd, n)
      ensures LowEnough(m, blockStart, blockEnd) ==> Valid()
      ensures Now() == Step(m, old(Now()), Malloc(n))
      ensures n + 2 * m.word <= need < n + 3 * m.word
      ensures p == 0 && (blockEnd < 2 * blockStart + m.word || blockEnd < blockStart + 3 * m.word) ==>
                var v := old(sections);
                n == 0 || forall k {:trigger v[k]} | 0 <= k < |v| ::
                            need > (if k + 1 < |v| then v[k + 1].at else blockEnd) - (v[k].at + v[k].size)
      ensures p != 0 && (blockEnd < 2 * blockStart + m.word || blockEnd < blockStart + 3 * m.word) ==>
                var v := old(sections);
                && blockStart + 2 * m.word <= p && p + n <= blockEnd
                && (forall s: Section | s in v && s.size > 0 :: p + n <= s.at || s.at + s.size <= p - 2 * m.word)
                && (forall s: Section | s.size > 0 ::
                      s in sections <==> s in v || s == Section(p - 2 * m.word, need))
                && exists i | 0 <= i < |v| ::
                     && p - 2 * m.word == v[i].at + v[i].size
                     && forall k | 0 <= k < i ::
                          need > (if k + 1 < |v| then v[k + 1].at else blockEnd) - (v[k].at + v[k].size)
    {
      hide Choice, Ordered, Insert, Wrap, GrantFits, Step, Threaded, SameBut, ListOk, Header;
      ArchIsOk(m, mem, sections, blockStart, blockEnd);
      need := Need(m, n);
      NeedIs(m, n);
      ghost var v, before := sections, mem;
      hide Need, ArchOk;
      p := Grant(n);
      if blockEnd < 2 * blockStart + m.word || blockEnd < blockStart + 3 * m.word {
        FitsBelow(m, before, v, blockStart, blockEnd, n);
        GrantMeans(m, before, v, blockStart, blockEnd, n, p, sections, need);
      }
    }

    /** The same, in terms of the list. */
    method Grant(n: nat) returns (p: nat)
      requires Valid() && n < m.modulus
      modifies this`mem, this`sections
      ensures var v := old(sections);
              match Choice(m, v, blockEnd, n)
              case None => p == 0 && mem == old(mem) && sections == v
              case Some(i) =>
                var at := v[i].at + v[i].size;
                && p == Wrap(m, at + Header(m)) && sections == Insert(v, i, Need(m, n))
                && SameBut(old(mem), mem, {at, Wrap(m, at + m.word), v[i].at + m.word})
                && (GrantFits(m, v, blockEnd, n) ==> p == at + Header(m) && Wrap(m, at + m.word) == at + m.word)
      ensures Valid() <==> GrantFits(m, old(sections), blockEnd, n)
      ensures LowEnough(m, blockStart, blockEnd) ==> Valid()
      ensures Now() == Step(m, old(Now()), Malloc(n))
    {
      hide Need, LowEnough, Ordered, Insert, Scan, Threaded, SameBut, Linked, Wrap, Rounded, GrantFits, Aligned;
      var size := RoundUp(n);
      if sections != [] && LowEnough(m, blockStart, blockEnd) {
        LowGrantFits(m, sections, blockStart, blockEnd, n);
      }
      Decision(m, sections, blockEnd, n);
      if size == 0 || Wrap(m, size + Header(m)) < size {
        return 0;
      }
      size := Wrap(m, size + Header(m));
      ghost var i;
      var section;
      section, i := Search(size);
      if section == 0 {
        return 0;
      }
      p := TakeGap(i, section, n, size);
    }

    /** The loop of kmalloc: the section in front of the gap to use, or 0. */
    method Search(size: nat) returns (section: nat, ghost at: nat)
      requires Valid()
      ensures section == match Scan(m, sections, blockEnd, size, 0) case None => 0 case Some(i) => sections[i].at
      ensures var r := Scan(m, sections, blockEnd, size, 0);
              r.Some? ==> section > 0 && at == r.value && Linked(m, mem, sections, at)
    {
      ghost var v := sections;
      if v != [] {
        InBounds(m, mem, v, blockStart, blockEnd, 0);
      }
      assert ArchOk(m) && (v == [] ==> blockStart == blockEnd == 0);
      hide Wrap, Ordered, ArchOk, ListOk;
      section, at := blockStart, 0;
      while section < blockEnd
        invariant if at < |v| then section == v[at].at < blockEnd else v == [] && section == blockEnd
        invariant Scan(m, v, blockEnd, size, 0) == Scan(m, v, blockEnd, size, at)
        decreases |v| - at
      {
        InBounds(m, mem, v, blockStart, blockEnd, at);
        if at + 1 < |v| {
          InBounds(m, mem, v, blockStart, blockEnd, at + 1);
        }
        if Wrap(m, section + size) < section {
          return 0, at;
        }
        if Wrap(m, section + mem[section] + size) < section {
          return 0, at;
        }
        if mem[section + m.word] == 0 {
          if Wrap(m, section + mem[section] + size) <= blockEnd {
            return section, at;
          } else {
            return 0, at;
          }
        } else if Wrap(m, section + mem[section] + size) <= mem[section + m.word] {
          return section, at;
        }
        section, at := mem[section + m.word], at + 1;
      }
      return 0, at;
    }

    /** The stores that put a section into the gap behind section i. */
    method TakeGap(ghost i: nat, section: nat, ghost n: nat, size: nat) returns (p: nat)
      requires Valid() && n < m.modulus && Choice(m, sections, blockEnd, n) == Some(i) && i < |sections|
      requires section == sections[i].at && size == Wrap(m, Rounded(m, n) + Header(m))
      requires Linked(m, mem, sections, i)
      modifies this`mem, this`sections
      ensures var v := old(sections);
              var at := v[i].at + v[i].size;
              && p == Wrap(m, at + Header(m)) && sections == Insert(v, i, Need(m, n))
              && SameBut(old(mem), mem, {at, Wrap(m, at + m.word), section + m.word})
              && (GrantFits(m, v, blockEnd, n) ==> p == at + Header(m) && Wrap(m, at + m.word) == at + m.word)
      ensures Valid() <==> GrantFits(m, old(sections), blockEnd, n)
    {
      hide Ordered, Aligned, Wrap, Rounded, Need, Choice, LowEnough, Threaded, Insert, GrantFits;
      ghost var v := sections;
      GrantedSize(m, v, blockEnd, n);
      GrantOrdered(m, v, blockStart, blockEnd, n);
      NotEmptied(v, i, Need(m, n));
      var at: nat := section + mem[section];
      var next := mem[section + m.word];
      mem := mem[section + m.word := at];
      mem := mem[at := size];
      mem := mem[Wrap(m, at + m.word) := next];
      p := Wrap(m, at + Header(m));
      sections := Insert(sections, i, size);
      if GrantFits(m, v, blockEnd, n) {
        GrantThreaded(m, old(mem), v, blockStart, blockEnd, i, n);
      }
    }

    /** kfree: a live section goes, any other pointer is ignored. */
    method Kfree(ptr: nat)
      requires Valid() && ptr < m.modulus
      modifies this`mem, this`sections
      ensures Valid()
      ensures forall i | Live(m, old(sections), ptr, i) ::
                sections == Remove(old(sections), i) && mem == StoreRemove(m, old(mem), old(sections), i)
      ensures NotLive(m, old(sections), ptr) ==> sections == old(sections) && mem == old(mem)
      ensures Now() == Step(m, old(Now()), Free(ptr))
      ensures var v := old(sections);
              && (forall i, s: Section | 0 <= i < |v| && v[i].size > 0 && ptr == v[i].at + 2 * m.word && s.size > 0 ::
                    s in sections <==> s in v && s != v[i])
              && ((forall i | 0 <= i < |v| :: v[i].size == 0 || ptr != v[i].at + 2 * m.word) ==>
                    sections == v && mem == old(mem))
    {
      hide Ordered, Threaded, StoreRemove;
      ghost var v := sections;
      RemoveLive(ptr);
      assert (exists i :: Live(m, v, ptr, i)) || NotLive(m, v, ptr);
      forall i, s: Section | 0 <= i < |v| && v[i].size > 0 && ptr == v[i].at + 2 * m.word && s.size > 0
        ensures s in sections <==> s in v && s != v[i]
      {
        assert Live(m, v, ptr, i);
        RemoveIs(m, v, blockStart, blockEnd, i);
      }
    }

    /** kfree without the view. */
    method RemoveLive(ptr: nat)
      requires Valid() && ptr < m.modulus
      modifies this`mem, this`sections
      ensures Valid()
      ensures forall i | Live(m, old(sections), ptr, i) ::
                sections == Remove(old(sections), i) && mem == StoreRemove(m, old(mem), old(sections), i)
      ensures NotLive(m, old(sections), ptr) ==> sections == old(sections) && mem == old(mem)
    {
      hide Wrap, Ordered, ArchOk, ListOk, Extent, Remove, StoreRemove;
      ghost var v := sections;
      var p := Wrap(m, ptr - Header(m));
      HeaderOf(m, v, blockStart, blockEnd, mem, ptr);
      if p < blockStart || p >= blockEnd {
        return;
      }
      var section, prev;
      ghost var i;
      section, prev, i := Find(p);
      if section == 0 {
        return;
      }
      OnlyOneAt(m, v, blockStart, blockEnd, mem, i);
      if mem[section] == 0 {
        return;
      }
      assert Live(m, v, ptr, i);
      Unlink(i, section, prev);
    }

    /** The traversal of kfree: the section at p and the one in front of it, or 0. */
    method Find(p: nat) returns (section: nat, prev: nat, ghost i: nat)
      requires Valid() && sections != []
      ensures section == 0 || section == p
      ensures section == 0 ==> forall k | 0 <= k < |sections| :: sections[k].at != p
      ensures section != 0 ==>
                i < |sections| && section == sections[i].at
                && prev == (if i > 0 then sections[i - 1].at else 0) && Linked(m, mem, sections, i)
    {
      hide Ordered, ArchOk, ListOk, Extent;
      ghost var v := sections;
      section, prev, i := blockStart, 0, 0;
      InBounds(m, mem, v, blockStart, blockEnd, 0);
      while section < blockEnd
        invariant i < |v| && section == v[i].at < blockEnd && prev == if i > 0 then v[i - 1].at else 0
        invariant forall k | 0 <= k < i :: v[k].at != p
        decreases |v| - i
      {
        InBounds(m, mem, v, blockStart, blockEnd, i);
        if section == p {
          return;
        }
        if mem[section + m.word] == 0 {
          return 0, 0, i;
        }
        InBounds(m, mem, v, blockStart, blockEnd, i + 1);
        prev, section, i := section, mem[section + m.word], i + 1;
      }
    }

    /** The stores that take section i out of the list. */
    method Unlink(ghost i: nat, section: nat, prev: nat)
      requires Valid() && i < |sections| && section == sections[i].at
      requires prev == if i > 0 then sections[i - 1].at else 0
      modifies this`mem, this`sections
      ensures Valid() && sections == Remove(old(sections), i)
      ensures mem == StoreRemove(m, old(mem), old(sections), i)
    {
      ghost var v := sections;
      InBounds(m, mem, v, blockStart, blockEnd, i);
      RemoveThreaded(m, mem, v, blockStart, blockEnd, i);
      if i > 0 {
        InBounds(m, mem, v, blockStart, blockEnd, i - 1);
      }
      hide Ordered, ArchOk, Threaded;
      mem := mem[section := 0];
      if prev != 0 {
        mem := mem[prev + m.word := mem[section + m.word]];
      }
      sections := Remove(v, i);
    }

    /** The owner of a live section stores into its payload. */
    method StoreInPayload(ghost i: nat, a: nat, x: int)
      requires Valid() && i < |sections| && InPayload(m, sections[i], a)
      modifies this`mem
      ensures Valid() && mem == old(mem)[a := x]
    {
      PayloadStores(m, mem, sections, blockStart, blockEnd, i, a, x);
      mem := mem[a := x];
    }

    /** kmalloc_stack: a 16-byte aligned top of stack, with the allocation's address stored above it.  The
        list survives exactly if the grant fits and that store misses the headers. */
    method KmallocStack(size: nat) returns (top: nat)
      requires Valid() && size < m.modulus
      modifies this`mem, this`sections
      ensures var v, over := old(sections), Wrap(m, size + 0x20);
              match Choice(m, v, blockEnd, over)
              case None => top == 0 && mem == old(mem) && sections == v && Valid()
              case Some(i) =>
                var p := v[i].at + v[i].size + Header(m);
                var sp := StackWord(m, p, size);
                && sections == Insert(v, i, Need(m, over))
                && (Valid() <==> GrantFits(m, v, blockEnd, over) && NoHit(m, sections, sp, p))
                && (GrantFits(m, v, blockEnd, over) ==>
                      && top == Wrap(m, sp - 0x10) && sp % 0x10 == 0 && sp in mem && mem[sp] == p
                      && SameBut(old(mem), mem, {p - Header(m), p - Header(m) + m.word, v[i].at + m.word, sp}))
      ensures var v, over := old(sections), Wrap(m, size + 0x20);
              match Choice(m, v, blockEnd, over)
              case None => true
              case Some(i) =>
                var p := v[i].at + v[i].size + Header(m);
                GrantFits(m, v, blockEnd, over) && BackInside(m, p, size) ==>
                  && Valid() && StackIn(m, sections[Inserted(v, i)], top, size) && p < m.modulus
                  && top % 0x10 == 0 && p <= top + 0x10 && top + 0x10 + m.word <= p - 2 * m.word + Need(m, over)
                  && (size + 0x20 < m.modulus ==> p + size < top + 0x20)
                  && (blockStart >= 0x10 ==> top > 0) && top + 0x10 == StackWord(m, p, size)
    {
      hide Wrap, Choice, Ordered, LowEnough, Insert, Need, Threaded, Inserted, InPayload, GrantFits, SameBut, NoHit,
           BackInside, StackIn, ListOk;
      ArchIsOk(m, mem, sections, blockStart, blockEnd);
      var over := Wrap(m, size + 0x20);
      ghost var v, choice := sections, Choice(m, sections, blockEnd, over);
      if choice.Some? {
        GrantedSize(m, v, blockEnd, over);
      }
      var p;
      ghost var need;
      p, need := Kmalloc(over);
      if choice.Some? && GrantFits(m, v, blockEnd, over) {
        StackWordStored(m, v, blockStart, blockEnd, mem, choice.value, size);
      }
      if p == 0 {
        return 0;
      }
      var x := Wrap(m, p + size + 0x10);
      var sp := x - x % 0x10;
      if GrantFits(m, v, blockEnd, over) {
        OneMore(old(mem), mem, p - Header(m), p - Header(m) + m.word, v[choice.value].at + m.word, sp, p);
      } else {
        OutOfOrder(m, old(mem), v, blockStart, blockEnd, mem[sp := p], over);
      }
      mem := mem[sp := p];
      top := Wrap(m, sp - 0x10);
      if GrantFits(m, v, blockEnd, over) && BackInside(m, p, size) {
        StackInIs(m, v, choice.value, Need(m, over), top, size);
      }
    }

    /** kfree_stack */
    method KfreeStack(ptr: nat)
      requires Valid() && ptr < m.modulus
      requires ptr != 0 ==> Wrap(m, ptr + 0x10) in mem && 0 <= mem[Wrap(m, ptr + 0x10)] < m.modulus
      modifies this`mem, this`sections
      ensures Valid()
      ensures ptr == 0 ==> sections == old(sections) && mem == old(mem)
      ensures ptr != 0 ==> forall i | Live(m, old(sections), old(mem[Wrap(m, ptr + 0x10)]), i) ::
                sections == Remove(old(sections), i) && mem == StoreRemove(m, old(mem), old(sections), i)
      ensures ptr != 0 && NotLive(m, old(sections), old(mem[Wrap(m, ptr + 0x10)])) ==>
                sections == old(sections) && mem == old(mem)
    {
      if ptr == 0 {
        return;
      }
      Kfree(mem[Wrap(m, ptr + 0x10)]);
    }

    /** What kmalloc hands out, kfree takes back: the list is as before, and so is every word of memory
        but the header that was written for the new section. */
    method AllocateAndFree(n: nat) returns (p: nat)
      requires Valid() && n < m.modulus && GrantFits(m, sections, blockEnd, n)
      modifies this`mem, this`sections
      ensures Valid() && sections == old(sections)
      ensures SameBut(old(mem), mem, {p - Header(m), p - m.word})
    {
      hide Ordered, Insert, Remove, Choice, Threaded, LowEnough, SameBut, StoreRemove, Linked, Need, Step, GrantFits;
      ghost var v, i := sections, Choice(m, sections, blockEnd, n);
      ghost var need;
      p, need := Kmalloc(n);
      if p != 0 {
        FreshIsLive(m, v, blockStart, blockEnd, mem, i.value, n, p);
        InBounds(m, old(mem), v, blockStart, blockEnd, i.value);
        FirstIfFree(m, v, blockStart, blockEnd, i.value);
        StoresUndone(m, old(mem), mem, v, i.value, Need(m, n));
        Kfree(p);
      } else {
        SameAsItself(mem, {p - Header(m), p - m.word});
      }
    }

    /** kfree_stack takes back what kmalloc_stack handed out, whenever the word above the stack is inside
        the allocation.  A stack top of 0 is taken for a failure, and is not freed. */
    method AllocateAndFreeStack(size: nat) returns (top: nat)
      requires Valid() && size < m.modulus && StackSafe(m, sections, blockEnd, size)
      modifies this`mem, this`sections
      ensures Valid() && (blockStart >= 0x10 ==> sections == old(sections))
    {
      hide Wrap, Choice, Ordered, LowEnough, Insert, Need, Threaded, Inserted, GrantFits;
      hide SameBut, NoHit, BackInside, StackIn, Remove;
      ghost var v, over := sections, Wrap(m, size + 0x20);
      ghost var i := Choice(m, v, blockEnd, over);
      top := KmallocStack(size);
      if top != 0 {
        WrapSmall(m, top + 0x10);
        FreshIsLive(m, v, blockStart, blockEnd, mem, i.value, over, mem[top + 0x10]);
        BackInBounds(m, mem, sections, blockStart, blockEnd, Inserted(v, i.value), top, size);
        KfreeStack(top);
      }
    }
  }

  /** The test of kfree compares header addresses; no pointer below a header can be mistaken for one. */
  lemma HeaderOf(m: Arch, v: seq<Section>, start: nat, end: nat, mem: map<int, int>, ptr: nat)
    requires ListOk(m, mem, v, start, end) && ptr < m.modulus
    ensures forall i | 0 <= i < |v| :: Wrap(m, ptr - Header(m)) == v[i].at <==> ptr == v[i].at + Header(m)
    ensures forall i | 0 <= i < |v| :: start <= v[i].at < end
    ensures v == [] ==> start == end
  {
    forall i | 0 <= i < |v|
      ensures Wrap(m, ptr - Header(m)) == v[i].at <==> ptr == v[i].at + Header(m)
      ensures start <= v[i].at < end
    {
      InBounds(m, mem, v, start, end, i);
      if ptr >= Header(m) {
        WrapSmall(m, ptr - Header(m));
      } else {
        WrapBelow(m, ptr - Header(m));
      }
    }
  }

  lemma OnlyOneAt(m: Arch, v: seq<Section>, start: nat, end: nat, mem: map<int, int>, i: nat)
    requires ListOk(m, mem, v, start, end) && i < |v|
    ensures forall k | 0 <= k < |v| && v[k].at == v[i].at :: k == i
  {
    forall k | 0 <= k < |v| && v[k].at == v[i].at ensures k == i {
      OneAt(m, v, start, end, i, k);
    }
  }

  lemma WrapBelow(m: Arch, z: int)
    requires ArchOk(m) && z < 0 <= z + m.modulus
    ensures Wrap(m, z) == z + m.modulus
  {
    DivModUnique(z, m.modulus, -1, z + m.modulus);
  }

  /** The stack of an allocation: the word at top + 0x10 is in the payload, and unless the size wrapped
      there are size bytes below it. */
  predicate StackIn(m: Arch, s: Section, top: int, size: nat) {
    && top % 0x10 == 0 && s.at + Header(m) <= top + 0x10 && top + 0x10 + m.word <= s.at + s.size
    && (size + 0x20 < m.modulus ==> s.at + Header(m) + size < top + 0x20)
  }

  /** The store of x at a changes no header of the list. */
  predicate NoHit(m: Arch, v: seq<Section>, a: int, x: int) {
    forall k | 0 <= k < |v| :: Spared(m, v, k, a, x)
  }

  predicate Spared(m: Arch, v: seq<Section>, k: nat, a: int, x: int)
    requires k < |v|
  {
    (a == v[k].at ==> x == v[k].size) && (a == v[k].at + m.word ==> x == NextOf(v, k))
  }

  lemma StoreKeepsList(m: Arch, mem: map<int, int>, v: seq<Section>, start: nat, end: nat, a: int, x: int)
    requires ListOk(m, mem, v, start, end) && v != []
    ensures ListOk(m, mem[a := x], v, start, end) <==> NoHit(m, v, a, x)
  {
    hide Ordered, ArchOk;
    var after := mem[a := x];
    forall k | 0 <= k < |v| ensures Linked(m, after, v, k) <==> Spared(m, v, k, a, x) {
      assert Linked(m, mem, v, k) && m.word > 0 by {
        WordPositive(m);
      }
    }
  }

  lemma OneMore(before: map<int, int>, mem: map<int, int>, b: int, c: int, d: int, a: int, x: int)
    requires SameBut(before, mem, {b, c, d})
    ensures SameBut(before, mem[a := x], {b, c, d, a})
  {
  }

  /** A grant that does not fit leaves no list, whatever is in memory. */
  lemma OutOfOrder(m: Arch, mem: map<int, int>, v: seq<Section>, start: nat, end: nat, after: map<int, int>, n: nat)
    requires ListOk(m, mem, v, start, end) && n < m.modulus && !GrantFits(m, v, end, n)
    ensures Choice(m, v, end, n).Some?
            && !ListOk(m, after, Insert(v, Choice(m, v, end, n).value, Need(m, n)), start, end)
  {
    hide Choice, Ordered, Threaded, Need;
    Decision(m, v, end, n);
    GrantOrdered(m, v, start, end, n);
  }

  lemma WordPositive(m: Arch)
    requires ArchOk(m)
    ensures m.word > 0
  {
  }

  lemma ArchIsOk(m: Arch, mem: map<int, int>, v: seq<Section>, start: nat, end: nat)
    requires ListOk(m, mem, v, start, end)
    ensures ArchOk(m)
  {
  }

  /** The word above the stack is inside the allocation: the wrapped size reaches a 16-byte boundary. */
  predicate BackInside(m: Arch, p: nat, size: nat)
    requires m.modulus > 0
  {
    size + 0x20 < m.modulus || Wrap(m, size + 0x20) >= 0x10 + (0x10 - p % 0x10) % 0x10
  }

  /** A caller of kmalloc_stack gets a gap that fits, with the word above the stack inside it. */
  predicate StackSafe(m: Arch, v: seq<Section>, end: nat, size: nat)
    requires ArchOk(m)
  {
    var over := Wrap(m, size + 0x20);
    GrantFits(m, v, end, over)
    && match Choice(m, v, end, over)
       case None => true
       case Some(i) => BackInside(m, v[i].at + v[i].size + Header(m), size)
  }

  /** What the store of kmalloc_stack does to the list it has just extended. */
  lemma StackWordStored(m: Arch, v: seq<Section>, start: nat, end: nat, mem: map<int, int>, i: nat, size: nat)
    requires ArchOk(m) && size < m.modulus && i < |v| && Wrap(m, size + 0x20) > 0
    requires ListOk(m, mem, Insert(v, i, Need(m, Wrap(m, size + 0x20))), start, end)
    ensures var u, e, p := Insert(v, i, Need(m, Wrap(m, size + 0x20))), Inserted(v, i), v[i].at + v[i].size + Header(m);
            var sp := StackWord(m, p, size);
            && u != [] && e < |u| && p < m.modulus && sp % 0x10 == 0
            && (ListOk(m, mem[sp := p], u, start, end) <==> NoHit(m, u, sp, p))
            && (BackInside(m, p, size) ==>
                  && ListOk(m, mem[sp := p], u, start, end) && 0x10 <= sp && Wrap(m, sp - 0x10) == sp - 0x10
                  && StackIn(m, u[e], sp - 0x10, size) && (start >= 0x10 ==> sp > 0x10))
  {
    hide Ordered, Insert, ListOk, Need, Aligned, NoHit, Wrap, Threaded;
    var over := Wrap(m, size + 0x20);
    var u, e, p := Insert(v, i, Need(m, over)), Inserted(v, i), v[i].at + v[i].size + Header(m);
    InsertedAt(v, i, Need(m, over));
    InBounds(m, mem, u, start, end, e);
    NeedAtLeast(m, over);
    var sp := StackWord(m, p, size);
    StoreKeepsList(m, mem, u, start, end, sp, p);
    BackPointerInside(m, p, size);
    if BackInside(m, p, size) {
      StackBelow(m, p, size);
      PayloadStores(m, mem, u, start, end, e, sp, p);
    }
  }

  /** Removing a fresh section puts the old link back. */
  lemma StoresUndone(m: Arch, before: map<int, int>, mem: map<int, int>, v: seq<Section>, i: nat, size: nat)
    requires i < |v| && Linked(m, before, v, i) && Inserted(v, i) < |Insert(v, i, size)| && (v[i].size == 0 ==> i == 0)
    requires var at := v[i].at + v[i].size;
             SameBut(before, mem, {at, at + m.word, v[i].at + m.word})
    ensures var at := v[i].at + v[i].size;
            SameBut(before, StoreRemove(m, mem, Insert(v, i, size), Inserted(v, i)), {at, at + m.word})
  {
  }

  lemma SameAsItself(mem: map<int, int>, but: set<int>)
    ensures SameBut(mem, mem, but)
  {
  }

  lemma FreshIsLive(m: Arch, v: seq<Section>, start: nat, end: nat, mem: map<int, int>, i: nat, n: nat, p: nat)
    requires ArchOk(m) && i < |v| && n < m.modulus && p == v[i].at + v[i].size + Header(m)
    requires Ordered(m, v, start, end) && ListOk(m, mem, Insert(v, i, Need(m, n)), start, end)
    ensures Live(m, Insert(v, i, Need(m, n)), p, Inserted(v, i))
    ensures Remove(Insert(v, i, Need(m, n)), Inserted(v, i)) == v && p < m.modulus
  {
    RemoveInserted(m, v, start, end, i, Need(m, n));
    InBounds(m, mem, Insert(v, i, Need(m, n)), start, end, Inserted(v, i));
  }

  /** When the size wraps, the word above the stack can miss the allocation: exactly when the wrapped size
      leaves no room up to a 16-byte boundary. */
  lemma BackPointerInside(m: Arch, p: nat, size: nat)
    requires ArchOk(m) && size < m.modulus && 0 < p
    requires 0 < Wrap(m, size + 0x20) && p + Wrap(m, size + 0x20) < m.modulus
    ensures var over, sp := Wrap(m, size + 0x20), StackWord(m, p, size);
            && sp % 0x10 == 0
            && (p <= sp && sp + m.word <= p + over <==> BackInside(m, p, size))
  {
    hide Wrap;
    var over, x := Wrap(m, size + 0x20), Wrap(m, p + size + 0x10);
    WrapSmall(m, size + 0x20);
    WrapSmall(m, p + size + 0x10);
    RoundedDown(x, p);
    if size + 0x20 >= m.modulus && p + over < 0x10 {
      RoundedDown(x, m.modulus - 0x10);
    }
  }

  /** The word is at the 16-byte boundary at or below the wrapped sum. */
  lemma StackWordIs(m: Arch, p: nat, size: nat)
    requires m.modulus > 0
    ensures var sp := StackWord(m, p, size);
            sp % 0x10 == 0 && sp <= (p + size + 0x10) % m.modulus < sp + 0x10
  {
    RoundedDown((p + size + 0x10) % m.modulus, 0);
  }

  /** Where the stack is in the allocation of need bytes that ends a gap. */
  lemma StackInIs(m: Arch, v: seq<Section>, i: nat, need: nat, top: int, size: nat)
    requires i < |v| && Inserted(v, i) < |Insert(v, i, need)|
    requires StackIn(m, Insert(v, i, need)[Inserted(v, i)], top, size)
    ensures var p := v[i].at + v[i].size + 2 * m.word;
            && top % 0x10 == 0 && p <= top + 0x10 && top + 0x10 + m.word <= p - 2 * m.word + need
            && (size + 0x20 < m.modulus ==> p + size < top + 0x20)
  {
    InsertedAt(v, i, need);
  }

  lemma RoundedDown(x: nat, p: nat)
    ensures p <= x - x % 0x10 <==> x >= p + (0x10 - p % 0x10) % 0x10
    ensures x - 15 <= x - x % 0x10 <= x && (x - x % 0x10) % 0x10 == 0
  {
    var q, r := x / 0x10, p / 0x10;
    assert x == 0x10 * q + x % 0x10 && p == 0x10 * r + p % 0x10;
    if p % 0x10 == 0 {
      assert p <= x - x % 0x10 <==> r <= q;
    } else {
      assert p <= x - x % 0x10 <==> r < q;
    }
  }

  /** The stack below a word that is inside the allocation. */
  lemma StackBelow(m: Arch, p: nat, size: nat)
    requires ArchOk(m) && size < m.modulus && 0 < p && p + Wrap(m, size + 0x20) < m.modulus
    requires p <= StackWord(m, p, size) && StackWord(m, p, size) % 0x10 == 0
    ensures var sp := StackWord(m, p, size);
            && 0x10 <= sp && Wrap(m, sp - 0x10) == sp - 0x10
            && (size + 0x20 < m.modulus ==> p + size < sp + 0x10)
  {
    hide Wrap;
    WrapSmall(m, size + 0x20);
    WrapSmall(m, p + size + 0x10);
    WrapSmall(m, StackWord(m, p, size) - 0x10);
  }

  lemma NeedAtLeast(m: Arch, n: nat)
    requires ArchOk(m)
    ensures Need(m, n) >= n + Header(m)
  {
  }

  lemma InsertedAt(v: seq<Section>, i: nat, size: nat)
    requires i < |v|
    ensures var u, e := Insert(v, i, size), Inserted(v, i);
            e < |u| && u[e] == Section(v[i].at + v[i].size, size)
  {
  }

  lemma BackInBounds(m: Arch, mem: map<int, int>, u: seq<Section>, start: nat, end: nat, e: nat, top: nat, size: nat)
    requires ListOk(m, mem, u, start, end) && e < |u| && StackIn(m, u[e], top, size)
    ensures top + 0x10 < m.modulus
  {
    InBounds(m, mem, u, start, end, e);
  }
}
