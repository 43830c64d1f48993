/** What the list of sections means for the callers of kmalloc and kfree: which bytes they are given. */
module HeapMeaning {
  import opened Options
  import opened Words
  import opened HeapView
  import opened Heap

  /** The lists that the heap can have: in address order without overlap, on word boundaries, inside the
      block, every section but a free first one with room for a header and a word. */
  lemma OrderedIs(m: Arch, v: seq<Section>, start: nat, end: nat)
    requires ArchOk(m)
    ensures m.word > 0
    ensures Ordered(m, v, start, end)
            <==>
            && |v| > 0 && v[0].at == start > 0 && end < m.modulus
            && forall i | 0 <= i < |v| ::
                 && v[i].at % m.word == 0 && v[i].size % m.word == 0
                 && (v[i].size >= 3 * m.word || (i == 0 && v[i].size == 0))
                 && v[i].at + (if v[i].size < 2 * m.word then 2 * m.word else v[i].size)
                    <= (if i + 1 < |v| then v[i + 1].at else end)
  {
    if Ordered(m, v, start, end) {
      forall i | 0 <= i < |v|
        ensures v[i].at % m.word == 0 && v[i].size % m.word == 0
        ensures v[i].size >= 3 * m.word || (i == 0 && v[i].size == 0)
        ensures v[i].at + (if v[i].size < 2 * m.word then 2 * m.word else v[i].size)
                <= (if i + 1 < |v| then v[i + 1].at else end)
      {
        assert SectionOk(m, v[i], i) && v[i].at + Extent(m, v[i]) <= GapEnd(v, end, i);
      }
    } else if |v| > 0 && v[0].at == start > 0 && end < m.modulus {
      if i :| 0 <= i < |v| && !SectionOk(m, v[i], i) {
        assert !(v[i].at % m.word == 0 && v[i].size % m.word == 0
                 && (v[i].size >= 3 * m.word || (i == 0 && v[i].size == 0)));
      } else {
        var i :| 0 <= i < |v| && !(v[i].at + Extent(m, v[i]) <= GapEnd(v, end, i));
        assert !(v[i].at + (if v[i].size < 2 * m.word then 2 * m.word else v[i].size)
                 <= (if i + 1 < |v| then v[i + 1].at else end));
      }
    }
  }

  /** What a request takes up: whole words, and a header of two words. */
  lemma NeedIs(m: Arch, n: nat)
    requires ArchOk(m)
    ensures Need(m, n) == (n + m.word - 1) / m.word * m.word + 2 * m.word
    ensures n + 2 * m.word <= Need(m, n) < n + 3 * m.word
  {
    var q, r := n / m.word, n % m.word;
    assert n == q * m.word + r;
    if r == 0 {
      DivModUnique(n + m.word - 1, m.word, q, m.word - 1);
    } else {
      assert n + m.word - 1 == (q + 1) * m.word + (r - 1);
      DivModUnique(n + m.word - 1, m.word, q + 1, r - 1);
      assert (q + 1) * m.word == q * m.word + m.word;
    }
  }

  /** The room behind section k. */
  lemma FitsIs(v: seq<Section>, end: nat, need: nat, k: nat)
    requires k < |v|
    ensures Fits(v, end, need, k)
            <==> need <= (if k + 1 < |v| then v[k + 1].at else end) - (v[k].at + v[k].size)
  {
  }

  /** On a block that ends low enough: the gap that is used is the first one with room, and a request for
      something fails only if no gap has room. */
  lemma ChoiceIs(m: Arch, v: seq<Section>, start: nat, end: nat, n: nat)
    requires ArchOk(m) && Ordered(m, v, start, end) && n < m.modulus
    requires end < 2 * start + m.word || end < start + 3 * m.word
    ensures var need := (n + m.word - 1) / m.word * m.word + 2 * m.word;
            match Choice(m, v, end, n)
            case None =>
              n == 0 || forall k | 0 <= k < |v| ::
                          need > (if k + 1 < |v| then v[k + 1].at else end) - (v[k].at + v[k].size)
            case Some(i) =>
              && n > 0 && need <= (if i + 1 < |v| then v[i + 1].at else end) - (v[i].at + v[i].size)
              && forall k | 0 <= k < i ::
                   need > (if k + 1 < |v| then v[k + 1].at else end) - (v[k].at + v[k].size)
  {
    hide Choice, Ordered, Fits, Need;
    ChoiceExact(m, v, start, end, n);
    NeedIs(m, n);
    forall k | 0 <= k < |v|
      ensures Fits(v, end, Need(m, n), k)
              <==> Need(m, n) <= (if k + 1 < |v| then v[k + 1].at else end) - (v[k].at + v[k].size)
    {
      FitsIs(v, end, Need(m, n), k);
    }
    if Choice(m, v, end, n).Some? {
      FitsIs(v, end, Need(m, n), Choice(m, v, end, n).value);
    }
  }

  /** Where no gap has room, no stretch of the block of that length is free of live sections. */
  lemma NoRoom(m: Arch, v: seq<Section>, start: nat, end: nat, need: nat, a: nat)
    requires ArchOk(m) && Ordered(m, v, start, end) && need > 0 && start <= a && a + need <= end
    requires forall k | 0 <= k < |v| && v[k].size > 0 :: a + need <= v[k].at || v[k].at + v[k].size <= a
    ensures exists k | 0 <= k < |v| :: v[k].at + v[k].size <= a && Fits(v, end, need, k)
  {
    var k := LastBelow(v, a, |v|);
    assert SectionOk(m, v[k], k);
    if k + 1 < |v| {
      assert SectionOk(m, v[k + 1], k + 1);
    }
    assert v[k].at + v[k].size <= a && Fits(v, end, need, k);
  }

  lemma LastBelow(v: seq<Section>, a: nat, n: nat) returns (k: nat)
    requires 0 < n <= |v| && v[0].at <= a && (n < |v| ==> a < v[n].at)
    ensures k < |v| && v[k].at <= a && (k + 1 < |v| ==> a < v[k + 1].at)
  {
    if v[n - 1].at <= a {
      k := n - 1;
    } else {
      k := LastBelow(v, a, n - 1);
    }
  }

  /** A grant adds one live section and changes no other. */
  lemma InsertIs(m: Arch, v: seq<Section>, start: nat, end: nat, i: nat, size: nat)
    requires ArchOk(m) && Ordered(m, v, start, end) && i < |v| && size > 0
    ensures forall s: Section | s.size > 0 ::
              s in Insert(v, i, size) <==> s in v || s == Section(v[i].at + v[i].size, size)
  {
    assert SectionOk(m, v[i], i);
    var u := Insert(v, i, size);
    hide ArchOk, Ordered;
    if v[i].size == 0 {
      forall s: Section | s.size > 0 ensures s in u <==> s in v || s == Section(v[i].at, size) {
        if s in v {
          var k :| 0 <= k < |v| && v[k] == s;
          assert u[k] == s;
        }
        assert u[i] == Section(v[i].at, size);
      }
    } else {
      assert v == v[..i + 1] + v[i + 1..];
    }
  }

  /** A free takes one live section and changes no other. */
  lemma RemoveIs(m: Arch, v: seq<Section>, start: nat, end: nat, i: nat)
    requires ArchOk(m) && Ordered(m, v, start, end) && i < |v|
    ensures forall s: Section | s.size > 0 :: s in Remove(v, i) <==> s in v && s != v[i]
  {
    var u := Remove(v, i);
    assert v == v[..i] + [v[i]] + v[i + 1..];
    forall k | 0 <= k < |v| && v[k] == v[i] ensures k == i {
      OneAt(m, v, start, end, i, k);
    }
    hide ArchOk, Ordered;
    forall s: Section | s.size > 0 ensures s in u <==> s in v && s != v[i] {
      if s in u {
        var k :| 0 <= k < |u| && u[k] == s;
        assert i > 0 ==> u[k] == v[if k < i then k else k + 1];
      }
      if s in v && s != v[i] {
        var k :| 0 <= k < |v| && v[k] == s;
        assert u[if i > 0 && k > i then k - 1 else k] == s;
      }
    }
  }

  /** The section of a grant that fits: its payload holds the request, in the block, away from every
      other live section. */
  lemma GrantIs(m: Arch, v: seq<Section>, start: nat, end: nat, n: nat, i: nat)
    requires ArchOk(m) && Ordered(m, v, start, end) && n < m.modulus
    requires Choice(m, v, end, n) == Some(i) && i < |v| && GrantFits(m, v, end, n)
    ensures var at, need := v[i].at + v[i].size, Need(m, n);
            && start <= at && at % m.word == 0 && at + need <= end
            && at + 2 * m.word + n <= at + need < at + 3 * m.word + n
            && forall s: Section | s in v && s.size > 0 :: at + need <= s.at || s.at + s.size <= at
  {
    hide Choice, Need, Aligned;
    NeedIs(m, n);
    SectionInside(m, v, start, end, i);
    AlignedSum(m, v[i].at, v[i].size);
    AlignedIs(m, v[i].at + v[i].size);
    var at, need := v[i].at + v[i].size, Need(m, n);
    assert at + need <= GapEnd(v, end, i) <= end;
    forall s: Section | s in v && s.size > 0 ensures at + need <= s.at || s.at + s.size <= at {
      var k :| 0 <= k < |v| && v[k] == s;
      AwayFrom(m, v, start, end, i, k, need);
    }
  }

  lemma AlignedIs(m: Arch, a: nat)
    requires m.word > 0 && Aligned(m, a)
    ensures a % m.word == 0
  {
  }

  lemma AwayFrom(m: Arch, v: seq<Section>, start: nat, end: nat, i: nat, k: nat, need: nat)
    requires ArchOk(m) && Ordered(m, v, start, end) && i < |v| && k < |v| && Fits(v, end, need, i)
    ensures v[i].at + v[i].size + need <= v[k].at || v[k].at + v[k].size <= v[i].at + v[i].size
  {
    if k < i {
      Later(m, v, end, k, i);
    } else if i + 1 < k {
      Later(m, v, end, i + 1, k);
    }
  }
}
