/** The page allocator of src/memalloc.c inside one page array.  used_pages[0] leads to the first free page,
    a free page's entry to the next one, an allocated page's entry is 1, and the first page that was never
    given out (the frontier) has entry 0. */
module Pages {
  import opened Words

  const PAGE_SIZE := 0x1000

  // --- the threaded list --------------------------------------------------------------------------

  /** j is the lowest page above i that is not allocated. */
  ghost predicate NextFree(taken: set<nat>, i: nat, j: int) {
    i < j && j !in taken && forall k: nat | i < k < j :: k in taken
  }

  /** Entry 0 and the entries of the free pages below the frontier are one ascending list of all of them,
      which ends at the frontier. */
  ghost predicate Threaded(used: seq<int>, frontier: nat, taken: set<nat>) {
    && 1 <= frontier < |used|
    && (forall i | i in taken :: 1 <= i < frontier && used[i] == 1)
    && (forall i: nat | i < frontier && i !in taken :: NextFree(taken, i, used[i]))
    && (forall i | frontier <= i < |used| :: used[i] == 0)
  }

  /** The list runs upwards, never past the frontier, and no link can be taken for the mark 1. */
  lemma Links(used: seq<int>, frontier: nat, taken: set<nat>, i: nat)
    requires Threaded(used, frontier, taken) && i < frontier && i !in taken
    ensures i < used[i] <= frontier && (i > 0 ==> used[i] != 1)
    ensures used[i] == frontier || (used[i] !in taken && used[used[i]] != 1 && used[used[i]] > used[i])
  {
    assert NextFree(taken, i, used[i]);
    assert frontier !in taken;
    assert used[i] <= frontier by {
      assert i < frontier < used[i] ==> frontier in taken;
    }
    if used[i] < frontier {
      assert NextFree(taken, used[i], used[used[i]]);
    }
  }

  lemma Marks(used: seq<int>, frontier: nat, taken: set<nat>)
    requires Threaded(used, frontier, taken)
    ensures forall i: nat | 1 <= i < frontier :: used[i] == 1 <==> i in taken
    ensures forall i | i in taken :: 1 <= i < frontier
  {
    forall i: nat | 1 <= i < frontier ensures used[i] == 1 <==> i in taken {
      if i !in taken {
        Links(used, frontier, taken, i);
      }
    }
  }

  lemma NextUnique(taken: set<nat>, i: nat, j: int, k: int)
    requires NextFree(taken, i, j) && NextFree(taken, i, k)
    ensures j == k
  {
    assert j < k ==> j in taken;
    assert k < j ==> k in taken;
  }

  /** The array holds nothing but the set of allocated pages and the frontier. */
  lemma Determined(used: seq<int>, other: seq<int>, frontier: nat, taken: set<nat>)
    requires Threaded(used, frontier, taken) && Threaded(other, frontier, taken) && |used| == |other|
    ensures used == other
  {
    forall i | 0 <= i < |used| ensures used[i] == other[i] {
      if i < frontier && i !in taken {
        NextUnique(taken, i, used[i], other[i]);
      }
    }
  }

  /** Entry 0 is the lowest free page, and only at the frontier does the list end. */
  lemma Head(used: seq<int>, frontier: nat, taken: set<nat>)
    requires Threaded(used, frontier, taken)
    ensures 1 <= used[0] <= frontier && used[0] !in taken && (used[used[0]] == 0 <==> used[0] == frontier)
    ensures forall h: nat | h > 0 && h !in taken && (forall k: nat | 0 < k < h :: k in taken) :: h == used[0]
  {
    assert NextFree(taken, 0, used[0]);
    Links(used, frontier, taken, 0);
    if used[0] < frontier {
      Links(used, frontier, taken, used[0]);
    }
    forall h: nat | h > 0 && h !in taken && (forall k: nat | 0 < k < h :: k in taken) ensures h == used[0] {
      NextUnique(taken, 0, h, used[0]);
    }
  }

  lemma BelowHead(used: seq<int>, frontier: nat, taken: set<nat>)
    requires Threaded(used, frontier, taken)
    ensures forall j: nat | 0 < j < used[0] :: j in taken
    ensures 0 !in taken && frontier < |used|
  {
    assert NextFree(taken, 0, used[0]);
  }

  lemma TakeFirst(used: seq<int>, frontier: nat, taken: set<nat>)
    requires Threaded(used, frontier, taken) && used[0] < frontier
    ensures var h := used[0];
            1 <= h && h !in taken && used[h] != 0
            && Threaded(used[h := 1][0 := used[h]], frontier, taken + {h})
  {
    Links(used, frontier, taken, 0);
    var h := used[0];
    Links(used, frontier, taken, h);
    var u, a: set<nat> := used[h := 1][0 := used[h]], taken + {h};
    assert NextFree(taken, 0, h) && NextFree(taken, h, used[h]);
    forall i: nat | i < frontier && i !in a ensures NextFree(a, i, u[i]) {
      if i > 0 {
        assert NextFree(taken, i, used[i]);
      }
    }
  }

  lemma TakeFrontier(used: seq<int>, frontier: nat, taken: set<nat>)
    requires Threaded(used, frontier, taken) && used[0] == frontier && frontier + 1 < |used|
    ensures frontier !in taken
            && Threaded(used[frontier := 1][0 := frontier + 1], frontier + 1, taken + {frontier})
  {
    var u, a: set<nat> := used[frontier := 1][0 := frontier + 1], taken + {frontier};
    assert NextFree(taken, 0, frontier);
    forall i: nat | i < frontier + 1 && i !in a ensures NextFree(a, i, u[i]) {
      assert 0 < i < frontier ==> i in taken;
    }
  }

  /** Page k goes back into the list behind its predecessor i, the last free page below it (or entry 0). */
  lemma PutBehind(used: seq<int>, frontier: nat, taken: set<nat>, i: nat, k: nat)
    requires Threaded(used, frontier, taken) && k in taken && i < k && i !in taken
    requires forall j: nat | i < j < k :: j in taken
    ensures Threaded(used[k := used[i]][i := k], frontier, taken - {k})
  {
    var u, a := used[k := used[i]][i := k], taken - {k};
    assert NextFree(taken, i, used[i]);
    forall j: nat | j < frontier && j !in a ensures NextFree(a, j, u[j]) {
      if j != i && j != k {
        assert NextFree(taken, j, used[j]);
        assert j < i < used[j] ==> i in taken;
        assert j < k < used[j] ==> i < j;
      }
    }
  }

  lemma PutBehindMarked(used: seq<int>, frontier: nat, taken: set<nat>, i: nat, k: nat)
    requires Threaded(used, frontier, taken) && k in taken && i < k < |used| && 0 !in taken
    requires (i == 0 || used[i] != 1) && forall j: nat | i < j < k :: used[j] == 1
    ensures Threaded(used[k := used[i]][i := k], frontier, taken - {k})
    ensures |taken - {k}| == |taken| - 1 && frontier > k
  {
    hide NextFree;
    Marks(used, frontier, taken);
    PutBehind(used, frontier, taken, i, k);
  }

  /** The array is the list of no set of pages. */
  ghost predicate NoList(used: seq<int>, frontier: nat) {
    forall t: set<nat> {:trigger Threaded(used, frontier, t)} :: !Threaded(used, frontier, t)
  }

  /** Linking a page that is free already, or was never given out, breaks the list. */
  lemma BreaksList(used: seq<int>, frontier: nat, taken: set<nat>, final: nat, k: nat)
    requires Threaded(used, frontier, taken) && 0 < final < k < |used| && k !in taken
    requires used[final] != 1 && forall j | final < j < k :: used[j] == 1
    ensures NoList(used[k := used[final]][final := k], frontier)
  {
    var u := used[k := used[final]][final := k];
    forall t: set<nat> {:trigger Threaded(u, frontier, t)} | Threaded(u, frontier, t) ensures false {
      NotListOf(used, frontier, taken, final, k, t);
    }
  }

  lemma NotListOf(used: seq<int>, frontier: nat, taken: set<nat>, final: nat, k: nat, t: set<nat>)
    requires Threaded(used, frontier, taken) && 0 < final < k < |used| && k !in taken
    requires used[final] != 1 && forall j | final < j < k :: used[j] == 1
    ensures !Threaded(used[k := used[final]][final := k], frontier, t)
  {
    var u := used[k := used[final]][final := k];
    assert frontier < k ==> used[frontier] == 0;
    if final < frontier {
      assert NextFree(taken, final, used[final]);
      assert k < used[final] ==> k in taken;
      assert 0 < u[k] == used[final] <= k;
    } else {
      assert u[final] == k;
    }
  }

  // --- the first page -----------------------------------------------------------------------------

  /** One page above the page boundary at or above the start of the block. */
  function FirstPage(blockStart: nat): nat {
    UpToPage(blockStart) + PAGE_SIZE
  }

  function UpToPage(a: nat): nat {
    if a % PAGE_SIZE == 0 then a else a + (PAGE_SIZE - a % PAGE_SIZE)
  }

  /** The two additions with wrap-around, and the test that finds out. */
  lemma FirstPageWraps(a: nat, modulus: nat)
    requires modulus > PAGE_SIZE && modulus % PAGE_SIZE == 0 && a < modulus
    ensures var tmp := (UpToPage(a) % modulus + PAGE_SIZE) % modulus;
            if FirstPage(a) < modulus then tmp == FirstPage(a) >= a && tmp % PAGE_SIZE == 0 else tmp < a
    ensures a % modulus == a
  {
    var up := UpToPage(a);
    assert up <= modulus && up % PAGE_SIZE == 0;
    DivModUnique(a, modulus, 0, a);
    if up == modulus {
      DivModUnique(up, modulus, 1, 0);
      DivModUnique(PAGE_SIZE, modulus, 0, PAGE_SIZE);
    } else {
      DivModUnique(up, modulus, 0, up);
      if up + PAGE_SIZE == modulus {
        DivModUnique(modulus, modulus, 1, 0);
      } else {
        DivModUnique(up + PAGE_SIZE, modulus, 0, up + PAGE_SIZE);
      }
    }
  }

  lemma PageNumbers(blockStart: nat, blockEnd: nat, modulus: nat)
    requires modulus % PAGE_SIZE == 0
    ensures var first, end := FirstPage(blockStart), blockEnd - blockEnd % PAGE_SIZE;
            && first == ((blockStart + 0xFFF) / 0x1000 + 1) * 0x1000 && end == blockEnd / 0x1000 * 0x1000
            && (first < end <==> (blockStart + 0xFFF) / 0x1000 + 1 < blockEnd / 0x1000)
            && (modulus + first - end) / PAGE_SIZE == (modulus + first) / 0x1000 - blockEnd / 0x1000
  {
    var q, r := blockStart / PAGE_SIZE, blockStart % PAGE_SIZE;
    if r == 0 {
      DivModUnique(blockStart + 0xFFF, 0x1000, q, 0xFFF);
    } else {
      DivModUnique(blockStart + 0xFFF, 0x1000, q + 1, r - 1);
    }
  }

  lemma PageOf(start: nat, ptr: nat, k: nat)
    requires k > 0 && ptr == start + k * 0x1000 && start % 0x1000 == 0
    ensures ptr > start && ptr % 0x1000 == 0 && (ptr - start) / 0x1000 == k
  {
    DivModUnique(ptr - start, 0x1000, k, 0);
  }

  /** The page that is handed out overlaps neither the page of the array nor another page handed out. */
  lemma PagesApart(start: nat, h: nat, p: nat, modulus: nat, taken: set<nat>)
    requires modulus > 0 && h > 0 && h !in taken && p == (start + h * PAGE_SIZE) % modulus
    ensures start + h * 0x1000 < modulus ==>
              && p == start + h * 0x1000 >= start + 0x1000
              && forall k | k in taken :: p + 0x1000 <= start + k * 0x1000 || start + k * 0x1000 + 0x1000 <= p
  {
    if start + h * PAGE_SIZE < modulus {
      DivModUnique(start + h * PAGE_SIZE, modulus, 0, start + h * PAGE_SIZE);
    }
  }

  // --- the code -----------------------------------------------------------------------------------

  class PageAllocator {
    const entries: nat                 // PAGE_SIZE / PAGE_ENTRY_SIZE
    const modulus: nat                 // 2 to the number of bits of a word
    var start: nat                     // mem_page_start, where the page array itself is page 0
    var used: array<int>               // used_pages of that array
    var numAllocated: nat
    var nextFree: nat
    var length: nat
    var maxLength: nat
    ghost var taken: set<nat>

    /** nextFree is 0 as long as no block has been accepted. */
    ghost predicate Valid()
      reads this, used
    {
      && used.Length == entries >= 4 && modulus > PAGE_SIZE && modulus % PAGE_SIZE == 0
      && (nextFree != 0 ==> Ready())
    }

    ghost predicate Ready()
      requires used.Length == entries >= 4
      reads this, used
    {
      && Threaded(used[..], length, taken)
      && used[0] == nextFree && numAllocated == |taken|
      && (maxLength > 0 ==> length <= maxLength) && start % PAGE_SIZE == 0
    }

    constructor (entries: nat, modulus: nat)
      requires entries >= 4 && modulus > PAGE_SIZE && modulus % PAGE_SIZE == 0
      ensures Valid() && nextFree == 0 && fresh(used)
    {
      this.entries, this.modulus := entries, modulus;
      start, numAllocated, nextFree, length, maxLength, taken := 0, 0, 0, 0, 0, {};
      used := new int[entries];
    }

    /** kalloc_pageinit */
    method KallocPageinit(blockStart: nat, blockEnd: nat)
      requires Valid() && blockStart < modulus && blockEnd < modulus
      modifies this, used
      ensures Valid() && used == old(used)
      ensures nextFree != 0 <==> (blockStart + 0xFFF) / 0x1000 + 1 < blockEnd / 0x1000
      ensures nextFree != 0 ==>
                start == ((blockStart + 0xFFF) / 0x1000 + 1) * 0x1000 && taken == {} && nextFree == length == 1
                && maxLength == (modulus + start) / 0x1000 - blockEnd / 0x1000
    {
      nextFree := 0;
      PageNumbers(blockStart, blockEnd, modulus);
      var tmp := RoundBlockStart(blockStart);
      if tmp < blockStart {
        return;
      }
      var end := blockEnd - blockEnd % PAGE_SIZE;
      if tmp >= end {
        return;
      }
      DivModUnique(tmp - end, modulus, -1, tmp - end + modulus);
      hide FirstPage;
      start := tmp;
      numAllocated := 0;
      nextFree := 1;
      length := 1;
      maxLength := (tmp - end) % modulus / PAGE_SIZE;
      ResetEntries();
      taken := {};
      assert NextFree(taken, 0, used[0]);
    }

    method RoundBlockStart(blockStart: nat) returns (tmp: nat)
      requires modulus > PAGE_SIZE && modulus % PAGE_SIZE == 0 && blockStart < modulus
      ensures if FirstPage(blockStart) < modulus
              then tmp == FirstPage(blockStart) >= blockStart && tmp % PAGE_SIZE == 0
              else tmp < blockStart
    {
      FirstPageWraps(blockStart, modulus);
      tmp := blockStart;
      if blockStart % PAGE_SIZE != 0 {
        tmp := (tmp + (PAGE_SIZE - blockStart % PAGE_SIZE)) % modulus;
      }
      tmp := (tmp + PAGE_SIZE) % modulus;
    }

    method ResetEntries()
      requires used.Length == entries >= 4
      modifies used
      ensures used[0] == 1 && forall k | 1 <= k < entries :: used[k] == 0
    {
      used[0] := 1;
      for i := 1 to entries
        invariant used[0] == 1 && forall k | 1 <= k < i :: used[k] == 0
      {
        used[i] := 0;
      }
    }

    /** kalloc_page gives out the lowest page that is not allocated, as long as that is not the limit. */
    method KallocPage() returns (p: nat)
      requires Valid()
      requires nextFree != 0 ==> nextFree < length || length == maxLength || length + 1 < entries
      modifies this`numAllocated, this`nextFree, this`length, this`taken, used
      ensures Valid() && (nextFree == 0 <==> old(nextFree) == 0)
      ensures nextFree == 0 ==> p == 0 && used[..] == old(used[..])
      ensures nextFree != 0 ==>
                forall h: nat | h > 0 && h !in old(taken) && (forall k: nat | 0 < k < h :: k in old(taken)) ::
                if h == maxLength then p == 0 && taken == old(taken) && used[..] == old(used[..])
                else
                  && p == (start + h * 0x1000) % modulus && taken == old(taken) + {h}
                  && (start + h * 0x1000 < modulus ==>
                        && p == start + h * 0x1000 >= start + 0x1000
                        && forall k | k in old(taken) ::
                             p + 0x1000 <= start + k * 0x1000 || start + k * 0x1000 + 0x1000 <= p)
    {
      if nextFree == 0 {
        return 0;
      }
      ghost var u := used[..];
      ghost var h := nextFree;
      Head(u, length, taken);
      p := (start + nextFree * PAGE_SIZE) % modulus;
      hide NextFree, Threaded;
      PagesApart(start, h, p, modulus, taken);
      var entry := used[nextFree];
      used[nextFree] := 1;
      assert used[..] == u[h := 1];
      if entry == 0 && length == maxLength {
        used[nextFree] := 0;
        assert used[..] == u;
        return 0;
      }
      Advance(u, entry);
    }

    /** The list without its first page, which is marked already. */
    method Advance(ghost u: seq<int>, entry: int)
      requires used.Length == entries == |u| >= 4 && Threaded(u, length, taken) && u[0] == nextFree
      requires 1 <= nextFree <= length < entries && used[..] == u[nextFree := 1] && entry == u[nextFree]
      requires numAllocated == |taken| && nextFree !in taken && (entry == 0 <==> nextFree == length)
      requires entry == 0 ==> length + 1 < entries
      modifies this`numAllocated, this`nextFree, this`length, this`taken, used
      ensures Threaded(used[..], length, taken) && used[0] == nextFree && numAllocated == |taken|
      ensures taken == old(taken) + {old(nextFree)}
      ensures length == old(length) + (if entry == 0 then 1 else 0) && nextFree != 0
    {
      ghost var h := nextFree;
      if entry == 0 {
        TakeFrontier(u, length, taken);
        length := length + 1;
        nextFree := nextFree + 1;
        used[0] := used[0] + 1;
        assert used[..] == u[h := 1][0 := h + 1];
      } else {
        TakeFirst(u, length, taken);
        nextFree := entry;
        used[0] := entry;
        assert used[..] == u[h := 1][0 := entry];
      }
      hide NextFree, Threaded;
      taken := taken + {h};
      numAllocated := numAllocated + 1;
    }

    /** The address of a page leads back to it. */
    lemma AddressIsBack(h: nat, p: nat)
      requires modulus > 0 && h > 0 && p == (start + h * 0x1000) % modulus && start + h * 0x1000 < modulus
      ensures p > start && (p - start) / 0x1000 == h && (start % 0x1000 == 0 ==> p % 0x1000 == 0)
    {
      DivModUnique(start + h * 0x1000, modulus, 0, start + h * 0x1000);
      DivModUnique(p - start, 0x1000, h, 0);
    }

    /** kfree_page.  A pointer that is not to a page above the array, or is to the first free page, changes
        nothing; an allocated page becomes free.  Any other page breaks the list for good. */
    method KfreePage(ptr: nat)
      requires Valid() && nextFree != 0 && (ptr % 0x1000 == 0 ==> ptr < start + entries * 0x1000)
      modifies this`numAllocated, this`nextFree, this`taken, used
      ensures nextFree != 0
      ensures ptr % 0x1000 != 0 || ptr <= start ==>
                Valid() && taken == old(taken) && used[..] == old(used[..]) && numAllocated == old(numAllocated)
      ensures forall k: nat | k > 0 && ptr == start + k * 0x1000 ::
                && (Valid() <==> k == old(nextFree) || k in old(taken))
                && (k == old(nextFree) ==>
                      taken == old(taken) && used[..] == old(used[..]) && numAllocated == old(numAllocated))
                && (k in old(taken) ==> taken == old(taken) - {k})
                && (k != old(nextFree) && k !in old(taken) ==> NoList(used[..], length))
    {
      hide Threaded, NextFree;
      forall k: nat | k > 0 && ptr == start + k * 0x1000
        ensures ptr > start && ptr % 0x1000 == 0 && (ptr - start) / 0x1000 == k
      {
        PageOf(start, ptr, k);
      }
      if ptr == 0 || ptr % PAGE_SIZE != 0 || ptr <= start {
        return;
      }
      var page := (ptr - start) / PAGE_SIZE;
      if page == 0 {
        return;
      }
      Head(used[..], length, taken);
      Marks(used[..], length, taken);
      BelowHead(used[..], length, taken);
      if page < nextFree {
        PutBack(0, page);
        nextFree := page;
      } else {
        if used[0] != 0 && used[0] < page {
          var final := LastFreeBelow(used[0], page);
          PutBack(final, page);
        } else {
          return;
        }
      }
    }

    /** The page that kalloc_page gives, kfree_page takes back. */
    method AllocateAndFree() returns (p: nat)
      requires Valid() && nextFree != 0 && start + entries * 0x1000 <= modulus
      requires nextFree < length || length == maxLength || length + 1 < entries
      modifies this`numAllocated, this`nextFree, this`length, this`taken, used
      ensures Valid() && nextFree != 0 && taken == old(taken)
    {
      ghost var h := nextFree;
      Head(used[..], length, taken);
      BelowHead(used[..], length, taken);
      hide Threaded, NextFree;
      p := KallocPage();
      if p != 0 {
        assert p == start + h * 0x1000;
        KfreePage(p);
      }
    }

    /** The loop of kfree_page: the last page below the given one that is not marked. */
    method LastFreeBelow(head: nat, page: nat) returns (final: nat)
      requires used.Length == entries && 1 <= head < page < entries && used[head] != 1
      ensures head <= final < page && used[final] != 1 && forall j | final < j < page :: used[j] == 1
    {
      final := head;
      for i := final + 1 to page
        invariant head <= final < page && final < i && used[final] != 1
        invariant forall j | final < j < i :: used[j] == 1
      {
        if used[i] != 1 {
          final := i;
        }
      }
    }

    /** The stores that link a page behind another one, and the count. */
    method PutBack(final: nat, page: nat)
      requires used.Length == entries >= 4 && modulus > 0 && final < page < entries && 0 !in taken && length < entries
      requires Threaded(used[..], length, taken) && numAllocated == |taken|
      requires final == 0 || used[final] != 1
      requires forall j | final < j < page :: used[j] == 1
      modifies this`numAllocated, this`taken, used
      ensures used[..] == old(used[..])[page := old(used[final])][final := page]
      ensures page in old(taken) ==>
                && Threaded(used[..], length, taken) && numAllocated == |taken| && taken == old(taken) - {page}
                && used[0] == if final == 0 then page else old(used[0])
      ensures page !in old(taken) && old(used[0]) < page && final > 0 ==> NoList(used[..], length)
    {
      ghost var u := used[..];
      used[page] := used[final];
      used[final] := page;
      assert used[..] == u[page := u[final]][final := page];
      if page in taken {
        PutBehindMarked(u, length, taken, final, page);
        taken := taken - {page};
      } else if u[0] < page && final > 0 {
        BreaksList(u, length, taken, final, page);
      }
      numAllocated := if numAllocated == 0 then modulus - 1 else numAllocated - 1;
    }
  }
}
