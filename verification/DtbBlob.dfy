/** Whole devicetree blobs, byte by byte as sections 5.2 to 5.6 of the Devicetree Specification have them,
    and what dtb_parse finds in them. */
module DtbBlob {
  import opened Blob
  import opened Words
  import opened Dtb

  /** A blob with an empty reserve map. */
  function Serialized(items: seq<Item>, strings: seq<Byte>): seq<Byte> {
    var size := |Flattened(items)| + 4;
    Header(size, |strings|) + seq(16, _ => 0) + (Flattened(items) + Be32(FDT_END)) + strings
  }

  /** magic, totalsize, off_dt_struct, off_dt_strings, off_mem_rsvmap, version, last_comp_version,
      boot_cpuid_phys, size_dt_strings and size_dt_struct */
  function Header(size: nat, names: nat): (r: seq<Byte>)
    ensures |r| == 40
  {
    Be32(MAGIC) + Be32(56 + size + names) + Be32(56) + Be32(56 + size) + Be32(40)
    + Be32(17) + Be32(16) + Be32(0) + Be32(names) + Be32(size)
  }

  // --- the bytes ------------------------------------------------------------------------------------

  lemma Be32Is(v: nat)
    requires v < 0x1_0000_0000
    ensures Be32(v) == [v / 0x100_0000, v / 0x1_0000 % 0x100, v / 0x100 % 0x100, v % 0x100]
  {
    var top := v / 0x100_0000;
    assert top < 0x100;
    DivModUnique(top, 0x100, 0, top);
  }

  /** Words are loaded in the order of the host. */
  lemma LoadIs(s: seq<Byte>, i: nat)
    requires i + 4 <= |s|
    ensures var a: nat, b: nat, c: nat, d: nat := s[i], s[i + 1], s[i + 2], s[i + 3];
            && HostWord(true, s, i) == BeWord(s, i) == a * 0x100_0000 + b * 0x1_0000 + c * 0x100 + d
            && HostWord(false, s, i) == d * 0x100_0000 + c * 0x1_0000 + b * 0x100 + a
  {
  }

  lemma ValueIs(s: seq<Byte>, b: Byte)
    ensures BeValue([]) == 0 && BeValue(s + [b]) == BeValue(s) * 0x100 + b
  {
    OneByteMore(s, b);
  }

  /** The header, byte by byte. */
  lemma HeaderIs(size: nat, names: nat)
    requires 56 + size + names < 0x1_0000_0000
    ensures var h, s := Header(size, names), 56 + size;
            && h[..4] == [0xD0, 0x0D, 0xFE, 0xED]
            && h[8..12] == [0, 0, 0, 56]
            && h[12..16] == [s / 0x100_0000, s / 0x1_0000 % 0x100, s / 0x100 % 0x100, s % 0x100]
            && h[36..40] == [size / 0x100_0000, size / 0x1_0000 % 0x100, size / 0x100 % 0x100, size % 0x100]
  {
    hide Be32, Header;
    FixedWords();
    Be32Is(56 + size);
    Be32Is(size);
    HeaderParts(size, names);
  }

  lemma FixedWords()
    ensures Be32(MAGIC) == [0xD0, 0x0D, 0xFE, 0xED] && Be32(56) == [0, 0, 0, 56]
  {
  }

  lemma HeaderParts(size: nat, names: nat)
    ensures var h := Header(size, names);
            h[..4] == Be32(MAGIC) && h[8..12] == Be32(56) && h[12..16] == Be32(56 + size) && h[36..40] == Be32(size)
  {
    hide Be32;
  }

  /** The tokens of the structure block. */
  lemma ItemIs(item: Item)
    ensures item.Nop? ==> FlattenedItem(item) == [0, 0, 0, 4]
    ensures item.Prop? && PropertyOk(item.property) ==>
              var n, at := |item.property.value|, item.property.nameoff;
              FlattenedItem(item)
              == [0, 0, 0, 3]
                 + [n / 0x100_0000, n / 0x1_0000 % 0x100, n / 0x100 % 0x100, n % 0x100]
                 + [at / 0x100_0000, at / 0x1_0000 % 0x100, at / 0x100 % 0x100, at % 0x100]
                 + item.property.value + seq((4 - n % 4) % 4, _ => 0)
    ensures item.Node? ==>
              FlattenedItem(item)
              == [0, 0, 0, 1] + (item.name + [0]) + seq((4 - (|item.name| + 1) % 4) % 4, _ => 0)
                 + Flattened(item.items) + [0, 0, 0, 2]
    ensures Be32(FDT_END) == [0, 0, 0, 9]
  {
    Be32Is(FDT_END);
    match item
    case Nop => Be32Is(FDT_NOP);
    case Prop(p) =>
      if PropertyOk(p) {
        Be32Is(FDT_PROP);
        Be32Is(|p.value|);
        Be32Is(p.nameoff);
        PaddedIs(p.value);
        hide Be32, Padded;
        Regroup(Be32(FDT_PROP) + Be32(|p.value|) + Be32(p.nameoff), p.value, seq((4 - |p.value| % 4) % 4, _ => 0));
      }
    case Node(name, items) =>
      Be32Is(FDT_BEGIN_NODE);
      Be32Is(FDT_END_NODE);
      PaddedIs(name + [0]);
      hide Be32, Padded;
      Regroup(Be32(FDT_BEGIN_NODE), name + [0], seq((4 - (|name| + 1) % 4) % 4, _ => 0));
  }

  /** Preorder: a node's properties come where the node stands. */
  lemma PreorderIs(item: Item, items: seq<Item>)
    ensures Properties([]) == []
    ensures Properties([item] + items)
            == (match item
                case Nop => []
                case Prop(p) => [p]
                case Node(_, inner) => Properties(inner))
               + Properties(items)
  {
    assert ([item] + items)[1..] == items;
  }

  lemma PaddedIs(s: seq<Byte>)
    ensures Padded(s) == s + seq((4 - |s| % 4) % 4, _ => 0)
  {
  }

  lemma Regroup(a: seq<Byte>, b: seq<Byte>, c: seq<Byte>)
    ensures a + (b + c) == a + b + c
  {
  }

  // --- whole blobs ----------------------------------------------------------------------------------

  lemma {:induction false} StringInTail(a: seq<Byte>, s: seq<Byte>, i: nat)
    ensures StringAt(a + s, |a| + i) == StringAt(s, i)
    decreases |s| - i
  {
    if i < |s| && s[i] != 0 {
      StringInTail(a, s, i + 1);
    }
  }

  /** A blob put together from its four parts. */
  lemma Parts(head: seq<Byte>, block: seq<Byte>, strings: seq<Byte>)
    requires |head| == 40
    ensures var blob := head + seq(16, _ => 0) + block + strings;
            && blob[..40] == head && Holds(blob, 56, block) && |blob| == 56 + |block| + |strings|
            && forall at: nat :: StringAt(blob, 56 + |block| + at) == StringAt(strings, at)
  {
    var front := head + seq(16, _ => 0) + block;
    var blob := front + strings;
    assert blob[56..56 + |block|] == block;
    forall at: nat ensures StringAt(blob, 56 + |block| + at) == StringAt(strings, at) {
      StringInTail(front, strings, at);
    }
  }

  lemma SameWords(blob: seq<Byte>, head: seq<Byte>)
    requires |head| == 40 <= |blob| && blob[..40] == head
    ensures BeWord(blob, 0) == BeWord(head, 0) && BeWord(blob, 8) == BeWord(head, 8)
    ensures BeWord(blob, 12) == BeWord(head, 12) && BeWord(blob, 36) == BeWord(head, 36)
  {
    assert forall k | 0 <= k < 40 :: blob[..40][k] == head[k];
  }

  lemma SerializedLayout(items: seq<Item>, strings: seq<Byte>)
    requires ItemsOk(items) && 60 + |Flattened(items)| + |strings| < 0x1_0000_0000
    ensures var blob := Serialized(items, strings);
            && Layout(blob, items) && BeWord(blob, 0) == MAGIC
            && forall at: nat :: StringAt(blob, OffStrings(blob) + at) == StringAt(strings, at)
  {
    hide Header, Flattened, ItemOk, BeWord, StringAt, Be32, Holds;
    var blob, block := Serialized(items, strings), Flattened(items) + Be32(FDT_END);
    var head := Header(|block|, |strings|);
    HeaderWords(|block|, |strings|);
    Parts(head, block, strings);
    SameWords(blob, head);
  }

  lemma HeaderWords(size: nat, names: nat)
    requires 56 + size + names < 0x1_0000_0000
    ensures var h := Header(size, names);
            BeWord(h, 0) == MAGIC && BeWord(h, 8) == 56 && BeWord(h, 12) == 56 + size && BeWord(h, 36) == size
  {
    HeaderParts(size, names);
    var h := Header(size, names);
    hide Header;
    WordIs(h, 0, MAGIC);
    WordIs(h, 8, 56);
    WordIs(h, 12, 56 + size);
    WordIs(h, 36, size);
  }

  lemma WordIs(h: seq<Byte>, i: nat, v: nat)
    requires i + 4 <= |h| && h[i..i + 4] == Be32(v) && v < 0x1_0000_0000
    ensures BeWord(h, i) == v
  {
    WordAt(h, i, v);
  }

  /** linux,initrd-start and linux,initrd-end */
  lemma NamesAre()
    ensures INITRD_START == [0x6C, 0x69, 0x6E, 0x75, 0x78, 0x2C, 0x69, 0x6E, 0x69, 0x74, 0x72, 0x64,
                             0x2D, 0x73, 0x74, 0x61, 0x72, 0x74]
    ensures INITRD_END == [0x6C, 0x69, 0x6E, 0x75, 0x78, 0x2C, 0x69, 0x6E, 0x69, 0x74, 0x72, 0x64,
                           0x2D, 0x65, 0x6E, 0x64]
  {
  }

  /** In every serialized tree dtb_parse finds the number in the one property of either name, and 0 for a
      name that no property has. */
  method ParseSerialized(w: nat, big: bool, items: seq<Item>, strings: seq<Byte>)
    returns (known: bool, start: nat, end: nat)
    requires w > 8 && ItemsOk(items) && 60 + |Flattened(items)| + |strings| < 0x1_0000_0000
    ensures known
    ensures var ps := Properties(items);
            var name := [0x6C, 0x69, 0x6E, 0x75, 0x78, 0x2C, 0x69, 0x6E, 0x69, 0x74, 0x72, 0x64,
                         0x2D, 0x73, 0x74, 0x61, 0x72, 0x74];
            && (forall i | 0 <= i < |ps| && StringAt(strings, ps[i].nameoff) == name
                           && (forall k | 0 <= k < |ps| && k != i :: StringAt(strings, ps[k].nameoff) != name) ::
                  start == BeValue(ps[i].value) % Pow2(w))
            && ((forall k | 0 <= k < |ps| :: StringAt(strings, ps[k].nameoff) != name) ==> start == 0)
    ensures var ps := Properties(items);
            var name := [0x6C, 0x69, 0x6E, 0x75, 0x78, 0x2C, 0x69, 0x6E, 0x69, 0x74, 0x72, 0x64,
                         0x2D, 0x65, 0x6E, 0x64];
            && (forall i | 0 <= i < |ps| && StringAt(strings, ps[i].nameoff) == name
                           && (forall k | 0 <= k < |ps| && k != i :: StringAt(strings, ps[k].nameoff) != name) ::
                  end == BeValue(ps[i].value) % Pow2(w))
            && ((forall k | 0 <= k < |ps| :: StringAt(strings, ps[k].nameoff) != name) ==> end == 0)
  {
    hide Serialized, Layout, BeValue, Pow2, StringAt, Gather, Properties, INITRD_START, INITRD_END;
    var blob := Serialized(items, strings);
    SerializedLayout(items, strings);
    LayoutLong(blob, items);
    NamesAre();
    ghost var visited;
    known, start, end, visited := DtbParse(w, big, blob, items);
    Gathered(w, blob, strings, Properties(items), INITRD_START);
    Gathered(w, blob, strings, Properties(items), INITRD_END);
  }

  lemma LayoutLong(blob: seq<Byte>, items: seq<Item>)
    requires Layout(blob, items)
    ensures |blob| >= 40
  {
  }

  lemma Gathered(w: nat, blob: seq<Byte>, strings: seq<Byte>, ps: seq<Property>, name: seq<Byte>)
    requires |blob| >= 40 && forall at: nat :: StringAt(blob, OffStrings(blob) + at) == StringAt(strings, at)
    ensures forall i | 0 <= i < |ps| && StringAt(strings, ps[i].nameoff) == name
                       && (forall k | 0 <= k < |ps| && k != i :: StringAt(strings, ps[k].nameoff) != name) ::
              Gather(blob, ps, name) == ps[i].value
    ensures (forall k | 0 <= k < |ps| :: StringAt(strings, ps[k].nameoff) != name) ==>
              BeValue(Gather(blob, ps, name)) % Pow2(w) == 0
  {
    hide StringAt, Gather, BeWord;
    forall i | 0 <= i < |ps| && StringAt(strings, ps[i].nameoff) == name
               && (forall k | 0 <= k < |ps| && k != i :: StringAt(strings, ps[k].nameoff) != name)
      ensures Gather(blob, ps, name) == ps[i].value
    {
      SingleProperty(blob, ps, name, i);
    }
    if forall k | 0 <= k < |ps| :: StringAt(strings, ps[k].nameoff) != name {
      AbsentProperty(blob, ps, name);
      DivModUnique(0, Pow2(w), 0, 0);
    }
  }
}
