/** dtb_parse of src/dataparse/dtb_parse.c, on trees flattened as in section 5.4 of the Devicetree
    Specification. */
module Dtb {
  import opened Blob
  import opened Words

  const MAGIC := 0xD00DFEED
  const FDT_BEGIN_NODE := 1
  const FDT_END_NODE := 2
  const FDT_PROP := 3
  const FDT_NOP := 4
  const FDT_END := 9

  // --- trees --------------------------------------------------------------------------------------

  datatype Property = Property(nameoff: nat, value: seq<Byte>)

  datatype Item = Nop | Prop(property: Property) | Node(name: seq<Byte>, items: seq<Item>)

  predicate ItemsOk(items: seq<Item>) {
    forall k | 0 <= k < |items| :: ItemOk(items[k])
  }

  predicate ItemOk(item: Item) {
    match item
    case Nop => true
    case Prop(p) => PropertyOk(p)
    case Node(name, items) => 0 !in name && ItemsOk(items)
  }

  predicate PropertyOk(p: Property) {
    p.nameoff < 0x1_0000_0000 && |p.value| < 0x1_0000_0000
  }

  /** The properties of a tree in preorder. */
  function Properties(items: seq<Item>): seq<Property> {
    if items == [] then [] else ItemProperties(items[0]) + Properties(items[1..])
  }

  function ItemProperties(item: Item): seq<Property> {
    match item
    case Nop => []
    case Prop(p) => [p]
    case Node(_, items) => Properties(items)
  }

  function Be32(v: nat): (r: seq<Byte>)
    ensures |r| == 4
  {
    [v / 0x100_0000 % 0x100, v / 0x1_0000 % 0x100, v / 0x100 % 0x100, v % 0x100]
  }

  /** Padded with zeros to a multiple of four bytes. */
  function Padded(s: seq<Byte>): (r: seq<Byte>)
    ensures |r| % 4 == 0 && s <= r && |r| < |s| + 4
  {
    if |s| % 4 == 0 then s else s + seq(4 - |s| % 4, _ => 0)
  }

  /** The structure block without its end token. */
  function Flattened(items: seq<Item>): seq<Byte> {
    if items == [] then [] else FlattenedItem(items[0]) + Flattened(items[1..])
  }

  function FlattenedItem(item: Item): seq<Byte> {
    match item
    case Nop => Be32(FDT_NOP)
    case Prop(p) => Be32(FDT_PROP) + Be32(|p.value|) + Be32(p.nameoff) + Padded(p.value)
    case Node(name, items) => Be32(FDT_BEGIN_NODE) + Padded(name + [0]) + Flattened(items) + Be32(FDT_END_NODE)
  }

  // --- the structure block as a list of tokens ----------------------------------------------------

  datatype Token = BeginNode(name: seq<Byte>) | EndNode | NopToken | PropToken(property: Property)

  function Tokens(items: seq<Item>): seq<Token> {
    if items == [] then [] else ItemTokens(items[0]) + Tokens(items[1..])
  }

  function ItemTokens(item: Item): seq<Token> {
    match item
    case Nop => [NopToken]
    case Prop(p) => [PropToken(p)]
    case Node(name, items) => [BeginNode(name)] + Tokens(items) + [EndNode]
  }

  predicate TokenOk(t: Token) {
    (t.BeginNode? ==> 0 !in t.name) && (t.PropToken? ==> PropertyOk(t.property))
  }

  function TokenBytes(t: Token): (r: seq<Byte>)
    ensures |r| >= 4
  {
    match t
    case BeginNode(name) => Be32(FDT_BEGIN_NODE) + Padded(name + [0])
    case EndNode => Be32(FDT_END_NODE)
    case NopToken => Be32(FDT_NOP)
    case PropToken(p) => Be32(FDT_PROP) + Be32(|p.value|) + Be32(p.nameoff) + Padded(p.value)
  }

  function AllBytes(ts: seq<Token>): seq<Byte> {
    if ts == [] then [] else TokenBytes(ts[0]) + AllBytes(ts[1..])
  }

  function PropertiesOf(ts: seq<Token>): seq<Property> {
    if ts == [] then []
    else (if ts[0].PropToken? then [ts[0].property] else []) + PropertiesOf(ts[1..])
  }

  lemma {:induction false} AllBytesSum(a: seq<Token>, b: seq<Token>)
    ensures AllBytes(a + b) == AllBytes(a) + AllBytes(b)
    ensures PropertiesOf(a + b) == PropertiesOf(a) + PropertiesOf(b)
  {
    hide TokenBytes;
    if a == [] {
      assert a + b == b;
    } else {
      assert (a + b)[0] == a[0] && (a + b)[1..] == a[1..] + b;
      AllBytesSum(a[1..], b);
      assert AllBytes(a + b) == TokenBytes(a[0]) + (AllBytes(a[1..]) + AllBytes(b));
    }
  }

  /** The tokens say what the tree says. */
  lemma {:induction false} TokensAreTree(items: seq<Item>)
    requires ItemsOk(items)
    ensures Flattened(items) == AllBytes(Tokens(items)) && Properties(items) == PropertiesOf(Tokens(items))
    ensures forall t | t in Tokens(items) :: TokenOk(t)
    decreases items
  {
    if items != [] {
      assert ItemOk(items[0]);
      TokensAreItem(items[0]);
      TokensAreTree(items[1..]);
      AllBytesSum(ItemTokens(items[0]), Tokens(items[1..]));
    }
  }

  lemma {:induction false} TokensAreItem(item: Item)
    requires ItemOk(item)
    ensures FlattenedItem(item) == AllBytes(ItemTokens(item)) && ItemProperties(item) == PropertiesOf(ItemTokens(item))
    ensures forall t | t in ItemTokens(item) :: TokenOk(t)
    decreases item
  {
    if item.Node? {
      TokensAreTree(item.items);
      OneToken(BeginNode(item.name));
      OneToken(EndNode);
      AllBytesSum([BeginNode(item.name)], Tokens(item.items));
      AllBytesSum([BeginNode(item.name)] + Tokens(item.items), [EndNode]);
    } else {
      OneToken(if item.Nop? then NopToken else PropToken(item.property));
    }
  }

  lemma OneToken(t: Token)
    ensures AllBytes([t]) == TokenBytes(t) && PropertiesOf([t]) == if t.PropToken? then [t.property] else []
  {
    hide TokenBytes;
    assert [t][1..] == [];
  }

  // --- numbers ------------------------------------------------------------------------------------

  /** The big-endian number in a property. */
  function BeValue(s: seq<Byte>): nat {
    if s == [] then 0 else BeValue(s[..|s| - 1]) * 0x100 + s[|s| - 1]
  }

  function BeWord(s: seq<Byte>, i: nat): (r: nat)
    requires i + 4 <= |s|
    ensures r < 0x1_0000_0000
  {
    Word(s[i], s[i + 1], s[i + 2], s[i + 3])
  }

  function Word(a: nat, b: nat, c: nat, d: nat): nat {
    a * 0x100_0000 + b * 0x1_0000 + c * 0x100 + d
  }

  /** What a 32-bit load gives on the machine. */
  function HostWord(big: bool, s: seq<Byte>, i: nat): (r: nat)
    requires i + 4 <= |s|
    ensures r < 0x1_0000_0000
  {
    if big then BeWord(s, i) else Word(s[i + 3], s[i + 2], s[i + 1], s[i])
  }

  function Swapped(v: nat): nat {
    Word(v % 0x100, v / 0x100 % 0x100, v / 0x1_0000 % 0x100, v / 0x100_0000 % 0x100)
  }

  lemma BytesOf(a: Byte, b: Byte, c: Byte, d: Byte)
    ensures var v := Word(a, b, c, d);
            v / 0x100_0000 % 0x100 == a && v / 0x1_0000 % 0x100 == b && v / 0x100 % 0x100 == c && v % 0x100 == d
  {
    var v := Word(a, b, c, d);
    DivModUnique(v, 0x100_0000, a, b * 0x1_0000 + c * 0x100 + d);
    DivModUnique(v, 0x1_0000, a * 0x100 + b, c * 0x100 + d);
    DivModUnique(v, 0x100, a * 0x1_0000 + b * 0x100 + c, d);
    DivModUnique(a * 0x100 + b, 0x100, a, b);
    DivModUnique(a * 0x1_0000 + b * 0x100 + c, 0x100, a * 0x100 + b, c);
  }

  /** Swapping the bytes of a little-endian load gives the big-endian word, and twice is nothing. */
  lemma SwappedLoad(s: seq<Byte>, i: nat)
    requires i + 4 <= |s|
    ensures Swapped(HostWord(false, s, i)) == BeWord(s, i) && Swapped(BeWord(s, i)) == HostWord(false, s, i)
  {
    BytesOf(s[i + 3], s[i + 2], s[i + 1], s[i]);
    BytesOf(s[i], s[i + 1], s[i + 2], s[i + 3]);
  }

  lemma Be32Value(v: nat)
    requires v < 0x1_0000_0000
    ensures BeWord(Be32(v), 0) == v
  {
    Digits(v);
  }

  lemma Digits(v: nat)
    requires v < 0x1_0000_0000
    ensures Word(v / 0x100_0000 % 0x100, v / 0x1_0000 % 0x100, v / 0x100 % 0x100, v % 0x100) == v
  {
    var p, d := v / 0x100, v % 0x100;
    var q, c := p / 0x100, p % 0x100;
    var r, b := q / 0x100, q % 0x100;
    DivModUnique(v, 0x1_0000, q, c * 0x100 + d);
    DivModUnique(v, 0x100_0000, r, b * 0x1_0000 + c * 0x100 + d);
    DivModUnique(r, 0x100, 0, r);
  }

  /** dtb_parse_swap_endianess_32 */
  method SwapEndianness32(val: nat) returns (retval: nat)
    requires IsWord(32, val)
    ensures retval == Swapped(val)
  {
    retval := 0;
    var j, k := 32 / 2, 32 / 2 - 8;
    var i := 8;
    SwapSteps(val);
    hide Or, Masked, Srl, Sll, Pow2, Swapped, Inner;
    while i < 32
      invariant i == 8 || i == 24 || i == 40
      invariant i == 8 ==> j == 16 && k == 8 && retval == 0
      invariant i == 24 ==> j == 24 && k == 0 && retval == Inner(val)
      invariant i == 40 ==> retval == Swapped(val)
      decreases 32 - i
    {
      retval := Or(retval, Masked(Srl(32, val, i), 8, k));
      retval := Or(retval, Masked(Sll(32, val, i), 8, j));
      k := k - 8;
      j := j + 8;
      i := i + 16;
    }
  }

  /** The two bytes in the middle, exchanged. */
  function Inner(v: nat): nat {
    Word(0, v / 0x100 % 0x100, v / 0x1_0000 % 0x100, 0)
  }

  /** The two or operations of the first pass, and of the second. */
  lemma SwapSteps(val: nat)
    requires IsWord(32, val)
    ensures Or(Or(0, Masked(Srl(32, val, 8), 8, 8)), Masked(Sll(32, val, 8), 8, 16)) == Inner(val)
    ensures Or(Or(Inner(val), Masked(Srl(32, val, 24), 8, 0)), Masked(Sll(32, val, 24), 8, 24)) == Swapped(val)
  {
    hide *;
    var a, b, c, d := Fields(val);
    JoinBytes(a, b, c, d);
  }

  lemma JoinBytes(a: Byte, b: Byte, c: Byte, d: Byte)
    ensures Or(0, b * 0x100) == b * 0x100
    ensures Or(b * 0x100, c * 0x1_0000) == Word(0, c, b, 0)
    ensures Or(Word(0, c, b, 0), a) == Word(0, c, b, a)
    ensures Or(Word(0, c, b, a), d * 0x100_0000) == Word(d, c, b, a)
  {
    Powers();
    hide Or, Pow2;
    OrZero(b * 0x100);
    assert c * 0x1_0000 % 0x1_0000 == 0;
    OrDisjoint(c * 0x1_0000, b * 0x100, 16);
    DivModUnique(Word(0, c, b, 0), 0x100, c * 0x100 + b, 0);
    OrDisjoint(Word(0, c, b, 0), a, 8);
    assert d * 0x100_0000 % 0x100_0000 == 0;
    OrDisjoint(d * 0x100_0000, Word(0, c, b, a), 24);
  }

  /** The four masks pick the four bytes. */
  lemma Fields(val: nat) returns (a: Byte, b: Byte, c: Byte, d: Byte)
    requires IsWord(32, val)
    ensures Inner(val) == Word(0, c, b, 0) && Swapped(val) == Word(d, c, b, a)
    ensures Masked(Srl(32, val, 8), 8, 8) == b * 0x100 && Masked(Sll(32, val, 8), 8, 16) == c * 0x1_0000
    ensures Masked(Srl(32, val, 24), 8, 0) == a && Masked(Sll(32, val, 24), 8, 24) == d * 0x100_0000
  {
    hide Pow2, Masked, Srl, Sll;
    Powers();
    Digits(val);
    a, b, c, d := val / 0x100_0000 % 0x100, val / 0x1_0000 % 0x100, val / 0x100 % 0x100, val % 0x100;
    MaskedRight(a, b, c, d);
    MaskedLeft(a, b, c, d);
  }

  lemma MaskedRight(a: Byte, b: Byte, c: Byte, d: Byte)
    ensures Masked(Srl(32, Word(a, b, c, d), 8), 8, 8) == b * 0x100 && Masked(Srl(32, Word(a, b, c, d), 24), 8, 0) == a
  {
    Powers();
    var v := Word(a, b, c, d);
    DivModUnique(v, 0x100, a * 0x1_0000 + b * 0x100 + c, d);
    DivModUnique(a * 0x1_0000 + b * 0x100 + c, 0x100, a * 0x100 + b, c);
    DivModUnique(a * 0x100 + b, 0x100, a, b);
    DivModUnique(v, 0x100_0000, a, b * 0x1_0000 + c * 0x100 + d);
    hide Word;
  }

  lemma MaskedLeft(a: Byte, b: Byte, c: Byte, d: Byte)
    ensures Masked(Sll(32, Word(a, b, c, d), 8), 8, 16) == c * 0x1_0000
    ensures Masked(Sll(32, Word(a, b, c, d), 24), 8, 24) == d * 0x100_0000
  {
    Powers();
    var v := Word(a, b, c, d);
    DivModUnique(v * 0x100, 0x1_0000_0000, a, Word(b, c, d, 0));
    DivModUnique(Word(b, c, d, 0), 0x1_0000, b * 0x100 + c, d * 0x100);
    DivModUnique(b * 0x100 + c, 0x100, b, c);
    DivModUnique(v * 0x100_0000, 0x1_0000_0000, a * 0x1_0000 + b * 0x100 + c, d * 0x100_0000);
    DivModUnique(d * 0x100_0000, 0x100_0000, d, 0);
    hide Word;
  }

  // --- the blob -----------------------------------------------------------------------------------

  const INITRD_START := Ascii("linux,initrd-start")
  const INITRD_END := Ascii("linux,initrd-end")

  function OffStruct(blob: seq<Byte>): nat
    requires |blob| >= 40
  {
    BeWord(blob, 8)
  }

  function OffStrings(blob: seq<Byte>): nat
    requires |blob| >= 40
  {
    BeWord(blob, 12)
  }

  function EndStruct(blob: seq<Byte>): nat
    requires |blob| >= 40
  {
    OffStruct(blob) + BeWord(blob, 36)
  }

  /** The blob holds the tree, and the strings come after the structure. */
  predicate Layout(blob: seq<Byte>, items: seq<Item>) {
    && |blob| >= 40 && BeWord(blob, 0) == MAGIC
    && EndStruct(blob) <= OffStrings(blob) <= |blob|
    && ItemsOk(items)
    && OffStruct(blob) + |Flattened(items)| + 4 <= EndStruct(blob)
    && Holds(blob, OffStruct(blob), Flattened(items) + Be32(FDT_END))
  }

  /** The values of all properties of a name, one after the other. */
  function Gather(blob: seq<Byte>, properties: seq<Property>, name: seq<Byte>): seq<Byte>
    requires |blob| >= 40
  {
    if properties == [] then []
    else Gather(blob, properties[..|properties| - 1], name) + ValueIf(blob, properties[|properties| - 1], name)
  }

  predicate Named(blob: seq<Byte>, p: Property, name: seq<Byte>)
    requires |blob| >= 40
  {
    StringAt(blob, OffStrings(blob) + p.nameoff) == name
  }

  function ValueIf(blob: seq<Byte>, p: Property, name: seq<Byte>): seq<Byte>
    requires |blob| >= 40
  {
    if Named(blob, p, name) then p.value else []
  }

  /** No property of the name, no value. */
  lemma {:induction false} AbsentProperty(blob: seq<Byte>, properties: seq<Property>, name: seq<Byte>)
    requires |blob| >= 40 && forall k | 0 <= k < |properties| :: !Named(blob, properties[k], name)
    ensures Gather(blob, properties, name) == [] && BeValue(Gather(blob, properties, name)) == 0
  {
    if properties != [] {
      AbsentProperty(blob, properties[..|properties| - 1], name);
    }
  }

  /** One property of the name, that value. */
  lemma {:induction false} SingleProperty(blob: seq<Byte>, properties: seq<Property>, name: seq<Byte>, i: nat)
    requires |blob| >= 40 && i < |properties| && Named(blob, properties[i], name)
    requires forall k | 0 <= k < |properties| && k != i :: !Named(blob, properties[k], name)
    ensures Gather(blob, properties, name) == properties[i].value
  {
    var rest := properties[..|properties| - 1];
    if i == |properties| - 1 {
      AbsentProperty(blob, rest, name);
    } else {
      SingleProperty(blob, rest, name, i);
    }
  }

  // --- one token in the blob ----------------------------------------------------------------------

  predicate TokensAt(blob: seq<Byte>, i: nat, end: nat, rest: seq<Token>) {
    i + |AllBytes(rest)| + 4 <= end && Holds(blob, i, AllBytes(rest) + Be32(FDT_END))
  }

  lemma FirstToken(blob: seq<Byte>, i: nat, end: nat, rest: seq<Token>)
    requires TokensAt(blob, i, end, rest) && rest != []
    ensures i + |TokenBytes(rest[0])| <= end && Holds(blob, i, TokenBytes(rest[0]))
    ensures TokensAt(blob, i + |TokenBytes(rest[0])|, end, rest[1..])
  {
    hide TokenBytes, Be32, Holds, Padded;
    assert AllBytes(rest) == TokenBytes(rest[0]) + AllBytes(rest[1..]);
    hide AllBytes;
    HoldsFirst(blob, i, TokenBytes(rest[0]), AllBytes(rest[1..]), Be32(FDT_END));
  }

  lemma HoldsFirst(blob: seq<Byte>, i: nat, t: seq<Byte>, u: seq<Byte>, e: seq<Byte>)
    requires Holds(blob, i, (t + u) + e)
    ensures Holds(blob, i, t) && Holds(blob, i + |t|, u + e)
  {
    hide Holds;
    assert (t + u) + e == t + (u + e);
    HoldsParts(blob, i, t, u + e);
  }

  function Tag(t: Token): nat {
    match t
    case BeginNode(_) => FDT_BEGIN_NODE
    case EndNode => FDT_END_NODE
    case NopToken => FDT_NOP
    case PropToken(_) => FDT_PROP
  }

  lemma WordAt(blob: seq<Byte>, i: nat, v: nat)
    requires Holds(blob, i, Be32(v)) && v < 0x1_0000_0000
    ensures i + 4 <= |blob| && BeWord(blob, i) == v
  {
    Be32Value(v);
    var w := blob[i..i + 4];
    assert blob[i] == w[0] && blob[i + 1] == w[1] && blob[i + 2] == w[2] && blob[i + 3] == w[3];
  }

  lemma TagAt(blob: seq<Byte>, i: nat, t: Token)
    requires Holds(blob, i, TokenBytes(t))
    ensures i + 4 <= |blob| && BeWord(blob, i) == Tag(t)
  {
    var rest := TokenBytes(t)[4..];
    assert TokenBytes(t) == Be32(Tag(t)) + rest;
    hide TokenBytes, Be32, Holds, BeWord;
    HoldsParts(blob, i, Be32(Tag(t)), rest);
    WordAt(blob, i, Tag(t));
  }

  lemma NodeAt(blob: seq<Byte>, i: nat, name: seq<Byte>)
    requires Holds(blob, i, TokenBytes(BeginNode(name))) && 0 !in name
    ensures StringAt(blob, i + 4) == name
  {
    HoldsParts(blob, i, Be32(FDT_BEGIN_NODE), Padded(name + [0]));
    assert Padded(name + [0]) == (name + [0]) + Padded(name + [0])[|name| + 1..];
    HoldsParts(blob, i + 4, name + [0], Padded(name + [0])[|name| + 1..]);
    StringIs(blob, i + 4, name);
  }

  lemma PropAt(blob: seq<Byte>, i: nat, p: Property)
    requires Holds(blob, i, TokenBytes(PropToken(p))) && PropertyOk(p)
    ensures i + 12 + |p.value| <= |blob| && BeWord(blob, i + 4) == |p.value| && BeWord(blob, i + 8) == p.nameoff
    ensures Holds(blob, i + 12, p.value)
  {
    var v, tag, a, b := Padded(p.value), Be32(FDT_PROP), Be32(|p.value|), Be32(p.nameoff);
    assert TokenBytes(PropToken(p)) == tag + a + b + v;
    hide TokenBytes, Be32;
    HoldsParts(blob, i, tag + a + b, v);
    HoldsParts(blob, i, tag + a, b);
    HoldsParts(blob, i, tag, a);
    assert v == p.value + v[|p.value|..];
    hide Padded, Holds, BeWord;
    HoldsParts(blob, i + 12, p.value, v[|p.value|..]);
    WordAt(blob, i + 4, |p.value|);
    WordAt(blob, i + 8, p.nameoff);
    HoldsBounds(blob, i + 12, p.value);
  }

  // --- the code -----------------------------------------------------------------------------------

  /** A 32-bit load, with the bytes swapped where the blob has the other order. */
  method Load(big: bool, blob: seq<Byte>, i: nat, swap: bool) returns (v: nat)
    requires i + 4 <= |blob|
    ensures swap == !big ==> v == BeWord(blob, i)
  {
    v := HostWord(big, blob, i);
    if swap {
      assert IsWord(32, v) by {
        Powers();
      }
      SwappedLoad(blob, i);
      v := SwapEndianness32(v);
    }
  }

  /** The header in host order, or nothing when its magic number is in neither order. */
  method ReadHeader(big: bool, blob: seq<Byte>) returns (header: array<nat>, known: bool, swap: bool)
    requires |blob| >= 40
    ensures fresh(header) && header.Length == 10
    ensures known <==> BeWord(blob, 0) == MAGIC || HostWord(false, blob, 0) == MAGIC
    ensures known && BeWord(blob, 0) == MAGIC ==>
              swap == !big && forall k | 0 <= k < 10 :: header[k] == BeWord(blob, 4 * k)
    ensures known && HostWord(false, blob, 0) == MAGIC ==>
              swap == big && forall k | 0 <= k < 10 :: header[k] == HostWord(false, blob, 4 * k)
  {
    hide HostWord, BeWord, Swapped;
    header := new nat[10](k requires 0 <= k < 10 => HostWord(big, blob, 4 * k));
    MagicOrders(blob);
    WordsSwapped(blob);
    swap := false;
    if header[0] == MAGIC {
    } else if header[0] == 0xEDFE0DD0 {
      swap := true;
      SwapHeader(header);
    } else {
      return header, false, swap;
    }
    known := true;
  }

  method SwapHeader(header: array<nat>)
    requires header.Length == 10 && forall k | 0 <= k < 10 :: header[k] < 0x1_0000_0000
    modifies header
    ensures forall k | 0 <= k < 10 :: header[k] == Swapped(old(header[k]))
  {
    hide Swapped, Pow2;
    Powers();
    for i := 0 to 10
      invariant forall k | 0 <= k < 10 :: header[k] == if k < i then Swapped(old(header[k])) else old(header[k])
    {
      header[i] := SwapEndianness32(header[i]);
    }
  }

  lemma WordsSwapped(blob: seq<Byte>)
    requires |blob| >= 40
    ensures forall k | 0 <= k < 10 ::
              Swapped(HostWord(false, blob, 4 * k)) == BeWord(blob, 4 * k) == HostWord(true, blob, 4 * k)
    ensures forall k | 0 <= k < 10 :: Swapped(BeWord(blob, 4 * k)) == HostWord(false, blob, 4 * k)
  {
    forall k | 0 <= k < 10
      ensures Swapped(HostWord(false, blob, 4 * k)) == BeWord(blob, 4 * k) == HostWord(true, blob, 4 * k)
      ensures Swapped(BeWord(blob, 4 * k)) == HostWord(false, blob, 4 * k)
    {
      SwappedLoad(blob, 4 * k);
    }
  }

  lemma SwappedWord(a: Byte, b: Byte, c: Byte, d: Byte)
    ensures Swapped(Word(a, b, c, d)) == Word(d, c, b, a)
  {
    BytesOf(a, b, c, d);
  }

  lemma MagicOrders(blob: seq<Byte>)
    requires |blob| >= 40
    ensures BeWord(blob, 0) == MAGIC <==> HostWord(false, blob, 0) == 0xEDFE0DD0
    ensures BeWord(blob, 0) == 0xEDFE0DD0 <==> HostWord(false, blob, 0) == MAGIC
    ensures BeWord(blob, 0) == HostWord(true, blob, 0)
  {
    hide HostWord, BeWord, Swapped;
    SwappedLoad(blob, 0);
    WordsSwapped(blob);
    assert HostWord(true, blob, 4 * 0) == HostWord(true, blob, 0) && BeWord(blob, 4 * 0) == BeWord(blob, 0);
    SwappedWord(0xD0, 0x0D, 0xFE, 0xED);
    SwappedWord(0xED, 0xFE, 0x0D, 0xD0);
  }

  // --- the walk -----------------------------------------------------------------------------------

  function Up4(n: nat): nat {
    if n % 4 == 0 then n else n + 4 - n % 4
  }

  /** Rounds up to four bytes, counted from the start of the structure. */
  method AlignUp(at: nat, base: nat) returns (r: nat)
    requires base <= at
    ensures r == base + Up4(at - base)
  {
    var addr := at - base;
    if addr % 4 != 0 {
      addr := addr - addr % 4;
      addr := addr + 4;
    }
    r := addr + base;
  }

  /** The accumulator of one property: a shift by eight and an or per byte. */
  method Accumulate(w: nat, acc: nat, blob: seq<Byte>, at: nat, len: nat, ghost before: seq<Byte>) returns (r: nat)
    requires w > 8 && at + len <= |blob| && acc == BeValue(before) % Pow2(w)
    ensures r == BeValue(before + blob[at..at + len]) % Pow2(w)
  {
    hide BeValue, Or, Sll, Pow2;
    r := acc;
    assert before + blob[at..at + 0] == before;
    for j := 0 to len
      invariant r == BeValue(before + blob[at..at + j]) % Pow2(w)
    {
      ghost var s := before + blob[at..at + j];
      assert before + blob[at..at + j + 1] == s + [blob[at + j]];
      OneByteMore(s, blob[at + j]);
      ShiftIn(w, r, BeValue(s), blob[at + j]);
      r := Or(Sll(w, r, 8), blob[at + j]);
    }
  }

  lemma OneByteMore(s: seq<Byte>, b: Byte)
    ensures BeValue(s + [b]) == BeValue(s) * 0x100 + b
  {
    assert (s + [b])[..|s|] == s;
  }

  lemma ShiftIn(w: nat, acc: nat, value: nat, b: Byte)
    requires w > 8 && acc == value % Pow2(w)
    ensures Or(Sll(w, acc, 8), b) == (value * 0x100 + b) % Pow2(w)
  {
    hide Pow2, Or;
    var m, n := Pow2(w), Pow2(w - 8);
    Powers();
    Pow2Sum(w - 8, 8);
    ShiftInModulo(acc, value, b, m, n);
    OrDisjoint(acc * 0x100 % m, b, 8);
  }

  lemma ShiftInModulo(acc: nat, value: nat, b: Byte, m: nat, n: nat)
    requires m == n * 0x100 && n > 0 && acc == value % m
    ensures acc * 0x100 % m % 0x100 == 0 && acc * 0x100 % m + b == (value * 0x100 + b) % m
  {
    var q := value / m;
    var k, r := acc / n, acc % n;
    assert acc == k * n + r && value == q * m + acc;
    assert k * n * 0x100 == k * m && q * m * 0x100 == (q * 0x100) * m;
    DivModUnique(acc * 0x100, m, k, r * 0x100);
    DivModUnique(value * 0x100 + b, m, q * 0x100 + k, r * 0x100 + b) by {
      assert (q * 0x100 + k) * m == (q * 0x100) * m + k * m;
    }
  }

  /** What the walk has found after some properties. */
  ghost predicate Found(w: nat, blob: seq<Byte>, visited: seq<Property>, start: nat, end: nat)
    requires |blob| >= 40
  {
    && start == BeValue(Gather(blob, visited, INITRD_START)) % Pow2(w)
    && end == BeValue(Gather(blob, visited, INITRD_END)) % Pow2(w)
  }

  lemma FoundNext(w: nat, blob: seq<Byte>, visited: seq<Property>, p: Property, name: seq<Byte>)
    requires |blob| >= 40
    ensures Gather(blob, visited + [p], name)
            == if Named(blob, p, name) then Gather(blob, visited, name) + p.value else Gather(blob, visited, name)
  {
    assert (visited + [p])[..|visited|] == visited;
    assert Gather(blob, visited, name) + [] == Gather(blob, visited, name);
  }

  /** The branch of a property token, with the cursor behind the token. */
  method TakeProperty(w: nat, big: bool, blob: seq<Byte>, at: nat, swap: bool, start: nat, end: nat,
                      ghost p: Property, ghost visited: seq<Property>)
    returns (i: nat, start': nat, end': nat)
    requires w > 8 && swap == !big && |blob| >= 40 && Found(w, blob, visited, start, end) && PropertyOk(p)
    requires at >= 4 && Holds(blob, at - 4, TokenBytes(PropToken(p))) && OffStruct(blob) <= at
    ensures i == OffStruct(blob) + Up4(at + 8 + |p.value| - OffStruct(blob))
    ensures Found(w, blob, visited + [p], start', end')
  {
    hide Gather, BeValue, StringAt, BeWord, HostWord, Pow2, TokenBytes, Holds, Up4, Ascii, INITRD_START, INITRD_END;
    start', end' := start, end;
    PropAt(blob, at - 4, p);
    HoldsBounds(blob, at + 8, p.value);
    FoundNext(w, blob, visited, p, INITRD_START);
    FoundNext(w, blob, visited, p, INITRD_END);
    DifferentNames();
    var len := Load(big, blob, at, swap);
    var nameoff := Load(big, blob, at + 4, swap);
    i := at + 8;
    var name := StringAt(blob, OffStrings(blob) + nameoff);
    if name == INITRD_START {
      start' := Accumulate(w, start, blob, i, len, Gather(blob, visited, INITRD_START));
    } else if name == INITRD_END {
      end' := Accumulate(w, end, blob, i, len, Gather(blob, visited, INITRD_END));
    }
    i := AlignUp(i + len, OffStruct(blob));
  }

  lemma DifferentNames()
    ensures INITRD_START != INITRD_END
  {
    assert |INITRD_START| == 18 && |INITRD_END| == 16;
  }

  /** How far a token takes the cursor. */
  function Size(t: Token): nat {
    match t
    case BeginNode(name) => 4 + Up4(|name| + 1)
    case EndNode => 4
    case NopToken => 4
    case PropToken(p) => 12 + Up4(|p.value|)
  }

  lemma SizeOf(t: Token)
    ensures |TokenBytes(t)| == Size(t) >= 4 && Size(t) % 4 == 0
  {
    hide Be32, Padded, Up4;
    match t
    case BeginNode(name) =>
      PaddedLength(name + [0]);
      FoursAdd(Up4(|name| + 1));
    case EndNode =>
    case NopToken =>
    case PropToken(p) =>
      PaddedLength(p.value);
      FoursAdd(Up4(|p.value|));
  }

  lemma FoursAdd(n: nat)
    requires n % 4 == 0
    ensures (4 + n) % 4 == 0 && (12 + n) % 4 == 0
  {
  }

  lemma PaddedLength(s: seq<Byte>)
    ensures |Padded(s)| == Up4(|s|) && |Padded(s)| % 4 == 0
  {
  }

  lemma Up4Sum(a: nat, n: nat)
    requires a % 4 == 0
    ensures Up4(a + n) == a + Up4(n)
  {
    var p, q := a / 4, n / 4;
    DivModUnique(a + n, 4, p + q, n % 4);
  }

  /** The word under the cursor tells what comes next. */
  lemma NextToken(blob: seq<Byte>, i: nat, end: nat, rest: seq<Token>)
    requires TokensAt(blob, i, end, rest) && forall t | t in rest :: TokenOk(t)
    ensures i + 4 <= end && i + 4 <= |blob| && BeWord(blob, i) == if rest == [] then FDT_END else Tag(rest[0])
    ensures rest != [] ==>
              && Size(rest[0]) >= 4 && Size(rest[0]) % 4 == 0 && i + Size(rest[0]) <= |blob|
              && TokensAt(blob, i + Size(rest[0]), end, rest[1..]) && TokenOk(rest[0])
              && Holds(blob, i, TokenBytes(rest[0]))
              && (rest[0].BeginNode? ==> StringAt(blob, i + 4) == rest[0].name)
              && PropertiesOf(rest) == PropertyIn(rest[0]) + PropertiesOf(rest[1..])
    ensures rest == [] ==> PropertiesOf(rest) == []
  {
    hide TokenBytes, Be32, StringAt, BeWord;
    if rest == [] {
      assert AllBytes(rest) + Be32(FDT_END) == Be32(FDT_END);
      WordAt(blob, i, FDT_END);
    } else {
      FirstToken(blob, i, end, rest);
      TagAt(blob, i, rest[0]);
      SizeOf(rest[0]);
      hide AllBytes, TokensAt, Size;
      assert TokenOk(rest[0]);
      if rest[0].BeginNode? {
        NodeAt(blob, i, rest[0].name);
      }
    }
  }

  lemma WalkEntry(w: nat, blob: seq<Byte>, items: seq<Item>)
    requires Layout(blob, items)
    ensures TokensAt(blob, OffStruct(blob), EndStruct(blob), Tokens(items)) && Found(w, blob, [], 0, 0)
    ensures PropertiesOf(Tokens(items)) == Properties(items) && forall t | t in Tokens(items) :: TokenOk(t)
  {
    TokensAreTree(items);
    assert BeValue([]) == 0 && Gather(blob, [], INITRD_START) == [] && Gather(blob, [], INITRD_END) == [];
    DivModUnique(0, Pow2(w), 0, 0);
  }

  function PropertyIn(t: Token): seq<Property> {
    if t.PropToken? then [t.property] else []
  }

  /** One pass of the loop. */
  method TakeToken(w: nat, big: bool, blob: seq<Byte>, swap: bool, dtStruct: nat, at: nat, token: nat, depth: nat,
                   start: nat, end: nat, ghost t: Token, ghost visited: seq<Property>)
    returns (i: int, treeDepth: nat, start': nat, end': nat)
    requires w > 8 && swap == !big && |blob| >= 40 && dtStruct == OffStruct(blob)
    requires dtStruct <= at && (at - dtStruct) % 4 == 0 && token == Tag(t) && TokenOk(t)
    requires at + Size(t) <= |blob| && Holds(blob, at, TokenBytes(t))
    requires t.BeginNode? ==> StringAt(blob, at + 4) == t.name
    requires Found(w, blob, visited, start, end)
    ensures i == at + Size(t) && Found(w, blob, visited + PropertyIn(t), start', end')
  {
    hide TokenBytes, Holds, BeWord, Found, StringAt, Up4;
    start', end', treeDepth := start, end, depth;
    assert visited + [] == visited;
    if token == FDT_END_NODE {
      if treeDepth > 0 {
        treeDepth := treeDepth - 1;
      }
      i := at + 4;
    } else if token == FDT_BEGIN_NODE {
      treeDepth := (treeDepth + 1) % 0x1_0000_0000;
      i := at + 4;
      Up4Sum(i - dtStruct, |t.name| + 1);
      i := AlignUp(i + |StringAt(blob, i)| + 1, dtStruct);
    } else if token == FDT_NOP {
      i := at + 4;
    } else if token == FDT_PROP {
      Up4Sum(at + 12 - dtStruct, |t.property.value|);
      i, start', end' := TakeProperty(w, big, blob, at + 4, swap, start, end, t.property, visited);
    } else {
      i := at + 4;
    }
  }

  /** The walk over the structure block visits the properties of the tree in preorder. */
  method WalkStructure(w: nat, big: bool, blob: seq<Byte>, swap: bool,
                       dtStruct: nat, dtStrings: nat, dtEnd: nat, ghost items: seq<Item>)
    returns (start: nat, end: nat, ghost visited: seq<Property>)
    requires w > 8 && swap == !big && Layout(blob, items)
    requires dtStruct == OffStruct(blob) && dtStrings == OffStrings(blob) && dtEnd == EndStruct(blob)
    ensures Found(w, blob, Properties(items), start, end) && visited == Properties(items)
  {
    hide TokensAt, Holds, BeWord, HostWord, ItemOk, Properties, Tokens, Found, StringAt, TokenOk, TokenBytes, Size,
         Flattened, PropertiesOf;
    WalkEntry(w, blob, items);
    start, end, visited := 0, 0, [];
    ghost var rest := Tokens(items);
    var i, treeDepth := dtStruct, 0;
    while i < dtStrings && i < dtEnd
      invariant dtStruct <= i && (i - dtStruct) % 4 == 0 && TokensAt(blob, i, dtEnd, rest)
      invariant forall t | t in rest :: TokenOk(t)
      invariant visited + PropertiesOf(rest) == Properties(items)
      invariant Found(w, blob, visited, start, end)
      decreases |blob| - i
    {
      NextToken(blob, i, dtEnd, rest);
      var token := Load(big, blob, i, swap);
      if token == FDT_END {
        break;
      }
      i, treeDepth, start, end :=
        TakeToken(w, big, blob, swap, dtStruct, i, token, treeDepth, start, end, rest[0], visited);
      visited := visited + PropertyIn(rest[0]);
      rest := rest[1..];
    }
    NextToken(blob, i, dtEnd, rest);
    assert visited + [] == visited;
  }

  /** dtb_parse, on a machine of either byte order. */
  method DtbParse(w: nat, big: bool, blob: seq<Byte>, ghost items: seq<Item>)
    returns (known: bool, initrdStart: nat, initrdEnd: nat, ghost visited: seq<Property>)
    requires w > 8 && |blob| >= 40
    requires BeWord(blob, 0) == MAGIC || HostWord(false, blob, 0) == MAGIC ==> Layout(blob, items)
    ensures known <==> BeWord(blob, 0) == MAGIC
    ensures known ==> visited == Properties(items)
    ensures known ==> initrdStart == BeValue(Gather(blob, Properties(items), INITRD_START)) % Pow2(w)
    ensures known ==> initrdEnd == BeValue(Gather(blob, Properties(items), INITRD_END)) % Pow2(w)
  {
    initrdStart, initrdEnd, visited := 0, 0, [];
    var header, swap;
    header, known, swap := ReadHeader(big, blob);
    if !known {
      return;
    }
    initrdStart, initrdEnd, visited :=
      WalkStructure(w, big, blob, swap, header[2], header[3], header[2] + header[9], items);
  }
}
