/** The part of CBOR (RFC 8949) that a keyfile uses, down to bytes: unsigned integers that keep
    their width, definite byte and text strings, and one level of definite or indefinite array.
    Every other item kind reads as a rejection. */
module Cbor {
  import opened Basics

  // ---------------------------------------------------------------- big-endian numbers

  function Pow256(n: nat): (p: nat)
    ensures p >= 1
  {
    if n == 0 then 1 else 256 * Pow256(n - 1)
  }

  function BigEndian(v: nat, n: nat): (s: seq<byte>)
    ensures |s| == n
  {
    if n == 0 then [] else BigEndian(v / 256, n - 1) + [(v % 256) as byte]
  }

  function FromBigEndian(s: seq<byte>): nat {
    if s == [] then 0 else 256 * FromBigEndian(s[..|s| - 1]) + s[|s| - 1] as nat
  }

  lemma {:induction false} BigEndianReadsBack(v: nat, n: nat)
    requires v < Pow256(n)
    ensures FromBigEndian(BigEndian(v, n)) == v
  {
    if n > 0 {
      BigEndianReadsBack(v / 256, n - 1);
      var s := BigEndian(v, n);
      assert s[..|s| - 1] == BigEndian(v / 256, n - 1);
    }
  }

  lemma {:induction false} BigEndianIsExact(s: seq<byte>)
    ensures FromBigEndian(s) < Pow256(|s|)
    ensures BigEndian(FromBigEndian(s), |s|) == s
  {
    if s != [] {
      BigEndianIsExact(s[..|s| - 1]);
      assert s == s[..|s| - 1] + [s[|s| - 1]];
    }
  }

  /** The most significant byte comes first. */
  lemma {:induction false} BigEndianAt(v: nat, n: nat, i: nat)
    requires i < n
    ensures BigEndian(v, n)[i] as nat == v / Pow256(n - 1 - i) % 256
  {
    if i < n - 1 {
      BigEndianAt(v / 256, n - 1, i);
      DivideTwice(v, Pow256(n - 2 - i));
    }
  }

  lemma DivideTwice(v: nat, d: nat)
    requires d > 0
    ensures v / 256 / d == v / (256 * d)
  {
    var q := v / 256 / d;
    assert v / 256 == d * q + v / 256 % d;
    assert 256 * (d * q) == 256 * d * q;
    QuotientIs(v, 256 * d, q, v - 256 * (d * q));
  }

  lemma QuotientIs(v: nat, d: nat, q: nat, r: nat)
    requires d > 0 && v == d * q + r && r < d
    ensures v / d == q
  {
    var other := v / d;
    assert v == d * other + v % d;
    assert other < q ==> d * (other + 1) <= d * q;
    assert other > q ==> d * (q + 1) <= d * other;
  }

  lemma PowersOf256()
    ensures Pow256(1) == 0x100 && Pow256(2) == 0x1_0000 && Pow256(4) == 0x1_0000_0000
    ensures Pow256(8) == TWO_TO_64
  {
    assert Pow256(3) == 0x100_0000;
    assert Pow256(5) == 0x100_0000_0000;
    assert Pow256(6) == 0x1_0000_0000_0000;
    assert Pow256(7) == 0x100_0000_0000_0000;
  }

  // ---------------------------------------------------------------- heads

  /** The number of argument bytes after the initial byte (RFC 8949 section 3). */
  function Following(info: nat): nat {
    if info < 24 then 0 else if info == 24 then 1 else if info == 25 then 2 else if info == 26 then 4 else 8
  }

  /** A head with an explicit additional-information value. */
  function HeadWith(major: nat, info: nat, argument: nat): (s: seq<byte>)
    requires major < 8 && info < 28
    ensures |s| == 1 + Following(info)
  {
    [(32 * major + info) as byte] + BigEndian(argument, Following(info))
  }

  /** The smallest additional-information value whose head holds the argument. */
  function ShortestInfo(argument: uint64): (info: nat)
    ensures info < 28 && FitsInfo(info, argument)
    ensures forall i | 0 <= i < 28 && FitsInfo(i, argument) :: Following(info) <= Following(i)
  {
    PowersOf256();
    if argument < 24 then argument
    else if argument < 0x100 then 24
    else if argument < 0x1_0000 then 25
    else if argument < 0x1_0000_0000 then 26
    else 27
  }

  predicate FitsInfo(info: nat, argument: nat) {
    if info < 24 then argument == info else argument < Pow256(Following(info))
  }

  /** The shortest head, the one `_cbor_encode_uint` writes. */
  function Head(major: nat, argument: uint64): seq<byte>
    requires major < 8
  {
    HeadWith(major, ShortestInfo(argument), argument)
  }

  /** What an initial byte and its argument say; `info == 31` is an indefinite start or a break. */
  datatype Initial = Initial(major: nat, info: nat, argument: nat, size: nat)

  const INDEFINITE := 31

  function ReadHead(s: seq<byte>): Option<Initial> {
    if s == [] then None
    else
      var major, info := s[0] as nat / 32, s[0] as nat % 32;
      if info == INDEFINITE then Some(Initial(major, info, 0, 1))
      else if info >= 28 || |s| < 1 + Following(info) then None
      else if info < 24 then Some(Initial(major, info, info, 1))
      else Some(Initial(major, info, FromBigEndian(s[1..1 + Following(info)]), 1 + Following(info)))
  }

  lemma HeadReadsBack(major: nat, info: nat, argument: nat, tail: seq<byte>)
    requires major < 8 && info < 28 && FitsInfo(info, argument)
    ensures ReadHead(HeadWith(major, info, argument) + tail)
         == Some(Initial(major, info, argument, 1 + Following(info)))
  {
    var s := HeadWith(major, info, argument) + tail;
    assert s[0] as nat / 32 == major && s[0] as nat % 32 == info;
    assert s[1..1 + Following(info)] == BigEndian(argument, Following(info));
    if info >= 24 {
      BigEndianReadsBack(argument, Following(info));
    }
  }

  /** `p` is read from the front of `s`, is never longer than what was read, and is the very bytes
      read whenever it is as long. */
  ghost predicate NoLongerThan(p: seq<byte>, s: seq<byte>, size: nat) {
    |p| <= size <= |s| && (|p| == size ==> p == s[..size])
  }

  lemma ShortestInfoIsUnique(info: nat, argument: uint64)
    requires info < 28 && FitsInfo(info, argument)
    ensures Following(ShortestInfo(argument)) <= Following(info)
    ensures Following(ShortestInfo(argument)) == Following(info) ==> ShortestInfo(argument) == info
  {
    PowersOf256();
  }

  /** A head that was read is the head with the same additional information, so the shortest head
      for its argument is no longer, and is the same bytes when it is as long. */
  lemma ReadHeadIsExact(s: seq<byte>)
    requires ReadHead(s).Some? && ReadHead(s).value.info != INDEFINITE
    ensures var h := ReadHead(s).value;
      && h.major < 8 && h.info < 28 && h.size <= |s| && h.argument < TWO_TO_64
      && FitsInfo(h.info, h.argument)
      && h.size == 1 + Following(h.info)
      && s[..h.size] == HeadWith(h.major, h.info, h.argument)
      && NoLongerThan(Head(h.major, h.argument), s, h.size)
  {
    var h := ReadHead(s).value;
    ReadHeadArgument(s);
    assert s[..h.size] == [s[0]] + s[1..h.size];
    ShortestInfoIsUnique(h.info, h.argument);
    hide ShortestInfo, FitsInfo;
  }

  lemma ReadHeadArgument(s: seq<byte>)
    requires ReadHead(s).Some? && ReadHead(s).value.info != INDEFINITE
    ensures var h := ReadHead(s).value;
      && h.size == 1 + Following(h.info) <= |s| && h.info < 28 && h.argument < TWO_TO_64
      && FitsInfo(h.info, h.argument)
      && BigEndian(h.argument, Following(h.info)) == s[1..h.size]
  {
    var h := ReadHead(s).value;
    PowersOf256();
    if h.info >= 24 {
      BigEndianIsExact(s[1..h.size]);
    }
  }

  // ---------------------------------------------------------------- items

  /** Octets a `cbor_int_get_width` value stands for; 8-bit covers both one- and two-byte heads. */
  datatype Width = W8 | W16 | W32 | W64 {
    function Octets(): nat {
      match this case W8 => 1 case W16 => 2 case W32 => 4 case W64 => 8
    }
  }

  datatype Item =
    | UInt(width: Width, value: nat)
    | Bytes(data: seq<byte>)
    | Text(data: seq<byte>)

  predicate ValidItem(it: Item) {
    match it
    case UInt(w, v) => v < Pow256(w.Octets())
    case _ => |it.data| < TWO_TO_64
  }

  function Major(it: Item): nat {
    match it case UInt(_, _) => 0 case Bytes(_) => 2 case Text(_) => 3
  }

  function Argument(it: Item): nat {
    match it case UInt(_, v) => v case _ => |it.data|
  }

  function Payload(it: Item): seq<byte> {
    match it case UInt(_, _) => [] case _ => it.data
  }

  function WidthOf(info: nat): Width {
    if info <= 24 then W8 else if info == 25 then W16 else if info == 26 then W32 else W64
  }

  /** The additional information an item may be encoded with: it holds the argument, and is of an
      integer's own width. */
  predicate Legal(it: Item, info: nat) {
    info < 28 && FitsInfo(info, Argument(it)) && (it.UInt? ==> WidthOf(info) == it.width)
  }

  function PrintItemWith(it: Item, info: nat): seq<byte>
    requires info < 28
  {
    HeadWith(Major(it), info, Argument(it)) + Payload(it)
  }

  /** What `cbor_serialize` writes an item with: integers keep their width, strings take the shortest
      head. */
  function OwnInfo(it: Item): (info: nat)
    requires ValidItem(it)
    ensures Legal(it, info)
  {
    PowersOf256();
    match it
    case UInt(W8, v) => ShortestInfo(v)
    case UInt(W16, _) => 25
    case UInt(W32, _) => 26
    case UInt(W64, _) => 27
    case _ => ShortestInfo(|it.data|)
  }

  /** `cbor_serialize` of one item. */
  function PrintItem(it: Item): seq<byte>
    requires ValidItem(it)
  {
    PrintItemWith(it, OwnInfo(it))
  }

  lemma LegalIsValid(it: Item, info: nat)
    requires Legal(it, info)
    ensures ValidItem(it)
    ensures Following(OwnInfo(it)) <= Following(info)
    ensures Following(OwnInfo(it)) == Following(info) ==> OwnInfo(it) == info
  {
    PowersOf256();
    ShortestInfoIsUnique(info, Argument(it));
  }

  /** The head of a string against the constants of RFC 8949: the base byte of its major type and the
      length, in 0, 1, 2, 4 or 8 further bytes. */
  ghost predicate StringHead(s: seq<byte>, base: byte, n: nat)
    requires base <= 0xe0
  {
    if n < 24 then s == [base + n as byte]
    else if n < 0x100 then s == [base + 24] + BigEndian(n, 1)
    else if n < 0x1_0000 then s == [base + 25] + BigEndian(n, 2)
    else if n < 0x1_0000_0000 then s == [base + 26] + BigEndian(n, 4)
    else s == [base + 27] + BigEndian(n, 8)
  }

  /** The bytes of every item, from the initial bytes of RFC 8949 appendix B. */
  lemma InitialBytes(it: Item)
    requires ValidItem(it)
    ensures match it
      case UInt(W8, v) => PrintItem(it) == if v < 24 then [v as byte] else [0x18] + BigEndian(v, 1)
      case UInt(W16, v) => PrintItem(it) == [0x19] + BigEndian(v, 2)
      case UInt(W32, v) => PrintItem(it) == [0x1a] + BigEndian(v, 4)
      case UInt(W64, v) => PrintItem(it) == [0x1b] + BigEndian(v, 8)
      case Bytes(d) => |d| <= |PrintItem(it)| && PrintItem(it)[|PrintItem(it)| - |d|..] == d
                       && StringHead(PrintItem(it)[..|PrintItem(it)| - |d|], 0x40, |d|)
      case Text(d) => |d| <= |PrintItem(it)| && PrintItem(it)[|PrintItem(it)| - |d|..] == d
                      && StringHead(PrintItem(it)[..|PrintItem(it)| - |d|], 0x60, |d|)
  {
    PowersOf256();
    if !it.UInt? {
      var head := Head(Major(it), |it.data|);
      assert PrintItem(it) == head + it.data;
      assert PrintItem(it)[..|head|] == head && PrintItem(it)[|head|..] == it.data;
    }
  }

  /** A value read from the front of a byte string, and the number of bytes it took. */
  datatype Read<+T> = Read(value: T, size: nat)

  function ReadItem(s: seq<byte>): Option<Read<Item>> {
    match ReadHead(s)
    case None => None
    case Some(Initial(major, info, argument, size)) =>
      if info == INDEFINITE then None
      else if major == 0 then Some(Read(UInt(WidthOf(info), argument), size))
      else if (major == 2 || major == 3) && size + argument <= |s| then
        var data := s[size..size + argument];
        Some(Read(if major == 2 then Bytes(data) else Text(data), size + argument))
      else None
  }

  lemma ItemReadsAs(s: seq<byte>, it: Item, info: nat, head: seq<byte>, tail: seq<byte>)
    requires Legal(it, info) && s == head + (Payload(it) + tail)
    requires ReadHead(s) == Some(Initial(Major(it), info, Argument(it), |head|))
    ensures ReadItem(s) == Some(Read(it, |head| + |Payload(it)|))
  {
    assert s[|head|..|head| + |Payload(it)|] == Payload(it);
    hide ReadHead;
  }

  /** Every legal encoding of an item reads as that item, whatever follows. */
  lemma ItemReadsBackWith(it: Item, info: nat, tail: seq<byte>)
    requires Legal(it, info)
    ensures ReadItem(PrintItemWith(it, info) + tail) == Some(Read(it, |PrintItemWith(it, info)|))
  {
    hide ReadItem, ReadHead, HeadWith;
    var head := HeadWith(Major(it), info, Argument(it));
    HeadReadsBack(Major(it), info, Argument(it), Payload(it) + tail);
    assert PrintItemWith(it, info) + tail == head + (Payload(it) + tail);
    ItemReadsAs(head + (Payload(it) + tail), it, info, head, tail);
  }

  lemma ItemReadsBack(it: Item, tail: seq<byte>)
    requires ValidItem(it)
    ensures ReadItem(PrintItem(it) + tail) == Some(Read(it, |PrintItem(it)|))
  {
    ItemReadsBackWith(it, OwnInfo(it), tail);
  }

  /** Whatever is read as an item is one of its legal encodings. */
  lemma ReadItemIsLegal(s: seq<byte>)
    requires ReadItem(s).Some?
    ensures ReadHead(s).Some?
    ensures var Read(it, size), info := ReadItem(s).value, ReadHead(s).value.info;
      Legal(it, info) && 0 < size <= |s| && s[..size] == PrintItemWith(it, info)
  {
    hide HeadWith, FitsInfo, ReadHead;
    ReadItemParts(s);
    var Read(it, size) := ReadItem(s).value;
    var h := ReadHead(s).value;
    ReadHeadIsExact(s);
    assert s[..size] == s[..h.size] + s[h.size..size];
  }

  lemma ReadItemParts(s: seq<byte>)
    requires ReadItem(s).Some?
    ensures ReadHead(s).Some? && ReadHead(s).value.info != INDEFINITE
    ensures var Read(it, size), h := ReadItem(s).value, ReadHead(s).value;
      && h.major == Major(it) && h.argument == Argument(it) && h.size <= size <= |s|
      && s[h.size..size] == Payload(it) && (it.UInt? ==> it.width == WidthOf(h.info))
  {
    if ReadHead(s).Some? && ReadHead(s).value.info != INDEFINITE {
      ReadHeadArgument(s);
    }
    hide ReadHead;
  }

  lemma OwnIsShortest(it: Item, info: nat)
    requires Legal(it, info)
    ensures ValidItem(it) && |PrintItem(it)| <= |PrintItemWith(it, info)|
    ensures |PrintItem(it)| == |PrintItemWith(it, info)| ==> PrintItem(it) == PrintItemWith(it, info)
  {
    LegalIsValid(it, info);
    hide OwnInfo, Legal;
  }

  lemma ItemIsShortest(s: seq<byte>)
    requires ReadItem(s).Some?
    ensures var r := ReadItem(s).value;
      ValidItem(r.value) && 0 < r.size <= |s| && NoLongerThan(PrintItem(r.value), s, r.size)
  {
    ReadItemIsLegal(s);
    OwnIsShortest(ReadItem(s).value.value, ReadHead(s).value.info);
  }

  // ---------------------------------------------------------------- lists of items

  ghost predicate ValidItems(items: seq<Item>) {
    forall i :: 0 <= i < |items| ==> ValidItem(items[i])
  }

  function PrintItems(items: seq<Item>): seq<byte>
    requires forall i :: 0 <= i < |items| ==> ValidItem(items[i])
  {
    if items == [] then [] else PrintItem(items[0]) + PrintItems(items[1..])
  }

  /** A choice of additional information for each item. */
  predicate LegalAll(items: seq<Item>, infos: seq<nat>) {
    |infos| == |items| && forall i :: 0 <= i < |items| ==> Legal(items[i], infos[i])
  }

  function PrintItemsWith(items: seq<Item>, infos: seq<nat>): seq<byte>
    requires LegalAll(items, infos)
  {
    if items == [] then [] else PrintItemWith(items[0], infos[0]) + PrintItemsWith(items[1..], infos[1..])
  }

  lemma {:induction false} OwnInfos(items: seq<Item>) returns (infos: seq<nat>)
    requires ValidItems(items)
    ensures LegalAll(items, infos) && PrintItemsWith(items, infos) == PrintItems(items)
  {
    hide PrintItemWith, OwnInfo, Legal, ValidItem;
    if items == [] {
      infos := [];
    } else {
      var rest := OwnInfos(items[1..]);
      infos := [OwnInfo(items[0])] + rest;
      assert infos[1..] == rest;
    }
  }

  lemma {:induction false} OwnListIsShortest(items: seq<Item>, infos: seq<nat>)
    requires LegalAll(items, infos)
    ensures ValidItems(items) && |PrintItems(items)| <= |PrintItemsWith(items, infos)|
    ensures |PrintItems(items)| == |PrintItemsWith(items, infos)| ==> PrintItems(items) == PrintItemsWith(items, infos)
  {
    hide PrintItemWith, PrintItem, Legal, ValidItem;
    if items != [] {
      OwnIsShortest(items[0], infos[0]);
      OwnListIsShortest(items[1..], infos[1..]);
    }
  }

  function ReadItems(s: seq<byte>, count: nat): Option<Read<seq<Item>>>
    decreases count
  {
    if count == 0 then Some(Read([], 0))
    else match ReadItem(s)
      case None => None
      case Some(Read(it, size)) =>
        if size > |s| then None
        else match ReadItems(s[size..], count - 1)
          case None => None
          case Some(Read(rest, more)) => Some(Read([it] + rest, size + more))
  }

  const BREAK: byte := 0xff

  function ReadUntilBreak(s: seq<byte>): Option<Read<seq<Item>>>
    decreases |s|
  {
    if s == [] then None
    else if s[0] == BREAK then Some(Read([], 1))
    else match ReadItem(s)
      case None => None
      case Some(Read(it, size)) =>
        if size == 0 || size > |s| then None
        else match ReadUntilBreak(s[size..])
          case None => None
          case Some(Read(rest, more)) => Some(Read([it] + rest, size + more))
  }

  lemma SkipFirst(a: seq<byte>, b: seq<byte>, tail: seq<byte>)
    ensures a + b + tail == a + (b + tail)
    ensures (a + b + tail)[|a|..] == b + tail
  {
  }

  lemma ReadItemsStep(s: seq<byte>, it: Item, size: nat, rest: seq<Item>, more: nat)
    requires ReadItem(s) == Some(Read(it, size)) && size <= |s|
    requires ReadItems(s[size..], |rest|) == Some(Read(rest, more))
    ensures ReadItems(s, 1 + |rest|) == Some(Read([it] + rest, size + more))
  {
    hide ReadItem;
  }

  lemma {:induction false} ItemsReadBackWith(items: seq<Item>, infos: seq<nat>, tail: seq<byte>)
    requires LegalAll(items, infos)
    ensures ReadItems(PrintItemsWith(items, infos) + tail, |items|) == Some(Read(items, |PrintItemsWith(items, infos)|))
  {
    hide ReadItem, PrintItemWith, FitsInfo;
    if items != [] {
      var a, b := PrintItemWith(items[0], infos[0]), PrintItemsWith(items[1..], infos[1..]);
      ItemReadsBackWith(items[0], infos[0], b + tail);
      ItemsReadBackWith(items[1..], infos[1..], tail);
      SkipFirst(a, b, tail);
      ReadItemsStep(a + b + tail, items[0], |a|, items[1..], |b|);
      assert [items[0]] + items[1..] == items;
    }
  }

  lemma InitialIsNoBreak(it: Item, info: nat)
    requires Legal(it, info)
    ensures PrintItemWith(it, info) != [] && PrintItemWith(it, info)[0] != BREAK
  {
  }

  lemma ReadUntilBreakStep(s: seq<byte>, it: Item, size: nat, rest: seq<Item>, more: nat)
    requires s != [] && s[0] != BREAK && ReadItem(s) == Some(Read(it, size)) && 0 < size <= |s|
    requires ReadUntilBreak(s[size..]) == Some(Read(rest, more))
    ensures ReadUntilBreak(s) == Some(Read([it] + rest, size + more))
  {
    hide ReadItem;
  }

  lemma {:induction false} UntilBreakReadsBack(items: seq<Item>, infos: seq<nat>, tail: seq<byte>)
    requires LegalAll(items, infos)
    ensures ReadUntilBreak(PrintItemsWith(items, infos) + ([BREAK] + tail))
         == Some(Read(items, |PrintItemsWith(items, infos)| + 1))
  {
    hide ReadItem, PrintItemWith, FitsInfo;
    var end := [BREAK] + tail;
    if items == [] {
      assert PrintItemsWith(items, infos) + end == end;
    } else {
      var a, b := PrintItemWith(items[0], infos[0]), PrintItemsWith(items[1..], infos[1..]);
      ItemReadsBackWith(items[0], infos[0], b + end);
      InitialIsNoBreak(items[0], infos[0]);
      UntilBreakReadsBack(items[1..], infos[1..], tail);
      SkipFirst(a, b, end);
      ReadUntilBreakStep(a + b + end, items[0], |a|, items[1..], |b| + 1);
      assert [items[0]] + items[1..] == items;
    }
  }

  /** Whatever is read as a list of items is a legal encoding of each of them in turn. */
  lemma {:induction false} ReadItemsAreLegal(s: seq<byte>, count: nat) returns (infos: seq<nat>)
    requires ReadItems(s, count).Some?
    ensures var Read(items, size) := ReadItems(s, count).value;
      |items| == count && size <= |s| && LegalAll(items, infos) && s[..size] == PrintItemsWith(items, infos)
    decreases count
  {
    hide ReadItem, ReadHead, PrintItemWith, Legal;
    infos := [];
    if count > 0 {
      ReadItemIsLegal(s);
      var Read(it, size) := ReadItem(s).value;
      var rest := ReadItemsAreLegal(s[size..], count - 1);
      infos := [ReadHead(s).value.info] + rest;
      var Read(others, more) := ReadItems(s[size..], count - 1).value;
      Together(it, infos[0], others, rest);
      assert s[..size + more] == s[..size] + s[size..][..more];
    }
  }

  lemma {:induction false} ReadUntilBreakIsLegal(s: seq<byte>) returns (infos: seq<nat>)
    requires ReadUntilBreak(s).Some?
    ensures var Read(items, size) := ReadUntilBreak(s).value;
      size <= |s| && LegalAll(items, infos) && s[..size] == PrintItemsWith(items, infos) + [BREAK]
    decreases |s|
  {
    hide ReadItem, ReadHead, PrintItemWith, Legal;
    infos := [];
    if s[0] != BREAK {
      ReadItemIsLegal(s);
      var Read(it, size) := ReadItem(s).value;
      var rest := ReadUntilBreakIsLegal(s[size..]);
      infos := [ReadHead(s).value.info] + rest;
      var Read(others, more) := ReadUntilBreak(s[size..]).value;
      Together(it, infos[0], others, rest);
      assert s[..size + more] == s[..size] + s[size..][..more];
    }
  }

  lemma Together(it: Item, info: nat, items: seq<Item>, infos: seq<nat>)
    requires Legal(it, info) && LegalAll(items, infos)
    ensures LegalAll([it] + items, [info] + infos)
    ensures PrintItemsWith([it] + items, [info] + infos) == PrintItemWith(it, info) + PrintItemsWith(items, infos)
  {
    hide Legal, PrintItemWith;
    assert ([it] + items)[1..] == items && ([info] + infos)[1..] == infos;
  }

  // ---------------------------------------------------------------- arrays

  /** How the array itself is written: a definite head, or an indefinite one that a break ends. */
  datatype Root = Definite(info: nat) | Indefinite

  predicate LegalForm(items: seq<Item>, infos: seq<nat>, root: Root) {
    LegalAll(items, infos) && (root.Definite? ==> root.info < 28 && FitsInfo(root.info, |items|))
  }

  const INDEFINITE_ARRAY: byte := 0x9f

  function PrintArrayWith(items: seq<Item>, infos: seq<nat>, root: Root): seq<byte>
    requires LegalForm(items, infos, root)
  {
    match root
    case Definite(info) => HeadWith(4, info, |items|) + PrintItemsWith(items, infos)
    case Indefinite => [INDEFINITE_ARRAY] + (PrintItemsWith(items, infos) + [BREAK])
  }

  /** `cbor_serialize` of a definite array. */
  function PrintArray(items: seq<Item>): seq<byte>
    requires |items| < TWO_TO_64
    requires forall i :: 0 <= i < |items| ==> ValidItem(items[i])
  {
    Head(4, |items|) + PrintItems(items)
  }

  /** The children of the array at the front of `s`, as `cbor_load` builds them. */
  function ReadArray(s: seq<byte>): Option<Read<seq<Item>>> {
    match ReadHead(s)
    case None => None
    case Some(Initial(major, info, argument, size)) =>
      if major != 4 || size > |s| then None
      else
        var body := if info == INDEFINITE then ReadUntilBreak(s[size..]) else ReadItems(s[size..], argument);
        match body
        case None => None
        case Some(Read(items, more)) => Some(Read(items, size + more))
  }

  lemma DefiniteReadsAs(head: seq<byte>, h: Initial, body: seq<byte>, items: seq<Item>, tail: seq<byte>)
    requires ReadHead(head + (body + tail)) == Some(h)
    requires h.major == 4 && h.info != INDEFINITE && h.argument == |items| && h.size == |head|
    requires ReadItems(body + tail, |items|) == Some(Read(items, |body|))
    ensures ReadArray(head + body + tail) == Some(Read(items, |head| + |body|))
  {
    hide ReadHead, ReadItems, ReadUntilBreak;
    assert head + body + tail == head + (body + tail);
    assert (head + body + tail)[|head|..] == body + tail;
  }

  lemma IndefiniteReadsAs(body: seq<byte>, items: seq<Item>, size: nat)
    requires ReadUntilBreak(body) == Some(Read(items, size))
    ensures ReadArray([INDEFINITE_ARRAY] + body) == Some(Read(items, 1 + size))
  {
    hide ReadItems, ReadUntilBreak;
    assert ([INDEFINITE_ARRAY] + body)[1..] == body;
  }

  /** Every legal form of an array reads as its children, whatever follows. */
  lemma ArrayReadsBackWith(items: seq<Item>, infos: seq<nat>, root: Root, tail: seq<byte>)
    requires LegalForm(items, infos, root)
    ensures ReadArray(PrintArrayWith(items, infos, root) + tail)
         == Some(Read(items, |PrintArrayWith(items, infos, root)|))
  {
    hide ReadItems, ReadUntilBreak, PrintItemsWith, ReadHead, ReadArray, LegalAll, HeadWith;
    var body := PrintItemsWith(items, infos);
    match root {
      case Definite(info) =>
        HeadReadsBack(4, info, |items|, body + tail);
        ItemsReadBackWith(items, infos, tail);
        DefiniteReadsAs(HeadWith(4, info, |items|), Initial(4, info, |items|, 1 + Following(info)), body, items, tail);
      case Indefinite =>
        UntilBreakReadsBack(items, infos, tail);
        IndefiniteReadsAs(body + ([BREAK] + tail), items, |body| + 1);
        assert PrintArrayWith(items, infos, root) + tail == [INDEFINITE_ARRAY] + (body + ([BREAK] + tail));
    }
  }

  /** Whatever is read as an array is a legal form of it. */
  lemma ReadArrayIsLegal(s: seq<byte>) returns (infos: seq<nat>, root: Root)
    requires ReadArray(s).Some?
    ensures var Read(items, size) := ReadArray(s).value;
      0 < size <= |s| && LegalForm(items, infos, root) && s[..size] == PrintArrayWith(items, infos, root)
  {
    hide ReadItems, ReadUntilBreak, PrintItemsWith, LegalAll;
    var h := ReadHead(s).value;
    var Read(items, size) := ReadArray(s).value;
    if h.info == INDEFINITE {
      infos := ReadUntilBreakIsLegal(s[1..]);
      root := Indefinite;
      assert s[0] == INDEFINITE_ARRAY;
      assert s[..size] == [s[0]] + s[1..][..size - 1];
    } else {
      ReadHeadIsExact(s);
      infos := ReadItemsAreLegal(s[h.size..], h.argument);
      root := Definite(h.info);
      assert s[..size] == s[..h.size] + s[h.size..][..size - h.size];
    }
  }

  /** The reader accepts exactly the legal forms: any choice of heads, a definite or an indefinite
      root, and any bytes after it. */
  lemma ReadsExactlyTheLegalForms(s: seq<byte>, items: seq<Item>, size: nat)
    ensures ReadArray(s) == Some(Read(items, size)) <==>
      size <= |s|
      && exists infos, root :: LegalForm(items, infos, root) && s[..size] == PrintArrayWith(items, infos, root)
  {
    hide ReadArray, PrintArrayWith, LegalForm;
    if ReadArray(s) == Some(Read(items, size)) {
      var infos, root := ReadArrayIsLegal(s);
    }
    if size <= |s| {
      forall infos, root | LegalForm(items, infos, root) && s[..size] == PrintArrayWith(items, infos, root)
        ensures ReadArray(s) == Some(Read(items, size))
      {
        ArrayReadsBackWith(items, infos, root, s[size..]);
        assert s == s[..size] + s[size..];
      }
    }
  }

  lemma ReadArrayIsValid(s: seq<byte>)
    requires ReadArray(s).Some?
    ensures ValidItems(ReadArray(s).value.value) && 0 < ReadArray(s).value.size <= |s|
  {
    hide ReadArray, PrintArrayWith;
    var infos, root := ReadArrayIsLegal(s);
    OwnListIsShortest(ReadArray(s).value.value, infos);
  }

  lemma ArrayReadsBack(items: seq<Item>, tail: seq<byte>)
    requires ValidItems(items) && |items| < TWO_TO_64
    ensures ReadArray(PrintArray(items) + tail) == Some(Read(items, |PrintArray(items)|))
  {
    hide ReadArray, HeadWith, PrintItems, PrintItemsWith, LegalAll;
    var infos := OwnInfos(items);
    ArrayReadsBackWith(items, infos, Definite(ShortestInfo(|items|)), tail);
  }

  /** The definite array printed for fewer than 24 children never exceeds the bytes they were read
      from, however those bytes chose their heads, and equals them when as long. */
  lemma ArrayIsShortest(s: seq<byte>)
    requires ReadArray(s).Some? && |ReadArray(s).value.value| < 24
    ensures var r := ReadArray(s).value;
      ValidItems(r.value) && NoLongerThan(PrintArray(r.value), s, r.size)
  {
    hide ReadArray, PrintItems, PrintItemsWith, LegalAll, ValidItem;
    var Read(items, size) := ReadArray(s).value;
    var infos, root := ReadArrayIsLegal(s);
    OwnListIsShortest(items, infos);
    if root.Definite? {
      ShortestInfoIsUnique(root.info, |items|);
    }
  }

  /** Fewer than 24 children are also necessary: from 24 on the indefinite form is no longer, and
      differs in its first byte. */
  lemma ShortestExactlyBelow24(items: seq<Item>)
    requires ValidItems(items) && |items| < TWO_TO_64
    ensures |items| < 24 <==>
      forall s :: ReadArray(s).Some? && ReadArray(s).value.value == items ==>
        NoLongerThan(PrintArray(items), s, ReadArray(s).value.size)
  {
    hide ReadArray, PrintArray, ValidItem;
    if |items| < 24 {
      forall s | ReadArray(s).Some? && ReadArray(s).value.value == items
        ensures NoLongerThan(PrintArray(items), s, ReadArray(s).value.size)
      {
        ArrayIsShortest(s);
      }
    } else {
      var s := [INDEFINITE_ARRAY] + (PrintItems(items) + [BREAK]);
      IndefiniteIsAsShort(items);
      assert ReadArray(s) == Some(Read(items, |s|));
      assert !NoLongerThan(PrintArray(items), s, |s|);
    }
  }

  lemma IndefiniteIsAsShort(items: seq<Item>)
    requires ValidItems(items) && 24 <= |items| < TWO_TO_64
    ensures var s := [0x9f] + (PrintItems(items) + [0xff]);
      ReadArray(s) == Some(Read(items, |s|)) && !NoLongerThan(PrintArray(items), s, |s|)
  {
    hide ReadArray, PrintItems, PrintItemsWith, LegalAll;
    var infos := OwnInfos(items);
    var s := PrintArrayWith(items, infos, Indefinite);
    ArrayReadsBackWith(items, infos, Indefinite, []);
    assert s + [] == s && s[..|s|] == s;
    assert PrintArray(items)[0] != s[0];
  }
}
