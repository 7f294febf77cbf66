/**
 The CBOR subset of the envelope format: heads as in section 3 of RFC 8949,
 written in the shortest form of section 4.2.1 and read in any width.

 A record is written as a flat list of items, an array head being one item;
 unique decodability is then one fact about lists of items.
 */
module Cbor {
  import opened Wrappers
  import opened Bytes

  const UINT := 0
  const BYTES := 2
  const TEXT := 3
  const ARRAY := 4

  /** The shortest head for a major type and its argument. */
  function Head(major: nat, n: nat): (b: Bytes)
    requires major < 8
    ensures |b| == HeadSize(n)
  {
    if n < 24 then [32 * major + n]
    else if n < 0x100 then [32 * major + 24] + BigEndian(n, 1)
    else if n < 0x1_0000 then [32 * major + 25] + BigEndian(n, 2)
    else if n < U32_END then [32 * major + 26] + BigEndian(n, 4)
    else [32 * major + 27] + BigEndian(n, 8)
  }

  function HeadSize(n: nat): nat
  {
    if n < 24 then 1 else if n < 0x100 then 2 else if n < 0x1_0000 then 3 else if n < U32_END then 5 else 9
  }

  /** One head as read: an indefinite length has no argument. */
  datatype HeadRead = HeadRead(major: nat, argument: Option<nat>, size: nat)

  /** Reads a head of any width, shortest or not; reserved forms and truncation fail. */
  function ReadHead(b: Bytes): (h: Option<HeadRead>)
    ensures h.Some? ==> 1 <= h.value.size <= |b|
  {
    if b == [] then None else
    var major, info := b[0] / 32, b[0] % 32;
    if info < 24 then Some(HeadRead(major, Some(info), 1))
    else if info == 31 then Some(HeadRead(major, None, 1))
    else if info >= 28 then None
    else
      var width := if info == 24 then 1 else if info == 25 then 2 else if info == 26 then 4 else 8;
      if |b| < 1 + width then None
      else Some(HeadRead(major, Some(FromBigEndian(b[1..1 + width])), 1 + width))
  }

  lemma ShortestHeadReads(major: nat, n: nat, rest: Bytes)
    requires major < 8 && n < U64_END
    ensures ReadHead(Head(major, n) + rest) == Some(HeadRead(major, Some(n), HeadSize(n)))
  {
    WordSizes();
    if n < 24 {
    } else if n < 0x100 {
      WideHeadReads(major, 24, n, 1, rest);
    } else if n < 0x1_0000 {
      WideHeadReads(major, 25, n, 2, rest);
    } else if n < U32_END {
      WideHeadReads(major, 26, n, 4, rest);
    } else {
      WideHeadReads(major, 27, n, 8, rest);
    }
  }

  /** A head of any width reads back, whether or not a shorter one would do. */
  lemma WideHeadReads(major: nat, info: nat, n: nat, width: nat, rest: Bytes)
    requires major < 8 && 24 <= info <= 27 && width == [1, 2, 4, 8][info - 24] && n < Pow256(width)
    ensures ReadHead([32 * major + info] + BigEndian(n, width) + rest) == Some(HeadRead(major, Some(n), 1 + width))
  {
    ReadsBack(n, width);
    FirstByte(major, info);
    hide BigEndian, FromBigEndian, Pow256;
    AfterFirst(32 * major + info, BigEndian(n, width), rest);
  }

  lemma FirstByte(major: nat, info: nat)
    requires info < 32
    ensures (32 * major + info) / 32 == major && (32 * major + info) % 32 == info
  {
  }

  lemma AfterFirst(first: byte, argument: Bytes, rest: Bytes)
    ensures ([first] + argument + rest)[0] == first && ([first] + argument + rest)[1..1 + |argument|] == argument
  {
  }

  datatype Item = UInt(n: nat) | Blob(bytes: Bytes) | Text(text: Bytes) | Array(length: nat)
  {
    /** The argument the head of this item carries. */
    function Argument(): nat {
      match this
      case UInt(n) => n
      case Blob(b) => |b|
      case Text(t) => |t|
      case Array(k) => k
    }

    function Major(): (m: nat)
      ensures m < 8
    {
      match this
      case UInt(_) => UINT
      case Blob(_) => BYTES
      case Text(_) => TEXT
      case Array(_) => ARRAY
    }

    function Payload(): Bytes {
      match this
      case Blob(b) => b
      case Text(t) => t
      case _ => []
    }

    /** The argument fits the eight-byte head. */
    predicate Fits() {
      Argument() < U64_END
    }
  }

  function EncodeItem(i: Item): (b: Bytes)
    ensures |b| == HeadSize(i.Argument()) + |i.Payload()|
  {
    Head(i.Major(), i.Argument()) + i.Payload()
  }

  function EncodeItems(items: seq<Item>): Bytes
  {
    if items == [] then [] else EncodeItem(items[0]) + EncodeItems(items[1..])
  }

  function Flatten(groups: seq<seq<Item>>): seq<Item>
  {
    if groups == [] then [] else groups[0] + Flatten(groups[1..])
  }

  lemma FlattenUnfold(groups: seq<seq<Item>>)
    requires groups != []
    ensures Flatten(groups) == groups[0] + Flatten(groups[1..])
  {
  }

  lemma {:induction false} FlattenConcat(xs: seq<seq<Item>>, ys: seq<seq<Item>>)
    ensures Flatten(xs + ys) == Flatten(xs) + Flatten(ys)
  {
    if xs == [] {
      assert xs + ys == ys;
    } else {
      FlattenConcat(xs[1..], ys);
      assert (xs + ys)[0] == xs[0] && (xs + ys)[1..] == xs[1..] + ys;
      FlattenUnfold(xs + ys);
      FlattenUnfold(xs);
      hide Flatten;
      ConcatAssociative(xs[0], Flatten(xs[1..]), Flatten(ys));
    }
  }

  ghost predicate AllFit(items: seq<Item>)
  {
    forall i | 0 <= i < |items| :: items[i].Fits()
  }

  lemma Unfold(items: seq<Item>)
    requires items != []
    ensures EncodeItems(items) == EncodeItem(items[0]) + EncodeItems(items[1..])
  {
  }

  lemma {:induction false} EncodeItemsConcat(xs: seq<Item>, ys: seq<Item>)
    ensures EncodeItems(xs + ys) == EncodeItems(xs) + EncodeItems(ys)
  {
    if xs == [] {
      assert xs + ys == ys;
    } else {
      EncodeItemsConcat(xs[1..], ys);
      Unfold(xs + ys);
      Unfold(xs);
      hide EncodeItem, EncodeItems;
      assert (xs + ys)[0] == xs[0] && (xs + ys)[1..] == xs[1..] + ys;
      ConcatAssociative(EncodeItem(xs[0]), EncodeItems(xs[1..]), EncodeItems(ys));
    }
  }

  /** One item can be cut off the front of a byte string in one way only. */
  lemma ItemUnambiguous(i: Item, j: Item, x: Bytes, y: Bytes)
    requires i.Fits() && j.Fits()
    requires EncodeItem(i) + x == EncodeItem(j) + y
    ensures i == j && x == y
  {
    hide Head, ReadHead;
    var hi, hj := Head(i.Major(), i.Argument()), Head(j.Major(), j.Argument());
    ConcatAssociative(hi, i.Payload(), x);
    ConcatAssociative(hj, j.Payload(), y);
    ShortestHeadReads(i.Major(), i.Argument(), i.Payload() + x);
    ShortestHeadReads(j.Major(), j.Argument(), j.Payload() + y);
    SameCut(hi, hj, i.Payload() + x, j.Payload() + y);
    SameCut(i.Payload(), j.Payload(), x, y);
  }

  /** If one encoded list is a prefix of another, so is the list itself. */
  lemma {:induction false} ItemsUnambiguous(xs: seq<Item>, ys: seq<Item>, rest: Bytes)
    requires AllFit(xs) && AllFit(ys)
    requires EncodeItems(xs) + rest == EncodeItems(ys)
    ensures xs <= ys && rest == EncodeItems(ys[|xs|..])
  {
    if xs == [] {
    } else {
      assert ys != [];
      Unfold(xs);
      Unfold(ys);
      hide EncodeItem, EncodeItems;
      ConcatAssociative(EncodeItem(xs[0]), EncodeItems(xs[1..]), rest);
      ItemUnambiguous(xs[0], ys[0], EncodeItems(xs[1..]) + rest, EncodeItems(ys[1..]));
      ItemsUnambiguous(xs[1..], ys[1..], rest);
      assert ys[1..][|xs[1..]|..] == ys[|xs|..];
      assert xs == [xs[0]] + xs[1..] && ys == [ys[0]] + ys[1..];
    }
  }

  /** A buffer that items are appended to; `written` records which. */
  class Encoder {
    var output: Bytes
    ghost var written: seq<Item>

    ghost predicate Valid()
      reads this
    {
      output == EncodeItems(written)
    }

    constructor ()
      ensures Valid() && written == []
    {
      output := [];
      written := [];
    }

    method Put(i: Item)
      requires Valid()
      modifies this
      ensures Valid() && written == old(written) + [i]
    {
      EncodeItemsConcat(written, [i]);
      assert EncodeItems([i]) == EncodeItem(i);
      output := output + Head(i.Major(), i.Argument());
      output := output + i.Payload();
      written := written + [i];
    }
  }

  // ----- reading -----

  /** The argument of a definite head of the given type, and where it ends. */
  function TakeHead(input: Bytes, position: nat, major: nat): (r: Option<(nat, nat)>)
    requires position <= |input|
    ensures r.Some? ==> position < r.value.1 <= |input|
  {
    var h := ReadHead(input[position..]);
    if h.Some? && h.value.major == major && h.value.argument.Some?
    then Some((h.value.argument.value, position + h.value.size)) else None
  }

  /** An unsigned integer no larger than `max`, of any width. */
  function TakeUInt(input: Bytes, position: nat, max: nat): (r: Option<(nat, nat)>)
    requires position <= |input|
    ensures r.Some? ==> r.value.0 <= max && position < r.value.1 <= |input|
  {
    var h := TakeHead(input, position, UINT);
    if h.Some? && h.value.0 <= max then h else None
  }

  /** A definite string of the given type. */
  function TakeString(input: Bytes, position: nat, major: nat): (r: Option<(Bytes, nat)>)
    requires position <= |input|
    ensures r.Some? ==> position < r.value.1 <= |input|
  {
    var h := TakeHead(input, position, major);
    if h.Some? && h.value.0 <= |input| - h.value.1
    then Some((input[h.value.1..h.value.1 + h.value.0], h.value.1 + h.value.0)) else None
  }

  /** From `position` on, `input` is the encoding of `items` from item `k` on. */
  ghost predicate Faces(input: Bytes, position: nat, items: seq<Item>, k: nat)
  {
    position <= |input| && k <= |items| && AllFit(items) && input[position..] == EncodeItems(items[k..])
  }

  /** What each read yields when it faces an item, and what it faces next. */
  lemma ReadsItem(input: Bytes, position: nat, items: seq<Item>, k: nat)
    requires Faces(input, position, items, k) && k < |items|
    ensures var i := items[k];
            var start := position + HeadSize(i.Argument());
            var next := start + |i.Payload()|;
            && TakeHead(input, position, i.Major()) == Some((i.Argument(), start))
            && next <= |input| && input[start..next] == i.Payload()
            && Faces(input, next, items, k + 1)
  {
    var i, after := items[k], EncodeItems(items[k + 1..]);
    assert items[k..][0] == i && items[k..][1..] == items[k + 1..];
    Unfold(items[k..]);
    hide ReadHead, Head, EncodeItems;
    var head, rest := Head(i.Major(), i.Argument()), input[position..];
    ConcatAssociative(head, i.Payload(), after);
    ShortestHeadReads(i.Major(), i.Argument(), i.Payload() + after);
    SameCut(head, rest[..|head|], i.Payload() + after, rest[|head|..]);
    NestedSlices(input, position, |head|, |i.Payload()|);
    SameCut(i.Payload(), rest[|head|..][..|i.Payload()|], after, rest[|head|..][|i.Payload()|..]);
  }

  /** A cursor over untrusted input. */
  class Decoder {
    const input: Bytes
    var position: nat

    ghost predicate Valid()
      reads this
    {
      position <= |input|
    }

    ghost predicate Facing(items: seq<Item>, k: nat)
      reads this
    {
      Faces(input, position, items, k)
    }

    constructor (input: Bytes)
      ensures Valid() && this.input == input && position == 0
    {
      this.input := input;
      position := 0;
    }

    /** The ghost `items` and `k` are what the input may be facing; they play no part in the result. */
    method UInt(max: nat, ghost items: seq<Item>, ghost k: nat) returns (n: Option<nat>)
      requires Valid()
      modifies this`position
      ensures Valid()
      ensures var t := TakeUInt(input, old(position), max);
              if t.Some? then n == Some(t.value.0) && position == t.value.1 else n == None && position == old(position)
      ensures old(Facing(items, k)) && k < |items| && items[k].UInt? && items[k].n <= max
              ==> n == Some(items[k].n) && Facing(items, k + 1)
    {
      if Facing(items, k) && k < |items| { ReadsItem(input, position, items, k); }
      hide Faces, TakeHead;
      var t := TakeUInt(input, position, max);
      if t.Some? {
        position := t.value.1;
        return Some(t.value.0);
      }
      return None;
    }

    /** Reads an array head; an indefinite array is refused. */
    method ArrayLength(ghost items: seq<Item>, ghost k: nat) returns (n: Option<nat>)
      requires Valid()
      modifies this`position
      ensures Valid()
      ensures var t := TakeHead(input, old(position), ARRAY);
              if t.Some? then n == Some(t.value.0) && position == t.value.1 else n == None && position == old(position)
      ensures old(Facing(items, k)) && k < |items| && items[k].Array?
              ==> n == Some(items[k].length) && Facing(items, k + 1)
    {
      if Facing(items, k) && k < |items| { ReadsItem(input, position, items, k); }
      hide Faces, TakeHead;
      var t := TakeHead(input, position, ARRAY);
      if t.Some? {
        position := t.value.1;
        return Some(t.value.0);
      }
      return None;
    }

    method String(major: nat, ghost items: seq<Item>, ghost k: nat) returns (s: Option<Bytes>)
      requires Valid()
      requires major == BYTES || major == TEXT
      modifies this`position
      ensures Valid()
      ensures var t := TakeString(input, old(position), major);
              if t.Some? then s == Some(t.value.0) && position == t.value.1 else s == None && position == old(position)
      ensures old(Facing(items, k)) && k < |items| && items[k].Major() == major
              ==> s == Some(items[k].Payload()) && Facing(items, k + 1)
    {
      if Facing(items, k) && k < |items| { ReadsItem(input, position, items, k); }
      hide Faces, TakeHead;
      var t := TakeString(input, position, major);
      if t.Some? {
        position := t.value.1;
        return Some(t.value.0);
      }
      return None;
    }
  }
}
