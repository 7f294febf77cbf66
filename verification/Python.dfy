/** The pieces of Python that the vector generator uses: byte strings, CBOR, transcripts and HKDF. */
module Python {
  import opened Wrappers
  import opened Bytes
  import opened Cbor
  import opened Crypto
  import opened Transcript

  datatype PythonError = AssertionError | OverflowError | ValueError

  type Py<+T> = Result<T, PythonError>

  /** `b"".join(parts)` */
  function Join(parts: seq<Bytes>): Bytes
  {
    if parts == [] then [] else parts[0] + Join(parts[1..])
  }

  /** A list display whose elements are evaluated in order; the first exception ends it. */
  function Collect(values: seq<Py<Bytes>>): Py<seq<Bytes>>
  {
    if values == [] then Ok([]) else
    var first :- values[0];
    var rest :- Collect(values[1..]);
    Ok([first] + rest)
  }

  lemma {:induction false} CollectOk(values: seq<Py<Bytes>>, xs: seq<Bytes>)
    requires |values| == |xs| && forall i | 0 <= i < |xs| :: values[i] == Ok(xs[i])
    ensures Collect(values) == Ok(xs)
  {
    if values != [] {
      CollectOk(values[1..], xs[1..]);
      assert xs == [xs[0]] + xs[1..];
    }
  }

  function ToBytes(n: nat, width: nat): Py<Bytes>
  {
    if n >= Pow256(width) then Err(OverflowError) else Ok(BigEndian(n, width))
  }

  /** `bytes([n])` */
  function OneByte(n: nat): Py<Bytes>
  {
    if n >= 256 then Err(ValueError) else Ok([n])
  }

  function WithLength(field: Bytes): Py<Bytes>
  {
    var length :- ToBytes(|field|, 4);
    Ok(length + field)
  }

  /** The generator's `transcript`. */
  function PyTranscript(fields: seq<Bytes>): Py<Bytes>
  {
    if |fields| > 32 then Err(AssertionError) else
    var count :- ToBytes(|fields|, 4);
    var parts :- Collect(seq(|fields|, i requires 0 <= i < |fields| => WithLength(fields[i])));
    Ok(count + Join(parts))
  }

  function LengthPrefixed(fields: seq<Bytes>): (parts: seq<Bytes>)
    ensures |parts| == |fields|
  {
    seq(|fields|, i requires 0 <= i < |fields| => U32(|fields[i]|) + fields[i])
  }

  lemma {:induction false} JoinIsFraming(fields: seq<Bytes>)
    ensures Join(LengthPrefixed(fields)) == FrameFields(fields)
  {
    if fields != [] {
      JoinIsFraming(fields[1..]);
      assert LengthPrefixed(fields)[1..] == LengthPrefixed(fields[1..]);
    }
  }

  /** Both implementations frame a list of fields in the same way. */
  lemma TranscriptsAgree(fields: seq<Bytes>)
    requires Framable(fields)
    ensures PyTranscript(fields) == Ok(Frame(fields))
  {
    WordSizes();
    JoinIsFraming(fields);
    hide BigEndian, Join, FrameFields, Pow256;
    CollectOk(seq(|fields|, i requires 0 <= i < |fields| => WithLength(fields[i])), LengthPrefixed(fields));
  }

  // ----- CBOR -----

  function CborHead(major: nat, value: nat): Py<Bytes>
  {
    if major > 7 then Err(AssertionError)
    else if value < 24 then OneByte(32 * major + value)
    else if value < 0x100 then Ok([32 * major + 24, value])
    else if value < 0x1_0000 then Ok([32 * major + 25] + BigEndian(value, 2))
    else if value < U32_END then Ok([32 * major + 26] + BigEndian(value, 4))
    else if value < U64_END then Ok([32 * major + 27] + BigEndian(value, 8))
    else Err(ValueError)
  }

  /** The generator writes the same shortest heads. */
  lemma HeadsAgree(major: nat, value: nat)
    requires major < 8
    ensures CborHead(major, value) == if value < U64_END then Ok(Head(major, value)) else Err(ValueError)
  {
    assert BigEndian(value, 1) == BigEndian(value / 256, 0) + [value % 256] == [value % 256];
    if 24 <= value < 0x100 {
      assert [32 * major + 24, value] == [32 * major + 24] + [value];
    }
  }

  function CborUint(value: nat): Py<Bytes>
  {
    CborHead(0, value)
  }

  function CborBytes(value: Bytes): Py<Bytes>
  {
    var head :- CborHead(2, |value|);
    Ok(head + value)
  }

  function CborText(value: Bytes): Py<Bytes>
  {
    var head :- CborHead(3, |value|);
    Ok(head + value)
  }

  function CborArray(values: seq<Py<Bytes>>): Py<Bytes>
  {
    var parts :- Collect(values);
    var head :- CborHead(4, |parts|);
    Ok(head + Join(parts))
  }

  /** What the generator calls for one item that is no array. */
  function CborValue(i: Item): Py<Bytes>
    requires !i.Array?
  {
    match i
    case UInt(n) => CborUint(n)
    case Blob(b) => CborBytes(b)
    case Text(t) => CborText(t)
  }

  lemma ValuesAgree(i: Item)
    requires !i.Array? && i.Fits()
    ensures CborValue(i) == Ok(EncodeItems([i]))
  {
    HeadsAgree(i.Major(), i.Argument());
    hide Head, CborHead;
    Unfold([i]);
    assert [i][1..] == [] && EncodeItems([]) == [];
    var head := Head(i.Major(), i.Argument());
    assert EncodeItem(i) == head + i.Payload();
    assert EncodeItem(i) + [] == EncodeItem(i) && head + [] == head;
  }

  function Encodings(groups: seq<seq<Item>>): (parts: seq<Bytes>)
    ensures |parts| == |groups|
  {
    seq(|groups|, i requires 0 <= i < |groups| => EncodeItems(groups[i]))
  }

  lemma {:induction false} JoinIsEncoding(groups: seq<seq<Item>>)
    ensures Join(Encodings(groups)) == EncodeItems(Flatten(groups))
  {
    if groups == [] {
      assert Flatten(groups) == [] && EncodeItems([]) == [];
    } else {
      JoinIsEncoding(groups[1..]);
      FlattenUnfold(groups);
      hide EncodeItems, Flatten;
      EncodeItemsConcat(groups[0], Flatten(groups[1..]));
      assert Encodings(groups)[1..] == Encodings(groups[1..]);
    }
  }

  /** Each value is the encoding of its group of items. */
  ghost predicate Encodes(values: seq<Py<Bytes>>, groups: seq<seq<Item>>)
  {
    |values| == |groups| && forall i | 0 <= i < |groups| :: values[i] == Ok(EncodeItems(groups[i]))
  }

  lemma EncodesConcat(x: seq<Py<Bytes>>, a: seq<seq<Item>>, y: seq<Py<Bytes>>, b: seq<seq<Item>>)
    requires Encodes(x, a) && Encodes(y, b)
    ensures Encodes(x + y, a + b)
  {
    hide EncodeItems;
    forall i | 0 <= i < |a + b|
      ensures (x + y)[i] == Ok(EncodeItems((a + b)[i]))
    {
      if i >= |a| {
        assert (a + b)[i] == b[i - |a|] && (x + y)[i] == y[i - |a|];
      }
    }
  }

  /** A nested array is written as one flat list of items. */
  lemma ArraysAgree(values: seq<Py<Bytes>>, groups: seq<seq<Item>>)
    requires Encodes(values, groups) && |groups| < U64_END
    ensures CborArray(values) == Ok(EncodeItems([Array(|groups|)] + Flatten(groups)))
  {
    CollectOk(values, Encodings(groups));
    JoinIsEncoding(groups);
    HeadsAgree(ARRAY, |groups|);
    Unfold([Array(|groups|)] + Flatten(groups));
    hide EncodeItems, Flatten, Join, Collect, Head, CborHead;
    assert ([Array(|groups|)] + Flatten(groups))[1..] == Flatten(groups);
    assert EncodeItem(Array(|groups|)) == Head(ARRAY, |groups|) by {
      assert Head(ARRAY, |groups|) + [] == Head(ARRAY, |groups|);
    }
  }

  function Singles(items: seq<Item>): (groups: seq<seq<Item>>)
    ensures |groups| == |items|
  {
    seq(|items|, i requires 0 <= i < |items| => [items[i]])
  }

  lemma {:induction false} FlattenSingles(items: seq<Item>)
    ensures Flatten(Singles(items)) == items
  {
    if items != [] {
      FlattenSingles(items[1..]);
      assert Singles(items)[1..] == Singles(items[1..]);
      assert items == [items[0]] + items[1..];
    }
  }

  /** The values of a list of plain items. */
  function CborValues(items: seq<Item>): (values: seq<Py<Bytes>>)
    requires forall i | 0 <= i < |items| :: !items[i].Array?
    ensures |values| == |items|
  {
    seq(|items|, i requires 0 <= i < |items| => CborValue(items[i]))
  }

  lemma FlattenNested(front: seq<Item>, nested: seq<Item>, back: seq<Item>)
    ensures Flatten(Singles(front) + [nested] + Singles(back)) == front + nested + back
  {
    FlattenUnfold([nested]);
    assert [nested][1..] == [] && Flatten([]) == [];
    assert Flatten([nested]) == nested + [] == nested;
    FlattenConcat(Singles(front) + [nested], Singles(back));
    FlattenConcat(Singles(front), [nested]);
    FlattenSingles(front);
    FlattenSingles(back);
  }

  lemma PlainValues(items: seq<Item>)
    requires forall i | 0 <= i < |items| :: !items[i].Array? && items[i].Fits()
    ensures Encodes(CborValues(items), Singles(items))
  {
    hide EncodeItems, CborValue;
    forall i | 0 <= i < |items|
      ensures CborValues(items)[i] == Ok(EncodeItems(Singles(items)[i]))
    {
      ValuesAgree(items[i]);
    }
  }

  lemma EncodesAround(x: seq<Py<Bytes>>, a: seq<seq<Item>>, middle: Py<Bytes>, nested: seq<Item>, y: seq<Py<Bytes>>,
                      b: seq<seq<Item>>)
    requires Encodes(x, a) && Encodes(y, b) && middle == Ok(EncodeItems(nested))
    ensures Encodes(x + [middle] + y, a + [nested] + b)
  {
    assert Encodes([middle], [nested]);
    hide Encodes, EncodeItems;
    EncodesConcat(x, a, [middle], [nested]);
    EncodesConcat(x + [middle], a + [nested], y, b);
  }

  /** An array of plain items, one nested array, and plain items again. */
  lemma NestedArrayAgrees(front: seq<Item>, nested: seq<Item>, back: seq<Item>, middle: Py<Bytes>, items: seq<Item>, n: nat)
    requires forall i | 0 <= i < |front| :: !front[i].Array? && front[i].Fits()
    requires forall i | 0 <= i < |back| :: !back[i].Array? && back[i].Fits()
    requires middle == Ok(EncodeItems(nested)) && n == |front| + 1 + |back| < U64_END
    requires items == front + nested + back
    ensures CborArray(CborValues(front) + [middle] + CborValues(back)) == Ok(EncodeItems([Array(n)] + items))
  {
    PlainValues(front);
    PlainValues(back);
    EncodesAround(CborValues(front), Singles(front), middle, nested, CborValues(back), Singles(back));
    FlattenNested(front, nested, back);
    hide Encodes, EncodeItems, CborArray, CborValues, Singles, Flatten;
    Finish(CborValues(front) + [middle] + CborValues(back), Singles(front) + [nested] + Singles(back), items, n);
  }

  lemma Finish(values: seq<Py<Bytes>>, groups: seq<seq<Item>>, items: seq<Item>, n: nat)
    requires Encodes(values, groups) && Flatten(groups) == items && |groups| == n < U64_END
    ensures CborArray(values) == Ok(EncodeItems([Array(n)] + items))
  {
    hide *;
    ArraysAgree(values, groups);
  }

  lemma PlainArrayAgrees(items: seq<Item>)
    requires |items| < U64_END && forall i | 0 <= i < |items| :: !items[i].Array? && items[i].Fits()
    ensures CborArray(CborValues(items)) == Ok(EncodeItems([Array(|items|)] + items))
  {
    hide EncodeItems, CborArray, CborValue;
    PlainValues(items);
    ArraysAgree(CborValues(items), Singles(items));
    FlattenSingles(items);
  }

  // ----- HKDF -----

  /** Block `n` of HKDF-Expand (section 2.3 of RFC 5869). */
  function Block(p: Primitives, prk: Bytes32, info: Bytes, n: nat): Bytes
    requires n < 256
  {
    if n == 0 then [] else p.hmac(prk, Block(p, prk, info, n - 1) + info + [n])
  }

  function Blocks(p: Primitives, prk: Bytes32, info: Bytes, n: nat): (okm: Bytes)
    requires n < 256
    ensures |okm| == 32 * n
  {
    if n == 0 then [] else Blocks(p, prk, info, n - 1) + Block(p, prk, info, n)
  }

  /** HKDF-SHA-256 as the generator spells it out over HMAC. */
  method HkdfSha256(p: Primitives, ikm: Bytes, salt: Option<Bytes>, info: Bytes, length: nat) returns (r: Py<Bytes>)
    ensures r.Ok? <==> length <= 255 * 32
    ensures r.Ok? ==>
              var prk := p.hmac(if salt.Some? then salt.value else Zeros(32), ikm);
              var n := (length + 31) / 32;
              r.value == Blocks(p, prk, info, n)[..length]
  {
    hide PrimitiveSet.Sized;
    var effective := if salt.Some? then salt.value else Zeros(32);
    var prk := p.hmac(effective, ikm);
    var output: Bytes := [];
    var previous: Bytes := [];
    var counter := 1;
    while |output| < length
      invariant 1 <= counter <= 256
      invariant output == Blocks(p, prk, info, counter - 1) && previous == Block(p, prk, info, counter - 1)
      invariant |output| < length + 32
      decreases 256 - counter
    {
      var tail := OneByte(counter);
      if tail.Err? {
        return Err(tail.error);
      }
      previous := p.hmac(prk, previous + info + tail.value);
      output := output + previous;
      counter := counter + 1;
    }
    return Ok(output[..length]);
  }

  /** The library's HKDF is the one of RFC 5869 over the same HMAC; 32 bytes are one block. */
  ghost predicate HkdfFollowsRfc(p: Primitives)
  {
    forall salt, ikm, info :: p.hkdf(salt, ikm, info) == p.hmac(p.hmac(salt, ikm), info + [1])
  }

  method DeriveKey(p: Primitives, ikm: Bytes, salt: Bytes, info: Bytes) returns (key: Bytes32)
    requires HkdfFollowsRfc(p)
    ensures key == p.hkdf(salt, ikm, info)
  {
    hide PrimitiveSet.Sized;
    var r := HkdfSha256(p, ikm, Some(salt), info, 32);
    key := r.value;
    var prk := p.hmac(salt, ikm);
    assert Blocks(p, prk, info, 1) == Blocks(p, prk, info, 0) + Block(p, prk, info, 1);
    assert Block(p, prk, info, 1) == p.hmac(prk, Block(p, prk, info, 0) + info + [1]);
    assert Block(p, prk, info, 0) + info + [1] == info + [1];
  }
}
