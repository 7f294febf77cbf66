/** Application identities and recipient identities. */
module Identity {
  import opened Wrappers
  import opened Errors
  import opened Bytes

  const DOT: byte := 0x2e
  const HYPHEN: byte := 0x2d

  predicate IsDigit(c: byte) { 0x30 <= c <= 0x39 }

  predicate IsLower(c: byte) { 0x61 <= c <= 0x7a }

  predicate IsUpper(c: byte) { 0x41 <= c <= 0x5a }

  predicate IsAlphanumeric(c: byte) { IsDigit(c) || IsLower(c) || IsUpper(c) }

  /** The pieces of `value` between its dots; there is always at least one. */
  function SplitAtDots(value: Bytes): (labels: seq<Bytes>)
    ensures |labels| >= 1
  {
    if value == [] then [[]]
    else
      var tail := SplitAtDots(value[1..]);
      if value[0] == DOT then [[]] + tail else [[value[0]] + tail[0]] + tail[1..]
  }

  predicate LabelAllowed(piece: Bytes)
  {
    && 1 <= |piece| <= 63
    && IsAlphanumeric(piece[0])
    && IsAlphanumeric(piece[|piece| - 1])
    && forall i | 0 <= i < |piece| :: IsLower(piece[i]) || IsDigit(piece[i]) || piece[i] == HYPHEN
  }

  /** Validates the labels one after another, as they are cut off. */
  method CheckApplicationId(value: Bytes) returns (r: Outcome<Bytes>)
    ensures r == if DnsShaped(value) then Ok(value) else Err(InvalidApplicationId)
  {
    ghost var pieces := SplitAtDots(value);
    SplitShape(value);
    if !(3 <= |value| <= 253) {
      return Err(InvalidApplicationId);
    }
    var labels := SplitAtDots(value);
    var count := 0;
    while count < |labels|
      invariant 0 <= count <= |labels|
      invariant forall j | 0 <= j < count :: LabelAllowed(labels[j])
    {
      if !LabelAllowed(labels[count]) {
        return Err(InvalidApplicationId);
      }
      count := count + 1;
    }
    if count < 2 {
      return Err(InvalidApplicationId);
    }
    return Ok(value);
  }

  /**
   The identity as its documentation describes it, position by position: lowercase
   letters, digits, hyphens and at least one dot; a letter or digit at either end
   and beside every dot; and no more than 63 bytes between dots.
   */
  predicate DnsShaped(value: Bytes)
  {
    && 3 <= |value| <= 253
    && DOT in value
    && LabelsShaped(value)
  }

  predicate LabelsShaped(value: Bytes)
  {
    && value != []
    && (forall i | 0 <= i < |value| :: IsLower(value[i]) || IsDigit(value[i]) || value[i] == HYPHEN || value[i] == DOT)
    && (forall i {:trigger InsideLabel(value, i)} | 0 <= i < |value| && value[i] == HYPHEN :: InsideLabel(value, i))
    && (forall i {:trigger InsideLabel(value, i)} | 0 <= i < |value| && value[i] == DOT :: InsideLabel(value, i))
    && (forall i {:trigger DotWithin(value, i)} | 0 <= i <= |value| - 64 :: DotWithin(value, i))
  }

  predicate DotWithin(value: Bytes, i: nat)
    requires i <= |value| - 64
  {
    DOT in value[i..i + 64]
  }

  /** A hyphen or dot at `i` is not at an end, and a neighbouring dot is not beside it. */
  predicate InsideLabel(value: Bytes, i: nat)
    requires i < |value|
  {
    0 < i < |value| - 1 && value[i - 1] != DOT && value[i + 1] != DOT
  }

  /** Every label is allowed just when the text is shaped, and a dot makes two labels. */
  lemma {:induction false} SplitShape(value: Bytes)
    ensures |SplitAtDots(value)| >= 2 <==> DOT in value
    ensures (forall j | 0 <= j < |SplitAtDots(value)| :: LabelAllowed(SplitAtDots(value)[j])) <==> LabelsShaped(value)
    decreases |value|
  {
    FirstLabel(value);
    var labels := SplitAtDots(value);
    var head := labels[0];
    if |head| == |value| {
      assert value == head;
      assert !(DOT in value);
      assert |value| >= 64 ==> !DotWithin(value, 0);
      assert value != [] ==> !InsideLabel(value, 0) && !InsideLabel(value, |value| - 1);
      assert LabelAllowed(head) <==> LabelsShaped(value);
    } else {
      var tail := value[|head| + 1..];
      SplitShape(tail);
      assert value[|head|] == DOT;
      ShapeSplits(value, |head|);
      assert labels == [head] + SplitAtDots(tail);
    }
  }

  /** The first label ends at the first dot, or at the end. */
  lemma {:induction false} FirstLabel(value: Bytes)
    ensures var labels := SplitAtDots(value);
            && |labels[0]| <= |value|
            && labels[0] == value[..|labels[0]|]
            && !(DOT in labels[0])
            && (if |labels[0]| == |value| then |labels| == 1
                else value[|labels[0]|] == DOT && labels[1..] == SplitAtDots(value[|labels[0]| + 1..]))
  {
    if value != [] {
      FirstLabel(value[1..]);
      var tail := SplitAtDots(value[1..]);
      if value[0] == DOT {
        assert SplitAtDots(value)[1..] == tail;
      } else {
        var n := |tail[0]|;
        assert [value[0]] + value[1..][..n] == value[..n + 1];
        if n < |value| - 1 {
          assert value[1..][n + 1..] == value[n + 2..];
        }
      }
    }
  }

  /** A text with its first dot at `k` is shaped when the label before it and the rest are. */
  lemma ShapeSplits(value: Bytes, k: nat)
    requires k < |value| && value[k] == DOT && !(DOT in value[..k])
    ensures LabelsShaped(value) <==> LabelAllowed(value[..k]) && LabelsShaped(value[k + 1..])
  {
    hide LabelsShaped, LabelAllowed;
    if LabelsShaped(value) { ShapeCuts(value, k); }
    if LabelAllowed(value[..k]) && LabelsShaped(value[k + 1..]) { ShapeJoins(value, k); }
  }

  lemma LongRunsHaveDots(value: Bytes, k: nat)
    requires LabelsShaped(value) && 64 <= k <= |value|
    ensures DOT in value[..k]
  {
    assert DotWithin(value, 0);
    assert value[0..64] == value[..k][..64];
  }

  lemma ShapeCuts(value: Bytes, k: nat)
    requires k < |value| && value[k] == DOT && !(DOT in value[..k])
    requires LabelsShaped(value)
    ensures LabelAllowed(value[..k]) && LabelsShaped(value[k + 1..])
  {
    var head, tail := value[..k], value[k + 1..];
    assert forall i | 0 <= i < |tail| :: tail[i] == value[k + 1 + i];
    assert forall i | 0 <= i < k :: head[i] == value[i] && value[i] != DOT;
    assert InsideLabel(value, k);
    if k >= 64 {
      LongRunsHaveDots(value, k);
      assert false;
    }
    forall i | 0 <= i < |tail| && (tail[i] == HYPHEN || tail[i] == DOT)
      ensures InsideLabel(tail, i)
    {
      assert InsideLabel(value, k + 1 + i);
    }
    forall i | 0 <= i <= |tail| - 64
      ensures DotWithin(tail, i)
    {
      assert DotWithin(value, k + 1 + i);
      assert tail[i..i + 64] == value[k + 1 + i..k + 1 + i + 64];
    }
    assert !InsideLabel(value, 0) && !InsideLabel(value, k - 1);
    assert value[0] != HYPHEN && value[k - 1] != HYPHEN;
    assert IsAlphanumeric(head[0]) && IsAlphanumeric(head[k - 1]);
  }

  lemma ShapeJoins(value: Bytes, k: nat)
    requires k < |value| && value[k] == DOT && !(DOT in value[..k])
    requires LabelAllowed(value[..k]) && LabelsShaped(value[k + 1..])
    ensures LabelsShaped(value)
  {
    var head, tail := value[..k], value[k + 1..];
    assert forall i | 0 <= i < |tail| :: tail[i] == value[k + 1 + i];
    assert forall i | 0 <= i < k :: head[i] == value[i] && value[i] != DOT;
    assert !InsideLabel(tail, 0);
    assert tail[0] != DOT;
    forall i | 0 <= i < |value| && (value[i] == HYPHEN || value[i] == DOT)
      ensures InsideLabel(value, i)
    {
      if i > k {
        assert InsideLabel(tail, i - k - 1);
      } else if i < k {
        assert head[i] == HYPHEN && 0 < i < k - 1;
      }
    }
    forall i | 0 <= i <= |value| - 64
      ensures DotWithin(value, i)
    {
      if i <= k {
        assert value[i..i + 64][k - i] == DOT;
      } else {
        assert DotWithin(tail, i - k - 1);
        assert value[i..i + 64] == tail[i - k - 1..i - k - 1 + 64];
      }
    }
  }

  type RecipientId = Bytes32

  /** Byte-array order, as arrays are compared from their first byte on. */
  predicate Less(a: Bytes, b: Bytes)
  {
    a != [] && b != [] && (a[0] < b[0] || (a[0] == b[0] && Less(a[1..], b[1..])))
  }

  function Rank(id: RecipientId): nat
  {
    FromBigEndian(id)
  }

  lemma {:induction false} LeadingByte(b: Bytes)
    requires b != []
    ensures FromBigEndian(b) == b[0] * Pow256(|b| - 1) + FromBigEndian(b[1..])
  {
    if |b| == 1 {
      assert b[..0] == [];
      assert b[1..] == [];
    } else {
      var init := b[..|b| - 1];
      LeadingByte(init);
      assert init[1..] == b[1..][..|b| - 2];
      assert b[1..][|b| - 2] == b[|b| - 1];
    }
  }

  lemma ProductGrows(d: nat, p: nat)
    ensures 0 <= d * p
  {
  }

  lemma LeadingDigitDecides(x: nat, y: nat, p: nat, u: nat, v: nat)
    requires x < y && u < p && v < p
    ensures x * p + u < y * p + v
  {
    var d := y - x - 1;
    ProductGrows(d, p);
    calc {
      y * p;
      (x + 1 + d) * p;
      x * p + p + d * p;
    }
  }

  /** Byte order on equally long arrays is the order of the numbers they spell. */
  lemma {:induction false} LessIsRank(a: Bytes, b: Bytes)
    requires |a| == |b|
    ensures Less(a, b) <==> FromBigEndian(a) < FromBigEndian(b)
  {
    if a != [] {
      LessIsRank(a[1..], b[1..]);
      LeadingByte(a);
      LeadingByte(b);
      WritesBack(a[1..]);
      WritesBack(b[1..]);
      var p, u, v := Pow256(|a| - 1), FromBigEndian(a[1..]), FromBigEndian(b[1..]);
      if a[0] < b[0] {
        LeadingDigitDecides(a[0], b[0], p, u, v);
      } else if b[0] < a[0] {
        LeadingDigitDecides(b[0], a[0], p, v, u);
      }
    }
  }

  lemma RanksDiffer(a: RecipientId, b: RecipientId)
    ensures Rank(a) == Rank(b) <==> a == b
  {
    if Rank(a) == Rank(b) {
      BigEndianInjective(a, b);
    }
  }

  function HexDigit(n: nat): (c: byte)
    requires n < 16
  {
    if n < 10 then 0x30 + n else 0x61 + n - 10
  }

  /** The lowercase hexadecimal text of an identity. */
  function Print(bytes: Bytes): (text: Bytes)
    ensures |text| == 2 * |bytes|
  {
    if bytes == [] then [] else
    var n := |bytes| - 1;
    Print(bytes[..n]) + [HexDigit(bytes[n] / 16), HexDigit(bytes[n] % 16)]
  }

  predicate IsHex(c: byte) { IsDigit(c) || 0x61 <= c <= 0x66 }

  function DecodeHex(c: byte): (n: int)
    ensures IsHex(c) ==> 0 <= n < 16
  {
    if IsDigit(c) then c - 0x30 else if 0x61 <= c <= 0x66 then c - 0x61 + 10 else 0
  }

  lemma HexDigits(c: byte, n: nat)
    requires n < 16
    ensures IsHex(c) ==> HexDigit(DecodeHex(c)) == c
    ensures DecodeHex(HexDigit(n)) == n
  {
  }

  lemma {:induction false} PrintedIsHex(bytes: Bytes)
    ensures forall i | 0 <= i < |Print(bytes)| :: IsHex(Print(bytes)[i])
  {
    if bytes != [] {
      PrintedIsHex(bytes[..|bytes| - 1]);
    }
  }

  predicate IsHexText(text: Bytes)
  {
    |text| == 64 && forall i | 0 <= i < |text| :: IsHex(text[i])
  }

  lemma OnlyHexIsPrinted(text: Bytes)
    requires !IsHexText(text)
    ensures forall id: RecipientId :: Print(id) != text
  {
    forall id: RecipientId
      ensures Print(id) != text
    {
      PrintedIsHex(id);
    }
  }

  /** Accepts exactly the texts that are printed, and reads each back. */
  method ParseRecipientId(text: Bytes) returns (r: Outcome<RecipientId>)
    ensures r.Ok? <==> exists id: RecipientId :: Print(id) == text
    ensures r.Ok? ==> Print(r.value) == text
    ensures r.Err? ==> r.error == InvalidRecipientId
  {
    hide Print;
    if !IsHexText(text) {
      OnlyHexIsPrinted(text);
      return Err(InvalidRecipientId);
    }
    var id := DecodeText(text);
    return Ok(id);
  }

  /** Fills the array byte by byte. */
  method DecodeText(text: Bytes) returns (id: Bytes)
    requires IsHexText(text)
    ensures |id| == 32 && Print(id) == text
  {
    NothingPrinted();
    hide Print, DecodeHex;
    var bytes := new byte[32](i => 0);
    for index := 0 to 32
      invariant Print(bytes[..index]) == text[..2 * index]
    {
      var high, low := text[2 * index], text[2 * index + 1];
      ghost var before := bytes[..index];
      PrintStep(before, high, low);
      TwoMore(text, 2 * index);
      bytes[index] := DecodeHex(high) * 16 + DecodeHex(low);
      assert bytes[..index + 1] == before + [bytes[index]];
    }
    id := bytes[..];
    assert bytes[..32] == id && text[..64] == text;
  }

  lemma TwoMore(text: Bytes, k: nat)
    requires k + 1 < |text|
    ensures text[..k + 2] == text[..k] + [text[k], text[k + 1]]
  {
  }

  lemma NothingPrinted()
    ensures Print([]) == []
  {
  }

  lemma PrintStep(bytes: Bytes, high: byte, low: byte)
    requires IsHex(high) && IsHex(low)
    ensures Print(bytes + [DecodeHex(high) * 16 + DecodeHex(low)]) == Print(bytes) + [high, low]
  {
    var next := bytes + [DecodeHex(high) * 16 + DecodeHex(low)];
    assert next[..|bytes|] == bytes;
    HexDigits(high, 0);
    HexDigits(low, 0);
  }

  lemma {:induction false} PrintInjective(a: Bytes, b: Bytes)
    requires Print(a) == Print(b)
    ensures a == b
  {
    if a == [] {
      assert |Print(b)| == 0;
    } else {
      var n := |a| - 1;
      assert |Print(a)| == 2 * |a| && |Print(b)| == 2 * |b|;
      var ta, tb := [HexDigit(a[n] / 16), HexDigit(a[n] % 16)], [HexDigit(b[n] / 16), HexDigit(b[n] % 16)];
      SameCut(Print(a[..n]), Print(b[..n]), ta, tb);
      hide Print;
      PrintInjective(a[..n], b[..n]);
      DigitsInjective(a[n], b[n]);
      assert a == a[..n] + [a[n]] && b == b[..n] + [b[n]];
    }
  }

  lemma DigitsInjective(x: byte, y: byte)
    requires [HexDigit(x / 16), HexDigit(x % 16)] == [HexDigit(y / 16), HexDigit(y % 16)]
    ensures x == y
  {
    assert [HexDigit(x / 16), HexDigit(x % 16)][0] == [HexDigit(y / 16), HexDigit(y % 16)][0];
    assert [HexDigit(x / 16), HexDigit(x % 16)][1] == [HexDigit(y / 16), HexDigit(y % 16)][1];
    HexDigits(0, x / 16);
    HexDigits(0, x % 16);
    HexDigits(0, y / 16);
    HexDigits(0, y % 16);
  }
}
