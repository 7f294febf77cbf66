/** Length-prefixed framing of a list of fields. */
module Transcript {
  import opened Wrappers
  import opened Errors
  import opened Bytes

  const MAX_FIELDS := 32
  const USIZE_END: nat := U64_END

  function FrameFields(fields: seq<Bytes>): Bytes
  {
    if fields == [] then [] else U32(|fields[0]|) + fields[0] + FrameFields(fields[1..])
  }

  /** The transcript of a list of fields: their number, then each with its length. */
  function Frame(fields: seq<Bytes>): Bytes
  {
    U32(|fields|) + FrameFields(fields)
  }

  ghost predicate Framable(fields: seq<Bytes>)
  {
    |fields| <= MAX_FIELDS && forall i | 0 <= i < |fields| :: |fields[i]| < U32_END
  }

  lemma {:induction false} FrameFieldsAppend(fields: seq<Bytes>, field: Bytes)
    ensures FrameFields(fields + [field]) == FrameFields(fields) + U32(|field|) + field
  {
    if fields == [] {
      assert fields + [field] == [field] && [field][1..] == [];
    } else {
      var f, rest := fields[0], fields[1..];
      FrameFieldsAppend(rest, field);
      assert (fields + [field])[0] == f && (fields + [field])[1..] == rest + [field];
      var a, b := U32(|f|) + f, FrameFields(rest);
      assert FrameFields(fields + [field]) == a + FrameFields(rest + [field]);
      hide FrameFields, U32;
      assert a + (b + U32(|field|) + field) == a + b + U32(|field|) + field;
    }
  }

  /** Checks every length before writing anything, then writes field by field. */
  method Encode(fields: seq<Bytes>) returns (r: Outcome<Bytes>)
    ensures r.Ok? <==> Framable(fields)
    ensures r.Ok? ==> r.value == Frame(fields)
    ensures r.Err? ==> r.error == InvalidEnvelope
  {
    if |fields| > MAX_FIELDS {
      return Err(InvalidEnvelope);
    }
    var capacity := 4;
    for i := 0 to |fields|
      invariant forall j | 0 <= j < i :: |fields[j]| < U32_END
      invariant 0 <= capacity <= 4 + i * (U32_END + 3)
    {
      if |fields[i]| >= U32_END {
        return Err(InvalidEnvelope);
      }
      // the two checked additions on the machine word cannot overflow
      assert capacity + 4 + |fields[i]| < USIZE_END;
      capacity := capacity + 4 + |fields[i]|;
    }
    var output: Bytes := U32(|fields|);
    for i := 0 to |fields|
      invariant output == U32(|fields|) + FrameFields(fields[..i])
    {
      FrameFieldsAppend(fields[..i], fields[i]);
      assert fields[..i + 1] == fields[..i] + [fields[i]];
      hide FrameFields, U32;
      output := output + U32(|fields[i]|);
      output := output + fields[i];
    }
    assert fields[..|fields|] == fields;
    return Ok(output);
  }

  lemma FrontField(fields: seq<Bytes>, x: Bytes)
    requires fields != []
    ensures FrameFields(fields) + x == U32(|fields[0]|) + (fields[0] + (FrameFields(fields[1..]) + x))
  {
    var head, f, rest := U32(|fields[0]|), fields[0], FrameFields(fields[1..]);
    assert FrameFields(fields) == head + f + rest;
    hide FrameFields, U32;
    ConcatAssociative(head + f, rest, x);
    ConcatAssociative(head, f, rest + x);
  }

  lemma {:induction false} FieldsDecodable(fs: seq<Bytes>, gs: seq<Bytes>, x: Bytes, y: Bytes)
    requires |fs| == |gs|
    requires forall i | 0 <= i < |fs| :: |fs[i]| < U32_END && |gs[i]| < U32_END
    requires FrameFields(fs) + x == FrameFields(gs) + y
    ensures fs == gs && x == y
  {
    if fs == [] {
      assert FrameFields(fs) == [] && FrameFields(gs) == [];
      assert [] + x == x && [] + y == y;
    } else {
      FrontField(fs, x);
      FrontField(gs, y);
      hide FrameFields, U32;
      var f, g := fs[0], gs[0];
      var restF, restG := FrameFields(fs[1..]) + x, FrameFields(gs[1..]) + y;
      SameCut(U32(|f|), U32(|g|), f + restF, g + restG);
      U32Injective(|f|, |g|);
      SameCut(f, g, restF, restG);
      FieldsDecodable(fs[1..], gs[1..], x, y);
      assert fs == [f] + fs[1..] && gs == [g] + gs[1..];
    }
  }

  /** A transcript can be cut off the front of a byte string in one way only. */
  lemma FrameDecodable(fs: seq<Bytes>, gs: seq<Bytes>, x: Bytes, y: Bytes)
    requires Framable(fs) && Framable(gs)
    requires Frame(fs) + x == Frame(gs) + y
    ensures fs == gs && x == y
  {
    hide FrameFields, U32;
    ConcatAssociative(U32(|fs|), FrameFields(fs), x);
    ConcatAssociative(U32(|gs|), FrameFields(gs), y);
    SameCut(U32(|fs|), U32(|gs|), FrameFields(fs) + x, FrameFields(gs) + y);
    U32Injective(|fs|, |gs|);
    FieldsDecodable(fs, gs, x, y);
  }

  lemma FrameInjective(fs: seq<Bytes>, gs: seq<Bytes>)
    requires Framable(fs) && Framable(gs)
    ensures Frame(fs) == Frame(gs) <==> fs == gs
  {
    if Frame(fs) == Frame(gs) {
      hide Frame;
      FrameDecodable(fs, gs, [], []);
    }
  }
}
