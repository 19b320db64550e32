/** What the decoding functions of module Wire compute, stated on their results: the byte
    layout of each kind, the routing of names to dictionaries, the shape of sub-readers,
    the order of containers, and the document layout. */
module WireFacts {
  import opened Bytes
  import opened Outcomes
  import opened Hashes
  import opened Values
  import opened Wire
  import Utf8

  /** The little-endian u32 at p. */
  function U32At(v: View, p: nat): u32
    requires v.Valid() && p + 4 <= v.end
  {
    Pow256Widths();
    LeValue(v.data[p..p + 4])
  }

  /** The little-endian u64 at p. */
  function U64At(v: View, p: nat): u64
    requires v.Valid() && p + 8 <= v.end
  {
    Pow256Widths();
    LeValue(v.data[p..p + 8])
  }

  // ---------------------------------------------------------------------------------
  // Primitive reads

  /** An unsigned read takes exactly n bytes and reads them little-endian: the value is
      below 256^n (zero-extended) and its n-byte encoding is the bytes taken. Fewer than
      n remaining bytes are an end of file. */
  lemma UnsignedIsLittleEndian(v: View, pos: nat, n: nat)
    requires v.Valid() && pos <= v.end
    ensures pos + n <= v.end ==>
      var bs := v.data[pos..pos + n];
      ReadUnsigned(v, pos, n) == Ok((LeValue(bs), pos + n)) && LeBytes(LeValue(bs), n) == bs
    ensures pos + n > v.end ==> ReadUnsigned(v, pos, n) == Fail(UnexpectedEof)
  {
    if pos + n <= v.end {
      LeBytesOfLeValue(v.data[pos..pos + n]);
    }
  }

  /** A signed read takes the same n bytes and reads them as Bytes.Signed does: the number
      in the signed range of the width whose two's-complement pattern they are (a sign
      extension to i64). */
  lemma SignedIsTwosComplement(v: View, pos: nat, n: nat)
    requires v.Valid() && pos <= v.end && 1 <= n
    ensures pos + n <= v.end ==>
      var bs := v.data[pos..pos + n];
      ReadSigned(v, pos, n) == Ok((Bytes.Signed(LeValue(bs), n), pos + n)) && LeBytes(LeValue(bs), n) == bs
    ensures pos + n > v.end ==> ReadSigned(v, pos, n) == Fail(UnexpectedEof)
  {
    UnsignedIsLittleEndian(v, pos, n);
  }

  /** The byte widths of the integer tags. */
  function IntWidth(t: BinType): nat
  {
    match t
    case I8 => 1 case U8 => 1 case I16 => 2 case U16 => 2
    case I32 => 4 case U32 => 4 case I64 => 8 case U64 => 8
    case _ => 0
  }

  predicate IsUnsignedTag(t: BinType)
  {
    t.U8? || t.U16? || t.U32? || t.U64?
  }

  predicate IsSignedTag(t: BinType)
  {
    t.I8? || t.I16? || t.I32? || t.I64?
  }

  /** U8 ... U64 values are the little-endian number of their 1, 2, 4 or 8 bytes. */
  lemma UnsignedTagsZeroExtend(v: View, t: BinType, pos: nat)
    requires v.Valid() && pos <= v.end && IsUnsignedTag(t)
    ensures var n := IntWidth(t); var r := DecodeValue(v, t, pos);
      if pos + n <= v.end
      then r.Ok? && r.value.0 == BinValue.Unsigned(r.value.0.u)
        && r.value.0.u == LeValue(v.data[pos..pos + n]) && r.value.1 == pos + n
      else r == Fail(UnexpectedEof)
  {
    UnsignedIsLittleEndian(v, pos, IntWidth(t));
  }

  /** I8 ... I64 values are the sign-extended two's-complement number of their bytes. */
  lemma SignedTagsSignExtend(v: View, t: BinType, pos: nat)
    requires v.Valid() && pos <= v.end && IsSignedTag(t)
    ensures var n := IntWidth(t); var r := DecodeValue(v, t, pos);
      if pos + n <= v.end
      then r.Ok? && r.value.0 == BinValue.Signed(r.value.0.i) && r.value.1 == pos + n
        && r.value.0.i == Bytes.Signed(LeValue(v.data[pos..pos + n]), n)
      else r == Fail(UnexpectedEof)
  {
    UnsignedIsLittleEndian(v, pos, IntWidth(t));
  }

  /** Bool and Flag both read one byte; any byte other than zero is true. */
  lemma BoolAndFlagReadOneByte(v: View, t: BinType, pos: nat)
    requires v.Valid() && pos <= v.end && (t.Bool? || t.Flag?)
    ensures pos + 1 <= v.end ==> DecodeValue(v, t, pos) == Ok((BinValue.Bool(v.data[pos] != 0), pos + 1))
    ensures pos + 1 > v.end ==> DecodeValue(v, t, pos) == Fail(UnexpectedEof)
  {
    if pos + 1 <= v.end {
      assert LeValue(v.data[pos..pos + 1]) == v.data[pos] by {
        assert v.data[pos..pos + 1][1..] == [];
      }
    }
  }

  /** k floats in a row are the k patterns that lie one after the other. */
  lemma {:induction false} ReadF32sValues(v: View, pos: nat, k: nat)
    requires v.Valid() && pos + 4 * k <= v.end
    ensures ReadF32s(v, pos, k) == Ok((F32s(v, pos, k), pos + 4 * k))
    decreases k
  {
    if k > 0 {
      ReadF32sValues(v, pos + 4, k - 1);
      F32sCons(v, pos, k);
      Pow256Widths();
      assert ReadF32(v, pos) == Ok((F32At(v, pos), pos + 4));
    }
  }

  lemma F32sCons(v: View, pos: nat, k: nat)
    requires v.Valid() && k > 0
    ensures F32s(v, pos, k) == [F32At(v, pos)] + F32s(v, pos + 4, k - 1)
  {
    assert forall i | 1 <= i < k :: pos + 4 * i == pos + 4 + 4 * (i - 1);
  }

  /** A matrix is four rows of four floats, in wire order. */
  lemma Mtx44Rows(v: View, pos: nat)
    requires v.Valid() && pos + 64 <= v.end
    ensures ReadMtx44(v, pos)
      == Ok(([F32s(v, pos, 4), F32s(v, pos + 16, 4), F32s(v, pos + 32, 4), F32s(v, pos + 48, 4)], pos + 64))
  {
    ReadF32sValues(v, pos, 4);
    ReadF32sValues(v, pos + 16, 4);
    ReadF32sValues(v, pos + 32, 4);
    ReadF32sValues(v, pos + 48, 4);
  }

  /** Rgba stores its four wire bytes reversed. */
  lemma RgbaReversesBytes(v: View, pos: nat)
    requires v.Valid() && pos + 4 <= v.end
    ensures var r := ReadRgba(v, pos);
      && r.Ok? && r.value.1 == pos + 4 && |r.value.0| == 4
      && forall i | 0 <= i < 4 :: r.value.0[i] == v.data[pos + 3 - i]
  {
  }

  /** A string is a u16 byte count and then that many bytes, which must be UTF-8: the text
      read encodes back to exactly those bytes. A count that runs past the window panics. */
  lemma StringLayout(v: View, pos: nat)
    requires v.Valid() && pos <= v.end
    ensures pos + 2 > v.end ==> ReadString(v, pos) == Fail(UnexpectedEof)
    ensures pos + 2 <= v.end ==>
      var n := LeValue(v.data[pos..pos + 2]);
      if pos + 2 + n > v.end then ReadString(v, pos) == Panic(SliceOutOfRange)
      else
        var bs := v.data[pos + 2..pos + 2 + n];
        match Utf8.Decode(bs)
        case None => ReadString(v, pos) == Fail(InvalidUtf8)
        case Some(s) => ReadString(v, pos) == Ok((s, pos + 2 + n)) && Utf8.Encode(s) == bs
  {
    if pos + 2 <= v.end {
      UnsignedIsLittleEndian(v, pos, 2);
      var n := LeValue(v.data[pos..pos + 2]);
      if pos + 2 + n <= v.end {
        StringPayload(v, pos, n);
      }
    }
  }

  /** The bytes after a count that fits the window: text if they are UTF-8, an error if not. */
  lemma StringPayload(v: View, pos: nat, n: nat)
    requires v.Valid() && pos + 2 + n <= v.end && LeValue(v.data[pos..pos + 2]) == n
    ensures var bs := v.data[pos + 2..pos + 2 + n];
      match Utf8.Decode(bs)
      case None => ReadString(v, pos) == Fail(InvalidUtf8)
      case Some(s) => ReadString(v, pos) == Ok((s, pos + 2 + n)) && Utf8.Encode(s) == bs
  {
    UnsignedIsLittleEndian(v, pos, 2);
    var bs := v.data[pos + 2..pos + 2 + n];
    if Utf8.Decode(bs).Some? {
      Utf8.EncodeOfDecode(bs);
    }
  }

  /** A string laid out as the format says, a byte count and then the UTF-8 encoding, is
      read back. */
  lemma StringRoundTrip(v: View, pos: nat, s: string)
    requires v.Valid() && pos + 2 + |Utf8.Encode(s)| <= v.end
    requires LeValue(v.data[pos..pos + 2]) == |Utf8.Encode(s)|
    requires v.data[pos + 2..pos + 2 + |Utf8.Encode(s)|] == Utf8.Encode(s)
    ensures ReadString(v, pos) == Ok((s, pos + 2 + |Utf8.Encode(s)|))
  {
    StringLayout(v, pos);
    Utf8.DecodeOfEncode(s);
  }

  // ---------------------------------------------------------------------------------
  // Names and tags

  /** Each name reader looks its u32 up in its own dictionary. */
  lemma NamesRouteToTables(v: View, pos: nat)
    requires v.Valid() && pos + 4 <= v.end
    ensures var h := U32At(v, pos);
      && ReadHashName(v, pos) == Ok((Lookup(Fnv, v.names.hashes, h), pos + 4))
      && ReadEntryName(v, pos) == Ok((Lookup(Fnv, v.names.entries, h), pos + 4))
      && ReadTypeName(v, pos) == Ok((Lookup(Fnv, v.names.types, h), pos + 4))
      && ReadFieldName(v, pos) == Ok((Lookup(Fnv, v.names.fields, h), pos + 4))
  {
    Pow256Widths();
  }

  /** Paths are u64 hashes looked up in the path dictionary. */
  lemma PathRoutesToPaths(v: View, pos: nat)
    requires v.Valid() && pos + 8 <= v.end
    ensures ReadPathName(v, pos) == Ok((Lookup(Xxh, v.names.paths, U64At(v, pos)), pos + 8))
  {
    Pow256Widths();
  }

  /** The Hash tag reads a name from the hashes dictionary. */
  lemma HashRoutes(v: View, pos: nat)
    requires v.Valid() && pos + 4 <= v.end
    ensures DecodeValue(v, BinType.Hash, pos)
      == Ok((BinValue.Hash(Lookup(Fnv, v.names.hashes, U32At(v, pos))), pos + 4))
  {
    NamesRouteToTables(v, pos);
  }

  /** The Link tag reads a name from the entries dictionary. */
  lemma LinkRoutes(v: View, pos: nat)
    requires v.Valid() && pos + 4 <= v.end
    ensures DecodeValue(v, BinType.Link, pos)
      == Ok((BinValue.Link(Lookup(Fnv, v.names.entries, U32At(v, pos))), pos + 4))
  {
    NamesRouteToTables(v, pos);
  }

  /** The File tag reads a path name from the paths dictionary. */
  lemma FileRoutes(v: View, pos: nat)
    requires v.Valid() && pos + 8 <= v.end
    ensures DecodeValue(v, BinType.File, pos)
      == Ok((BinValue.File(Lookup(Xxh, v.names.paths, U64At(v, pos))), pos + 8))
  {
    PathRoutesToPaths(v, pos);
  }

  /** Every tag's byte is accepted and names that tag again. */
  lemma CodeRoundTrip(t: BinType)
    ensures IsTag(Code(t)) && TypeOf(Code(t)) == t
  {
  }

  /** `read_type`: one byte; an accepted byte gives its tag, any other byte panics. */
  lemma TypeLayout(v: View, pos: nat)
    requires v.Valid() && pos <= v.end
    ensures pos + 1 > v.end ==> ReadType(v, pos) == Fail(UnexpectedEof)
    ensures pos + 1 <= v.end && IsTag(v.data[pos]) ==> ReadType(v, pos) == Ok((TypeOf(v.data[pos]), pos + 1))
    ensures pos + 1 <= v.end && !IsTag(v.data[pos]) ==> ReadType(v, pos) == Panic(UnknownTag)
  {
    if pos + 1 <= v.end {
      assert LeValue(v.data[pos..pos + 1]) == v.data[pos] by {
        assert v.data[pos..pos + 1][1..] == [];
      }
    }
  }

  // ---------------------------------------------------------------------------------
  // Sub-readers

  /** `read_sub_reader`: past the depth limit it fails before reading; otherwise a u32
      length follows, the child window runs from just after it for that many bytes, one
      level deeper, over the same buffer and dictionaries. A length that runs past the
      parent window panics. */
  lemma RegionLayout(v: View, pos: nat)
    requires v.Valid() && pos <= v.end
    ensures v.depth + 1 > MaxDepth ==> OpenRegion(v, pos) == Fail(DepthLimit)
    ensures v.depth + 1 <= MaxDepth && pos + 4 > v.end ==> OpenRegion(v, pos) == Fail(UnexpectedEof)
    ensures v.depth + 1 <= MaxDepth && pos + 4 <= v.end ==>
      var len := U32At(v, pos);
      if pos + 4 + len > v.end then OpenRegion(v, pos) == Panic(SliceOutOfRange)
      else OpenRegion(v, pos) == Ok((View(v.data, pos + 4 + len, v.depth + 1, v.names), pos + 4))
  {
    Pow256Widths();
  }

  /** A region never goes deeper than MaxDepth, and a reader at MaxDepth opens none. */
  lemma RegionDepthBound(v: View, pos: nat)
    requires v.Valid() && pos <= v.end
    ensures OpenRegion(v, pos).Ok? ==> OpenRegion(v, pos).value.0.depth == v.depth + 1 <= MaxDepth
    ensures v.depth == MaxDepth ==> OpenRegion(v, pos) == Fail(DepthLimit)
  {
    RegionLayout(v, pos);
  }

  // ---------------------------------------------------------------------------------
  // Containers

  /** An Option's value is read inline, in the same window and at the same depth; a
      presence byte of zero is None. */
  lemma OptionIsInline(v: View, pos: nat)
    requires v.Valid() && pos + 2 <= v.end && IsTag(v.data[pos])
    ensures DecodeOption(v, pos)
      == if v.data[pos + 1] == 0 then Ok((BinValue.None, pos + 2))
         else DecodeValue(v, TypeOf(v.data[pos]), pos + 2)
  {
    TypeLayout(v, pos);
    assert LeValue(v.data[pos + 1..pos + 2]) == v.data[pos + 1] by {
      assert v.data[pos + 1..pos + 2][1..] == [];
    }
  }

  /** A Pointer or Embed whose type name has hash 0 is None and opens no region. */
  lemma NullPointerOpensNoRegion(v: View, t: BinType, pos: nat)
    requires v.Valid() && pos + 4 <= v.end && (t.Pointer? || t.Embed?) && U32At(v, pos) == 0
    ensures DecodeValue(v, t, pos) == Ok((BinValue.None, pos + 4))
  {
    NamesRouteToTables(v, pos);
  }

  /** List and List2 decode alike, and so do Pointer and Embed. */
  lemma AliasedTagsAgree(v: View, pos: nat)
    requires v.Valid() && pos <= v.end
    ensures DecodeValue(v, BinType.List, pos) == DecodeValue(v, BinType.List2, pos)
    ensures DecodeValue(v, BinType.Pointer, pos) == DecodeValue(v, BinType.Embed, pos)
  {
  }

  /** Decoding n items keeps acc in front and appends exactly n values. */
  lemma {:induction false} ItemsKeepPrefix(c: View, t: BinType, p: nat, n: nat, acc: seq<BinValue>)
    requires c.Valid() && p <= c.end && DecodeItems(c, t, p, n, acc).Ok?
    ensures var items := DecodeItems(c, t, p, n, acc).value.0;
      |items| == |acc| + n && forall i | 0 <= i < |acc| :: items[i] == acc[i]
    decreases n
  {
    if n > 0 {
      var x := DecodeItem(c, t, p, acc).value;
      assert DecodeItems(c, t, p, n, acc) == DecodeItems(c, t, x.1, n - 1, x.0);
      ItemsKeepPrefix(c, t, x.1, n - 1, x.0);
    }
  }

  /** The items of a list: exactly n values appended to acc in wire order, the first one
      decoded where the items start. */
  lemma ItemsInWireOrder(c: View, t: BinType, p: nat, n: nat, acc: seq<BinValue>)
    requires c.Valid() && p <= c.end && DecodeItems(c, t, p, n, acc).Ok?
    ensures var items := DecodeItems(c, t, p, n, acc).value.0;
      |items| == |acc| + n && forall i | 0 <= i < |acc| :: items[i] == acc[i]
    ensures n > 0 ==> (DecodeValue(c, t, p).Ok?
      && DecodeItems(c, t, p, n, acc).value.0[|acc|] == DecodeValue(c, t, p).value.0)
  {
    ItemsKeepPrefix(c, t, p, n, acc);
    if n > 0 {
      var x := DecodeItem(c, t, p, acc);
      assert x.Ok?;
      ItemsKeepPrefix(c, t, x.value.1, n - 1, x.value.0);
    }
  }

  /** The pairs of a map: exactly n pairs appended to acc in wire order, equal keys kept
      apart, the first pair decoded where the pairs start. */
  lemma {:induction false} PairsInWireOrder(c: View, kt: BinType, vt: BinType, p: nat, n: nat,
                                            acc: seq<(BinValue, BinValue)>)
    requires c.Valid() && p <= c.end && DecodePairs(c, kt, vt, p, n, acc).Ok?
    ensures var pairs := DecodePairs(c, kt, vt, p, n, acc).value.0;
      |pairs| == |acc| + n && forall i | 0 <= i < |acc| :: pairs[i] == acc[i]
    ensures n > 0 ==> (DecodePair(c, kt, vt, p).Ok?
      && DecodePairs(c, kt, vt, p, n, acc).value.0[|acc|] == DecodePair(c, kt, vt, p).value.0)
    decreases n
  {
    if n > 0 {
      var x := DecodePair(c, kt, vt, p).value;
      assert DecodePairs(c, kt, vt, p, n, acc) == DecodePairs(c, kt, vt, x.1, n - 1, acc + [x.0]);
      PairsInWireOrder(c, kt, vt, x.1, n - 1, acc + [x.0]);
    }
  }

  /** A List is a type byte and then a region: the region's first four bytes count the
      items, the list holds exactly that many values, decoded in wire order from just after
      the count, and the read ends where the region ends, whatever the items used of it. */
  lemma ListLayout(v: View, pos: nat)
    requires v.Valid() && pos <= v.end && DecodeList(v, pos).Ok?
    ensures pos + 5 <= v.end && IsTag(v.data[pos])
    ensures var c := View(v.data, pos + 5 + U32At(v, pos + 1), v.depth + 1, v.names);
      && c.Valid() && pos + 9 <= c.end <= v.end
      && var items := DecodeItems(c, TypeOf(v.data[pos]), pos + 9, U32At(c, pos + 5), []);
      && items.Ok? && |items.value.0| == U32At(c, pos + 5)
      && DecodeList(v, pos) == Ok((BinValue.List(items.value.0), c.end))
  {
    TypeLayout(v, pos);
    var t := ReadType(v, pos).value;
    assert t == (TypeOf(v.data[pos]), pos + 1);
    RegionLayout(v, pos + 1);
    var region := OpenRegion(v, pos + 1);
    assert region.Ok?;
    var c := region.value.0;
    assert c == View(v.data, pos + 5 + U32At(v, pos + 1), v.depth + 1, v.names) && region.value.1 == pos + 5;
    UnsignedIsLittleEndian(c, pos + 5, 4);
    var count := ReadUnsigned(c, pos + 5, 4);
    assert count == Ok((U32At(c, pos + 5), pos + 9));
    var items := DecodeItems(c, t.0, pos + 9, count.value.0, []);
    assert items.Ok?;
    assert DecodeList(v, pos) == Ok((BinValue.List(items.value.0), c.end));
    ItemsKeepPrefix(c, t.0, pos + 9, count.value.0, []);
  }

  /** A Map is two type bytes and then a region: the region's first four bytes count the
      pairs, the map holds exactly that many, decoded in wire order from just after the
      count, and the read ends where the region ends. */
  lemma MapLayout(v: View, pos: nat)
    requires v.Valid() && pos <= v.end && DecodeMap(v, pos).Ok?
    ensures pos + 6 <= v.end && IsTag(v.data[pos]) && IsTag(v.data[pos + 1])
    ensures var c := View(v.data, pos + 6 + U32At(v, pos + 2), v.depth + 1, v.names);
      && c.Valid() && pos + 10 <= c.end <= v.end
      && var pairs := DecodePairs(c, TypeOf(v.data[pos]), TypeOf(v.data[pos + 1]), pos + 10, U32At(c, pos + 6), []);
      && pairs.Ok? && |pairs.value.0| == U32At(c, pos + 6)
      && DecodeMap(v, pos) == Ok((BinValue.Map(pairs.value.0), c.end))
  {
    TypeLayout(v, pos);
    TypeLayout(v, pos + 1);
    var kt := ReadType(v, pos).value;
    var vt := ReadType(v, pos + 1).value;
    assert kt == (TypeOf(v.data[pos]), pos + 1) && vt == (TypeOf(v.data[pos + 1]), pos + 2);
    RegionLayout(v, pos + 2);
    var region := OpenRegion(v, pos + 2);
    assert region.Ok?;
    var c := region.value.0;
    assert c == View(v.data, pos + 6 + U32At(v, pos + 2), v.depth + 1, v.names) && region.value.1 == pos + 6;
    UnsignedIsLittleEndian(c, pos + 6, 4);
    var count := ReadUnsigned(c, pos + 6, 4);
    assert count == Ok((U32At(c, pos + 6), pos + 10));
    var pairs := DecodePairs(c, kt.0, vt.0, pos + 10, count.value.0, []);
    assert pairs.Ok?;
    assert DecodeMap(v, pos) == Ok((BinValue.Map(pairs.value.0), c.end));
    PairsInWireOrder(c, kt.0, vt.0, pos + 10, count.value.0, []);
  }

  /** The (field name, value) pairs of n fields, in wire order, without merging. */
  ghost function FieldList(c: View, p: nat, n: nat): Outcome<(seq<(BinFNV, BinValue)>, nat)>
    requires c.Valid() && p <= c.end
    decreases n
  {
    if n == 0 then Ok(([], p))
    else
      var f :- FieldPair(c, p);
      var rest :- FieldList(c, f.1, n - 1);
      Ok(([f.0] + rest.0, rest.1))
  }

  /** Reading fields is inserting the wire list of pairs one after the other, so a later
      field with the same name hash replaces an earlier one (see Values.InsertAllLastWins). */
  lemma {:induction false} FieldsInsertInWireOrder(c: View, p: nat, n: nat, acc: Fields)
    requires c.Valid() && p <= c.end
    ensures DecodeFieldsFrom(c, p, n, acc)
      == (var l :- FieldList(c, p, n); Ok((InsertAll(acc, l.0), l.1)))
    decreases n
  {
    if n > 0 {
      var f := FieldPair(c, p);
      if !f.Ok? {
        assert DecodeFieldsFrom(c, p, n, acc) == f.PropagateFailure();
        assert FieldList(c, p, n) == f.PropagateFailure();
      } else {
        var acc1 := Insert(acc, f.value.0.0, f.value.0.1);
        assert DecodeFieldsFrom(c, p, n, acc) == DecodeFieldsFrom(c, f.value.1, n - 1, acc1);
        FieldsInsertInWireOrder(c, f.value.1, n - 1, acc1);
        var rest := FieldList(c, f.value.1, n - 1);
        if rest.Ok? {
          var l := [f.value.0] + rest.value.0;
          assert FieldList(c, p, n) == Ok((l, rest.value.1));
          assert l[1..] == rest.value.0;
          assert InsertAll(acc, l) == InsertAll(acc1, rest.value.0);
        } else {
          assert FieldList(c, p, n) == rest.PropagateFailure();
        }
      }
    }
  }

  /** The fields of a struct sit under their own name hashes. */
  lemma FieldsKeyedByHash(c: View, p: nat)
    requires c.Valid() && p <= c.end && DecodeFields(c, p).Ok?
    ensures KeyedByHash(DecodeFields(c, p).value.0)
  {
    var count := ReadUnsigned(c, p, 2).value;
    FieldsInsertInWireOrder(c, count.1, count.0, map[]);
    InsertAllKeyedByHash(map[], FieldList(c, count.1, count.0).value.0);
  }

  // ---------------------------------------------------------------------------------
  // The document

  /** The (entry name, struct) pairs of the entry regions, in wire order, without merging. */
  ghost function EntryList(v: View, p: nat, typeNames: seq<BinFNV>): Outcome<(seq<(BinFNV, BinValue)>, nat)>
    requires v.Valid() && p <= v.end
    decreases |typeNames|
  {
    if typeNames == [] then Ok(([], p))
    else
      var e :- EntryPair(v, p, typeNames[0]);
      var rest :- EntryList(v, e.1, typeNames[1..]);
      Ok(([e.0] + rest.0, rest.1))
  }

  /** Reading entries is inserting the wire list of entries one after the other: a later
      entry with the same name hash replaces an earlier one. */
  lemma {:induction false} EntriesInsertInWireOrder(v: View, p: nat, typeNames: seq<BinFNV>, acc: Fields)
    requires v.Valid() && p <= v.end
    ensures DecodeEntriesFrom(v, p, typeNames, acc)
      == (var l :- EntryList(v, p, typeNames); Ok((InsertAll(acc, l.0), l.1)))
    decreases |typeNames|
  {
    if typeNames != [] {
      var e := EntryPair(v, p, typeNames[0]);
      if e.Ok? {
        EntriesInsertInWireOrder(v, e.value.1, typeNames[1..], Insert(acc, e.value.0.0, e.value.0.1));
        var rest := EntryList(v, e.value.1, typeNames[1..]);
        if rest.Ok? {
          assert ([e.value.0] + rest.value.0)[1..] == rest.value.0;
        }
      }
    }
  }

  /** The value of four little-endian bytes. */
  lemma LeValue4(bs: seq<u8>)
    requires |bs| == 4
    ensures LeValue(bs) == (bs[0] as int) + 256 * (bs[1] as int) + 65536 * (bs[2] as int) + 16777216 * (bs[3] as int)
  {
    assert LeValue(bs[3..]) == bs[3] by {
      assert bs[3..][1..] == [];
    }
    assert bs[2..][1..] == bs[3..];
    assert LeValue(bs[2..]) == bs[2] + 256 * LeValue(bs[3..]);
    assert bs[1..][1..] == bs[2..];
    assert LeValue(bs[1..]) == bs[1] + 256 * LeValue(bs[2..]);
  }

  /** "PROP" in ASCII, read as a little-endian u32, is the magic. */
  lemma MagicSpellsProp()
    ensures LeValue([0x50, 0x52, 0x4f, 0x50]) == Magic
  {
    LeValue4([0x50, 0x52, 0x4f, 0x50]);
  }

  /** A buffer that does not start with the magic is refused (after the four bytes). */
  lemma BadMagicRefused(data: seq<u8>, names: Names)
    requires 4 <= |data| && LeValue(data[..4]) != Magic
    ensures DecodeBin(data, names) == Fail(BadMagic)
  {
    assert data[0..4] == data[..4];
  }

  /** The texts `links` are strings written one after another from p, the last ending at q. */
  predicate StringsAt(v: View, p: nat, links: seq<string>, q: nat)
    requires v.Valid() && p <= v.end
    decreases |links|
  {
    if links == [] then q == p
    else
      var s := ReadString(v, p);
      s.Ok? && s.value.0 == links[0] && StringsAt(v, s.value.1, links[1..], q)
  }

  /** The loop of `read_links` appends `links` and stops at q exactly when `links` are n
      strings written one after another from p and ending at q. */
  lemma {:induction false} LinksAreStrings(v: View, p: nat, n: nat, acc: seq<string>,
                                           links: seq<string>, q: nat)
    requires v.Valid() && p <= v.end
    ensures DecodeLinksFrom(v, p, n, acc) == Ok((acc + links, q))
      <==> |links| == n && StringsAt(v, p, links, q)
    decreases n
  {
    if n == 0 {
      assert |acc + links| == |acc| + |links|;
      assert links == [] ==> acc + links == acc;
    } else if ReadString(v, p).Ok? {
      var s := ReadString(v, p).value;
      var r := DecodeLinksFrom(v, s.1, n - 1, acc + [s.0]);
      assert DecodeLinksFrom(v, p, n, acc) == r;
      if links == [] {
        assert r.Ok? ==> |r.value.0| == |acc| + n;
      } else {
        LinksAreStrings(v, s.1, n - 1, acc + [s.0], links[1..], q);
        assert acc + links == (acc + [links[0]]) + links[1..];
        if r.Ok? && r.value.0 == acc + links {
          assert r.value.0[..|acc| + 1] == acc + [s.0];
          assert (acc + links)[|acc|] == links[0];
          assert (acc + [s.0])[|acc|] == s.0;
        }
      }
    } else {
      assert links != [] ==> !StringsAt(v, p, links, q);
    }
  }

  /** A decoded document starts with the magic, keeps the version that follows it, holds
      the links as the counted strings written one after another after the header, and
      holds each entry under its own name hash. */
  lemma DocumentLayout(data: seq<u8>, names: Names)
    requires DecodeBin(data, names).Ok?
    ensures var b := DecodeBin(data, names).value; var v := View(data, |data|, 0, names);
      && 12 <= |data| && LeValue(data[..4]) == Magic && b.version == LeValue(data[4..8])
      && DecodeLinks(v, 8).Ok? && b.links == DecodeLinks(v, 8).value.0
      && |b.links| == U32At(v, 8) && StringsAt(v, 12, b.links, DecodeLinks(v, 8).value.1)
      && KeyedByHash(b.entries)
  {
    Pow256Widths();
    var v := View(data, |data|, 0, names);
    assert data[0..4] == data[..4];
    var links := DecodeLinks(v, 8).value;
    UnsignedIsLittleEndian(v, 8, 4);
    var k := ReadUnsigned(v, 8, 4).value;
    assert k == (U32At(v, 8), 12);
    LinksAreStrings(v, 12, k.0, [], links.0, links.1);
    assert [] + links.0 == links.0;
    var count := ReadUnsigned(v, links.1, 4).value;
    var typeNames := DecodeTypeNames(v, count.1, count.0, []).value;
    EntriesInsertInWireOrder(v, typeNames.1, typeNames.0, map[]);
    InsertAllKeyedByHash(map[], EntryList(v, typeNames.1, typeNames.0).value.0);
  }

  /** Bytes that are all zero have the value zero. */
  lemma {:induction false} LeValueOfZeros(bs: seq<u8>)
    requires forall i | 0 <= i < |bs| :: bs[i] == 0
    ensures LeValue(bs) == 0
  {
    if bs != [] {
      LeValueOfZeros(bs[1..]);
    }
  }

  /** A link count of zero is an empty link list. */
  lemma NoLinks(v: View, p: nat)
    requires v.Valid() && p + 4 <= v.end && U32At(v, p) == 0
    ensures DecodeLinks(v, p) == Ok(([], p + 4))
  {
    UnsignedIsLittleEndian(v, p, 4);
  }

  /** An entry count of zero is an empty entry table. */
  lemma NoEntries(v: View, p: nat)
    requires v.Valid() && p + 4 <= v.end && U32At(v, p) == 0
    ensures DecodeEntries(v, p) == Ok((map[], p + 4))
  {
    UnsignedIsLittleEndian(v, p, 4);
  }

  /** The smallest document: the magic, a version, a zero link count and a zero entry
      count. */
  lemma EmptyDocument(data: seq<u8>, names: Names)
    requires 16 <= |data| && LeValue(data[0..4]) == Magic
    requires LeValue(data[8..12]) == 0 && LeValue(data[12..16]) == 0
    ensures DecodeBin(data, names) == Ok(Bin(LeValue(data[4..8]), [], map[]))
  {
    var v := View(data, |data|, 0, names);
    Pow256Widths();
    NoLinks(v, 8);
    NoEntries(v, 12);
  }

  /** "PROP", version 7, and eight zero bytes: a document with no links and no entries. */
  lemma SmallestDocument(data: seq<u8>, names: Names)
    requires data == [0x50, 0x52, 0x4f, 0x50, 7, 0, 0, 0, 0, 0, 0, 0, 0, 0, 0, 0]
    ensures DecodeBin(data, names) == Ok(Bin(7, [], map[]))
  {
    LeValue4(data[0..4]);
    LeValue4(data[4..8]);
    LeValue4(data[8..12]);
    LeValue4(data[12..16]);
    EmptyDocument(data, names);
  }
}
