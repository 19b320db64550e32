/** The decoding rules of src/reader.rs as functions: reading a value of a given type from a
    position of a byte window yields the value and the position after it, an error, or a
    panic. The reader class in reader.dfy is proved to compute exactly these results. */
module Wire {
  import opened Bytes
  import opened Outcomes
  import opened Hashes
  import opened Values
  import Utf8

  /** The deepest nesting of sub-readers the reader allows. */
  const MaxDepth: nat := 128

  /** The first four bytes of a document, read as a little-endian u32 ("PROP"). */
  const Magic: nat := 0x504f5250

  /** The type tags of the wire format. */
  datatype BinType =
    | None | Bool | I8 | U8 | I16 | U16 | I32 | U32 | I64 | U64 | F32
    | Vec2 | Vec3 | Vec4 | Mtx44 | Rgba | String | Hash | File
    | List | List2 | Pointer | Embed | Link | Option | Map | Flag

  /** The byte that stands for each tag. */
  function Code(t: BinType): u8
  {
    match t
    case None => 0    case Bool => 1   case I8 => 2     case U8 => 3     case I16 => 4
    case U16 => 5     case I32 => 6    case U32 => 7    case I64 => 8    case U64 => 9
    case F32 => 10    case Vec2 => 11  case Vec3 => 12  case Vec4 => 13  case Mtx44 => 14
    case Rgba => 15   case String => 16                 case Hash => 17  case File => 18
    case List => 0x80 case List2 => 0x81                case Pointer => 0x82
    case Embed => 0x83                 case Link => 0x84                 case Option => 0x85
    case Map => 0x86  case Flag => 0x87
  }

  /** The bytes `BinType::try_from` accepts. */
  predicate IsTag(b: u8)
  {
    b <= 18 || 0x80 <= b <= 0x87
  }

  /** `BinType::try_from` on an accepted byte. */
  function TypeOf(b: u8): (t: BinType)
    requires IsTag(b)
    ensures Code(t) == b
  {
    match b
    case 0 => BinType.None    case 1 => BinType.Bool    case 2 => BinType.I8
    case 3 => BinType.U8      case 4 => BinType.I16     case 5 => BinType.U16
    case 6 => BinType.I32     case 7 => BinType.U32     case 8 => BinType.I64
    case 9 => BinType.U64     case 10 => BinType.F32    case 11 => BinType.Vec2
    case 12 => BinType.Vec3   case 13 => BinType.Vec4   case 14 => BinType.Mtx44
    case 15 => BinType.Rgba   case 16 => BinType.String case 17 => BinType.Hash
    case 18 => BinType.File   case 0x80 => BinType.List case 0x81 => BinType.List2
    case 0x82 => BinType.Pointer                        case 0x83 => BinType.Embed
    case 0x84 => BinType.Link case 0x85 => BinType.Option
    case 0x86 => BinType.Map  case _ => BinType.Flag
  }

  /** The constant parts of a reader: the whole buffer, the end of its window (the length
      of the slice its cursor runs over), its nesting depth and the dictionaries. */
  datatype View = View(data: seq<u8>, end: nat, depth: nat, names: Names)
  {
    ghost predicate Valid()
    {
      end <= |data| && depth <= MaxDepth
    }
  }

  // ---------------------------------------------------------------------------------
  // Primitive reads. Each takes the window and a position and gives the value with the
  // position after it.

  /** `read_exact` of n bytes. */
  function Take(v: View, pos: nat, n: nat): (r: Outcome<(seq<u8>, nat)>)
    requires v.Valid() && pos <= v.end
    ensures r.Ok? <==> pos + n <= v.end
    ensures r.Ok? ==> r.value.1 == pos + n
    ensures !r.Ok? ==> r == Fail(UnexpectedEof)
  {
    if pos + n <= v.end then Ok((v.data[pos..pos + n], pos + n)) else Fail(UnexpectedEof)
  }

  /** `read_u8`, `read_u16`, `read_u32`, `read_u64` (n = 1, 2, 4, 8): exactly n bytes,
      little-endian, or end of file when fewer remain. */
  function ReadUnsigned(v: View, pos: nat, n: nat): (r: Outcome<(nat, nat)>)
    requires v.Valid() && pos <= v.end
    ensures r.Ok? <==> pos + n <= v.end
    ensures r.Ok? ==> r.value.0 < Pow256(n) && r.value.1 == pos + n
    ensures !r.Ok? ==> r == Fail(UnexpectedEof)
  {
    var raw :- Take(v, pos, n);
    Ok((LeValue(raw.0), raw.1))
  }

  /** `read_i8` ... `read_i64` followed by `as i64`: the same bytes read as a two's-complement
      number, sign-extended. */
  function ReadSigned(v: View, pos: nat, n: nat): (r: Outcome<(int, nat)>)
    requires v.Valid() && pos <= v.end && 1 <= n
    ensures r.Ok? <==> pos + n <= v.end
    ensures r.Ok? ==> r.value.1 == pos + n
    ensures !r.Ok? ==> r == Fail(UnexpectedEof)
  {
    var u :- ReadUnsigned(v, pos, n);
    Ok((Bytes.Signed(u.0, n), u.1))
  }

  /** `read_f32`: four bytes, kept as the float's 32-bit pattern. */
  function ReadF32(v: View, pos: nat): (r: Outcome<(F32Bits, nat)>)
    requires v.Valid() && pos <= v.end
    ensures r.Ok? <==> pos + 4 <= v.end
    ensures r.Ok? ==> r.value.1 == pos + 4
    ensures !r.Ok? ==> r == Fail(UnexpectedEof)
  {
    Pow256Widths();
    var x :- ReadUnsigned(v, pos, 4);
    Ok((x.0, x.1))
  }

  /** The float whose pattern lies at p, when four bytes remain there. */
  function F32At(v: View, p: nat): F32Bits
    requires v.Valid()
  {
    Pow256Widths();
    if p + 4 <= v.end then LeValue(v.data[p..p + 4]) else 0
  }

  /** The k floats whose patterns lie one after the other from p. */
  function F32s(v: View, p: nat, k: nat): (xs: seq<F32Bits>)
    requires v.Valid()
    ensures |xs| == k && forall i | 0 <= i < k :: xs[i] == F32At(v, p + 4 * i)
  {
    seq(k, i requires 0 <= i < k => F32At(v, p + 4 * i))
  }

  /** k `read_f32` in a row: `read_vec2`, `read_vec3`, `read_vec4` for k = 2, 3, 4. */
  function ReadF32s(v: View, pos: nat, k: nat): (r: Outcome<(seq<F32Bits>, nat)>)
    requires v.Valid() && pos <= v.end
    ensures r.Ok? <==> pos + 4 * k <= v.end
    ensures r.Ok? ==> r.value.1 == pos + 4 * k
    ensures !r.Ok? ==> r == Fail(UnexpectedEof)
    decreases k
  {
    if k == 0 then Ok(([], pos))
    else
      var x :- ReadF32(v, pos);
      var rest :- ReadF32s(v, x.1, k - 1);
      Ok(([x.0] + rest.0, rest.1))
  }

  /** `read_mtx44`: four `read_vec4`, the rows in wire order. */
  function ReadMtx44(v: View, pos: nat): (r: Outcome<(seq<seq<F32Bits>>, nat)>)
    requires v.Valid() && pos <= v.end
    ensures r.Ok? <==> pos + 64 <= v.end
    ensures r.Ok? ==> r.value.1 == pos + 64
    ensures !r.Ok? ==> r == Fail(UnexpectedEof)
  {
    var r0 :- ReadF32s(v, pos, 4);
    var r1 :- ReadF32s(v, r0.1, 4);
    var r2 :- ReadF32s(v, r1.1, 4);
    var r3 :- ReadF32s(v, r2.1, 4);
    Ok(([r0.0, r1.0, r2.0, r3.0], r3.1))
  }

  /** `read_rgba`: the wire holds a, b, g, r; the value holds r, g, b, a. */
  function ReadRgba(v: View, pos: nat): (r: Outcome<(seq<u8>, nat)>)
    requires v.Valid() && pos <= v.end
    ensures r.Ok? <==> pos + 4 <= v.end
    ensures r.Ok? ==> r.value.1 == pos + 4
    ensures !r.Ok? ==> r == Fail(UnexpectedEof)
  {
    var raw :- Take(v, pos, 4);
    var bs := raw.0;
    Ok(([bs[3], bs[2], bs[1], bs[0]], raw.1))
  }

  /** `read_string`: a u16 byte count, then that many bytes of UTF-8. A count that runs
      past the window makes the slice index panic; ill-formed bytes are an error. */
  function ReadString(v: View, pos: nat): (r: Outcome<(string, nat)>)
    requires v.Valid() && pos <= v.end
    ensures r.Ok? ==> pos + 2 <= r.value.1 <= v.end
    ensures r == Fail(UnexpectedEof) <==> pos + 2 > v.end
  {
    var len :- ReadUnsigned(v, pos, 2);
    var (n, start) := len;
    if start + n > v.end then Panic(SliceOutOfRange)
    else match Utf8.Decode(v.data[start..start + n])
      case None => Fail(InvalidUtf8)
      case Some(s) =>
        Ok((s, start + n))
  }

  /** A u32 hash looked up in the given 32-bit dictionary. */
  function ReadFnvName(v: View, pos: nat, table: map<nat, string>): (r: Outcome<(BinFNV, nat)>)
    requires v.Valid() && pos <= v.end
    ensures r.Ok? <==> pos + 4 <= v.end
    ensures r.Ok? ==> r.value.1 == pos + 4
    ensures !r.Ok? ==> r == Fail(UnexpectedEof)
  {
    Pow256Widths();
    var h :- ReadUnsigned(v, pos, 4);
    Ok((Lookup(Fnv, table, h.0), h.1))
  }

  /** `read_hash_name`: the generic hash dictionary. */
  function ReadHashName(v: View, pos: nat): (r: Outcome<(BinFNV, nat)>)
    requires v.Valid() && pos <= v.end
    ensures r.Ok? <==> pos + 4 <= v.end
    ensures r.Ok? ==> r.value.1 == pos + 4 && r.value.0 == Lookup(Fnv, v.names.hashes, r.value.0.hash)
  {
    ReadFnvName(v, pos, v.names.hashes)
  }

  /** `read_entry_name`: the entry dictionary. */
  function ReadEntryName(v: View, pos: nat): (r: Outcome<(BinFNV, nat)>)
    requires v.Valid() && pos <= v.end
    ensures r.Ok? <==> pos + 4 <= v.end
    ensures r.Ok? ==> r.value.1 == pos + 4 && r.value.0 == Lookup(Fnv, v.names.entries, r.value.0.hash)
  {
    ReadFnvName(v, pos, v.names.entries)
  }

  /** `read_type_name`: the type dictionary. */
  function ReadTypeName(v: View, pos: nat): (r: Outcome<(BinFNV, nat)>)
    requires v.Valid() && pos <= v.end
    ensures r.Ok? <==> pos + 4 <= v.end
    ensures r.Ok? ==> r.value.1 == pos + 4 && r.value.0 == Lookup(Fnv, v.names.types, r.value.0.hash)
  {
    ReadFnvName(v, pos, v.names.types)
  }

  /** `read_field_name`: the field dictionary. */
  function ReadFieldName(v: View, pos: nat): (r: Outcome<(BinFNV, nat)>)
    requires v.Valid() && pos <= v.end
    ensures r.Ok? <==> pos + 4 <= v.end
    ensures r.Ok? ==> r.value.1 == pos + 4 && r.value.0 == Lookup(Fnv, v.names.fields, r.value.0.hash)
  {
    ReadFnvName(v, pos, v.names.fields)
  }

  /** `read_path_name`: a u64 hash looked up in the path dictionary. */
  function ReadPathName(v: View, pos: nat): (r: Outcome<(BinXXH, nat)>)
    requires v.Valid() && pos <= v.end
    ensures r.Ok? <==> pos + 8 <= v.end
    ensures r.Ok? ==> r.value.1 == pos + 8
    ensures !r.Ok? ==> r == Fail(UnexpectedEof)
  {
    Pow256Widths();
    var h :- ReadUnsigned(v, pos, 8);
    Ok((Lookup(Xxh, v.names.paths, h.0), h.1))
  }

  /** `read_type`: one byte; a byte that names no type panics in `unwrap`. */
  function ReadType(v: View, pos: nat): (r: Outcome<(BinType, nat)>)
    requires v.Valid() && pos <= v.end
    ensures r.Ok? ==> r.value.1 == pos + 1
  {
    var b :- ReadUnsigned(v, pos, 1);
    if IsTag(b.0) then Ok((TypeOf(b.0), b.1)) else Panic(UnknownTag)
  }

  /** `read_sub_reader`. When the new depth would pass MaxDepth it fails before reading
      anything. Otherwise it reads a u32 length; the child window starts right after it
      (the second component) and ends that many bytes later, one level deeper, over the
      same buffer and dictionaries; the parent continues at the child's end whatever the
      child reads. A length that runs past the parent's window panics. */
  function OpenRegion(v: View, pos: nat): (r: Outcome<(View, nat)>)
    requires v.Valid() && pos <= v.end
    ensures r.Ok? ==> r.value.0.Valid() && pos < r.value.1 <= r.value.0.end <= v.end
  {
    if v.depth + 1 > MaxDepth then Fail(DepthLimit)
    else
      var len :- ReadUnsigned(v, pos, 4);
      var (n, start) := len;
      if start + n > v.end then Panic(SliceOutOfRange)
      else Ok((View(v.data, start + n, v.depth + 1, v.names), start))
  }

  // ---------------------------------------------------------------------------------
  // `read_value` and the containers it recurses through. Every recursive call is at a
  // later position of the same window or inside a strictly smaller child window.

  /** The tags whose values hold no further values: read_value reads them in place. */
  predicate IsScalar(t: BinType)
  {
    !(t.Option? || t.List? || t.List2? || t.Map? || t.Pointer? || t.Embed?)
  }

  /** The arms of `read_value` for the scalar tags. */
  function DecodeScalar(v: View, t: BinType, pos: nat): (r: Outcome<(BinValue, nat)>)
    requires v.Valid() && pos <= v.end && IsScalar(t)
    ensures r.Ok? ==> pos <= r.value.1 <= v.end
  {
    Pow256Widths();
    match t
    case None => Ok((BinValue.None, pos))
    case Bool => var x :- ReadUnsigned(v, pos, 1); Ok((BinValue.Bool(x.0 != 0), x.1))
    case Flag => var x :- ReadUnsigned(v, pos, 1); Ok((BinValue.Bool(x.0 != 0), x.1))
    case I8 => var x :- ReadSigned(v, pos, 1); Ok((BinValue.Signed(x.0), x.1))
    case U8 => var x :- ReadUnsigned(v, pos, 1); Ok((BinValue.Unsigned(x.0), x.1))
    case I16 => var x :- ReadSigned(v, pos, 2); Ok((BinValue.Signed(x.0), x.1))
    case U16 => var x :- ReadUnsigned(v, pos, 2); Ok((BinValue.Unsigned(x.0), x.1))
    case I32 => var x :- ReadSigned(v, pos, 4); Ok((BinValue.Signed(x.0), x.1))
    case U32 => var x :- ReadUnsigned(v, pos, 4); Ok((BinValue.Unsigned(x.0), x.1))
    case I64 => var x :- ReadSigned(v, pos, 8); Ok((BinValue.Signed(x.0), x.1))
    case U64 => var x :- ReadUnsigned(v, pos, 8); Ok((BinValue.Unsigned(x.0), x.1))
    case F32 => var x :- ReadF32(v, pos); Ok((BinValue.Float(x.0), x.1))
    case Vec2 => var x :- ReadF32s(v, pos, 2); Ok((BinValue.Vec2(x.0), x.1))
    case Vec3 => var x :- ReadF32s(v, pos, 3); Ok((BinValue.Vec3(x.0), x.1))
    case Vec4 => var x :- ReadF32s(v, pos, 4); Ok((BinValue.Vec4(x.0), x.1))
    case Mtx44 => var x :- ReadMtx44(v, pos); Ok((BinValue.Mtx44(x.0), x.1))
    case Rgba => var x :- ReadRgba(v, pos); Ok((BinValue.Rgba(x.0), x.1))
    case String => var x :- ReadString(v, pos); Ok((BinValue.String(x.0), x.1))
    case Hash => var x :- ReadHashName(v, pos); Ok((BinValue.Hash(x.0), x.1))
    case Link => var x :- ReadEntryName(v, pos); Ok((BinValue.Link(x.0), x.1))
    case File => var x :- ReadPathName(v, pos); Ok((BinValue.File(x.0), x.1))
  }

  /** `read_value`: a scalar in place, or one of the containers below. */
  function DecodeValue(v: View, t: BinType, pos: nat): (r: Outcome<(BinValue, nat)>)
    requires v.Valid() && pos <= v.end
    ensures r.Ok? ==> pos <= r.value.1 <= v.end
    decreases v.end - pos, 1, 0
  {
    if IsScalar(t) then DecodeScalar(v, t, pos)
    else match t
      case Option => DecodeOption(v, pos)
      case List => DecodeList(v, pos)
      case List2 => DecodeList(v, pos)
      case Map => DecodeMap(v, pos)
      case Pointer => DecodePointer(v, pos)
      case Embed => DecodePointer(v, pos)
  }

  /** An Option: an element type, a presence byte, and when that byte is not zero one value
      of the element type inline (no sub-reader). */
  function DecodeOption(v: View, pos: nat): (r: Outcome<(BinValue, nat)>)
    requires v.Valid() && pos <= v.end
    ensures r.Ok? ==> pos <= r.value.1 <= v.end
    decreases v.end - pos, 0, 0
  {
    var t :- ReadType(v, pos);
    var count :- ReadUnsigned(v, t.1, 1);
    if count.0 == 0 then Ok((BinValue.None, count.1)) else DecodeValue(v, t.0, count.1)
  }

  /** A List or List2: an element type, then a sub-reader holding a u32 count and that many
      values. */
  function DecodeList(v: View, pos: nat): (r: Outcome<(BinValue, nat)>)
    requires v.Valid() && pos <= v.end
    ensures r.Ok? ==> pos <= r.value.1 <= v.end
    decreases v.end - pos, 0, 0
  {
    var t :- ReadType(v, pos);
    var region :- OpenRegion(v, t.1);
    var (c, start) := region;
    var count :- ReadUnsigned(c, start, 4);
    var items :- DecodeItems(c, t.0, count.1, count.0, []);
    Ok((BinValue.List(items.0), c.end))
  }

  /** n values of type t, appended to acc in wire order. */
  function DecodeItems(c: View, t: BinType, p: nat, n: nat, acc: seq<BinValue>)
    : (r: Outcome<(seq<BinValue>, nat)>)
    requires c.Valid() && p <= c.end
    ensures r.Ok? ==> p <= r.value.1 <= c.end
    decreases c.end - p, 2, n
  {
    if n == 0 then Ok((acc, p))
    else
      var x :- DecodeItem(c, t, p, acc);
      DecodeItems(c, t, x.1, n - 1, x.0)
  }

  /** One turn of DecodeItems: the value at p appended to acc. */
  function DecodeItem(c: View, t: BinType, p: nat, acc: seq<BinValue>): (r: Outcome<(seq<BinValue>, nat)>)
    requires c.Valid() && p <= c.end
    ensures r.Ok? ==> p <= r.value.1 <= c.end
    decreases c.end - p, 1, 1
  {
    var x :- DecodeValue(c, t, p);
    Ok((acc + [x.0], x.1))
  }

  /** A Map: a key type and a value type, then a sub-reader holding a u32 count and that
      many key-value pairs. */
  function DecodeMap(v: View, pos: nat): (r: Outcome<(BinValue, nat)>)
    requires v.Valid() && pos <= v.end
    ensures r.Ok? ==> pos <= r.value.1 <= v.end
    decreases v.end - pos, 0, 0
  {
    var kt :- ReadType(v, pos);
    var vt :- ReadType(v, kt.1);
    var region :- OpenRegion(v, vt.1);
    var (c, start) := region;
    var count :- ReadUnsigned(c, start, 4);
    var pairs :- DecodePairs(c, kt.0, vt.0, count.1, count.0, []);
    Ok((BinValue.Map(pairs.0), c.end))
  }

  /** n key-value pairs, appended to acc in wire order (no merging of equal keys). */
  function DecodePairs(c: View, kt: BinType, vt: BinType, p: nat, n: nat, acc: seq<(BinValue, BinValue)>)
    : (r: Outcome<(seq<(BinValue, BinValue)>, nat)>)
    requires c.Valid() && p <= c.end
    ensures r.Ok? ==> p <= r.value.1 <= c.end
    decreases c.end - p, 2, n
  {
    if n == 0 then Ok((acc, p))
    else
      var x :- DecodePair(c, kt, vt, p);
      DecodePairs(c, kt, vt, x.1, n - 1, acc + [x.0])
  }

  /** One key of type kt followed by one value of type vt. */
  function DecodePair(c: View, kt: BinType, vt: BinType, p: nat): (r: Outcome<((BinValue, BinValue), nat)>)
    requires c.Valid() && p <= c.end
    ensures r.Ok? ==> p <= r.value.1 <= c.end
    decreases c.end - p, 1, 1
  {
    var key :- DecodeValue(c, kt, p);
    var val :- DecodeValue(c, vt, key.1);
    Ok(((key.0, val.0), val.1))
  }

  /** A Pointer or Embed: a type name; the hash 0 stands for no struct and opens no
      sub-reader; otherwise a sub-reader holds the struct's fields. */
  function DecodePointer(v: View, pos: nat): (r: Outcome<(BinValue, nat)>)
    requires v.Valid() && pos <= v.end
    ensures r.Ok? ==> pos <= r.value.1 <= v.end
    decreases v.end - pos, 0, 0
  {
    var tn :- ReadTypeName(v, pos);
    if GetHash(tn.0) == 0 then Ok((BinValue.None, tn.1))
    else
      var region :- OpenRegion(v, tn.1);
      var (c, start) := region;
      var fields :- DecodeFields(c, start);
      Ok((BinValue.Struct(tn.0, fields.0), c.end))
  }

  /** `read_fields`: a u16 count, then that many (field name, type, value) triples. */
  function DecodeFields(c: View, pos: nat): (r: Outcome<(Fields, nat)>)
    requires c.Valid() && pos <= c.end
    ensures r.Ok? ==> pos <= r.value.1 <= c.end
    decreases c.end - pos, 3, 0
  {
    var count :- ReadUnsigned(c, pos, 2);
    DecodeFieldsFrom(c, count.1, count.0, map[])
  }

  /** n fields, each inserted into acc as it is read. */
  function DecodeFieldsFrom(c: View, p: nat, n: nat, acc: Fields): (r: Outcome<(Fields, nat)>)
    requires c.Valid() && p <= c.end
    ensures r.Ok? ==> p <= r.value.1 <= c.end
    decreases c.end - p, 2, n
  {
    if n == 0 then Ok((acc, p))
    else
      var x :- DecodeField(c, p, acc);
      DecodeFieldsFrom(c, x.1, n - 1, x.0)
  }

  /** One field, inserted into acc under its name. */
  function DecodeField(c: View, p: nat, acc: Fields): (r: Outcome<(Fields, nat)>)
    requires c.Valid() && p <= c.end
    ensures r.Ok? ==> p + 5 <= r.value.1 <= c.end
    decreases c.end - p, 1, 1
  {
    var f :- FieldPair(c, p);
    Ok((Insert(acc, f.0.0, f.0.1), f.1))
  }

  /** One (field name, type, value) triple: the name and the value. */
  function FieldPair(c: View, p: nat): (r: Outcome<((BinFNV, BinValue), nat)>)
    requires c.Valid() && p <= c.end
    ensures r.Ok? ==> p + 5 <= r.value.1 <= c.end
    decreases c.end - p, 1, 0
  {
    var key :- ReadFieldName(c, p);
    var x :- DecodeTypedValue(c, key.1);
    Ok(((key.0, x.0), x.1))
  }

  /** A type tag followed by one value of that type. */
  function DecodeTypedValue(c: View, p: nat): (r: Outcome<(BinValue, nat)>)
    requires c.Valid() && p <= c.end
    ensures r.Ok? ==> p + 1 <= r.value.1 <= c.end
    decreases c.end - p, 1, 0
  {
    var t :- ReadType(c, p);
    DecodeValue(c, t.0, t.1)
  }

  // ---------------------------------------------------------------------------------
  // The document: magic, version, links, entries.

  /** `read_links`: a u32 count, then that many strings in wire order. */
  function DecodeLinks(v: View, pos: nat): (r: Outcome<(seq<string>, nat)>)
    requires v.Valid() && pos <= v.end
    ensures r.Ok? ==> pos <= r.value.1 <= v.end
  {
    var count :- ReadUnsigned(v, pos, 4);
    DecodeLinksFrom(v, count.1, count.0, [])
  }

  /** The loop of `read_links`: n strings appended to acc in wire order. */
  function DecodeLinksFrom(v: View, p: nat, n: nat, acc: seq<string>): (r: Outcome<(seq<string>, nat)>)
    requires v.Valid() && p <= v.end
    ensures r.Ok? ==> (p <= r.value.1 <= v.end && |r.value.0| == |acc| + n && r.value.0[..|acc|] == acc)
    ensures r.Ok? && n > 0 ==> ReadString(v, p).Ok? && r.value.0[|acc|] == ReadString(v, p).value.0
    decreases n
  {
    if n == 0 then Ok((acc, p))
    else
      var s :- ReadString(v, p);
      DecodeLinksFrom(v, s.1, n - 1, acc + [s.0])
  }

  /** `read_entries`: a u32 count, then that many type names, then for each type name in
      order one sub-reader holding an entry. */
  function DecodeEntries(v: View, pos: nat): (r: Outcome<(Fields, nat)>)
    requires v.Valid() && pos <= v.end
    ensures r.Ok? ==> pos <= r.value.1 <= v.end
  {
    var count :- ReadUnsigned(v, pos, 4);
    var typeNames :- DecodeTypeNames(v, count.1, count.0, []);
    DecodeEntriesFrom(v, typeNames.1, typeNames.0, map[])
  }

  /** The first loop of `read_entries`: n type names, in wire order. */
  function DecodeTypeNames(v: View, p: nat, n: nat, acc: seq<BinFNV>): (r: Outcome<(seq<BinFNV>, nat)>)
    requires v.Valid() && p <= v.end
    ensures r.Ok? <==> p + 4 * n <= v.end
    ensures r.Ok? ==> (r.value.1 == p + 4 * n && |r.value.0| == |acc| + n && r.value.0[..|acc|] == acc)
    ensures !r.Ok? ==> r == Fail(UnexpectedEof)
    decreases n
  {
    if n == 0 then Ok((acc, p))
    else
      var tn :- ReadTypeName(v, p);
      DecodeTypeNames(v, tn.1, n - 1, acc + [tn.0])
  }

  /** The second loop of `read_entries`: for each type name, a sub-reader holding the
      entry's name and its fields; the entry is inserted under its name. */
  function DecodeEntriesFrom(v: View, p: nat, typeNames: seq<BinFNV>, acc: Fields): (r: Outcome<(Fields, nat)>)
    requires v.Valid() && p <= v.end
    ensures r.Ok? ==> p <= r.value.1 <= v.end
    decreases |typeNames|
  {
    if typeNames == [] then Ok((acc, p))
    else
      var x :- DecodeEntry(v, p, typeNames[0], acc);
      DecodeEntriesFrom(v, x.1, typeNames[1..], x.0)
  }

  /** One turn of that loop: a sub-reader holding an entry name and the fields of a struct
      of the given type; the struct is inserted under the entry name. */
  function DecodeEntry(v: View, p: nat, typeName: BinFNV, acc: Fields): (r: Outcome<(Fields, nat)>)
    requires v.Valid() && p <= v.end
    ensures r.Ok? ==> p < r.value.1 <= v.end
  {
    var e :- EntryPair(v, p, typeName);
    Ok((Insert(acc, e.0.0, e.0.1), e.1))
  }

  /** One entry region: the entry name and the struct. */
  function EntryPair(v: View, p: nat, typeName: BinFNV): (r: Outcome<((BinFNV, BinValue), nat)>)
    requires v.Valid() && p <= v.end
    ensures r.Ok? ==> p < r.value.1 <= v.end
  {
    var region :- OpenRegion(v, p);
    var (c, start) := region;
    var key :- ReadEntryName(c, start);
    var fields :- DecodeFields(c, key.1);
    Ok(((key.0, BinValue.Struct(typeName, fields.0)), c.end))
  }

  /** `read_bin`: the whole buffer is the window, at depth 0. */
  function DecodeBin(data: seq<u8>, names: Names): (r: Outcome<Bin>)
    ensures |data| < 4 ==> r == Fail(UnexpectedEof)
    ensures r.Ok? ==> 8 <= |data| && LeValue(data[..4]) == Magic && r.value.version == LeValue(data[4..8])
  {
    Pow256Widths();
    var v := View(data, |data|, 0, names);
    var magic :- ReadUnsigned(v, 0, 4);
    assert data[0..4] == data[..4];
    if magic.0 != Magic then Fail(BadMagic)
    else
      var version :- ReadUnsigned(v, magic.1, 4);
      var links :- DecodeLinks(v, version.1);
      var entries :- DecodeEntries(v, links.1);
      Ok(Bin(version.0, links.0, entries.0))
  }
}
