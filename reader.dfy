/** `BinReader` (src/reader.rs): a cursor over a window of the buffer, a nesting depth
    and the dictionaries. Each method advances the cursor and is proved to return what
    the matching function of module Wire computes from the position it started at. */
module Reader {
  import opened Bytes
  import opened Outcomes
  import opened Hashes
  import opened Values
  import Wire
  import WireFacts

  /** A method's outcome r, with the cursor left at pos, is the one the specification
      function computed: the same value and the same end position, or the same error. */
  ghost predicate Agrees<T>(r: Outcome<T>, spec: Outcome<(T, nat)>, pos: nat)
  {
    match spec
    case Ok(x) => r == Ok(x.0) && pos == x.1
    case Fail(e) => r == Fail(e)
    case Panic(k) => r == Panic(k)
  }

  /** k floats read one by one at pos agree with ReadF32s. */
  lemma SameF32s(v: Wire.View, pos: nat, k: nat, xs: seq<F32Bits>)
    requires v.Valid() && pos + 4 * k <= v.end && |xs| == k
    requires forall i | 0 <= i < k :: xs[i] == Wire.F32At(v, pos + 4 * i)
    ensures Wire.ReadF32s(v, pos, k) == Ok((xs, pos + 4 * k))
  {
    WireFacts.ReadF32sValues(v, pos, k);
    assert xs == Wire.F32s(v, pos, k);
  }

  class BinReader {
    /** The buffer the cursor's slice lies in. */
    const data: seq<u8>
    /** The length of the cursor's slice: the reader sees data[..end]. */
    const end: nat
    const depth: nat
    /** The contents of the `BinHashes` the reader borrows. */
    const names: Names
    /** The cursor position. */
    var pos: nat

    ghost predicate Valid()
      reads this
    {
      end <= |data| && depth <= Wire.MaxDepth && pos <= end
    }

    /** What does not change while the reader reads. */
    function View(): Wire.View
    {
      Wire.View(data, end, depth, names)
    }

    constructor (data: seq<u8>, end: nat, depth: nat, names: Names, pos: nat)
      requires end <= |data| && depth <= Wire.MaxDepth && pos <= end
      ensures Valid() && View() == Wire.View(data, end, depth, names) && this.pos == pos
    {
      this.data := data;
      this.end := end;
      this.depth := depth;
      this.names := names;
      this.pos := pos;
    }

    /** `Cursor::read_exact` into an n-byte buffer. */
    method ReadExact(n: nat) returns (r: Outcome<seq<u8>>)
      requires Valid()
      modifies this
      ensures Valid() && Agrees(r, Wire.Take(View(), old(pos), n), pos)
    {
      if pos + n <= end {
        r := Ok(data[pos..pos + n]);
        pos := pos + n;
      } else {
        r := Fail(UnexpectedEof);
      }
    }

    /** `read_u8`, `read_u16`, `read_u32`, `read_u64` for n = 1, 2, 4, 8. */
    method ReadUnsigned(n: nat) returns (r: Outcome<nat>)
      requires Valid()
      modifies this
      ensures Valid() && Agrees(r, Wire.ReadUnsigned(View(), old(pos), n), pos)
    {
      var buffer :- ReadExact(n);
      r := Ok(LeValue(buffer));
    }

    /** `read_i8`, `read_i16`, `read_i32`, `read_i64` for n = 1, 2, 4, 8. */
    method ReadSigned(n: nat) returns (r: Outcome<int>)
      requires Valid() && 1 <= n
      modifies this
      ensures Valid() && Agrees(r, Wire.ReadSigned(View(), old(pos), n), pos)
    {
      var u :- ReadUnsigned(n);
      r := Ok(Bytes.Signed(u, n));
    }

    method ReadF32() returns (r: Outcome<F32Bits>)
      requires Valid()
      modifies this
      ensures Valid() && Agrees(r, Wire.ReadF32(View(), old(pos)), pos)
    {
      Pow256Widths();
      var u :- ReadUnsigned(4);
      r := Ok(u);
    }

    method ReadVec2() returns (r: Outcome<seq<F32Bits>>)
      requires Valid()
      modifies this
      ensures Valid() && Agrees(r, Wire.ReadF32s(View(), old(pos), 2), pos)
    {
      ghost var p := pos;
      var x :- ReadF32();
      var y :- ReadF32();
      r := Ok([x, y]);
      SameF32s(View(), p, 2, [x, y]);
    }

    method ReadVec3() returns (r: Outcome<seq<F32Bits>>)
      requires Valid()
      modifies this
      ensures Valid() && Agrees(r, Wire.ReadF32s(View(), old(pos), 3), pos)
    {
      ghost var p := pos;
      var x :- ReadF32();
      var y :- ReadF32();
      var z :- ReadF32();
      r := Ok([x, y, z]);
      SameF32s(View(), p, 3, [x, y, z]);
    }

    method ReadVec4() returns (r: Outcome<seq<F32Bits>>)
      requires Valid()
      modifies this
      ensures Valid() && Agrees(r, Wire.ReadF32s(View(), old(pos), 4), pos)
    {
      ghost var p := pos;
      var x :- ReadF32();
      var y :- ReadF32();
      var z :- ReadF32();
      var w :- ReadF32();
      r := Ok([x, y, z, w]);
      SameF32s(View(), p, 4, [x, y, z, w]);
    }

    method ReadMtx44() returns (r: Outcome<seq<seq<F32Bits>>>)
      requires Valid()
      modifies this
      ensures Valid() && Agrees(r, Wire.ReadMtx44(View(), old(pos)), pos)
    {
      var r0 :- ReadVec4();
      var r1 :- ReadVec4();
      var r2 :- ReadVec4();
      var r3 :- ReadVec4();
      r := Ok([r0, r1, r2, r3]);
    }

    /** Four `read_u8`: a, b, g, r on the wire; [r, g, b, a] returned. */
    method ReadRgba() returns (r: Outcome<seq<u8>>)
      requires Valid()
      modifies this
      ensures Valid() && Agrees(r, Wire.ReadRgba(View(), old(pos)), pos)
    {
      Pow256Widths();
      ghost var p := pos;
      var a :- ReadUnsigned(1);
      assert a == data[p] by { assert data[p..p + 1][1..] == []; }
      var b :- ReadUnsigned(1);
      assert b == data[p + 1] by { assert data[p + 1..p + 2][1..] == []; }
      var g :- ReadUnsigned(1);
      assert g == data[p + 2] by { assert data[p + 2..p + 3][1..] == []; }
      var red :- ReadUnsigned(1);
      assert red == data[p + 3] by { assert data[p + 3..p + 4][1..] == []; }
      r := Ok([red, g, b, a]);
    }

    /** `read_string`: the cursor moves past the declared length before the slice is cut;
        a length running past the slice panics, ill-formed UTF-8 is an error. */
    method ReadString() returns (r: Outcome<string>)
      requires Valid()
      modifies this
      ensures Valid() && Agrees(r, Wire.ReadString(View(), old(pos)), pos)
    {
      var len :- ReadUnsigned(2);
      var start := pos;
      if start + len > end {
        return Panic(SliceOutOfRange);
      }
      pos := start + len;
      match Utf8.Decode(data[start..start + len])
      case None => r := Fail(InvalidUtf8);
      case Some(s) => r := Ok(s);
    }

    /** A u32 hash resolved in one 32-bit dictionary. */
    method ReadFnvName(table: map<nat, string>) returns (r: Outcome<BinFNV>)
      requires Valid()
      modifies this
      ensures Valid() && Agrees(r, Wire.ReadFnvName(View(), old(pos), table), pos)
    {
      Pow256Widths();
      var hash :- ReadUnsigned(4);
      r := Ok(Lookup(Fnv, table, hash));
    }

    method ReadHashName() returns (r: Outcome<BinFNV>)
      requires Valid()
      modifies this
      ensures Valid() && Agrees(r, Wire.ReadHashName(View(), old(pos)), pos)
    {
      r := ReadFnvName(names.hashes);
    }

    method ReadEntryName() returns (r: Outcome<BinFNV>)
      requires Valid()
      modifies this
      ensures Valid() && Agrees(r, Wire.ReadEntryName(View(), old(pos)), pos)
    {
      r := ReadFnvName(names.entries);
    }

    method ReadTypeName() returns (r: Outcome<BinFNV>)
      requires Valid()
      modifies this
      ensures Valid() && Agrees(r, Wire.ReadTypeName(View(), old(pos)), pos)
    {
      r := ReadFnvName(names.types);
    }

    method ReadFieldName() returns (r: Outcome<BinFNV>)
      requires Valid()
      modifies this
      ensures Valid() && Agrees(r, Wire.ReadFieldName(View(), old(pos)), pos)
    {
      r := ReadFnvName(names.fields);
    }

    method ReadPathName() returns (r: Outcome<BinXXH>)
      requires Valid()
      modifies this
      ensures Valid() && Agrees(r, Wire.ReadPathName(View(), old(pos)), pos)
    {
      Pow256Widths();
      var hash :- ReadUnsigned(8);
      r := Ok(Lookup(Xxh, names.paths, hash));
    }

    /** `read_type`: `unwrap` panics on a byte that names no type. */
    method ReadType() returns (r: Outcome<Wire.BinType>)
      requires Valid()
      modifies this
      ensures Valid() && Agrees(r, Wire.ReadType(View(), old(pos)), pos)
    {
      Pow256Widths();
      ghost var p := pos;
      var b :- ReadUnsigned(1);
      assert b == data[p] by { assert data[p..p + 1][1..] == []; }
      if Wire.IsTag(b) {
        r := Ok(Wire.TypeOf(b));
      } else {
        r := Panic(UnknownTag);
      }
    }

    /** `read_sub_reader`: a new reader over the next region, one level deeper, with the
        cursor of this reader moved to the region's end. */
    method ReadSubReader() returns (r: Outcome<BinReader>)
      requires Valid()
      modifies this
      ensures Valid()
      ensures match Wire.OpenRegion(View(), old(pos))
        case Ok(x) =>
          && r.Ok? && fresh(r.value) && r.value.Valid()
          && r.value.View() == x.0 && r.value.pos == x.1 && pos == x.0.end
        case Fail(e) => r == Fail(e)
        case Panic(k) => r == Panic(k)
    {
      if depth + 1 > Wire.MaxDepth {
        return Fail(DepthLimit);
      }
      ghost var p := pos;
      var len :- ReadUnsigned(4);
      var start := pos;
      if start + len > end {
        return Panic(SliceOutOfRange);
      }
      pos := start + len;
      var child := new BinReader(data, start + len, depth + 1, names, start);
      r := Ok(child);
    }

    /** `read_fields`: a u16 count, then that many (name, type, value) triples, each
        inserted into the map as it is read. */
    method ReadFields() returns (r: Outcome<Fields>)
      requires Valid()
      modifies this
      ensures Valid() && Agrees(r, Wire.DecodeFields(View(), old(pos)), pos)
      decreases end - pos, 3, 0
    {
      ghost var p0 := pos;
      var count :- ReadUnsigned(2);
      var result: Fields := map[];
      var i := 0;
      while i < count
        invariant Valid() && i <= count && p0 < pos
        invariant Wire.DecodeFields(View(), p0)
          == Wire.DecodeFieldsFrom(View(), pos, count - i, result)
        decreases count - i
      {
        result :- ReadField(result);
        i := i + 1;
      }
      r := Ok(result);
    }

    /** One turn of the loop of `read_fields`: name, type, value, insert. */
    method ReadField(acc: Fields) returns (r: Outcome<Fields>)
      requires Valid()
      modifies this
      ensures Valid() && Agrees(r, Wire.DecodeField(View(), old(pos), acc), pos)
      decreases end - pos, 1, 1
    {
      var key :- ReadFieldName();
      var value :- ReadTypedValue();
      r := Ok(Insert(acc, key, value));
    }

    /** The type and value of a field: `read_type` and then `read_value` of that type. */
    method ReadTypedValue() returns (r: Outcome<BinValue>)
      requires Valid()
      modifies this
      ensures Valid() && Agrees(r, Wire.DecodeTypedValue(View(), old(pos)), pos)
      decreases end - pos, 1, 0
    {
      var valueType :- ReadType();
      r := ReadValue(valueType);
    }

    /** `read_value`. The scalar arms are ReadScalar, the container arms the methods below. */
    method ReadValue(t: Wire.BinType) returns (r: Outcome<BinValue>)
      requires Valid()
      modifies this
      ensures Valid() && Agrees(r, Wire.DecodeValue(View(), t, old(pos)), pos)
      decreases end - pos, 1, 0
    {
      if Wire.IsScalar(t) {
        r := ReadScalar(t);
      } else {
        match t
        case Option => r := ReadOption();
        case List => r := ReadList();
        case List2 => r := ReadList();
        case Map => r := ReadMap();
        case Pointer => r := ReadPointer();
        case Embed => r := ReadPointer();
      }
    }

    method ReadScalar(t: Wire.BinType) returns (r: Outcome<BinValue>)
      requires Valid() && Wire.IsScalar(t)
      modifies this
      ensures Valid() && Agrees(r, Wire.DecodeScalar(View(), t, old(pos)), pos)
    {
      Pow256Widths();
      match t
      case None => r := Ok(BinValue.None);
      case Bool => var x :- ReadUnsigned(1); r := Ok(BinValue.Bool(x != 0));
      case Flag => var x :- ReadUnsigned(1); r := Ok(BinValue.Bool(x != 0));
      case I8 => var x :- ReadSigned(1); r := Ok(BinValue.Signed(x));
      case U8 => var x :- ReadUnsigned(1); r := Ok(BinValue.Unsigned(x));
      case I16 => var x :- ReadSigned(2); r := Ok(BinValue.Signed(x));
      case U16 => var x :- ReadUnsigned(2); r := Ok(BinValue.Unsigned(x));
      case I32 => var x :- ReadSigned(4); r := Ok(BinValue.Signed(x));
      case U32 => var x :- ReadUnsigned(4); r := Ok(BinValue.Unsigned(x));
      case I64 => var x :- ReadSigned(8); r := Ok(BinValue.Signed(x));
      case U64 => var x :- ReadUnsigned(8); r := Ok(BinValue.Unsigned(x));
      case F32 => var x :- ReadF32(); r := Ok(BinValue.Float(x));
      case Vec2 => var x :- ReadVec2(); r := Ok(BinValue.Vec2(x));
      case Vec3 => var x :- ReadVec3(); r := Ok(BinValue.Vec3(x));
      case Vec4 => var x :- ReadVec4(); r := Ok(BinValue.Vec4(x));
      case Mtx44 => var x :- ReadMtx44(); r := Ok(BinValue.Mtx44(x));
      case Rgba => var x :- ReadRgba(); r := Ok(BinValue.Rgba(x));
      case String => var x :- ReadString(); r := Ok(BinValue.String(x));
      case Hash => var x :- ReadHashName(); r := Ok(BinValue.Hash(x));
      case Link => var x :- ReadEntryName(); r := Ok(BinValue.Link(x));
      case File => var x :- ReadPathName(); r := Ok(BinValue.File(x));
    }

    /** The Option arm: the element is read inline, without a sub-reader. */
    method ReadOption() returns (r: Outcome<BinValue>)
      requires Valid()
      modifies this
      ensures Valid() && Agrees(r, Wire.DecodeOption(View(), old(pos)), pos)
      decreases end - pos, 0, 0
    {
      var valueType :- ReadType();
      var count :- ReadUnsigned(1);
      if count == 0 {
        r := Ok(BinValue.None);
      } else {
        r := ReadValue(valueType);
      }
    }

    /** The List and List2 arm. */
    method ReadList() returns (r: Outcome<BinValue>)
      requires Valid()
      modifies this
      ensures Valid() && Agrees(r, Wire.DecodeList(View(), old(pos)), pos)
      decreases end - pos, 0, 0
    {
      var valueType :- ReadType();
      var io :- ReadSubReader();
      var count :- io.ReadUnsigned(4);
      var items :- io.ReadItems(valueType, count);
      r := Ok(BinValue.List(items));
    }

    /** The loop of the List arm: count values of type t, in wire order. */
    method ReadItems(t: Wire.BinType, count: nat) returns (r: Outcome<seq<BinValue>>)
      requires Valid()
      modifies this
      ensures Valid() && Agrees(r, Wire.DecodeItems(View(), t, old(pos), count, []), pos)
      decreases end - pos, 2, count
    {
      ghost var p0 := pos;
      ghost var spec := Wire.DecodeItems(View(), t, pos, count, []);
      var result: seq<BinValue> := [];
      var i := 0;
      while i < count
        invariant Valid() && i <= count && p0 <= pos
        invariant spec == Wire.DecodeItems(View(), t, pos, count - i, result)
        decreases count - i
      {
        var next := ReadItem(t, result);
        if !next.Ok? {
          return next.PropagateFailure();
        }
        result := next.value;
        i := i + 1;
      }
      r := Ok(result);
    }

    /** One turn of the List loop: the next value, appended to the items read so far. */
    method ReadItem(t: Wire.BinType, acc: seq<BinValue>) returns (r: Outcome<seq<BinValue>>)
      requires Valid()
      modifies this
      ensures Valid() && Agrees(r, Wire.DecodeItem(View(), t, old(pos), acc), pos)
      decreases end - pos, 1, 1
    {
      var x :- ReadValue(t);
      r := Ok(acc + [x]);
    }

    /** The Map arm: pairs are kept in wire order. */
    method ReadMap() returns (r: Outcome<BinValue>)
      requires Valid()
      modifies this
      ensures Valid() && Agrees(r, Wire.DecodeMap(View(), old(pos)), pos)
      decreases end - pos, 0, 0
    {
      var keyType :- ReadType();
      var valueType :- ReadType();
      var io :- ReadSubReader();
      var count :- io.ReadUnsigned(4);
      var pairs :- io.ReadPairs(keyType, valueType, count);
      r := Ok(BinValue.Map(pairs));
    }

    /** The loop of the Map arm: count key-value pairs, in wire order. */
    method ReadPairs(keyType: Wire.BinType, valueType: Wire.BinType, count: nat)
      returns (r: Outcome<seq<(BinValue, BinValue)>>)
      requires Valid()
      modifies this
      ensures Valid() && Agrees(r, Wire.DecodePairs(View(), keyType, valueType, old(pos), count, []), pos)
      decreases end - pos, 2, count
    {
      ghost var p0 := pos;
      var result: seq<(BinValue, BinValue)> := [];
      var i := 0;
      while i < count
        invariant Valid() && i <= count && p0 <= pos
        invariant Wire.DecodePairs(View(), keyType, valueType, p0, count, [])
          == Wire.DecodePairs(View(), keyType, valueType, pos, count - i, result)
        decreases count - i
      {
        var pair :- ReadPair(keyType, valueType);
        result := result + [pair];
        i := i + 1;
      }
      r := Ok(result);
    }

    /** One turn of the loop of the Map arm: a key, then a value. */
    method ReadPair(keyType: Wire.BinType, valueType: Wire.BinType) returns (r: Outcome<(BinValue, BinValue)>)
      requires Valid()
      modifies this
      ensures Valid() && Agrees(r, Wire.DecodePair(View(), keyType, valueType, old(pos)), pos)
      decreases end - pos, 1, 1
    {
      var key :- ReadValue(keyType);
      var value :- ReadValue(valueType);
      r := Ok((key, value));
    }

    /** The Pointer and Embed arm: the type-name hash 0 is no struct and opens no region. */
    method ReadPointer() returns (r: Outcome<BinValue>)
      requires Valid()
      modifies this
      ensures Valid() && Agrees(r, Wire.DecodePointer(View(), old(pos)), pos)
      decreases end - pos, 0, 0
    {
      var typeName :- ReadTypeName();
      if GetHash(typeName) == 0 {
        return Ok(BinValue.None);
      }
      var io :- ReadSubReader();
      var fields :- io.ReadFields();
      r := Ok(BinValue.Struct(typeName, fields));
    }

    /** `read_entries`: all type names first, then one region per entry. */
    method ReadEntries() returns (r: Outcome<Fields>)
      requires Valid()
      modifies this
      ensures Valid() && Agrees(r, Wire.DecodeEntries(View(), old(pos)), pos)
    {
      var count :- ReadUnsigned(4);
      var typeNames :- ReadTypeNames(count);
      r := ReadEntriesFrom(typeNames);
    }

    /** The first loop of `read_entries`: count type names, in wire order. */
    method ReadTypeNames(count: nat) returns (r: Outcome<seq<BinFNV>>)
      requires Valid()
      modifies this
      ensures Valid() && Agrees(r, Wire.DecodeTypeNames(View(), old(pos), count, []), pos)
    {
      ghost var p0 := pos;
      var typeNames: seq<BinFNV> := [];
      var i := 0;
      while i < count
        invariant Valid() && i <= count
        invariant Wire.DecodeTypeNames(View(), p0, count, [])
          == Wire.DecodeTypeNames(View(), pos, count - i, typeNames)
        decreases count - i
      {
        var typeName :- ReadTypeName();
        typeNames := typeNames + [typeName];
        i := i + 1;
      }
      r := Ok(typeNames);
    }

    /** The second loop of `read_entries`: one entry region per type name. */
    method ReadEntriesFrom(typeNames: seq<BinFNV>) returns (r: Outcome<Fields>)
      requires Valid()
      modifies this
      ensures Valid() && Agrees(r, Wire.DecodeEntriesFrom(View(), old(pos), typeNames, map[]), pos)
    {
      ghost var p0 := pos;
      var result: Fields := map[];
      var j := 0;
      while j < |typeNames|
        invariant Valid() && j <= |typeNames|
        invariant Wire.DecodeEntriesFrom(View(), p0, typeNames, map[])
          == Wire.DecodeEntriesFrom(View(), pos, typeNames[j..], result)
        decreases |typeNames| - j
      {
        assert typeNames[j..][1..] == typeNames[j + 1..];
        result :- ReadEntry(typeNames[j], result);
        j := j + 1;
      }
      r := Ok(result);
    }

    /** One turn of the second loop of `read_entries`. */
    method ReadEntry(typeName: BinFNV, acc: Fields) returns (r: Outcome<Fields>)
      requires Valid()
      modifies this
      ensures Valid() && Agrees(r, Wire.DecodeEntry(View(), old(pos), typeName, acc), pos)
    {
      var io :- ReadSubReader();
      var key :- io.ReadEntryName();
      var fields :- io.ReadFields();
      r := Ok(Insert(acc, key, BinValue.Struct(typeName, fields)));
    }

    /** `read_links`: a u32 count, then that many strings. */
    method ReadLinks() returns (r: Outcome<seq<string>>)
      requires Valid()
      modifies this
      ensures Valid() && Agrees(r, Wire.DecodeLinks(View(), old(pos)), pos)
    {
      ghost var p0 := pos;
      var count :- ReadUnsigned(4);
      var result: seq<string> := [];
      var i := 0;
      while i < count
        invariant Valid() && i <= count
        invariant Wire.DecodeLinks(View(), p0) == Wire.DecodeLinksFrom(View(), pos, count - i, result)
        decreases count - i
      {
        var value :- ReadString();
        result := result + [value];
        i := i + 1;
      }
      r := Ok(result);
    }

    /** `read_bin`: a reader over the whole buffer at depth 0, then magic, version, links
        and entries. The outcome is exactly DecodeBin of the buffer and the dictionaries'
        contents. */
    static method ReadBin(data: seq<u8>, hashes: BinHashes) returns (r: Outcome<Bin>)
      ensures r == Wire.DecodeBin(data, hashes.Contents())
    {
      Pow256Widths();
      var reader := new BinReader(data, |data|, 0, hashes.Contents(), 0);
      var magic :- reader.ReadUnsigned(4);
      if magic != Wire.Magic {
        return Fail(BadMagic);
      }
      var version :- reader.ReadUnsigned(4);
      var links :- reader.ReadLinks();
      var entries :- reader.ReadEntries();
      r := Ok(Bin(version, links, entries));
    }
  }
}
