/** The decoded document (src/lib.rs): a closed sum type of values and the top-level `Bin`. */
module Values {
  import opened Bytes
  import opened Hashes

  /** The bit pattern of an IEEE-754 single; the decoder only moves these bits. */
  type F32Bits = u32

  datatype BinValue =
    | None
    | Bool(b: bool)
    | Signed(i: i64)
    | Unsigned(u: u64)
    | Float(x: F32Bits)
    | Vec2(v2: seq<F32Bits>)
    | Vec3(v3: seq<F32Bits>)
    | Vec4(v4: seq<F32Bits>)
    | Mtx44(rows: seq<seq<F32Bits>>)
    | Rgba(rgba: seq<u8>)
    | String(s: string)
    | Hash(hash: BinFNV)
    | Link(link: BinFNV)
    | File(file: BinXXH)
    | List(items: seq<BinValue>)
      /** an ordered list of pairs: duplicates and wire order are kept */
    | Map(pairs: seq<(BinValue, BinValue)>)
      /** a type name and at most one value per field-name hash */
    | Struct(typeName: BinFNV, fields: Fields)

  /** A `HashMap<BinFNV, BinValue>` entry: the key as first inserted, and the value. */
  datatype Slot = Slot(key: BinFNV, value: BinValue)

  /** A `HashMap<BinFNV, BinValue>`, keyed by the numeric hash, which is all that
      `BinFNV`'s equality and hashing look at. */
  type Fields = map<u32, Slot>

  datatype Bin = Bin(version: u32, links: seq<string>, entries: Fields)

  /** Every slot sits under the hash of its own key. */
  ghost predicate KeyedByHash(m: Fields)
  {
    forall h | h in m :: m[h].key.hash == h
  }

  /** `HashMap::insert`: a new key adds a slot; a key equal to one present keeps the
      stored key and replaces its value. */
  function Insert(m: Fields, k: BinFNV, v: BinValue): (r: Fields)
    ensures k.hash in r
  {
    if k.hash in m then m[k.hash := Slot(m[k.hash].key, v)] else m[k.hash := Slot(k, v)]
  }

  /** After an insert the key's hash holds the new value under the key first stored for
      it, the other slots are unchanged, and slots stay under their own key's hash. */
  lemma InsertSlots(m: Fields, k: BinFNV, v: BinValue)
    ensures var r := Insert(m, k, v);
      && r.Keys == m.Keys + {k.hash}
      && r[k.hash] == (if k.hash in m then Slot(m[k.hash].key, v) else Slot(k, v))
      && (forall h | h in m && h != k.hash :: r[h] == m[h])
      && (KeyedByHash(m) ==> KeyedByHash(r))
  {
  }

  /** Inserting a wire-ordered list of pairs, one after the other. */
  function InsertAll(m: Fields, ps: seq<(BinFNV, BinValue)>): (r: Fields)
    decreases |ps|
  {
    if ps == [] then m else InsertAll(Insert(m, ps[0].0, ps[0].1), ps[1..])
  }

  /** The hashes a list of pairs names. */
  ghost function NamedHashes(ps: seq<(BinFNV, BinValue)>): set<u32>
  {
    set i | 0 <= i < |ps| :: ps[i].0.hash
  }

  /** After inserting a list of pairs the keys are the old keys plus the named hashes. */
  lemma {:induction false} InsertAllKeys(m: Fields, ps: seq<(BinFNV, BinValue)>)
    ensures InsertAll(m, ps).Keys == m.Keys + NamedHashes(ps)
    decreases |ps|
  {
    if ps != [] {
      InsertSlots(m, ps[0].0, ps[0].1);
      InsertAllKeys(Insert(m, ps[0].0, ps[0].1), ps[1..]);
      assert NamedHashes(ps) == {ps[0].0.hash} + NamedHashes(ps[1..]) by {
        forall i | 0 <= i < |ps| ensures ps[i].0.hash in {ps[0].0.hash} + NamedHashes(ps[1..]) {
          if i > 0 { assert ps[1..][i - 1] == ps[i]; }
        }
      }
    }
  }

  /** After inserting a list of pairs, each hash named in the list holds the value of the
      LAST pair naming it. */
  lemma {:induction false} InsertAllLastWins(m: Fields, ps: seq<(BinFNV, BinValue)>, i: nat)
    requires i < |ps| && forall j | i < j < |ps| :: ps[j].0.hash != ps[i].0.hash
    ensures var r := InsertAll(m, ps); ps[i].0.hash in r && r[ps[i].0.hash].value == ps[i].1
    decreases |ps|
  {
    var m1 := Insert(m, ps[0].0, ps[0].1);
    InsertSlots(m, ps[0].0, ps[0].1);
    if i > 0 {
      assert ps[1..][i - 1] == ps[i];
      forall j | i - 1 < j < |ps| - 1 ensures ps[1..][j].0.hash != ps[1..][i - 1].0.hash {
        assert ps[1..][j] == ps[j + 1];
      }
      InsertAllLastWins(m1, ps[1..], i - 1);
    } else {
      forall j | 0 <= j < |ps| - 1 ensures ps[1..][j].0.hash != ps[0].0.hash {
        assert ps[1..][j] == ps[j + 1];
      }
      InsertAllUnchanged(m1, ps[1..], ps[0].0.hash);
    }
  }

  /** Inserting a list of pairs leaves the slot of a hash the list does not name alone. */
  lemma {:induction false} InsertAllUnchanged(m: Fields, ps: seq<(BinFNV, BinValue)>, h: u32)
    requires h in m && forall i | 0 <= i < |ps| :: ps[i].0.hash != h
    ensures h in InsertAll(m, ps) && InsertAll(m, ps)[h] == m[h]
    decreases |ps|
  {
    if ps != [] {
      InsertSlots(m, ps[0].0, ps[0].1);
      forall j | 0 <= j < |ps| - 1 ensures ps[1..][j].0.hash != h {
        assert ps[1..][j] == ps[j + 1];
      }
      InsertAllUnchanged(Insert(m, ps[0].0, ps[0].1), ps[1..], h);
    }
  }

  lemma {:induction false} InsertAllKeyedByHash(m: Fields, ps: seq<(BinFNV, BinValue)>)
    requires KeyedByHash(m)
    ensures KeyedByHash(InsertAll(m, ps))
    decreases |ps|
  {
    if ps != [] {
      InsertSlots(m, ps[0].0, ps[0].1);
      InsertAllKeyedByHash(Insert(m, ps[0].0, ps[0].1), ps[1..]);
    }
  }
}
