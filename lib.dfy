/** The crate's entry point: `Bin::read_from`. */
module Rbin {
  import opened Bytes
  import opened Outcomes
  import opened Hashes
  import opened Values
  import Wire
  import WireFacts
  import Reader

  /** `Bin::read_from`: decode a whole buffer with the given dictionaries. The outcome is
      DecodeBin of the buffer and the dictionaries' contents; a decoded document starts
      with the magic, and its entries sit under their own name hashes. */
  method ReadFrom(data: seq<u8>, hashes: BinHashes) returns (r: Outcome<Bin>)
    ensures r == Wire.DecodeBin(data, hashes.Contents())
    ensures r.Ok? ==> 8 <= |data| && LeValue(data[..4]) == Wire.Magic
    ensures r.Ok? ==> r.value.version == LeValue(data[4..8]) && KeyedByHash(r.value.entries)
  {
    r := Reader.BinReader.ReadBin(data, hashes);
    if r.Ok? {
      WireFacts.DocumentLayout(data, hashes.Contents());
    }
  }
}
