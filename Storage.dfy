/**
 * The FRAM chip behind the I2C bus, seen as what the rest of the firmware
 * uses it for: an array of 32768 bytes with single-byte and range reads and
 * writes. A range write sends the bytes one after the other to consecutive
 * addresses, and the loops below write them in that order, so an
 * interruption after any number of bytes leaves a prefix of the range
 * written (`Overwrite` with a prefix of the data).
 */
module Storage {
  import opened Bytes

  /** `size()`: a 32 KB chip. */
  const Size: nat := 32768

  /** The medium `m` with the bytes from `first` on replaced by `data`. */
  function Overwrite(m: seq<uint8>, first: nat, data: seq<uint8>): (r: seq<uint8>)
    requires first + |data| <= |m|
    ensures |r| == |m|
    ensures forall k :: 0 <= k < |m| ==> r[k] == if first <= k < first + |data| then data[k - first] else m[k]
  {
    m[..first] + data + m[first + |data|..]
  }

  /** What a range write stores reads back unchanged. */
  lemma OverwriteReadsBack(m: seq<uint8>, first: nat, data: seq<uint8>)
    requires first + |data| <= |m|
    ensures Overwrite(m, first, data)[first..first + |data|] == data
  {
    var written := Overwrite(m, first, data)[first..first + |data|];
    assert forall k :: 0 <= k < |written| ==> written[k] == data[k];
  }

  /** A range write changes no byte outside its range. */
  lemma OverwriteKeepsOutside(m: seq<uint8>, first: nat, data: seq<uint8>, lo: nat, hi: nat)
    requires first + |data| <= |m| && lo <= hi <= |m|
    requires hi <= first || first + |data| <= lo
    ensures Overwrite(m, first, data)[lo..hi] == m[lo..hi]
  {
    var kept := Overwrite(m, first, data)[lo..hi];
    assert forall k :: 0 <= k < |kept| ==> kept[k] == m[lo + k];
  }

  /** One more byte written after a prefix of the data extends the written prefix. */
  lemma OverwriteExtend(m: seq<uint8>, first: nat, data: seq<uint8>, i: nat)
    requires first + |data| <= |m| && i < |data|
    ensures Overwrite(m, first, data[..i])[first + i := data[i]] == Overwrite(m, first, data[..i + 1])
  {
  }

  /** The whole data written is the same as its last prefix written. */
  lemma OverwriteWhole(m: seq<uint8>, first: nat, data: seq<uint8>)
    requires first + |data| <= |m|
    ensures Overwrite(m, first, data[..|data|]) == Overwrite(m, first, data)
  {
    assert data[..|data|] == data;
  }

  /** `writeByte`: store one byte. */
  method WriteByte(medium: array<uint8>, index: nat, data: uint8)
    requires index < medium.Length
    modifies medium
    ensures medium[..] == old(medium[..])[index := data]
  {
    medium[index] := data;
  }

  /** `writeBytes`: send the bytes of `data` to consecutive addresses from `firstIndex` on. */
  method WriteBytes(medium: array<uint8>, firstIndex: nat, data: seq<uint8>)
    requires firstIndex + |data| <= medium.Length
    modifies medium
    ensures medium[..] == Overwrite(old(medium[..]), firstIndex, data)
  {
    for i := 0 to |data|
      invariant medium[..] == Overwrite(old(medium[..]), firstIndex, data[..i])
    {
      OverwriteExtend(old(medium[..]), firstIndex, data, i);
      medium[firstIndex + i] := data[i];
    }
    OverwriteWhole(old(medium[..]), firstIndex, data);
  }

  /** `readByte`: the byte at `index`. */
  method ReadByte(medium: array<uint8>, index: nat) returns (data: uint8)
    requires index < medium.Length
    ensures data == medium[index]
  {
    data := medium[index];
  }

  /**
   * `readBytes`: `size` consecutive bytes from `firstIndex` on. The byte
   * count travels in one byte of the bus request, so reads of more than 255
   * bytes do not work.
   */
  method ReadBytes(medium: array<uint8>, firstIndex: nat, size: nat) returns (data: seq<uint8>)
    requires size < 0x100 && firstIndex + size <= medium.Length
    ensures data == medium[firstIndex..firstIndex + size]
  {
    data := [];
    for i := 0 to size
      invariant data == medium[firstIndex..firstIndex + i]
    {
      data := data + [medium[firstIndex + i]];
    }
  }
}
