/** A forward-only cursor over a byte slice. */
module Reader {
  import opened LittleEndian
  import opened ParserErrors

  /** A reader over the slice `input` that has consumed (handed out or skipped)
      its first `pos` bytes. The unconsumed bytes, which the source keeps as
      its one field, are `Rest()`. */
  class ByteReader {
    const input: seq<Byte>
    var pos: nat

    ghost predicate Valid()
      reads this
    {
      pos <= |input|
    }

    /** The bytes not yet consumed. */
    function Rest(): seq<Byte>
      reads this
      requires Valid()
    {
      input[pos..]
    }

    /** Every byte handed out or skipped so far, in order. */
    ghost function Consumed(): seq<Byte>
      reads this
      requires Valid()
    {
      input[..pos]
    }

    constructor (bytes: seq<Byte>)
      ensures Valid() && input == bytes && pos == 0
      ensures Rest() == bytes && Consumed() == []
    {
      input := bytes;
      pos := 0;
    }

    /** Hands out the next `amount` bytes; the source's `split_at` panics when
        fewer remain. */
    method ReadBytes(amount: nat) returns (data: seq<Byte>)
      requires Valid() && pos + amount <= |input|
      modifies this
      ensures Valid() && pos == old(pos) + amount
      ensures data == input[old(pos)..pos]
      ensures data == old(Rest())[..amount] && Rest() == old(Rest())[amount..]
    {
      data := input[pos..pos + amount];
      pos := pos + amount;
    }

    /** Hands out the next byte; the source panics when none remains. */
    method ReadByte() returns (b: Byte)
      requires Valid() && pos + 1 <= |input|
      modifies this
      ensures Valid() && pos == old(pos) + 1
      ensures b == input[old(pos)]
      ensures b == old(Rest())[0] && Rest() == old(Rest())[1..]
    {
      var data := input[pos..pos + 1];
      pos := pos + 1;
      b := data[0];
    }

    /** The next 8 bytes as a little-endian u64; never an error. */
    method ReadU64() returns (r: Result<U64>)
      requires Valid() && pos + 8 <= |input|
      modifies this
      ensures Valid() && pos == old(pos) + 8
      ensures Rest() == old(Rest())[8..]
      ensures r.Ok? && r.value == U64At(input, old(pos))
    {
      var data := ReadBytes(8);
      Pow256Widths();
      r := Ok(FromLE(data));
    }

    /** The next 4 bytes as a little-endian u32; never an error. */
    method ReadU32() returns (r: Result<U32>)
      requires Valid() && pos + 4 <= |input|
      modifies this
      ensures Valid() && pos == old(pos) + 4
      ensures Rest() == old(Rest())[4..]
      ensures r.Ok? && r.value == U32At(input, old(pos))
    {
      var data := ReadBytes(4);
      Pow256Widths();
      r := Ok(FromLE(data));
    }

    /** The next 2 bytes as a little-endian u16; never an error. */
    method ReadU16() returns (r: Result<U16>)
      requires Valid() && pos + 2 <= |input|
      modifies this
      ensures Valid() && pos == old(pos) + 2
      ensures Rest() == old(Rest())[2..]
      ensures r.Ok? && r.value == U16At(input, old(pos))
    {
      var data := ReadBytes(2);
      Pow256Widths();
      r := Ok(FromLE(data));
    }

    /** The unconsumed bytes; the reader is left as it was. */
    method Remaining() returns (s: seq<Byte>)
      requires Valid()
      ensures s == Rest() && Consumed() + s == input
    {
      s := input[pos..];
    }

    /** Drops the next `amount` bytes without handing them out; panics in the
        source when fewer remain. */
    method Skip(amount: nat)
      requires Valid() && pos + amount <= |input|
      modifies this
      ensures Valid() && pos == old(pos) + amount
      ensures Rest() == old(Rest())[amount..]
    {
      pos := pos + amount;
    }
  }
}
