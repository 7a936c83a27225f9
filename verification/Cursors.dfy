/** The cursor every decoder and encoder moves (src/phys/binary.rs). */
module Cursors {
  import opened Base

  predicate AllZero(s: seq<byte>) {
    forall i :: 0 <= i < |s| ==> s[i] == 0
  }

  method IsZeros(s: seq<byte>) returns (zero: bool)
    ensures zero <==> AllZero(s)
  {
    for i := 0 to |s|
      invariant AllZero(s[..i])
    {
      if s[i] != 0 {
        return false;
      }
      assert s[..i + 1] == s[..i] + [s[i]];
    }
    assert s[..|s|] == s;
    zero := true;
  }

  /** A window `min..max` of the data and a position in it, over every run. */
  class Decoder {
    const data: seq<byte>
    const min: nat
    const max: nat
    var offset: nat

    predicate Valid()
      reads this
    {
      min <= offset <= max <= |data|
    }

    /** What is left to read. */
    function Rest(): (s: seq<byte>)
      requires Valid()
      reads this
    {
      data[offset..max]
    }

    constructor (data: seq<byte>)
      ensures Valid() && Rest() == data && this.data == data && offset == min == 0
    {
      this.data, min, max, offset := data, 0, |data|, 0;
    }

    constructor Within(data: seq<byte>, offset: nat, length: nat)
      requires offset + length <= |data|
      ensures Valid() && Rest() == data[offset..offset + length] && this.data == data && this.offset == min == offset
    {
      this.data, min, max, this.offset := data, offset, offset + length, offset;
    }

    /** Refused exactly when the window does not lie in the data. */
    static method Clamped(data: seq<byte>, offset: nat, length: nat) returns (r: Option<Decoder>)
      ensures r.Some? <==> offset + length <= |data|
      ensures r.Some? ==> fresh(r.value) && r.value.Valid() && r.value.Rest() == data[offset..offset + length]
    {
      if offset > |data| || |data| - offset < length {
        return None;
      }
      var d := new Decoder.Within(data, offset, length);
      r := Some(d);
    }

    method Reset()
      requires Valid()
      modifies this
      ensures Valid() && offset == min
    {
      offset := min;
    }

    method Rewind(count: nat) returns (ok: bool)
      requires Valid()
      modifies this
      ensures Valid() && (ok <==> min <= old(offset) - count)
      ensures offset == if ok then old(offset) - count else old(offset)
    {
      ok := !(count > offset || offset - count < min);
      if ok {
        offset := offset - count;
      }
    }

    method Seek(target: nat) returns (ok: bool)
      requires Valid()
      modifies this
      ensures Valid() && (ok <==> min <= target <= max)
      ensures offset == if ok then target else old(offset)
    {
      ok := !(target < min || target > max);
      if ok {
        offset := target;
      }
    }

    method Skip(count: nat) returns (ok: bool)
      requires Valid()
      modifies this
      ensures Valid() && (ok <==> count <= |old(Rest())|)
      ensures ok ==> Rest() == old(Rest())[count..] && offset == old(offset) + count
      ensures !ok ==> offset == old(offset)
    {
      ok := max - offset >= count;
      if ok {
        offset := offset + count;
      }
    }

    /** The next `count` bytes. */
    method Get(count: nat) returns (r: Option<seq<byte>>)
      requires Valid()
      modifies this
      ensures Valid() && (r.Some? <==> count <= |old(Rest())|)
      ensures r.Some? ==> r.value == old(Rest())[..count] && Rest() == old(Rest())[count..]
      ensures r.Some? ==> offset == old(offset) + count
      ensures r.None? ==> offset == old(offset)
    {
      if max - offset < count {
        return None;
      }
      r := Some(data[offset..offset + count]);
      offset := offset + count;
    }

    /** Non-zero bytes are an error, and the cursor is then past them. */
    method SkipZeros(count: nat) returns (ok: bool)
      requires Valid()
      modifies this
      ensures Valid() && (ok <==> count <= |old(Rest())| && AllZero(old(Rest())[..count]))
      ensures offset == if count <= |old(Rest())| then old(offset) + count else old(offset)
    {
      var bytes := Get(count);
      if bytes.None? {
        return false;
      }
      ok := IsZeros(bytes.value);
    }

    /** Non-zero bytes leave the cursor where it was. */
    method IsSkipZeros(count: nat) returns (r: Option<bool>)
      requires Valid()
      modifies this
      ensures Valid() && (r.Some? <==> count <= |old(Rest())|)
      ensures r.Some? ==> r.value == AllZero(old(Rest())[..count])
      ensures offset == if r == Some(true) then old(offset) + count else old(offset)
    {
      var start := offset;
      var bytes := Get(count);
      if bytes.None? {
        return None;
      }
      var zero := IsZeros(bytes.value);
      if !zero {
        offset := start;
      }
      r := Some(zero);
    }
  }

  /** The output buffer: what is before the offset is written. */
  class Encoder {
    const data: array<byte>
    var offset: nat

    predicate Valid()
      reads this
    {
      offset <= data.Length
    }

    function Written(): (s: seq<byte>)
      requires Valid()
      reads this, data
    {
      data[..offset]
    }

    constructor (data: array<byte>)
      ensures Valid() && Written() == [] && this.data == data
    {
      this.data, offset := data, 0;
    }

    /** All of the bytes or none; nothing outside them changes. */
    method Put(bytes: seq<byte>) returns (ok: bool)
      requires Valid()
      modifies this, data
      ensures Valid() && (ok <==> |bytes| <= data.Length - old(offset))
      ensures Written() == old(Written()) + (if ok then bytes else [])
      ensures data[offset..] == old(data[offset..])[|Written()| - |old(Written())|..]
    {
      ok := data.Length - offset >= |bytes|;
      if ok {
        forall i | 0 <= i < |bytes| { data[offset + i] := bytes[i]; }
        offset := offset + |bytes|;
      }
    }

    method PutZeros(count: nat) returns (ok: bool)
      requires Valid()
      modifies this, data
      ensures Valid() && (ok <==> count <= data.Length - old(offset))
      ensures Written() == old(Written()) + (if ok then Zeros(count) else [])
      ensures data[offset..] == old(data[offset..])[|Written()| - |old(Written())|..]
    {
      ok := Put(Zeros(count));
    }

    method Seek(target: nat) returns (ok: bool)
      requires Valid()
      modifies this
      ensures Valid() && (ok <==> target <= data.Length) && offset == if ok then target else old(offset)
    {
      ok := target <= data.Length;
      if ok {
        offset := target;
      }
    }

    method Skip(count: nat) returns (ok: bool)
      requires Valid()
      modifies this
      ensures Valid() && (ok <==> old(offset) + count <= data.Length)
      ensures offset == if ok then old(offset) + count else old(offset)
    {
      ok := data.Length - offset >= count;
      if ok {
        offset := offset + count;
      }
    }

    method Rewind(count: nat) returns (ok: bool)
      requires Valid()
      modifies this
      ensures Valid() && (ok <==> count <= old(offset)) && offset == if ok then old(offset) - count else old(offset)
    {
      ok := count <= offset;
      if ok {
        offset := offset - count;
      }
    }
  }
}
