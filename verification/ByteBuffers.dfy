/** The byte writer and byte reader objects, in-place, proved against the format functions.
    The block codec and the message codec each have such a pair; they differ in the width of a length prefix only. */
module ByteBuffers {
  import opened Core
  import opened Numbers
  import opened Primitives

  class ByteWriter {
    var bytes: Bytes

    constructor ()
      ensures bytes == []
    {
      bytes := [];
    }

    method WriteLE(n: nat, value: nat)
      modifies this
      ensures bytes == old(bytes) + LE(n, value)
    {
      var i := 0;
      while i < n
        invariant i <= n
        invariant bytes == old(bytes) + LE(i, value)
      {
        bytes := bytes + [(value / Pow256(i)) % 256];
        LEAppend(i, value);
        i := i + 1;
      }
    }

    method WriteFixed(data: Bytes)
      modifies this
      ensures bytes == old(bytes) + data
    {
      bytes := bytes + data;
    }

    method WriteBytes(w: nat, data: Bytes)
      modifies this
      ensures bytes == old(bytes) + Prefixed(w, data)
    {
      WriteLE(w, |data|);
      bytes := bytes + data;
    }
  }

  class ByteReader {
    const data: Bytes
    var offset: nat
    /** Model-only: set where the source's behaviour becomes undefined. */
    var undefined: bool

    ghost function State(): Reader
      reads this
    {
      Reader(data, offset, undefined)
    }

    constructor (data: Bytes)
      ensures State() == Start(data)
    {
      this.data, offset, undefined := data, 0, false;
    }

    method ReadLE(n: nat) returns (value: Option<nat>)
      modifies this
      ensures (value, State()) == Primitives.ReadLE(old(State()), n)
    {
      if offset + n > |data| {
        return None;
      }
      var v, i := 0, 0;
      while i < n
        invariant i <= n && offset == old(offset) && undefined == old(undefined)
        invariant v == FromLE(data[offset..offset + i])
      {
        assert data[offset..offset + i] + [data[offset + i]] == data[offset..offset + i + 1];
        FromLEAppend(data[offset..offset + i], data[offset + i]);
        v := v + data[offset + i] * Pow256(i);
        i := i + 1;
      }
      offset := offset + n;
      return Some(v);
    }

    method ReadFixed(n: nat) returns (value: Option<Bytes>)
      modifies this
      ensures (value, State()) == Primitives.ReadFixed(old(State()), n)
    {
      if offset + n > |data| {
        return None;
      }
      var out, i := [], 0;
      while i < n
        invariant i <= n && offset == old(offset) && undefined == old(undefined)
        invariant out == data[offset..offset + i]
      {
        out := out + [data[offset + i]];
        i := i + 1;
      }
      offset := offset + n;
      return Some(out);
    }

    method ReadBytes(w: nat) returns (value: Option<Bytes>)
      modifies this
      ensures (value, State()) == Primitives.ReadBytes(old(State()), w)
    {
      var size := ReadLE(w);
      if size.None? {
        return None;
      }
      var end := (offset + size.value) % U64;
      if end > |data| {
        return None;
      }
      if end < offset {
        undefined := true;
        return None;
      }
      var out := data[offset..end];
      offset := end;
      return Some(out);
    }

    method Finished() returns (done: bool)
      ensures done == (offset == |data|)
    {
      return offset == |data|;
    }
  }
}
