// The growable byte buffer under every TN record, and the escaping of outgoing data.

module TnBuffer {
  import opened Bytes

  const BUFFER_DELTA := 128
  const IAC: Byte := 255
  const EOR: Byte := 239

  function EscapedByte(b: Byte): Bytes {
    if b == IAC then [IAC, IAC] else [b]
  }

  /** The bytes of `s` with every IAC doubled. */
  function Escaped(s: Bytes): Bytes {
    if s == [] then [] else Escaped(s[..|s| - 1]) + EscapedByte(s[|s| - 1])
  }

  lemma EscapedLast(s: Bytes)
    requires s != []
    ensures Escaped(s) == Escaped(s[..|s| - 1]) + EscapedByte(s[|s| - 1])
  {
  }

  lemma EscapedNone(s: Bytes)
    requires s == []
    ensures Escaped(s) == []
  {
  }

  function CountIac(s: Bytes): nat {
    if s == [] then 0 else CountIac(s[..|s| - 1]) + (if s[|s| - 1] == IAC then 1 else 0)
  }

  lemma {:induction false} EscapedLength(s: Bytes)
    ensures |Escaped(s)| == |s| + CountIac(s)
  {
    if s == [] {
    } else {
      EscapedLength(s[..|s| - 1]);
    }
  }

  class Buffer {
    var data: array?<Byte>
    var len: nat
    var capacity: nat   // the source calls it allocated

    /** No bytes and no memory, or memory in steps of 128 bytes with room for at least one byte more. */
    ghost predicate Valid()
      reads this
    {
      if data == null then len == 0 && capacity == 0
      else len > 0 && capacity == data.Length == 128 * (len / 128 + 1)
    }

    ghost function Contents(): Bytes
      requires Valid()
      reads this, data
    {
      if data == null then [] else data[..len]
    }

    constructor ()
      ensures Valid() && Contents() == [] && data == null
    {
      data, len, capacity := null, 0, 0;
    }

    method Free()
      modifies this
      ensures Valid() && Contents() == [] && data == null
    {
      data, len, capacity := null, 0, 0;
    }

    method AppendByte(b: Byte)
      requires Valid()
      modifies this, data
      ensures Valid() && Contents() == old(Contents()) + [b]
      ensures data == old(data) || fresh(data)
    {
      if len + 1 >= capacity {
        if data == null {
          capacity := BUFFER_DELTA;
          data := new Byte[capacity];
        } else {
          capacity := capacity + BUFFER_DELTA;
          Realloc();
        }
      }
      data[len] := b;
      len := len + 1;
    }

    /** g_realloc to `capacity` bytes. */
    method Realloc()
      requires data != null && len <= data.Length <= capacity
      modifies this`data
      ensures fresh(data) && data.Length == capacity && data[..len] == old(data[..len])
    {
      var p := new Byte[capacity];
      forall i | 0 <= i < data.Length {
        p[i] := data[i];
      }
      data := p;
    }

    method AppendData(s: Bytes)
      requires Valid()
      modifies this, data
      ensures Valid() && Contents() == old(Contents()) + s
      ensures data == old(data) || fresh(data)
    {
      var i := 0;
      while i < |s|
        invariant i <= |s| && Valid() && Contents() == old(Contents()) + s[..i]
        invariant data == old(data) || fresh(data)
      {
        AppendByte(s[i]);
        i := i + 1;
      }
    }

    method AppendEscaped(c: Byte)
      requires Valid()
      modifies this, data
      ensures Valid() && Contents() == old(Contents()) + EscapedByte(c)
      ensures data == old(data) || fresh(data)
    {
      AppendByte(c);
      if c == IAC {
        AppendByte(IAC);
      }
    }

    /** telnet_stream_escape: the buffer takes over the bytes of a second one, filled from it. */
    method Escape()
      requires Valid()
      modifies this
      ensures Valid() && Contents() == Escaped(old(Contents()))
      ensures data == null || fresh(data)
    {
      hide Escaped, EscapedByte;
      var out := new Buffer();
      var n := 0;
      EscapedNone(Contents()[..0]);
      while n < len
        invariant unchanged(this) && Valid() && Contents() == old(Contents()) && n <= len == |Contents()|
        invariant fresh(out) && (out.data == null || fresh(out.data))
        invariant out.Valid() && out.Contents() == Escaped(Contents()[..n])
      {
        var c := data[n];
        assert Contents()[..n + 1][..n] == Contents()[..n];
        EscapedLast(Contents()[..n + 1]);
        out.AppendEscaped(c);
        n := n + 1;
      }
      assert Contents()[..len] == Contents();
      Free();
      data, len, capacity := out.data, out.len, out.capacity;
    }
  }

  /** tn3270_stream_send_packet, up to the bytes it hands to the socket. */
  method SendPacket(payload: Bytes) returns (wire: Bytes)
    ensures wire == Escaped(payload) + [255, 239]
  {
    var out := new Buffer();
    out.AppendData(payload);
    assert out.Contents() == payload;
    out.Escape();
    out.AppendByte(IAC);
    out.AppendByte(EOR);
    wire := out.data[..out.len];
    out.Free();
    assert Escaped(payload) + [IAC] + [EOR] == Escaped(payload) + [IAC, EOR];
  }
}
