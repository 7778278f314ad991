// The records of the A suite: a type and a list of keyed parameters in one buffer.

module AsuiteRecord {
  import opened Bytes

  const MAX_BUFFER_SIZE := 32763

  type Short = x: int | 0 <= x < 0x1_0000

  /** htons and ntohs on a little-endian host. */
  function Swap(x: Short): Short {
    x % 256 * 256 + x / 256
  }

  datatype Param = Param(key: Byte, data: Bytes)

  /** A parameter as it lies in a record: its whole length in two bytes, the higher first, the key, the data. */
  function EncodeParam(p: Param): (s: Bytes)
    requires |p.data| + 3 < 0x1_0000
    ensures |s| == |p.data| + 3
  {
    [(|p.data| + 3) / 256, (|p.data| + 3) % 256, p.key] + p.data
  }

  predicate Short16(ps: seq<Param>) {
    forall i :: 0 <= i < |ps| ==> |ps[i].data| + 3 < 0x1_0000
  }

  function Encode(ps: seq<Param>): Bytes
    requires Short16(ps)
  {
    if ps == [] then [] else Encode(ps[..|ps| - 1]) + EncodeParam(ps[|ps| - 1])
  }

  lemma EncodeSnoc(ps: seq<Param>, p: Param)
    requires Short16(ps) && |p.data| + 3 < 0x1_0000
    ensures Short16(ps + [p]) && Encode(ps + [p]) == Encode(ps) + EncodeParam(p)
  {
    assert (ps + [p])[..|ps|] == ps;
  }

  lemma EncodeLast(ps: seq<Param>)
    requires Short16(ps) && ps != []
    ensures var n := |ps| - 1;
            Short16(ps[..n]) && Encode(ps) == Encode(ps[..n]) + EncodeParam(ps[n])
  {
  }

  lemma ReadsEnd(a: Bytes, b: Bytes)
    ensures Reads(a + b, |a|, b)
  {
  }

  /** Where the `i`-th parameter starts, and that it is there in full. */
  lemma {:induction false} EncodeAt(ps: seq<Param>, i: nat)
    requires Short16(ps) && i < |ps|
    ensures Short16(ps[..i]) && Reads(Encode(ps), |Encode(ps[..i])|, EncodeParam(ps[i]))
    ensures |Encode(ps[..i + 1])| == |Encode(ps[..i])| + |ps[i].data| + 3 <= |Encode(ps)|
  {
    hide Encode, EncodeParam;
    var n := |ps| - 1;
    EncodeLast(ps);
    if i == n {
      assert ps[..i + 1] == ps;
      ReadsEnd(Encode(ps[..n]), EncodeParam(ps[n]));
    } else {
      EncodeAt(ps[..n], i);
      assert ps[..n][..i] == ps[..i] && ps[..n][..i + 1] == ps[..i + 1];
      ReadsExtend(Encode(ps[..n]), EncodeParam(ps[n]), |Encode(ps[..i])|, EncodeParam(ps[i]));
    }
  }

  // ----- strncpy

  function Zeros(n: nat): Bytes {
    seq(n, _ => 0)
  }

  /** The `n` bytes strncpy writes: the source up to its first NUL, then NULs. */
  function StrNCpy(src: Bytes, n: nat): (r: Bytes)
    ensures |r| == n
  {
    if n == 0 then []
    else if src == [] || src[0] == 0 then Zeros(n)
    else [src[0]] + StrNCpy(src[1..], n - 1)
  }

  /** Up to the first NUL a byte of the copy is that of the source; from there on it is NUL. */
  lemma {:induction false} StrNCpyByte(src: Bytes, n: nat, i: nat)
    requires i < n
    ensures StrNCpy(src, n)[i] == if i < |src| && 0 !in src[..i + 1] then src[i] else 0
  {
    if src == [] {
    } else if src[0] == 0 {
      assert i < |src| ==> src[..i + 1][0] == 0;
    } else if i > 0 {
      StrNCpyByte(src[1..], n - 1, i - 1);
      assert i < |src| ==> src[..i + 1] == [src[0]] + src[1..][..i];
    }
  }

  /** Behind the first NUL there are only NULs. */
  predicate NulEnded(s: Bytes) {
    forall i, j :: 0 <= i < j < |s| && s[i] == 0 ==> s[j] == 0
  }

  /** Data survives the copy into a record exactly when nothing but NULs follows its first NUL. */
  lemma {:induction false} StrNCpyExact(s: Bytes)
    ensures StrNCpy(s, |s|) == s <==> NulEnded(s)
  {
    if s == [] {
    } else if s[0] == 0 {
      assert NulEnded(s) ==> forall j :: 0 < j < |s| ==> s[j] == 0;
      assert s == Zeros(|s|) <==> forall j :: 0 <= j < |s| ==> s[j] == 0;
    } else {
      StrNCpyExact(s[1..]);
      assert NulEnded(s) <==> NulEnded(s[1..]) by {
        if NulEnded(s[1..]) {
          forall i, j | 0 <= i < j < |s| && s[i] == 0
            ensures s[j] == 0
          {
            assert s[1..][i - 1] == 0 && s[1..][j - 1] == s[j];
          }
        }
        if NulEnded(s) {
          forall i, j | 0 <= i < j < |s[1..]| && s[1..][i] == 0
            ensures s[1..][j] == 0
          {
            assert s[i + 1] == 0;
          }
        }
      }
      assert s == [s[0]] + s[1..];
    }
  }

  /** Numbers as asuiterecord_append_twobyte lays them out. */
  function TwoBytes(values: seq<Short>): (s: Bytes)
    ensures |s| == 2 * |values|
  {
    if values == [] then []
    else TwoBytes(values[..|values| - 1]) + [values[|values| - 1] / 256, values[|values| - 1] % 256]
  }

  /** Of each number the higher byte comes first. */
  lemma {:induction false} TwoBytesAt(values: seq<Short>, i: nat)
    requires i < |values|
    ensures TwoBytes(values)[2 * i] == values[i] / 256 && TwoBytes(values)[2 * i + 1] == values[i] % 256
    decreases |values|
  {
    if i + 1 == |values| {
    } else {
      TwoBytesAt(values[..|values| - 1], i);
    }
  }

  class Record {
    var position: nat
    const buffer: array<Byte>

    ghost var params: seq<Param>

    /** The record holds a type and then `params`, up to `position`. */
    ghost predicate Valid()
      reads this, buffer
    {
      && buffer.Length == 32763
      && 2 <= position <= buffer.Length
      && Short16(params)
      && buffer[2..position] == Encode(params)
    }

    constructor ()
      ensures Valid() && params == [] && position == 2 && fresh(buffer)
    {
      buffer := new Byte[MAX_BUFFER_SIZE];
      position := 2;
      params := [];
    }

    method Clear()
      requires buffer.Length == MAX_BUFFER_SIZE
      modifies this
      ensures Valid() && params == []
    {
      position := 2;
      params := [];
    }

    method SetType(rectype: Short)
      requires buffer.Length == MAX_BUFFER_SIZE
      modifies buffer
      ensures buffer[..2] == [rectype / 256, rectype % 256] && buffer[2..] == old(buffer[2..])
      ensures old(Valid()) ==> Valid()
    {
      ghost var was := buffer[2..];
      var temp := Swap(rectype);
      buffer[0] := temp % 256;
      buffer[1] := temp / 256 % 256;
      assert buffer[2..] == was;
      if old(Valid()) {
        assert buffer[2..position] == was[..position - 2] == old(buffer[2..position]);
      }
    }

    /** The major code is only the lower byte of the type. */
    method GetMajorCode() returns (code: Byte)
      requires buffer.Length == MAX_BUFFER_SIZE
      ensures code == buffer[1]
    {
      code := buffer[1];
    }

    /** asuiterecord_append. The caller's data has `length` bytes or a NUL where it ends earlier. */
    method Append(key: Byte, data: Bytes, length: nat)
      requires Valid() && position + 3 + length <= 32763
      requires length <= |data| || 0 in data
      modifies this, buffer
      ensures Valid() && params == old(params) + [Param(key, StrNCpy(data, length))]
      ensures position == old(position) + 3 + length && buffer[..2] == old(buffer[..2])
      ensures params[|params| - 1].data == buffer[old(position) + 3..position]
      ensures var o := old(position);
              && buffer[2..o] == old(buffer[2..o])
              && buffer[o] == (length + 3) / 256 && buffer[o + 1] == (length + 3) % 256 && buffer[o + 2] == key
      ensures var s := buffer[old(position) + 3..position];
              forall i :: 0 <= i < length ==> s[i] == if i < |data| && 0 !in data[..i + 1] then data[i] else 0
    {
      hide StrNCpy, Valid;
      AppendBytes(key, StrNCpy(data, length));
      TextWritten(buffer[old(position) + 3..position], data, length);
    }

    /** The length, the key and the bytes of one parameter. */
    method AppendBytes(key: Byte, s: Bytes)
      requires Valid() && position + 3 + |s| <= MAX_BUFFER_SIZE
      modifies this, buffer
      ensures Valid() && params == old(params) + [Param(key, s)]
      ensures position == old(position) + 3 + |s| && buffer[..2] == old(buffer[..2])
      ensures var o := old(position);
              && 2 <= o <= position <= buffer.Length && buffer[2..o] == old(buffer[2..o])
              && buffer[o] == (|s| + 3) / 256 && buffer[o + 1] == (|s| + 3) % 256 && buffer[o + 2] == key
              && buffer[o + 3..position] == s
    {
      hide Encode, EncodeParam;
      ghost var o, before := position, buffer[2..position];
      var p := Param(key, s);
      var temp := Swap(|s| + 3);
      Encoded(p);
      Write([temp % 256, temp / 256, key] + s);
      Written(buffer[..], o, position, before, p);
      EncodeSnoc(params, p);
      params := params + [p];
    }

    static lemma Encoded(p: Param)
      requires |p.data| + 3 < 0x1_0000
      ensures var temp := Swap(|p.data| + 3); EncodeParam(p) == [temp % 256, temp / 256, p.key] + p.data
    {
    }

    method AppendChar(key: Byte, data: Byte)
      requires Valid() && position + 4 <= MAX_BUFFER_SIZE
      modifies this, buffer
      ensures Valid() && params == old(params) + [Param(key, [data])]
      ensures position == old(position) + 4 && buffer[..2] == old(buffer[..2])
      ensures buffer[2..position] == old(buffer[2..position]) + [0, 4, key, data]
    {
      hide Encode;
      var p := Param(key, [data]);
      var temp := Swap(4);
      assert EncodeParam(p) == [temp % 256, temp / 256, key, data];
      Write([temp % 256, temp / 256, key, data]);
      EncodeSnoc(params, p);
      params := params + [p];
    }

    /** What a record holds in front of the parameter written last, and the bytes of that. */
    static lemma Written(buf: Bytes, o: nat, end: nat, before: Bytes, p: Param)
      requires 2 <= o <= end <= |buf| && |before| == o - 2 && |p.data| + 3 < 0x1_0000
      requires buf[2..end] == before + EncodeParam(p)
      ensures buf[2..o] == before && end == o + 3 + |p.data|
      ensures buf[o] == (3 + |p.data|) / 256 && buf[o + 1] == (3 + |p.data|) % 256 && buf[o + 2] == p.key
      ensures buf[o + 3..end] == p.data
    {
      var all := buf[2..end];
      assert buf[2..o] == all[..o - 2];
      assert all[o - 2] == buf[o] && all[o - 1] == buf[o + 1] && all[o] == buf[o + 2];
      assert buf[o + 3..end] == all[o + 1..] == p.data;
    }

    static lemma TextWritten(s: Bytes, data: Bytes, length: nat)
      requires s == StrNCpy(data, length)
      ensures forall i :: 0 <= i < length ==> s[i] == if i < |data| && 0 !in data[..i + 1] then data[i] else 0
    {
      hide StrNCpy;
      forall i | 0 <= i < length
        ensures s[i] == if i < |data| && 0 !in data[..i + 1] then data[i] else 0
      {
        StrNCpyByte(data, length, i);
      }
    }

    static lemma NumbersWritten(s: Bytes, values: seq<Short>)
      requires s == TwoBytes(values)
      ensures forall i :: 0 <= i < |values| ==> s[2 * i..2 * i + 2] == [values[i] / 256, values[i] % 256]
    {
      hide TwoBytes;
      forall i | 0 <= i < |values|
        ensures s[2 * i..2 * i + 2] == [values[i] / 256, values[i] % 256]
      {
        TwoBytesAt(values, i);
      }
    }

    /** Bytes at the end of the record, one after the other. */
    method Write(s: Bytes)
      requires buffer.Length == MAX_BUFFER_SIZE && 2 <= position && position + |s| <= MAX_BUFFER_SIZE
      modifies this`position, buffer
      ensures position == old(position) + |s|
      ensures buffer[..2] == old(buffer[..2]) && buffer[2..position] == old(buffer[2..position]) + s
    {
      forall i | 0 <= i < |s| {
        buffer[position + i] := s[i];
      }
      position := position + |s|;
    }

    /** asuiterecord_append_twobyte: the numbers first, and the length when they are all there. */
    method AppendTwoByte(key: Byte, values: seq<Short>)
      requires Valid() && values != [] && position + 3 + 2 * |values| <= MAX_BUFFER_SIZE
      modifies this, buffer
      ensures Valid() && params == old(params) + [Param(key, TwoBytes(values))]
      ensures position == old(position) + 3 + 2 * |values| && buffer[..2] == old(buffer[..2])
      ensures var o, n := old(position), 3 + 2 * |values|;
              && buffer[2..o] == old(buffer[2..o])
              && buffer[o] == n / 256 && buffer[o + 1] == n % 256 && buffer[o + 2] == key
      ensures var s := buffer[old(position) + 3..position];
              forall i :: 0 <= i < |values| ==> s[2 * i..2 * i + 2] == [values[i] / 256, values[i] % 256]
    {
      hide Encode, EncodeParam, TwoBytes, Short16;
      var lenIndex := position;
      ghost var before := buffer[2..position];
      ghost var any: Bytes := buffer[position..position + 2];
      ghost var p := Param(key, TwoBytes(values));
      position := position + 2;
      assert buffer[2..position] == before + any;
      Write([key]);
      WriteValues(values);
      Joined(before + any, [key], TwoBytes(values));
      FillLength(lenIndex, |values|, before, any, [key] + TwoBytes(values));
      EncodedAs(p, |values|);
      Written(buffer[..], lenIndex, position, before, p);
      NumbersWritten(p.data, values);
      EncodeSnoc(params, p);
      params := params + [p];
    }

    lemma Joined(a: Bytes, b: Bytes, c: Bytes)
      ensures a + b + c == a + (b + c)
    {
    }

    lemma EncodedAs(p: Param, count: nat)
      requires |p.data| == 2 * count && 3 + 2 * count < 0x1_0000
      ensures EncodeParam(p) == [(3 + 2 * count) / 256, (3 + 2 * count) % 256] + ([p.key] + p.data)
    {
    }

    method WriteValues(values: seq<Short>)
      requires buffer.Length == MAX_BUFFER_SIZE && 2 <= position && position + 2 * |values| <= MAX_BUFFER_SIZE
      modifies this`position, buffer
      ensures position == old(position) + 2 * |values| && buffer[..2] == old(buffer[..2])
      ensures buffer[2..position] == old(buffer[2..position]) + TwoBytes(values)
    {
      var i := 0;
      ghost var before := buffer[2..position];
      while i < |values|
        invariant i <= |values| && position == old(position) + 2 * i && buffer[..2] == old(buffer[..2])
        invariant buffer[2..position] == before + TwoBytes(values[..i])
      {
        assert values[..i + 1][..i] == values[..i];
        var temp := Swap(values[i]);
        Write([temp % 256, temp / 256]);
        i := i + 1;
      }
      assert values[..i] == values;
    }

    /** The two length bytes that were left open. */
    method FillLength(lenIndex: nat, count: nat, ghost before: Bytes, ghost any: Bytes, ghost rest: Bytes)
      requires buffer.Length == MAX_BUFFER_SIZE && 2 <= lenIndex <= lenIndex + 2 <= position <= MAX_BUFFER_SIZE
      requires 3 + 2 * count < 0x1_0000 && |before| == lenIndex - 2 && |any| == 2
      requires buffer[2..position] == before + any + rest
      modifies buffer
      ensures buffer[..2] == old(buffer[..2])
      ensures buffer[2..position] == before + ([(3 + 2 * count) / 256, (3 + 2 * count) % 256] + rest)
    {
      ghost var was: Bytes := buffer[..];
      var temp := Swap(3 + 2 * count);
      buffer[lenIndex] := temp % 256;
      buffer[lenIndex + 1] := temp / 256;
      Filled(was, lenIndex, position, before, any, rest, buffer[..]);
    }

    static lemma Filled(buf: Bytes, i: nat, end: nat, before: Bytes, any: Bytes, rest: Bytes, now: Bytes)
      requires 2 <= i <= i + 2 <= end <= |buf| == |now| && |before| == i - 2 && |any| == 2
      requires buf[2..end] == before + any + rest
      requires forall k :: 0 <= k < |buf| && k != i && k != i + 1 ==> now[k] == buf[k]
      ensures now[2..end] == before + ([now[i], now[i + 1]] + rest)
    {
      var was := buf[2..end];
      forall k | 2 <= k < end
        ensures now[k] == (before + ([now[i], now[i + 1]] + rest))[k - 2]
      {
        assert buf[k] == was[k - 2];
      }
    }

    // ----- reading a record

    /** The bytes that send_asuiterecord hands over. */
    ghost function Sent(): Bytes
      requires Valid()
      reads this, buffer
    {
      buffer[..position]
    }

    /** get_asuiterecord: the bytes another record sent take the place of what was here. */
    method Receive(bytes: Bytes, ghost ps: seq<Param>)
      requires buffer.Length == MAX_BUFFER_SIZE && 2 <= |bytes| <= MAX_BUFFER_SIZE
      requires Short16(ps) && bytes[2..] == Encode(ps)
      modifies this, buffer
      ensures Valid() && params == ps && Sent() == bytes
    {
      Load(bytes);
      params := ps;
      assert buffer[2..position] == buffer[..position][2..];
    }

    /** The bytes of a record that need not hold parameters. */
    method Load(bytes: Bytes)
      requires buffer.Length == MAX_BUFFER_SIZE && |bytes| <= MAX_BUFFER_SIZE
      modifies this`position, buffer
      ensures position == |bytes| && buffer[..position] == bytes
    {
      forall i | 0 <= i < |bytes| {
        buffer[i] := bytes[i];
      }
      position := |bytes|;
    }

    method GetParamLen(curpos: nat) returns (len: Short)
      requires curpos + 2 <= buffer.Length
      ensures len == buffer[curpos] as int * 256 + buffer[curpos + 1]
    {
      var raw: Short := buffer[curpos + 1] as int * 256 + buffer[curpos];
      len := Swap(raw);
    }

    method GetKey(curpos: nat) returns (key: Byte)
      requires curpos + 3 <= buffer.Length
      ensures key == buffer[curpos + 2]
    {
      key := buffer[curpos + 2];
    }

    /**
     * The loop with which every handler reads a record: from offset 2 on, parameter by parameter. It
     * finds what was appended, in order, and ends where the record ends.
     */
    method Walk() returns (walked: seq<Param>, curpos: nat)
      requires Valid() && params != []
      ensures walked == params && curpos == position
    {
      hide EncodeParam, Encode;
      walked, curpos := [], 2;
      PrefixEnds(params);
      while true
        invariant |walked| < |params| && walked == params[..|walked|] && Short16(walked)
        invariant curpos == 2 + |Encode(walked)|
        decreases |params| - |walked|
      {
        ghost var i := |walked|;
        ParamAt(i, curpos);
        var len := GetParamLen(curpos);
        var key := GetKey(curpos);
        walked := walked + [Param(key, buffer[curpos + 3..curpos + len])];
        curpos := curpos + len;
        if curpos >= position {
          break;
        }
      }
    }

    lemma PrefixEnds(ps: seq<Param>)
      requires Short16(ps)
      ensures Short16(ps[..0]) && Encode(ps[..0]) == [] && ps[..|ps|] == ps
    {
    }

    /** What lies at the place of the `i`-th parameter. */
    lemma ParamAt(i: nat, curpos: nat)
      requires Valid() && i < |params| && Short16(params[..i]) && curpos == 2 + |Encode(params[..i])|
      ensures var len := |params[i].data| + 3;
              && curpos + len <= position && len < 0x1_0000
              && buffer[curpos] as int * 256 + buffer[curpos + 1] == len
              && buffer[curpos + 2] == params[i].key && buffer[curpos + 3..curpos + len] == params[i].data
              && Short16(params[..i + 1]) && curpos + len == 2 + |Encode(params[..i + 1])|
              && params[..i + 1] == params[..i] + [params[i]]
              && (curpos + len >= position <==> i + 1 == |params|)
    {
      hide Encode, EncodeParam;
      EncodeAt(params, i);
      var len := |params[i].data| + 3;
      Region(buffer[..], 2, buffer[2..position], curpos - 2, EncodeParam(params[i]));
      ParamBytes(buffer[..], curpos, params[i]);
      if i + 1 < |params| {
        EncodeAt(params, i + 1);
      } else {
        assert params[..i + 1] == params;
      }
    }
  }

  /** A stretch of a stretch. */
  lemma Region(buf: Bytes, x: nat, s: Bytes, y: nat, b: Bytes)
    requires Reads(buf, x, s) && Reads(s, y, b)
    ensures Reads(buf, x + y, b)
  {
    forall i | 0 <= i < |b|
      ensures buf[x + y + i] == b[i]
    {
      assert buf[x..x + |s|][y + i] == s[y..y + |b|][i];
    }
  }

  lemma ParamBytes(buf: Bytes, o: nat, p: Param)
    requires |p.data| + 3 < 0x1_0000 && Reads(buf, o, EncodeParam(p))
    ensures o + |p.data| + 3 <= |buf|
    ensures buf[o] as int * 256 + buf[o + 1] == |p.data| + 3
    ensures buf[o + 2] == p.key && buf[o + 3..o + |p.data| + 3] == p.data
  {
    var s := EncodeParam(p);
    var got := buf[o..o + |s|];
    assert got[0] == buf[o] && got[1] == buf[o + 1] && got[2] == buf[o + 2];
    assert buf[o + 3..o + |s|] == got[3..];
    assert s[3..] == p.data;
  }

  // ----- from one record to another

  /** What a sender appends: text up to a length, one byte, or numbers. */
  datatype Field = Text(key: Byte, text: Bytes) | Char(key: Byte, value: Byte) | Numbers(key: Byte, values: seq<Short>)

  function ParamOf(f: Field): Param {
    match f
    case Text(key, text) => Param(key, StrNCpy(text, |text|))
    case Char(key, value) => Param(key, [value])
    case Numbers(key, values) => Param(key, TwoBytes(values))
  }

  function Params(fs: seq<Field>): (ps: seq<Param>)
    ensures |ps| == |fs|
  {
    if fs == [] then [] else Params(fs[..|fs| - 1]) + [ParamOf(fs[|fs| - 1])]
  }

  function Size(f: Field): nat {
    3 + match f
        case Text(_, text) => |text|
        case Char(_, _) => 1
        case Numbers(_, values) => 2 * |values|
  }

  function TotalSize(fs: seq<Field>): nat {
    if fs == [] then 0 else TotalSize(fs[..|fs| - 1]) + Size(fs[|fs| - 1])
  }

  lemma {:induction false} SizeSoFar(fs: seq<Field>, i: nat)
    requires i < |fs|
    ensures TotalSize(fs[..i]) + Size(fs[i]) == TotalSize(fs[..i + 1]) <= TotalSize(fs)
    decreases |fs|
  {
    assert fs[..i + 1][..i] == fs[..i];
    if i + 1 == |fs| {
      assert fs[..i + 1] == fs;
    } else {
      SizeSoFar(fs[..|fs| - 1], i);
      assert fs[..|fs| - 1][..i] == fs[..i] && fs[..|fs| - 1][..i + 1] == fs[..i + 1];
    }
  }

  predicate HasValues(fs: seq<Field>) {
    forall i :: 0 <= i < |fs| && fs[i].Numbers? ==> fs[i].values != []
  }

  method AppendField(record: Record, f: Field)
    requires record.Valid() && record.position + Size(f) <= MAX_BUFFER_SIZE && (f.Numbers? ==> f.values != [])
    modifies record, record.buffer
    ensures record.Valid() && record.params == old(record.params) + [ParamOf(f)]
    ensures record.position == old(record.position) + Size(f) && record.buffer[..2] == old(record.buffer[..2])
  {
    match f
    case Text(key, text) => record.Append(key, text, |text|);
    case Char(key, value) => record.AppendChar(key, value);
    case Numbers(key, values) => record.AppendTwoByte(key, values);
  }

  /**
   * A record is filled, sent, received into another record and read there parameter by parameter: any
   * fields that fit come out as they went in, text up to what strncpy leaves of it.
   */
  method SendAndWalk(rectype: Short, fs: seq<Field>) returns (code: Byte, walked: seq<Param>)
    requires fs != [] && HasValues(fs) && 2 + TotalSize(fs) <= MAX_BUFFER_SIZE
    ensures code == rectype % 256 && walked == Params(fs)
  {
    var sender := new Record();
    sender.SetType(rectype);
    Fill(sender, fs);
    code, walked := Deliver(sender);
  }

  /** All fields appended to an empty record. */
  method Fill(record: Record, fs: seq<Field>)
    requires record.Valid() && record.params == [] && HasValues(fs) && record.position == 2
    requires 2 + TotalSize(fs) <= MAX_BUFFER_SIZE
    modifies record, record.buffer
    ensures record.Valid() && record.params == Params(fs) && record.buffer[..2] == old(record.buffer[..2])
  {
    hide ParamOf, Size, Encode, Short16;
    var i := 0;
    while i < |fs|
      invariant i <= |fs| && record.Valid() && record.buffer[..2] == old(record.buffer[..2])
      invariant record.params == Params(fs[..i]) && record.position == 2 + TotalSize(fs[..i])
    {
      SizeSoFar(fs, i);
      assert fs[..i + 1][..i] == fs[..i];
      AppendField(record, fs[i]);
      i := i + 1;
    }
    assert fs[..i] == fs;
  }

  /** send_asuiterecord and get_asuiterecord, and the walk over what has come. */
  method Deliver(sender: Record) returns (code: Byte, walked: seq<Param>)
    requires sender.Valid() && sender.params != []
    ensures code == sender.buffer[1] && walked == sender.params
  {
    hide Encode;
    var bytes := sender.buffer[..sender.position];
    assert bytes[2..] == sender.buffer[2..sender.position];
    var receiver := new Record();
    receiver.Receive(bytes, sender.params);
    assert receiver.buffer[1] == receiver.Sent()[1] == bytes[1];
    code := receiver.GetMajorCode();
    var curpos;
    walked, curpos := receiver.Walk();
  }

  /** So the fields themselves come out exactly when no text has anything but NULs behind its first NUL. */
  lemma {:induction false} FieldsExactly(fs: seq<Field>)
    ensures (forall i :: 0 <= i < |fs| && fs[i].Text? ==> Params(fs)[i].data == fs[i].text) <==>
            forall i :: 0 <= i < |fs| && fs[i].Text? ==> NulEnded(fs[i].text)
  {
    forall i | 0 <= i < |fs| && fs[i].Text?
      ensures Params(fs)[i].data == fs[i].text <==> NulEnded(fs[i].text)
    {
      ParamsAt(fs, i);
      StrNCpyExact(fs[i].text);
    }
  }

  /** What is read for each field, byte by byte. */
  lemma FieldRead(fs: seq<Field>, i: nat, j: nat)
    requires i < |fs|
    ensures Params(fs)[i].key == fs[i].key
    ensures var data := Params(fs)[i].data;
            match fs[i]
            case Text(_, text) =>
              |data| == |text| && (j < |text| ==> data[j] == if 0 !in text[..j + 1] then text[j] else 0)
            case Char(_, value) => data == [value]
            case Numbers(_, values) =>
              && |data| == 2 * |values|
              && (j < |values| ==> data[2 * j] == values[j] / 256 && data[2 * j + 1] == values[j] % 256)
  {
    ParamsAt(fs, i);
    if fs[i].Text? && j < |fs[i].text| {
      StrNCpyByte(fs[i].text, |fs[i].text|, j);
    } else if fs[i].Numbers? && j < |fs[i].values| {
      TwoBytesAt(fs[i].values, j);
    }
  }

  lemma {:induction false} ParamsAt(fs: seq<Field>, i: nat)
    requires i < |fs|
    ensures Params(fs)[i] == ParamOf(fs[i])
    decreases |fs|
  {
    if i + 1 == |fs| {
    } else {
      ParamsAt(fs[..|fs| - 1], i);
    }
  }
}
