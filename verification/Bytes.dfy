/** Bytes, little-endian reads and writes, and the outcome of a call into a driver. */
module Bytes {

  type byte = b: int | 0 <= b < 256

  const TWO_TO_THE_16 := 0x1_0000
  const TWO_TO_THE_32 := 0x1_0000_0000

  type Word16 = x: nat | x < 0x1_0000

  type Word32 = x: nat | x < 0x1_0000_0000

  datatype Errno = EINVAL | ENOSYS | ENOMEM | ENOENT | ENOTSUPP | EDOM | ENODEV | EOPNOTSUPP | Other(code: int)

  datatype Option<+T> = None | Some(value: T)

  /** What a call returns. Fault is the C program's out-of-bounds or NULL dereference. */
  datatype Outcome<+T> = Ok(value: T) | Err(errno: Errno) | Fault

  function Le16(s: seq<byte>, o: nat): (r: nat)
    requires o + 2 <= |s|
    ensures r < TWO_TO_THE_16
  {
    s[o] as int + 0x100 * (s[o + 1] as int)
  }

  function Le32(s: seq<byte>, o: nat): (r: nat)
    requires o + 4 <= |s|
    ensures r < TWO_TO_THE_32
  {
    Le16(s, o) + TWO_TO_THE_16 * Le16(s, o + 2)
  }

  function Max(a: int, b: int): int {
    if a < b then b else a
  }

  function Least(a: nat, b: nat): nat {
    if a < b then a else b
  }

  /** s with the bytes from i on replaced by b. */
  function Put(s: seq<byte>, i: nat, b: seq<byte>): (r: seq<byte>)
    requires i + |b| <= |s|
    ensures |r| == |s|
    ensures forall k :: 0 <= k < |s| ==> r[k] == if i <= k < i + |b| then b[k - i] else s[k]
  {
    s[..i] + b + s[i + |b|..]
  }

  /** The two, and the four, low bytes of x, lowest first. */
  function Bytes2(x: nat): (r: seq<byte>)
    ensures |r| == 2
  {
    [x % 0x100, x / 0x100 % 0x100]
  }

  function Bytes4(x: nat): (r: seq<byte>)
    ensures |r| == 4
  {
    Bytes2(x % 0x1_0000) + Bytes2(x / 0x1_0000)
  }

  lemma Bytes2Read(x: nat, data: seq<byte>, o: nat)
    requires o + 2 <= |data| && data[o..o + 2] == Bytes2(x) && x < TWO_TO_THE_16
    ensures Le16(data, o) == x
  {
    var b := Bytes2(x);
    assert data[o..o + 2][0] == b[0] && data[o..o + 2][1] == b[1];
  }

  lemma Bytes4Read(x: nat, data: seq<byte>, o: nat)
    requires o + 4 <= |data| && data[o..o + 4] == Bytes4(x) && x < TWO_TO_THE_32
    ensures Le32(data, o) == x
  {
    hide Bytes2, Le16;
    assert data[o..o + 2] == data[o..o + 4][..2];
    assert data[o + 2..o + 4] == data[o..o + 4][2..];
    Bytes2Read(x % 0x1_0000, data, o);
    Bytes2Read(x / 0x1_0000, data, o + 2);
  }

  lemma Bytes4Written(data: seq<byte>, o: nat)
    requires o + 4 <= |data|
    ensures Bytes4(Le32(data, o)) == data[o..o + 4]
  {
    hide Bytes2, Le16;
    assert Le32(data, o) % 0x1_0000 == Le16(data, o) && Le32(data, o) / 0x1_0000 == Le16(data, o + 2);
    Bytes2Written(data, o);
    Bytes2Written(data, o + 2);
    assert data[o..o + 4] == data[o..o + 2] + data[o + 2..o + 4];
  }

  lemma Bytes2Written(data: seq<byte>, o: nat)
    requires o + 2 <= |data|
    ensures Bytes2(Le16(data, o)) == data[o..o + 2]
  {
  }

  /** The bytes s are at p. */
  ghost predicate Held(raw: seq<byte>, p: nat, s: seq<byte>) { p + |s| <= |raw| && raw[p..p + |s|] == s }

  lemma HeldParts(raw: seq<byte>, p: nat, a: seq<byte>, b: seq<byte>)
    ensures Held(raw, p, a + b) <==> Held(raw, p, a) && Held(raw, p + |a|, b)
  {
    var n := p + |a|;
    if Held(raw, p, a + b) {
      var s := raw[p..p + |a + b|];
      assert s[..|a|] == a && s[|a|..] == b;
      assert raw[p..n] == s[..|a|] && raw[n..n + |b|] == s[|a|..];
    }
    if Held(raw, p, a) && Held(raw, n, b) {
      assert raw[p..n + |b|] == raw[p..n] + raw[n..n + |b|];
    }
  }

  lemma HeldTwo(raw: seq<byte>, p: nat, x: nat)
    requires p + 2 <= |raw| && x < TWO_TO_THE_16
    ensures Held(raw, p, Bytes2(x)) <==> Le16(raw, p) == x
  {
    Bytes2Written(raw, p);
    if Held(raw, p, Bytes2(x)) {
      Bytes2Read(x, raw, p);
    }
  }

  lemma HeldFour(raw: seq<byte>, p: nat, x: nat)
    requires p + 4 <= |raw| && x < TWO_TO_THE_32
    ensures Held(raw, p, Bytes4(x)) <==> Le32(raw, p) == x
  {
    Bytes4Written(raw, p);
    if Held(raw, p, Bytes4(x)) {
      Bytes4Read(x, raw, p);
    }
    hide Bytes4, Le32;
  }

  lemma HeldIs(raw: seq<byte>, p: nat, s: seq<byte>)
    requires p + |s| <= |raw|
    ensures Held(raw, p, s) <==> raw[p..p + |s|] == s
  {
  }

  lemma HeldFits(raw: seq<byte>, p: nat, s: seq<byte>)
    requires Held(raw, p, s)
    ensures p + |s| <= |raw|
  {
  }

  lemma HeldWhole(raw: seq<byte>)
    ensures Held(raw, 0, raw)
  {
  }
}
