/**
 Payload bytes through the generic payload register of the MIPI transmitter: four to
 a word, and a last word that keeps stale bytes where the payload ends.
 */
module MipiFifo {
  import opened Bytes

  /** U_GEN_PLD_DATA: the four bytes of the register, lowest first. */
  datatype Pld = Pld(b1: byte, b2: byte, b3: byte, b4: byte)

  function Word(p: Pld): (r: nat)
    ensures r < TWO_TO_THE_32
  {
    Le32([p.b1, p.b2, p.b3, p.b4], 0)
  }

  function Fields(word: nat): Pld {
    var b := Bytes4(word);
    Pld(b[0], b[1], b[2], b[3])
  }

  /** The register's word and its bytes are two views of the same thing. */
  lemma ViewsAgree(p: Pld, word: nat)
    ensures Fields(Word(p)) == p
    ensures word < TWO_TO_THE_32 ==> Word(Fields(word)) == word
  {
    var s := [p.b1, p.b2, p.b3, p.b4];
    Bytes4Written(s, 0);
    assert s[0..4] == s;
    var b := Bytes4(word);
    assert b == [b[0], b[1], b[2], b[3]] && b[0..4] == b;
    if word < TWO_TO_THE_32 {
      Bytes4Read(word, b, 0);
    }
    hide Le32, Bytes4;
  }

  function ByteAt(word: nat, k: nat): byte
    requires k < 4
  {
    var p := Fields(word);
    if k == 0 then p.b1 else if k == 1 then p.b2 else if k == 2 then p.b3 else p.b4
  }

  /** Words needed for n bytes. */
  function WordCount(n: nat): nat { (n + 3) / 4 }

  /** The register with the i-th four bytes of cmd, or as many as there are, put into it. */
  function Loaded(reg: Pld, cmd: seq<byte>, i: nat): Pld
    requires i < WordCount(|cmd|)
  {
    var o := 4 * i;
    Pld(cmd[o],
        if o + 1 < |cmd| then cmd[o + 1] else reg.b2,
        if o + 2 < |cmd| then cmd[o + 2] else reg.b3,
        if o + 3 < |cmd| then cmd[o + 3] else reg.b4)
  }

  function RegAfter(reg: Pld, cmd: seq<byte>, k: nat): Pld
    requires k <= WordCount(|cmd|)
  {
    if k == 0 then reg else Loaded(RegAfter(reg, cmd, k - 1), cmd, k - 1)
  }

  /** The first k words written for cmd, the register having held reg. */
  function Packed(reg: Pld, cmd: seq<byte>, k: nat): (r: seq<nat>)
    requires k <= WordCount(|cmd|)
    ensures |r| == k
  {
    if k == 0 then [] else Packed(reg, cmd, k - 1) + [Word(RegAfter(reg, cmd, k))]
  }

  /** The first n bytes in words. */
  function Unpacked(words: seq<nat>, n: nat): (r: seq<byte>)
    requires WordCount(n) <= |words|
    ensures |r| == n
  {
    seq(n, j requires 0 <= j < n => ByteAt(words[j / 4], j % 4))
  }

  /** Every byte written is in its place, whatever the register held. */
  lemma {:induction false} PackedByte(reg: Pld, cmd: seq<byte>, k: nat, i: nat, d: nat)
    requires k <= WordCount(|cmd|) && i < k && d < 4 && 4 * i + d < |cmd|
    ensures ByteAt(Packed(reg, cmd, k)[i], d) == cmd[4 * i + d]
  {
    if i == k - 1 {
      ViewsAgree(RegAfter(reg, cmd, k), 0);
      hide Word, Fields;
    } else {
      PackedByte(reg, cmd, k - 1, i, d);
    }
  }

  /** Reading back as many bytes as were written gives the bytes that were written. */
  lemma PackingRoundTrip(reg: Pld, cmd: seq<byte>)
    ensures |Packed(reg, cmd, WordCount(|cmd|))| == WordCount(|cmd|)
    ensures Unpacked(Packed(reg, cmd, WordCount(|cmd|)), |cmd|) == cmd
  {
    hide ByteAt, Packed, Fields;
    forall j | 0 <= j < |cmd|
      ensures ByteAt(Packed(reg, cmd, WordCount(|cmd|))[j / 4], j % 4) == cmd[j]
    {
      PackedByte(reg, cmd, WordCount(|cmd|), j / 4, j % 4);
    }
  }

  /** The payload FIFO behind the register; waiting for room, or for a word, times out when there is none. */
  class Fifo {
    const capacity: nat
    var words: seq<nat>

    constructor (capacity: nat)
      ensures this.capacity == capacity && words == []
    {
      this.capacity, words := capacity, [];
    }

    /** MipiTxDrvSetPayloadData; stale is what reading the register returns at first. */
    method SetPayloadData(cmd: seq<byte>, stale: nat)
      requires stale < TWO_TO_THE_32 && |words| <= capacity
      modifies this`words
      ensures words == old(words) + Packed(Fields(stale), cmd, Least(WordCount(|cmd|), capacity - |old(words)|))
    {
      ghost var before, reg0 := words, Fields(stale);
      var reg, i := Fields(stale), 0;
      hide Fields, Word, Packed, RegAfter;
      PackedNone(reg0, cmd);
      while i < |cmd| / 4
        invariant i <= |cmd| / 4 && i <= capacity - |before|
        invariant reg == RegAfter(reg0, cmd, i) && words == before + Packed(reg0, cmd, i)
      {
        reg := Pld(cmd[4 * i], cmd[4 * i + 1], cmd[4 * i + 2], cmd[4 * i + 3]);
        PackedNext(reg0, cmd, i);
        if |words| == capacity {
          return;
        }
        words := words + [Word(reg)];
        i := i + 1;
      }
      var j := |cmd| % 4;
      if j != 0 {
        PackedNext(reg0, cmd, i);
        reg := reg.(b1 := cmd[4 * i]);
        if j > 1 {
          reg := reg.(b2 := cmd[4 * i + 1]);
        }
        if j > 2 {
          reg := reg.(b3 := cmd[4 * i + 2]);
        }
        if |words| == capacity {
          return;
        }
        words := words + [Word(reg)];
      }
    }

    /** Up to four bytes of the next word, into buf from o on. */
    method TakeWord(buf: array<byte>, o: nat, m: nat) returns (ok: bool)
      requires 0 < m <= 4 && o + m <= buf.Length
      modifies this`words, buf
      ensures ok <==> old(words) != []
      ensures ok ==> words == old(words)[1..]
      ensures ok ==> forall j :: 0 <= j < buf.Length ==>
                buf[j] == if o <= j < o + m then ByteAt(old(words)[0], j - o) else old(buf[j])
    {
      if words == [] {
        return false;
      }
      var word := words[0];
      words := words[1..];
      buf[o] := ByteAt(word, 0);
      if m > 1 {
        buf[o + 1] := ByteAt(word, 1);
      }
      if m > 2 {
        buf[o + 2] := ByteAt(word, 2);
      }
      if m > 3 {
        buf[o + 3] := ByteAt(word, 3);
      }
      ok := true;
    }

    /** MipiTxGetReadFifoData. */
    method GetReadFifoData(n: nat, buf: array<byte>) returns (ok: bool)
      requires buf.Length >= n
      modifies this`words, buf
      ensures ok <==> WordCount(n) <= |old(words)|
      ensures ok ==> words == old(words)[WordCount(n)..]
      ensures ok ==> buf[..n] == Unpacked(old(words), n) && buf[n..] == old(buf[n..])
    {
      ghost var before := words;
      var i := 0;
      hide ByteAt;
      while i < n / 4
        invariant i <= n / 4 && i <= |before| && words == before[i..]
        invariant forall j :: 0 <= j < 4 * i ==> buf[j] == ByteAt(before[j / 4], j % 4)
        invariant forall j :: n <= j < buf.Length ==> buf[j] == old(buf[j])
      {
        ok := TakeWord(buf, 4 * i, 4);
        if !ok {
          return;
        }
        i := i + 1;
      }
      if n % 4 != 0 {
        ok := TakeWord(buf, 4 * i, n % 4);
        if !ok {
          return;
        }
      }
      ok := true;
    }
  }

  lemma PackedNone(reg: Pld, cmd: seq<byte>)
    ensures Packed(reg, cmd, 0) == [] && RegAfter(reg, cmd, 0) == reg
  {
  }

  lemma PackedNext(reg: Pld, cmd: seq<byte>, k: nat)
    requires k < WordCount(|cmd|)
    ensures RegAfter(reg, cmd, k + 1) == Loaded(RegAfter(reg, cmd, k), cmd, k)
    ensures Packed(reg, cmd, k + 1) == Packed(reg, cmd, k) + [Word(RegAfter(reg, cmd, k + 1))]
  {
  }
}
