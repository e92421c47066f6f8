/**
 __ffs_data_got_strings: the string tables user space writes after the descriptors.
 Offsets into the copied buffer stand for the pointers into it.
 */
module StringTables {
  import opened Bits
  import opened Bytes
  import opened Vla

  const STRINGS_MAGIC := 2
  const HEADER := 16
  // The chunk's size must stay where lang_count * (needed_count + 1) cannot wrap; kmalloc gives far less.
  const KMALLOC_MOST := 0x800_0000

  /** struct usb_gadget_strings: the language, and where its strings begin in the table. */
  datatype Lang = Lang(language: nat, strings: nat)

  function StrCount(data: seq<byte>): nat requires |data| >= HEADER { Le32(data, 8) }

  function LangCount(data: seq<byte>): nat requires |data| >= HEADER { Le32(data, 12) }

  predicate HeaderOk(data: seq<byte>, needed: nat) {
    && |data| >= HEADER
    && Le32(data, 0) == STRINGS_MAGIC
    && Le32(data, 4) == |data|
    && (StrCount(data) == 0 <==> LangCount(data) == 0)
    && StrCount(data) >= needed
  }

  /** Where strnlen stops: the first NUL at or after p, or the end of the buffer. */
  function StrEnd(data: seq<byte>, p: nat): (r: nat)
    requires p <= |data|
    ensures p <= r <= |data| && (r < |data| ==> data[r] == 0)
    ensures forall i :: p <= i < r ==> data[i] != 0
    decreases |data| - p
  {
    if p == |data| || data[p] == 0 then p else StrEnd(data, p + 1)
  }

  /** The offset past k NUL-terminated strings from p, or -1 when the buffer ends before that. */
  function After(data: seq<byte>, p: nat, k: nat): (r: int)
    requires p <= |data|
    ensures r == -1 || p + k <= r <= |data|
  {
    if k == 0 then p
    else
      var q := After(data, p, k - 1);
      if q < 0 || StrEnd(data, q) == |data| then -1 else StrEnd(data, q) + 1
  }

  /** Those strings, without their NULs. */
  function Strings(data: seq<byte>, p: nat, k: nat): (r: seq<seq<byte>>)
    requires p <= |data| && After(data, p, k) >= 0
    ensures |r| == k
  {
    if k == 0 then []
    else
      var q := After(data, p, k - 1);
      Strings(data, p, k - 1) + [data[q..StrEnd(data, q)]]
  }

  /** The body is one language id and exactly the announced number of strings. */
  predicate OneLanguage(data: seq<byte>)
    requires |data| >= HEADER
  {
    && LangCount(data) == 1
    && |data| >= HEADER + 3
    && After(data, HEADER + 2, StrCount(data)) == |data|
  }

  /** The chunk: the table of tables, the tables, and all string entries. Counts are 32-bit. */
  function Chunk(langs: nat, needed: nat): seq<Item> {
    [Item(3, 8, (langs + 1) % TWO_TO_THE_32),
     Item(3, 16, langs % TWO_TO_THE_32),
     Item(3, 16, Rows(langs, needed) % TWO_TO_THE_32)]
  }

  /** String entries of k languages. */
  function Rows(k: nat, needed: nat): nat { k * (needed + 1) }

  function ChunkSize(langs: nat, needed: nat): nat { NextAt(SIZE_T_BITS, Chunk(langs, needed), 3) }

  lemma StrEndStep(data: seq<byte>, p: nat, k: nat)
    requires p <= |data| && After(data, p, k) >= 0
    ensures var q := After(data, p, k); var n := k + 1;
      After(data, p, n) == if StrEnd(data, q) == |data| then -1 else StrEnd(data, q) + 1
  {
  }

  lemma {:induction false} AfterPrefix(data: seq<byte>, p: nat, j: nat, k: nat)
    requires p <= |data| && j <= k && After(data, p, k) >= 0
    ensures After(data, p, j) >= 0
    ensures Strings(data, p, j) == Strings(data, p, k)[..j]
    decreases k
  {
    if j < k {
      AfterPrefix(data, p, j, k - 1);
    }
  }

  lemma {:induction false} AfterStuck(data: seq<byte>, p: nat, j: nat, k: nat)
    requires p <= |data| && j <= k && After(data, p, j) < 0
    ensures After(data, p, k) < 0
    decreases k
  {
    if j < k {
      AfterStuck(data, p, j, k - 1);
    }
  }

  // What a chunk that kmalloc can give holds.

  lemma ChunkHolds(langs: nat, needed: nat)
    requires langs < TWO_TO_THE_32 && needed < 0x100 && ChunkSize(langs, needed) <= KMALLOC_MOST
    ensures Chunk(langs, needed)[0].n == langs + 1
    ensures Chunk(langs, needed)[2].n == Rows(langs, needed)
  {
    hide Pow2, NextAt, End;
    ChunkIsEnd(Chunk(langs, needed), langs);
    Products(langs, needed);
  }

  lemma Products(langs: nat, needed: nat)
    requires 16 * langs <= KMALLOC_MOST && needed < 0x100
    ensures langs + 1 < TWO_TO_THE_32 && langs * (needed + 1) < TWO_TO_THE_32
  {
    MulMonotone(langs, needed + 1, 0x100);
  }

  lemma ChunkIsEnd(c: seq<Item>, langs: nat)
    requires |c| == 3 && c[1] == Item(3, 16, langs) && c[0].sizeOf == 8 && c[2].sizeOf == 16
    requires c[0].n < TWO_TO_THE_32 && langs < TWO_TO_THE_32 && c[2].n < TWO_TO_THE_32
    requires c[0].alignBits == c[2].alignBits == 3
    ensures NextAt(SIZE_T_BITS, c, 3) >= 16 * langs
  {
    hide Pow2, NextAt, LaidOut, RoundUp, End;
    EndIs(c, langs);
    Words();
    Layout(SIZE_T_BITS, c);
  }

  lemma EndIs(c: seq<Item>, langs: nat)
    requires |c| == 3 && c[1] == Item(3, 16, langs) && c[0].sizeOf == 8 && c[2].sizeOf == 16
    requires c[0].n < TWO_TO_THE_32 && langs < TWO_TO_THE_32 && c[2].n < TWO_TO_THE_32
    requires c[0].alignBits == c[2].alignBits == 3
    ensures 16 * langs <= End(c, 3) < 0x100_0000_0000
  {
    assert Pow2(3) == 8;
    hide Pow2, RoundUp;
    assert End(c, 0) == 0;
    assert End(c, 1) == Start(c, 0) + Size(c[0]);
    assert End(c, 2) == Start(c, 1) + Size(c[1]);
    assert End(c, 3) == Start(c, 2) + Size(c[2]);
  }

  /** What user space's strings look like to the composite layer: entry i is the i-th string, then a terminator. */
  ghost predicate Tabled(data: seq<byte>, needed: nat, tabs: seq<Option<nat>>, langs: seq<Lang>,
                         strings: seq<Option<nat>>)
    requires |data| >= HEADER + 3
  {
    && tabs == [Some(0), None]
    && langs == [Lang(Le16(data, HEADER), 0)]
    && |strings| == needed + 1
    && strings[needed] == None
    && Entries(data, HEADER + 2, strings, 0, needed)
  }

  /** Entries slot .. slot + n of the table are the first n strings from p. */
  ghost predicate Entries(data: seq<byte>, p: nat, strings: seq<Option<nat>>, slot: nat, n: nat)
    requires p <= |data|
  {
    && slot + n <= |strings|
    && forall i :: 0 <= i < n ==> After(data, p, i) >= 0 && strings[slot + i] == Some(After(data, p, i) as nat)
  }

  lemma EntriesNone(data: seq<byte>, p: nat, strings: seq<Option<nat>>, slot: nat)
    requires p <= |data| && slot <= |strings|
    ensures Entries(data, p, strings, slot, 0)
  {
  }

  lemma EntriesNext(data: seq<byte>, p: nat, strings: seq<Option<nat>>, strings': seq<Option<nat>>, slot: nat,
                    n: nat, at: nat)
    requires p <= |data| && Entries(data, p, strings, slot, n) && slot + n < |strings| && After(data, p, n) == at
    requires strings' == strings[slot + n := Some(at)]
    ensures Entries(data, p, strings', slot, n + 1)
  {
    hide After;
    forall i | 0 <= i < n + 1
      ensures After(data, p, i) >= 0 && strings'[slot + i] == Some(After(data, p, i) as nat)
    {
      if i < n {
        assert strings[slot + i] == Some(After(data, p, i) as nat);
      }
    }
  }

  class FfsStrings {
    const stringsCount: nat            // strings_count, what the descriptors need
    var tabs: array<Option<nat>>       // stringtabs: indices into langs, then NULL
    var langs: array<Lang>
    var strings: array<Option<nat>>    // usb_string.s: offsets into rawStrings, NULL after each language's
    var rawStrings: seq<byte>

    constructor (stringsCount: nat)
      ensures this.stringsCount == stringsCount && rawStrings == []
    {
      this.stringsCount := stringsCount;
      tabs, langs, strings, rawStrings := new Option<nat>[0], new Lang[0](i => Lang(0, 0)), new Option<nat>[0], [];
    }

    /** One turn of the inner loop: the string at pos, written to the table while strings are still wanted. */
    method NextString(data: seq<byte>, table: array<Option<nat>>, ghost start: nat, first: nat, needed: nat,
                      ghost read: nat, pos: nat, slot: nat)
      returns (ok: bool, next: nat)
      requires start <= pos <= |data| && After(data, start, read) == pos && first + needed < table.Length
      requires slot == first + Least(needed, read) && Entries(data, start, table[..], first, Least(needed, read))
      modifies table
      ensures ok <==> StrEnd(data, pos) < |data|
      ensures ok ==> next == StrEnd(data, pos) + 1 == After(data, start, read + 1)
      ensures ok ==> Entries(data, start, table[..], first, Least(needed, read + 1))
      ensures forall i :: 0 <= i < table.Length && (i != slot || slot >= first + needed) ==> table[i] == old(table[i])
    {
      var end := StrEnd(data, pos);
      if end == |data| {
        return false, pos;
      }
      StrEndStep(data, start, read);
      hide After, StrEnd, Entries;
      if slot < first + needed {
        ghost var before := table[..];
        table[slot] := Some(pos);
        EntriesNext(data, start, before, table[..], first, read, pos);
      }
      ok, next := true, end + 1;
    }

    /**
     The inner loop: count counts itself down, as a 32-bit word, and is tested only after
     a string has been read. Begun at 0 it would have to read 2^32 strings.
     */
    method StringsOfLanguage(data: seq<byte>, table: array<Option<nat>>, start: nat, count: nat, needed: nat,
                             first: nat)
      returns (ok: bool, pos: nat, slot: nat)
      requires start <= |data| < TWO_TO_THE_32 && count < TWO_TO_THE_32 && first + needed < table.Length
      modifies table
      ensures ok <==> count > 0 && After(data, start, count) >= 0
      ensures ok ==> pos == After(data, start, count) && slot == first + Least(needed, count)
      ensures ok ==> Entries(data, start, table[..], first, Least(needed, count))
      ensures forall i :: 0 <= i < table.Length && !(first <= i < first + needed) ==> table[i] == old(table[i])
    {
      ghost var read := 0;
      var left, more := count, true;
      pos, slot := start, first;
      AfterNone(data, start);
      EntriesNone(data, start, table[..], first);
      hide After, StrEnd, Entries;
      while more
        invariant read <= pos - start && pos <= |data| && After(data, start, read) == pos
        invariant left + read == count || (count == 0 && read > 0 && left + read == TWO_TO_THE_32)
        invariant if more then read == 0 || left > 0 else left == 0 && read > 0
        invariant slot == first + Least(needed, read)
        invariant Entries(data, start, table[..], first, Least(needed, read))
        invariant forall i :: 0 <= i < table.Length && !(first <= i < first + needed) ==> table[i] == old(table[i])
        decreases |data| - pos, more
      {
        var end;
        ok, end := NextString(data, table, start, first, needed, read, pos, slot);
        if !ok {
          Ends(data, start, read, count);
          return;
        }
        if slot < first + needed {
          slot := slot + 1;
        }
        pos, read := end, read + 1;
        left := if left == 0 then TWO_TO_THE_32 - 1 else left - 1;
        more := left != 0;
      }
      ok := true;
    }

    /**
     The outer loop: the language id, its strings, a terminator. Only the first language finds any
     string to count.
     */
    method Languages(data: seq<byte>, count: nat, needed: nat, langs: array<Lang>, table: array<Option<nat>>)
      returns (ok: bool, pos: nat)
      requires HEADER <= |data| < TWO_TO_THE_32 && 0 < needed <= count < TWO_TO_THE_32
      requires langs.Length > 0 && table.Length == Rows(langs.Length, needed)
      modifies langs, table
      ensures ok <==> langs.Length == 1 && |data| >= HEADER + 3 && After(data, HEADER + 2, count) >= 0
      ensures ok ==> pos == After(data, HEADER + 2, count)
      ensures ok ==> langs[0] == Lang(Le16(data, HEADER), 0)
      ensures ok ==> table[needed] == None && Entries(data, HEADER + 2, table[..], 0, needed)
    {
      hide After, StrEnd, Rows;
      RowsFit(0, langs.Length, needed);
      var done, left, slot := 0, count, 0;
      pos := HEADER;
      while done < langs.Length
        invariant done <= langs.Length && HEADER <= pos <= |data| && slot == Rows(done, needed)
        invariant left == if done == 0 then count else 0
        invariant done <= 1 && (done == 0 ==> pos == HEADER)
        invariant done == 1 ==>
          && |data| >= HEADER + 3 && After(data, HEADER + 2, count) == pos
          && langs[0] == Lang(Le16(data, HEADER), 0)
          && table[needed] == None && Entries(data, HEADER + 2, table[..], 0, needed)
      {
        if |data| - pos < 3 {
          return false, pos;
        }
        langs[done] := Lang(Le16(data, pos), slot);
        RowsFit(done, langs.Length, needed);
        ok, pos, slot := StringsOfLanguage(data, table, pos + 2, left, needed, slot);
        if !ok {
          return;
        }
        table[slot] := None;
        left, slot, done := 0, slot + 1, done + 1;
      }
      ok := true;
    }

    /** __ffs_data_got_strings; memory is the largest chunk kmalloc would give now. */
    method GotStrings(data: seq<byte>, memory: nat) returns (r: Outcome<()>)
      requires stringsCount < 0x100 && memory <= KMALLOC_MOST
      modifies this
      ensures r.Ok? <==>
              && HeaderOk(data, stringsCount)
              && (stringsCount > 0 ==> ChunkSize(LangCount(data), stringsCount) <= memory && OneLanguage(data))
      ensures r == Err(ENOMEM) <==>
              HeaderOk(data, stringsCount) && stringsCount > 0 && ChunkSize(LangCount(data), stringsCount) > memory
      ensures !r.Ok? ==> r == Err(ENOMEM) || r == Err(EINVAL)
      ensures r.Ok? && stringsCount > 0 ==>
                rawStrings == data && Tabled(data, stringsCount, tabs[..], langs[..], strings[..])
    {
      if !HeaderOk(data, stringsCount) {
        return Err(EINVAL);
      }
      if stringsCount == 0 {
        return Ok(());
      }
      if ChunkSize(LangCount(data), stringsCount) > memory {
        return Err(ENOMEM);
      }
      ChunkHolds(LangCount(data), stringsCount);
      hide Tabled, OneLanguage, HeaderOk, ChunkSize;
      var ok, tabs1, langs1, strings1 := BuildTables(data, Chunk(LangCount(data), stringsCount));
      if !ok {
        return Err(EINVAL);
      }
      tabs, langs, strings, rawStrings := tabs1, langs1, strings1, data;
      r := Ok(());
    }

    /** The tables of the chunk, filled in from the buffer, of which nothing may be left. */
    method BuildTables(data: seq<byte>, chunk: seq<Item>)
      returns (ok: bool, tabs: array<Option<nat>>, langs: array<Lang>, strings: array<Option<nat>>)
      requires 0 < stringsCount && HeaderOk(data, stringsCount)
      requires |chunk| == 3 && chunk[0].n == LangCount(data) + 1 && chunk[2].n == Rows(LangCount(data), stringsCount)
      ensures ok <==> OneLanguage(data)
      ensures ok ==> Tabled(data, stringsCount, tabs[..], langs[..], strings[..])
    {
      hide After, StrEnd, Entries, Rows, Le16, Le32;
      var n := LangCount(data);
      tabs := new Option<nat>[chunk[0].n](i => None);
      langs := new Lang[n](i => Lang(0, 0));
      strings := new Option<nat>[chunk[2].n](i => None);
      FillTabs(tabs, n);
      var pos;
      ok, pos := Languages(data, StrCount(data), stringsCount, langs, strings);
      ok := ok && pos == |data|;
      RowsFit(0, n, stringsCount);
    }

    /** The table of tables, and its terminator. */
    method FillTabs(tabs: array<Option<nat>>, n: nat)
      requires 0 < n && tabs.Length == n + 1
      modifies tabs
      ensures tabs[..] == seq(n + 1, i requires 0 <= i < n + 1 => if i < n then Some(i) else None)
    {
      var i, left := 0, n;
      while left > 0
        invariant i + left == n
        invariant forall j :: 0 <= j < i ==> tabs[j] == Some(j)
      {
        tabs[i] := Some(i);
        i, left := i + 1, left - 1;
      }
      tabs[i] := None;
    }
  }

  lemma RowsFit(k: nat, langs: nat, needed: nat)
    requires k < langs
    ensures Rows(0, needed) == 0 && Rows(1, needed) == needed + 1
    ensures Rows(k + 1, needed) == Rows(k, needed) + needed + 1 <= Rows(langs, needed)
  {
    MulMonotone(needed + 1, k + 1, langs);
  }

  lemma AfterNone(data: seq<byte>, p: nat)
    requires p <= |data|
    ensures After(data, p, 0) == p
  {
  }

  /** A string that is not terminated ends every longer walk. */
  lemma Ends(data: seq<byte>, p: nat, j: nat, k: nat)
    requires p <= |data| && After(data, p, j) >= 0 && StrEnd(data, After(data, p, j)) == |data|
    ensures k > j ==> After(data, p, k) < 0
  {
    if k > j {
      StrEndStep(data, p, j);
      AfterStuck(data, p, j + 1, k);
    }
  }

  // The format, written down the other way round.

  /** Each string followed by a NUL, one after the other. */
  function Joined(strs: seq<seq<byte>>): seq<byte> {
    if strs == [] then [] else Joined(strs[..|strs| - 1]) + strs[|strs| - 1] + [0]
  }

  /** What user space is to write for one language. */
  function Encode(language: nat, strs: seq<seq<byte>>): (r: seq<byte>)
    ensures |r| == HEADER + 2 + |Joined(strs)|
  {
    Bytes4(2) + Bytes4(18 + |Joined(strs)|) + Bytes4(|strs|) + Bytes4(1)
    + Bytes2(language) + Joined(strs)
  }

  ghost predicate NulFree(strs: seq<seq<byte>>) {
    forall i, j :: 0 <= i < |strs| && 0 <= j < |strs[i]| ==> strs[i][j] != 0
  }

  lemma StrEndIs(data: seq<byte>, p: nat, str: seq<byte>)
    requires p + |str| < |data| && data[p..p + |str|] == str && data[p + |str|] == 0
    requires forall j :: 0 <= j < |str| ==> str[j] != 0
    ensures StrEnd(data, p) == p + |str|
  {
    hide StrEnd;
    assert forall i :: p <= i < p + |str| ==> data[i] == str[i - p];
  }

  /** Reading joined strings back finds each of them. */
  lemma {:induction false} JoinedRead(data: seq<byte>, p: nat, strs: seq<seq<byte>>)
    requires NulFree(strs) && p + |Joined(strs)| <= |data| && data[p..p + |Joined(strs)|] == Joined(strs)
    ensures After(data, p, |strs|) == p + |Joined(strs)|
    ensures Strings(data, p, |strs|) == strs
  {
    hide StrEnd, Joined, NulFree, After, Strings;
    if strs == [] {
      NothingJoined();
      NothingRead(data, p);
    } else {
      var before, last := strs[..|strs| - 1], strs[|strs| - 1];
      assert strs == before + [last];
      JoinedNext(before, last);
      var q := p + |Joined(before)|;
      LastPart(data, p, Joined(before), last);
      JoinedRead(data, p, before);
      StrEndIs(data, q, last);
      OneRead(data, p, |before|, q, q + |last|);
    }
  }

  lemma NothingRead(data: seq<byte>, p: nat)
    requires p <= |data|
    ensures After(data, p, 0) == p && Strings(data, p, 0) == []
  {
  }

  lemma OneRead(data: seq<byte>, p: nat, k: nat, q: nat, e: nat)
    requires p <= |data| && After(data, p, k) == q && StrEnd(data, q) == e < |data|
    ensures After(data, p, k + 1) == e + 1 && Strings(data, p, k + 1) == Strings(data, p, k) + [data[q..e]]
  {
  }

  lemma LastPart(data: seq<byte>, p: nat, before: seq<byte>, last: seq<byte>)
    requires p + |before| + |last| + 1 <= |data|
    requires data[p..p + |before| + |last| + 1] == before + last + [0]
    ensures data[p..p + |before|] == before
    ensures data[p + |before|..p + |before| + |last|] == last
    ensures data[p + |before| + |last|] == 0
  {
    var whole, q := data[p..p + |before| + |last| + 1], p + |before|;
    assert forall i :: 0 <= i < |whole| ==> whole[i] == data[p + i];
    assert forall i :: 0 <= i < |before| ==> before[i] == whole[i];
    forall i | 0 <= i < |last|
      ensures data[q + i] == last[i]
    {
      assert whole[|before| + i] == last[i];
    }
    assert whole[|before| + |last|] == 0;
  }

  /** Strings that were read, joined again, are the bytes they were read from. */
  lemma {:induction false} ReadJoined(data: seq<byte>, p: nat, k: nat)
    requires p <= |data| && After(data, p, k) >= 0
    ensures Joined(Strings(data, p, k)) == data[p..After(data, p, k)]
    ensures NulFree(Strings(data, p, k))
  {
    hide *;
    if k == 0 {
      NothingRead(data, p);
      NothingJoined();
      assert data[p..p] == [];
    } else {
      var q, e := LastRead(data, p, k - 1);
      assert k - 1 + 1 == k;
      ReadJoined(data, p, k - 1);
      ThreeParts(data, p, q, e);
      JoinedNext(Strings(data, p, k - 1), data[q..e]);
    }
  }

  lemma LastRead(data: seq<byte>, p: nat, k: nat) returns (q: nat, e: nat)
    requires p <= |data| && After(data, p, k + 1) >= 0
    ensures After(data, p, k) == q && q <= StrEnd(data, q) == e < |data| && p <= q && data[e] == 0
    ensures After(data, p, k + 1) == e + 1 && Strings(data, p, k + 1) == Strings(data, p, k) + [data[q..e]]
    ensures forall j :: q <= j < e ==> data[j] != 0
  {
    q := After(data, p, k);
    e := StrEnd(data, q);
  }

  lemma NothingJoined()
    ensures Joined([]) == [] && NulFree([])
  {
  }

  lemma JoinedNext(strs: seq<seq<byte>>, last: seq<byte>)
    ensures Joined(strs + [last]) == Joined(strs) + last + [0]
    ensures NulFree(strs + [last]) <==> NulFree(strs) && forall j :: 0 <= j < |last| ==> last[j] != 0
  {
    var all := strs + [last];
    assert all[|strs|] == last && forall i :: 0 <= i < |strs| ==> all[i] == strs[i];
    assert (strs + [last])[..|strs|] == strs;
  }

  lemma ThreeParts(data: seq<byte>, p: nat, q: nat, e: nat)
    requires p <= q <= e < |data|
    ensures data[p..e + 1] == data[p..q] + data[q..e] + [data[e]]
  {
  }

  /**
   For one language: parsing what was encoded accepts it and finds exactly the language
   and the strings, in order.
   */
  lemma ParseEncoded(language: nat, strs: seq<seq<byte>>, needed: nat)
    requires language < TWO_TO_THE_16 && NulFree(strs) && 0 < needed <= |strs|
    requires HEADER + 2 + |Joined(strs)| < TWO_TO_THE_32
    ensures var data := Encode(language, strs);
      && |data| >= HEADER + 3
      && HeaderOk(data, needed) && OneLanguage(data)
      && Le16(data, HEADER) == language
      && StrCount(data) == |strs|
      && Strings(data, HEADER + 2, |strs|) == strs
  {
    hide Encode, StrEnd, After, Joined, Le32, Le16, Bytes4, Bytes2, Strings;
    var data := Encode(language, strs);
    JoinedLength(strs);
    EncodedHeader(language, strs);
    assert data[HEADER + 2..] == data[HEADER + 2..HEADER + 2 + |Joined(strs)|];
    JoinedRead(data, HEADER + 2, strs);
  }

  lemma EncodedHeader(language: nat, strs: seq<seq<byte>>)
    requires language < TWO_TO_THE_16 && |strs| <= |Joined(strs)| && HEADER + 2 + |Joined(strs)| < TWO_TO_THE_32
    ensures var data := Encode(language, strs);
      && Le32(data, 0) == STRINGS_MAGIC && Le32(data, 4) == |data| && Le32(data, 8) == |strs| && Le32(data, 12) == 1
      && Le16(data, HEADER) == language
      && |data| == HEADER + 2 + |Joined(strs)| && data[HEADER + 2..] == Joined(strs)
  {
    var data := Encode(language, strs);
    hide Joined;
    assert data[0..4] == Bytes4(STRINGS_MAGIC);
    assert data[4..8] == Bytes4(|data|);
    assert data[8..12] == Bytes4(|strs|);
    assert data[12..16] == Bytes4(1);
    assert data[16..18] == Bytes2(language) && data[16] == Bytes2(language)[0] && data[17] == Bytes2(language)[1];
    hide Encode, Le16, Bytes4;
    Bytes4Read(STRINGS_MAGIC, data, 0);
    Bytes4Read(|data|, data, 4);
    Bytes4Read(|strs|, data, 8);
    Bytes4Read(1, data, 12);
    LanguageRead(language, data);
  }

  lemma LanguageRead(language: nat, data: seq<byte>)
    requires language < TWO_TO_THE_16 && |data| >= 18 && [data[16], data[17]] == Bytes2(language)
    ensures Le16(data, HEADER) == language
  {
  }

  lemma {:induction false} JoinedLength(strs: seq<seq<byte>>)
    ensures |Joined(strs)| >= |strs|
  {
    if strs != [] {
      JoinedLength(strs[..|strs| - 1]);
    }
  }

  /**
   And nothing else is accepted when strings are needed: an accepted buffer is the encoding of what
   is found in it.
   */
  lemma AcceptedIsEncoding(data: seq<byte>, needed: nat)
    requires HeaderOk(data, needed) && OneLanguage(data)
    ensures var strs := Strings(data, HEADER + 2, StrCount(data));
      NulFree(strs) && |strs| >= needed && data == Encode(Le16(data, HEADER), strs)
  {
    hide After, StrEnd, Strings, Joined, Le32, Le16, Bytes4, Bytes2;
    var strs := Strings(data, HEADER + 2, StrCount(data));
    ReadJoined(data, HEADER + 2, StrCount(data));
    Bytes4Written(data, 0);
    Bytes4Written(data, 4);
    Bytes4Written(data, 8);
    Bytes4Written(data, 12);
    Bytes2Written(data, 16);
    assert data == data[0..4] + data[4..8] + data[8..12] + data[12..16] + data[16..18] + data[18..];
  }

  /** The entries hold the strings: entry i points at the i-th, and strnlen finds its end. */
  lemma EntriesAreStrings(data: seq<byte>, p: nat, k: nat, i: nat)
    requires p <= |data| && After(data, p, k) >= 0 && i < k
    ensures After(data, p, i) >= 0
    ensures var q := After(data, p, i); Strings(data, p, k)[i] == data[q..StrEnd(data, q)] && StrEnd(data, q) < |data|
  {
    hide StrEnd;
    AfterPrefix(data, p, i + 1, k);
    AfterPrefix(data, p, i, k);
    assert Strings(data, p, i + 1)[i] == Strings(data, p, k)[i];
  }

  /** When strings are needed, the buffers accepted are exactly the encodings of one language with enough of them. */
  lemma AcceptedExactly(data: seq<byte>, needed: nat)
    requires needed > 0
    ensures HeaderOk(data, needed) && OneLanguage(data) <==>
            exists language: Word16, strs :: NulFree(strs) && |strs| >= needed && 18 + |Joined(strs)| < 0x1_0000_0000
                                             && data == Encode(language, strs)
  {
    hide OneLanguage, Encode, NulFree, Joined, Strings, Le16, Le32;
    if HeaderOk(data, needed) && OneLanguage(data) {
      AcceptedLength(data, needed);
      AcceptedIsEncoding(data, needed);
      var strs := Strings(data, HEADER + 2, StrCount(data));
      assert data == Encode(Le16(data, HEADER), strs) && NulFree(strs);
    }
    forall language: Word16, strs | NulFree(strs) && |strs| >= needed && 18 + |Joined(strs)| < 0x1_0000_0000
                                    && data == Encode(language, strs)
      ensures HeaderOk(data, needed) && OneLanguage(data)
    {
      ParseEncoded(language, strs, needed);
    }
  }

  lemma AcceptedLength(data: seq<byte>, needed: nat)
    requires HeaderOk(data, needed) && OneLanguage(data)
    ensures HEADER + 2 <= |data| < TWO_TO_THE_32 && After(data, HEADER + 2, StrCount(data)) >= 0
  {
    hide After, Le32;
  }

  /**
   When none are, whatever has a sound header: the magic number 2, its length, and two counts of
   which none or both are 0.
   */
  lemma NoneNeeded(data: seq<byte>)
    requires |data| < TWO_TO_THE_32
    ensures HeaderOk(data, 0) <==>
            && |data| >= 16
            && data[0..4] == [2, 0, 0, 0] && data[4..8] == Bytes4(|data|)
            && (data[8..12] == [0, 0, 0, 0] <==> data[12..16] == [0, 0, 0, 0])
  {
    if |data| >= 16 {
      WordIs(data, 0, 2);
      WordIs(data, 4, |data|);
      WordIs(data, 8, 0);
      WordIs(data, 12, 0);
      assert Bytes4(2) == [2, 0, 0, 0] && Bytes4(0) == [0, 0, 0, 0];
      hide Le32, Bytes4;
    }
  }

  lemma WordIs(data: seq<byte>, o: nat, x: nat)
    requires o + 4 <= |data| && x < TWO_TO_THE_32
    ensures Le32(data, o) == x <==> data[o..o + 4] == Bytes4(x)
  {
    HeldFour(data, o, x);
    HeldIs(data, o, Bytes4(x));
    hide Le32, Bytes4;
  }
}
