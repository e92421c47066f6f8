/**
 deal_format: drops {private} and {public} behind a percent sign from a format
 string, so that the kernel's printk understands it. A format is a C string, given
 here without its terminating NUL.
 */
module LogFormat {
  import opened Bytes

  const PRIVATE := "%{private}"
  const PUBLIC := "%{public}"
  const NUL := '\0'
  const STRING_MAX := 0x7fff_ffff   // the bounds-checked string functions refuse a larger destination

  predicate CString(s: string) { NUL !in s }

  /** Every marker replaced by its percent sign, from left to right. */
  function Replace(fmt: string): string {
    if fmt == "" then ""
    else if PRIVATE <= fmt then "%" + Replace(fmt[|PRIVATE|..])
    else if PUBLIC <= fmt then "%" + Replace(fmt[|PUBLIC|..])
    else [fmt[0]] + Replace(fmt[1..])
  }

  predicate HasMarker(fmt: string) {
    fmt != "" && (PRIVATE <= fmt || PUBLIC <= fmt || HasMarker(fmt[1..]))
  }

  /** How many positions of fmt the text m begins at. */
  function Occurrences(fmt: string, m: string): nat {
    if fmt == "" then 0 else (if m <= fmt then 1 else 0) + Occurrences(fmt[1..], m)
  }

  function Percents(s: string): nat {
    if s == "" then 0 else (if s[0] == '%' then 1 else 0) + Percents(s[1..])
  }

  /** The string that begins at dest[i]: what is before the first NUL, or nothing at all when there is none. */
  function StringAt(dest: seq<char>, i: nat): (r: Option<string>)
    requires i <= |dest|
    ensures r.Some? ==>
              && i + |r.value| < |dest| && r.value == dest[i..i + |r.value|]
              && dest[i + |r.value|] == NUL && CString(r.value)
    ensures r.None? ==> NUL !in dest[i..]
    decreases |dest| - i
  {
    if i == |dest| then None
    else if dest[i] == NUL then Some("")
    else
      match StringAt(dest, i + 1)
      case None => None
      case Some(s) => Some([dest[i]] + s)
  }

  lemma MarkerBegins(fmt: string, m: string)
    requires m <= fmt && (m == PRIVATE || m == PUBLIC)
    ensures fmt[0] == '%'
  {
    assert m[0] == '%';
  }

  /** A passage without percent signs and without markers goes through unchanged. */
  lemma {:induction false} NoPercentNoMarker(fmt: string, k: nat)
    requires k <= |fmt| && forall i :: 0 <= i < k ==> fmt[i] != '%'
    ensures Occurrences(fmt, PRIVATE) == Occurrences(fmt[k..], PRIVATE)
    ensures Occurrences(fmt, PUBLIC) == Occurrences(fmt[k..], PUBLIC)
    ensures Percents(fmt) == Percents(fmt[k..])
  {
    if k > 0 {
      if PRIVATE <= fmt {
        MarkerBegins(fmt, PRIVATE);
      }
      if PUBLIC <= fmt {
        MarkerBegins(fmt, PUBLIC);
      }
      NoPercentNoMarker(fmt[1..], k - 1);
      assert fmt[1..][k - 1..] == fmt[k..];
    }
  }

  /** No marker begins inside a marker. */
  lemma MarkersApart(fmt: string, m: string)
    requires m <= fmt && (m == PRIVATE || m == PUBLIC)
    ensures Occurrences(fmt, PRIVATE) == (if m == PRIVATE then 1 else 0) + Occurrences(fmt[|m|..], PRIVATE)
    ensures Occurrences(fmt, PUBLIC) == (if m == PUBLIC then 1 else 0) + Occurrences(fmt[|m|..], PUBLIC)
    ensures Percents(fmt) == 1 + Percents(fmt[|m|..])
  {
    forall i | 0 <= i < |m| - 1
      ensures fmt[1..][i] != '%'
    {
      assert fmt[i + 1] == m[i + 1];
    }
    NoPercentNoMarker(fmt[1..], |m| - 1);
    assert fmt[1..][|m| - 1..] == fmt[|m|..];
    assert m[0] == fmt[0] && m[3] == fmt[3];
  }

  /** The result is shorter by nine for every {private} and eight for every {public}, and has as many percent signs. */
  lemma {:induction false} ReplaceCounts(fmt: string)
    ensures |Replace(fmt)| == |fmt| - 9 * Occurrences(fmt, "%{private}") - 8 * Occurrences(fmt, "%{public}")
    ensures Percents(Replace(fmt)) == Percents(fmt)
    ensures CString(fmt) ==> CString(Replace(fmt))
  {
    if fmt == "" {
    } else if PRIVATE <= fmt {
      MarkersApart(fmt, PRIVATE);
      ReplaceCounts(fmt[|PRIVATE|..]);
      assert Replace(fmt)[1..] == Replace(fmt[|PRIVATE|..]);
    } else if PUBLIC <= fmt {
      MarkersApart(fmt, PUBLIC);
      ReplaceCounts(fmt[|PUBLIC|..]);
      assert Replace(fmt)[1..] == Replace(fmt[|PUBLIC|..]);
    } else {
      ReplaceCounts(fmt[1..]);
      assert Replace(fmt)[1..] == Replace(fmt[1..]);
    }
  }

  /** A format without markers is left alone, and only such a format is. */
  lemma {:induction false} UnchangedWithoutMarkers(fmt: string)
    ensures Replace(fmt) == fmt <==> !HasMarker(fmt)
    ensures HasMarker(fmt) <==> Occurrences(fmt, PRIVATE) + Occurrences(fmt, PUBLIC) > 0
  {
    ReplaceCounts(fmt);
    if fmt != "" {
      UnchangedWithoutMarkers(fmt[1..]);
    }
  }

  /**
   What the C library's strncpy_s and strcat_s do with a C string, at dest[i..] with the rest of dest
   as their room.
   */
  method CopyText(dest: array<char>, i: nat, text: string) returns (ok: bool)
    requires i <= dest.Length && CString(text)
    modifies dest
    ensures ok <==> dest.Length - i <= STRING_MAX && i + |text| < dest.Length
    ensures ok ==> dest[..] == old(dest[..i]) + text + [NUL] + old(dest[i + |text| + 1..])
  {
    if dest.Length - i > STRING_MAX || i + |text| >= dest.Length {
      return false;
    }
    forall k | 0 <= k < |text| {
      dest[i + k] := text[k];
    }
    dest[i + |text|] := NUL;
    ok := true;
  }

  /** And what strcat_s does with the string at dest[i..]. */
  method Append(dest: array<char>, i: nat, text: string) returns (ok: bool)
    requires i <= dest.Length && CString(text)
    modifies dest
    ensures var there := StringAt(old(dest[..]), i);
      && (ok <==> dest.Length - i <= STRING_MAX && there.Some? && i + |there.value| + |text| < dest.Length)
      && (ok ==>
            dest[..] ==
            old(dest[..])[..i + |there.value|] + text + [NUL] + old(dest[..])[i + |there.value| + |text| + 1..])
  {
    var there := StringAt(dest[..], i);
    hide StringAt;
    if there.None? || dest.Length - i > STRING_MAX {
      return false;
    }
    ok := CopyText(dest, i + |there.value|, text);
  }

  /** What is to end up in dest. */
  function Expected(fmt: string, before: seq<char>): Option<string> {
    if HasMarker(fmt) then Some(Replace(fmt))
    else
      match StringAt(before, 0)
      case None => None
      case Some(s) => Some(s + fmt)
  }

  /** Into a destination that begins with a NUL goes the replaced format, markers or not. */
  lemma ZeroedGetsReplaced(fmt: string, before: seq<char>)
    requires |before| > 0 && before[0] == NUL
    ensures Expected(fmt, before) == Some(Replace(fmt))
  {
    UnchangedWithoutMarkers(fmt);
    assert "" + fmt == fmt;
  }

  lemma MarkerReplaced(fmt: string, m: string)
    requires m <= fmt && (m == PRIVATE || (m == PUBLIC && !(PRIVATE <= fmt)))
    ensures fmt != "" && fmt[0] == '%' && HasMarker(fmt) && Replace(fmt) == "%" + Replace(fmt[|m|..])
  {
    MarkerBegins(fmt, m);
  }

  lemma MarkerThen(tail: string)
    requires forall i :: 0 <= i < |tail| ==> tail[i] != '%'
    ensures Replace(PUBLIC + tail) == "%" + tail
  {
    TailUnchanged(tail);
    hide *;
    var f := PUBLIC + tail;
    PublicIsNotPrivate(f);
    assert f[|PUBLIC|..] == tail;
    MarkerReplaced(f, PUBLIC);
  }

  lemma PublicIsNotPrivate(fmt: string)
    requires PUBLIC <= fmt
    ensures !(PRIVATE <= fmt)
  {
    assert fmt[3] == PUBLIC[3] && PUBLIC[3] == 'u' && PRIVATE[3] == 'r';
  }

  lemma TailUnchanged(tail: string)
    requires forall i :: 0 <= i < |tail| ==> tail[i] != '%'
    ensures Replace(tail) == tail
  {
    NoPercentNoMarker(tail, |tail|);
    UnchangedWithoutMarkers(tail);
  }

  /** Replacing can bring a new marker together, so doing it again is not the same as doing it once. */
  lemma ReplacedMayHoldMarkers() returns (fmt: string)
    ensures Replace(fmt) == PUBLIC && Replace(Replace(fmt)) == "%"
  {
    hide Replace;
    MarkerThen("{public}");
    MarkerThen("");
    fmt := PUBLIC + "{public}";
    assert "%" + "{public}" == PUBLIC && PUBLIC + "" == PUBLIC;
  }

  lemma OtherKept(fmt: string)
    requires fmt != "" && !(PRIVATE <= fmt) && !(PUBLIC <= fmt)
    ensures Replace(fmt) == [fmt[0]] + Replace(fmt[1..]) && HasMarker(fmt) == HasMarker(fmt[1..])
  {
  }

  lemma StringAtIs(dest: seq<char>, i: nat, s: string)
    requires i + |s| < |dest| && dest[i..i + |s|] == s && dest[i + |s|] == NUL && CString(s)
    ensures StringAt(dest, i) == Some(s)
  {
    hide StringAt;
    var r := StringAt(dest, i);
    assert forall j :: i <= j < i + |s| ==> dest[j] == dest[i..i + |s|][j - i] == s[j - i] != NUL;
    assert dest[i..][|s|] == NUL;
    if r.Some? {
      var n := |r.value|;
      assert forall j :: i <= j < i + n ==> dest[j] == dest[i..i + n][j - i] == r.value[j - i] != NUL;
    }
  }

  /** The scan so far: what has been copied, what is waiting, and what is still to be looked at make up the result. */
  ghost predicate Scanned(fmt: string, dest: seq<char>, before: seq<char>, from: nat, cur: nat, index: nat) {
    && from <= cur <= |fmt| && index <= from && index + (cur - from) <= cur && |dest| == |before| && index < |dest|
    && Replace(fmt) == dest[..index] + fmt[from..cur] + Replace(fmt[cur..])
    && CString(dest[..index])
    && (HasMarker(fmt) <==> index > 0 || HasMarker(fmt[cur..]))
    && (if index == 0 then from == 0 && dest == before else dest[index] == NUL)
  }

  lemma ScanOn(fmt: string, dest: seq<char>, before: seq<char>, from: nat, cur: nat, index: nat)
    requires Scanned(fmt, dest, before, from, cur, index) && cur < |fmt|
    requires !(PRIVATE <= fmt[cur..]) && !(PUBLIC <= fmt[cur..])
    ensures Scanned(fmt, dest, before, from, cur + 1, index)
  {
    var rest := fmt[cur..];
    OtherKept(rest);
    hide Replace, HasMarker;
    assert rest[1..] == fmt[cur + 1..] && rest[0] == fmt[cur];
    assert fmt[from..cur + 1] == fmt[from..cur] + [fmt[cur]];
  }

  lemma ScanMarker(fmt: string, dest: seq<char>, dest': seq<char>, before: seq<char>, from: nat, cur: nat,
                   index: nat, m: string)
    requires Scanned(fmt, dest, before, from, cur, index) && cur < |fmt| && CString(fmt)
    requires m <= fmt[cur..] && (m == PRIVATE || (m == PUBLIC && !(PRIVATE <= fmt[cur..])))
    requires |dest'| == |dest| && index + (cur - from) + 1 < |dest|
    requires dest'[..index + (cur - from) + 1] == dest[..index] + fmt[from..cur + 1]
    requires dest'[index + (cur - from) + 1] == NUL
    ensures Scanned(fmt, dest', before, cur + |m|, cur + |m|, index + (cur - from) + 1)
  {
    var rest, index' := fmt[cur..], index + (cur - from) + 1;
    MarkerReplaced(rest, m);
    MarkerLength(m);
    hide Replace, HasMarker, CString;
    assert rest[|m|..] == fmt[cur + |m|..];
    MarkerText(fmt, dest[..index], from, cur, dest'[..index'], Replace(rest), Replace(rest[|m|..]));
    MarkerClean(fmt, dest[..index], from, cur, dest'[..index']);
  }

  lemma MarkerLength(m: string)
    requires m == PRIVATE || m == PUBLIC
    ensures |m| > 1
  {
  }

  /** The text put together: what was there, what was waiting up to the marker's percent sign, and what follows. */
  lemma MarkerText(fmt: string, there: string, from: nat, cur: nat, there': string, rest: string, after: string)
    requires from <= cur < |fmt| && fmt[cur] == '%' && there' == there + fmt[from..cur + 1] && rest == "%" + after
    ensures there + fmt[from..cur] + rest == there' + [] + after
  {
    assert fmt[from..cur + 1] == fmt[from..cur] + "%";
  }

  lemma MarkerClean(fmt: string, there: string, from: nat, cur: nat, there': string)
    requires from <= cur < |fmt| && CString(fmt) && CString(there) && there' == there + fmt[from..cur + 1]
    ensures CString(there')
  {
  }

  /** At the end of the format: what is waiting goes behind the string at index. */
  lemma ScanEnds(fmt: string, dest: seq<char>, dest': seq<char>, before: seq<char>, from: nat, index: nat,
                 there: string)
    requires Scanned(fmt, dest, before, from, |fmt|, index) && CString(fmt) && StringAt(dest, index) == Some(there)
    requires index + |there| + (|fmt| - from) < |dest| == |dest'|
    requires dest'[..index + |there| + (|fmt| - from)] == dest[..index + |there|] + fmt[from..]
    requires dest'[index + |there| + (|fmt| - from)] == NUL
    ensures StringAt(dest', 0) == Expected(fmt, before)
  {
    NothingLeft(fmt);
    hide Replace, HasMarker;
    var s := dest[..index + |there|] + fmt[from..];
    assert dest[..index + |there|] == dest[..index] + there;
    if index > 0 {
      StringAtIs(dest, index, "");
      assert s == Replace(fmt);
    }
    hide StringAt;
    StringAtIs(dest', 0, s);
  }

  /** Whether that fits is decided by the expected result alone. */
  lemma ScanDecides(fmt: string, dest: seq<char>, before: seq<char>, from: nat, index: nat)
    requires Scanned(fmt, dest, before, from, |fmt|, index) && |fmt| + 1 < |dest|
    ensures (StringAt(dest, index).Some? && index + |StringAt(dest, index).value| + (|fmt| - from) < |dest|) <==>
            (Expected(fmt, before).Some? && |Expected(fmt, before).value| < |before|)
  {
    NothingLeft(fmt);
    hide Replace, HasMarker;
    if index > 0 {
      StringAtIs(dest, index, "");
    }
    hide StringAt;
  }

  lemma NothingLeft(fmt: string)
    ensures Replace(fmt[|fmt|..]) == "" && !HasMarker(fmt[|fmt|..])
  {
  }

  /** deal_format; without a marker the format is appended to whatever string dest holds. */
  method DealFormat(fmt: Option<string>, dest: array?<char>) returns (ok: bool)
    requires fmt.Some? ==> CString(fmt.value)
    modifies if dest == null then {} else {dest}
    ensures ok <==>
            && fmt.Some? && dest != null
            && dest.Length <= STRING_MAX && |fmt.value| + 1 < dest.Length
            && var e := Expected(fmt.value, old(dest[..])); e.Some? && |e.value| < dest.Length
    ensures ok ==> StringAt(dest[..], 0) == Expected(fmt.value, old(dest[..]))
  {
    if fmt.None? || dest == null || dest.Length == 0 || |fmt.value| >= dest.Length - 1 {
      return false;
    }
    if dest.Length > STRING_MAX {
      return false;   // the first copy is refused
    }
    ok := CopyFormat(fmt.value, dest);
  }

  /** A marker at cur: what is waiting is copied together with its percent sign. */
  method CopyMarker(fmt: string, dest: array<char>, ghost before: seq<char>, from: nat, cur: nat, index: nat, m: string)
    requires CString(fmt) && |fmt| + 1 < dest.Length <= STRING_MAX && cur < |fmt|
    requires Scanned(fmt, dest[..], before, from, cur, index)
    requires m <= fmt[cur..] && (m == PRIVATE || (m == PUBLIC && !(PRIVATE <= fmt[cur..])))
    modifies dest
    ensures Scanned(fmt, dest[..], before, cur + |m|, cur + |m|, index + (cur - from) + 1)
  {
    ghost var was := dest[..];
    var copied := CopyText(dest, index, fmt[from..cur + 1]);
    assert copied;
    hide Scanned;
    ScanMarker(fmt, was, dest[..], before, from, cur, index, m);
  }

  /** The loop of deal_format and the copy of what is left. */
  method CopyFormat(fmt: string, dest: array<char>) returns (ok: bool)
    requires CString(fmt) && |fmt| + 1 < dest.Length <= STRING_MAX
    modifies dest
    ensures ok <==> var e := Expected(fmt, old(dest[..])); e.Some? && |e.value| < dest.Length
    ensures ok ==> StringAt(dest[..], 0) == Expected(fmt, old(dest[..]))
  {
    ghost var before := dest[..];
    var from: nat, cur: nat, index: nat := 0, 0, 0;
    ScanBegins(fmt, before);
    hide Replace, HasMarker, StringAt, Scanned, CString, Expected;
    while cur < |fmt|
      invariant from <= cur <= |fmt| && Scanned(fmt, dest[..], before, from, cur, index)
    {
      from, cur, index := ScanNext(fmt, dest, before, from, cur, index);
    }
    ok := CopyRest(fmt, dest, before, from, index);
  }

  /** One turn of that loop: a marker is copied up to its percent sign and skipped, or one character is passed. */
  method ScanNext(fmt: string, dest: array<char>, ghost before: seq<char>, from: nat, cur: nat, index: nat)
    returns (from': nat, cur': nat, index': nat)
    requires CString(fmt) && |fmt| + 1 < dest.Length <= STRING_MAX
    requires from <= cur < |fmt| && Scanned(fmt, dest[..], before, from, cur, index)
    modifies dest
    ensures cur < cur' && from' <= cur' <= |fmt| && Scanned(fmt, dest[..], before, from', cur', index')
  {
    hide Replace, HasMarker, StringAt, Scanned, CString;
    var rest := fmt[cur..];
    if PRIVATE <= rest || PUBLIC <= rest {
      var m := if PRIVATE <= rest then PRIVATE else PUBLIC;
      CopyMarker(fmt, dest, before, from, cur, index, m);
      index' := index + (cur - from) + 1;
      from' := cur + |m|;
      cur' := from';
    } else {
      ScanOn(fmt, dest[..], before, from, cur, index);
      from', cur', index' := from, cur + 1, index;
    }
  }

  method CopyRest(fmt: string, dest: array<char>, ghost before: seq<char>, from: nat, index: nat) returns (ok: bool)
    requires CString(fmt) && |fmt| + 1 < dest.Length <= STRING_MAX && Scanned(fmt, dest[..], before, from, |fmt|, index)
    modifies dest
    ensures ok <==> var e := Expected(fmt, before); e.Some? && |e.value| < dest.Length
    ensures ok ==> StringAt(dest[..], 0) == Expected(fmt, before)
  {
    ghost var was := dest[..];
    hide StringAt, Expected;
    ScanDecides(fmt, was, before, from, index);
    ok := Append(dest, index, fmt[from..]);
    if ok {
      ScanEnds(fmt, was, dest[..], before, from, index, StringAt(was, index).value);
    }
  }

  lemma ScanBegins(fmt: string, before: seq<char>)
    requires before != []
    ensures Scanned(fmt, before, before, 0, 0, 0)
  {
    assert fmt[0..] == fmt;
    assert before[..0] + fmt[0..0] + Replace(fmt) == Replace(fmt);
  }
}
