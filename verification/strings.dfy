/**
  The Python and JavaScript string built-ins the core calls, on `string`
  (a sequence of Unicode scalar values).
*/
module Strings {
  import opened Wrappers

  /** Lower-cases the ASCII letters A-Z and leaves every other character alone. */
  function AsciiLowerChar(c: char): (r: char)
  {
    if 'A' <= c <= 'Z' then (c as int - 'A' as int + 'a' as int) as char else c
  }

  /** `s.lower()` (Python) and `s.toLowerCase()` (JavaScript), on ASCII letters. */
  function AsciiLower(s: string): (r: string)
    ensures |r| == |s|
  {
    if s == [] then [] else [AsciiLowerChar(s[0])] + AsciiLower(s[1..])
  }

  /** Lower-casing works character by character. */
  lemma {:induction false} AsciiLowerAt(s: string)
    ensures forall i :: 0 <= i < |s| ==> AsciiLower(s)[i] == AsciiLowerChar(s[i])
    decreases |s|
  {
    if s != [] {
      AsciiLowerAt(s[1..]);
      assert forall i :: 1 <= i < |s| ==> AsciiLower(s)[i] == AsciiLower(s[1..])[i - 1];
    }
  }

  /** needle occurs in hay starting at offset i. */
  predicate OccursAt(needle: string, hay: string, i: int)
  {
    0 <= i <= |hay| - |needle| && hay[i..i + |needle|] == needle
  }

  /** `needle in hay` for strings: needle occurs at some offset of hay. */
  ghost predicate OccursIn(needle: string, hay: string)
  {
    exists i :: OccursAt(needle, hay, i)
  }

  /** A left-to-right scan for needle in hay. */
  predicate Contains(hay: string, needle: string)
    decreases |hay|
  {
    needle <= hay || (hay != [] && Contains(hay[1..], needle))
  }

  /** An occurrence in a non-empty hay is at its start or an occurrence in its tail, moved by one. */
  lemma OccursAtTail(needle: string, hay: string, i: int)
    requires hay != [] && i > 0
    ensures OccursAt(needle, hay, i) <==> OccursAt(needle, hay[1..], i - 1)
  {
    if 0 < i <= |hay| - |needle| {
      assert hay[1..][i - 1..i - 1 + |needle|] == hay[i..i + |needle|];
    }
  }

  /** The scan finds the needle exactly when it occurs. */
  lemma {:induction false} ContainsIffOccurs(hay: string, needle: string)
    ensures Contains(hay, needle) <==> OccursIn(needle, hay)
    decreases |hay|
  {
    if needle <= hay {
      assert OccursAt(needle, hay, 0);
    } else if hay != [] {
      ContainsIffOccurs(hay[1..], needle);
      if OccursIn(needle, hay[1..]) {
        var i :| OccursAt(needle, hay[1..], i);
        OccursAtTail(needle, hay, i + 1);
      }
      if OccursIn(needle, hay) {
        var i :| OccursAt(needle, hay, i);
        assert i != 0;
        OccursAtTail(needle, hay, i);
      }
    }
  }

  /** `s.rstrip(c)`: drops every trailing occurrence of c. */
  function RStrip(s: string, c: char): (r: string)
    decreases |s|
  {
    if s != [] && s[|s| - 1] == c then RStrip(s[..|s| - 1], c) else s
  }

  /** rstrip keeps a prefix, drops only c's, and leaves no c at the end. */
  lemma {:induction false} RStripSpec(s: string, c: char)
    ensures RStrip(s, c) <= s
    ensures forall i :: |RStrip(s, c)| <= i < |s| ==> s[i] == c
    ensures RStrip(s, c) == [] || RStrip(s, c)[|RStrip(s, c)| - 1] != c
    decreases |s|
  {
    if s != [] && s[|s| - 1] == c {
      RStripSpec(s[..|s| - 1], c);
    }
  }

  /** The index of the last occurrence of c in s, if any. */
  function LastIndexOf(s: string, c: char): (r: Option<nat>)
    ensures r.Some? ==> r.value < |s| && s[r.value] == c && forall j :: r.value < j < |s| ==> s[j] != c
    ensures r.None? ==> forall j :: 0 <= j < |s| ==> s[j] != c
    decreases |s|
  {
    if s == [] then None
    else if s[|s| - 1] == c then Some(|s| - 1)
    else LastIndexOf(s[..|s| - 1], c)
  }

  /**
    `s.rsplit(sep, 1)[1]`: the text after the last sep. Python raises
    IndexError when sep does not occur, because the split has one field only.
  */
  function RSplitSecond(s: string, sep: char): (r: Option<string>)
  {
    match LastIndexOf(s, sep)
    case None => None
    case Some(i) => Some(s[i + 1..])
  }

  /**
    rsplit finds a second field exactly when sep occurs, and that field is
    the (sep-free) text after an occurrence of sep.
  */
  lemma RSplitSecondSpec(s: string, sep: char)
    ensures RSplitSecond(s, sep).None? <==> forall j :: 0 <= j < |s| ==> s[j] != sep
    ensures RSplitSecond(s, sep).Some? ==>
              var e := RSplitSecond(s, sep).value;
              |e| < |s| && s[|s| - |e| - 1] == sep && s[|s| - |e|..] == e &&
              forall j :: 0 <= j < |e| ==> e[j] != sep
  {
  }

  /** `s.split(sep).pop()` (JavaScript): the last field, the whole string when sep does not occur. */
  function SplitPop(s: string, sep: char): (r: string)
    ensures |r| <= |s| && r == s[|s| - |r|..] && forall j :: 0 <= j < |r| ==> r[j] != sep
    ensures RSplitSecond(s, sep).Some? ==> r == RSplitSecond(s, sep).value
    ensures RSplitSecond(s, sep).None? ==> r == s
  {
    match LastIndexOf(s, sep)
    case None => s
    case Some(i) => s[i + 1..]
  }

  /** Where the last path component of p begins: just after its last '/'. */
  function ComponentStart(p: string): (start: nat)
    ensures start <= |p|
    ensures forall j :: start <= j < |p| ==> p[j] != '/'
    ensures start > 0 ==> p[start - 1] == '/'
  {
    match LastIndexOf(p, '/') case None => 0 case Some(k) => k + 1
  }

  /**
    The extension `os.path.splitext(p)[1]` returns (posixpath): from the last
    '.' of the last path component, provided a character other than '.' comes
    before that dot within the component; otherwise the empty string.
  */
  function SplitExt(p: string): (ext: string)
    ensures ext == [] || (ext[0] == '.' && |ext| <= |p| && ext == p[|p| - |ext|..])
    ensures forall j :: 0 <= j < |ext| ==> ext[j] != '/'
    ensures forall j :: 0 < j < |ext| ==> ext[j] != '.'
  {
    var start := ComponentStart(p);
    match LastIndexOf(p, '.')
    case None => ""
    case Some(d) =>
      if d >= start && exists j :: start <= j < d && p[j] != '.' then p[d..] else ""
  }

  /**
    `splitext` finds an extension exactly when the last path component has a
    '.' with some character other than '.' before it in that component;
    leading dots of a component belong to its root.
  */
  lemma SplitExtNonEmpty(p: string)
    ensures SplitExt(p) != [] <==>
              exists d, j :: ComponentStart(p) <= j < d < |p| && p[j] != '.' && p[d] == '.'
  {
    var start := ComponentStart(p);
    if exists d, j :: start <= j < d < |p| && p[j] != '.' && p[d] == '.' {
      var d, j :| start <= j < d < |p| && p[j] != '.' && p[d] == '.';
      var last := LastIndexOf(p, '.').value;
      assert last >= d;
      assert start <= j < last && p[j] != '.';
    }
  }

  /** `os.path.join(a, b)` for two components (posixpath). */
  function PathJoin(a: string, b: string): (r: string)
  {
    if |b| > 0 && b[0] == '/' then b
    else if a == [] || a[|a| - 1] == '/' then a + b
    else a + "/" + b
  }

  /** Joining a relative name keeps the directory as a prefix and the name as a suffix. */
  lemma PathJoinRelative(a: string, b: string)
    requires b == [] || b[0] != '/'
    ensures a <= PathJoin(a, b)
    ensures PathJoin(a, b)[|PathJoin(a, b)| - |b|..] == b
    ensures |PathJoin(a, b)| == |a| + |b| + (if a == [] || a[|a| - 1] == '/' then 0 else 1)
  {
  }

  /** The UTF-16 length (`s.length` in JavaScript): characters outside the BMP count twice. */
  function Utf16Length(s: string): (n: nat)
    ensures |s| <= n <= 2 * |s|
  {
    if s == [] then 0 else (if s[0] as int >= 0x10000 then 2 else 1) + Utf16Length(s[1..])
  }

  /** The decimal digit character of d < 10. */
  function DigitChar(d: nat): (c: char)
    requires d < 10
    ensures '0' <= c <= '9' && c as int - '0' as int == d
  {
    ('0' as int + d) as char
  }

  /** `str(n)` for a non-negative int: its decimal digits, most significant first, without leading zeros. */
  function DecimalString(n: nat): (s: string)
    ensures |s| >= 1
    ensures forall i :: 0 <= i < |s| ==> '0' <= s[i] <= '9'
    ensures |s| > 1 ==> s[0] != '0'
    decreases n
  {
    if n < 10 then [DigitChar(n)] else DecimalString(n / 10) + [DigitChar(n % 10)]
  }

  /** Appending a digit to a positive number appends its character to the text. */
  lemma DecimalAppend(n: nat, d: nat)
    requires n >= 1 && d < 10
    ensures DecimalString(10 * n + d) == DecimalString(n) + [DigitChar(d)]
  {
    assert (10 * n + d) / 10 == n && (10 * n + d) % 10 == d;
  }

  /** The value of a string of decimal digits. */
  function DecimalValue(s: string): nat
    requires forall i :: 0 <= i < |s| ==> '0' <= s[i] <= '9'
  {
    if s == [] then 0 else DecimalValue(s[..|s| - 1]) * 10 + (s[|s| - 1] as int - '0' as int)
  }

  /** Reading back the decimal text of n gives n. */
  lemma {:induction false} DecimalRoundTrip(n: nat)
    ensures DecimalValue(DecimalString(n)) == n
    decreases n
  {
    if n >= 10 {
      DecimalRoundTrip(n / 10);
      var s := DecimalString(n);
      assert s[..|s| - 1] == DecimalString(n / 10);
    }
  }
}
