/** The Python string operations the filter relies on, over `string` (a `seq<char>`). */
module Text {

  /** `needle` occurs in `hay` starting at index `i`. */
  predicate OccursAt(hay: string, needle: string, i: int) {
    0 <= i && i + |needle| <= |hay| && hay[i..i + |needle|] == needle
  }

  lemma ShiftOccurrence(hay: string, needle: string)
    requires |hay| > 0
    ensures forall i :: OccursAt(hay[1..], needle, i) ==> OccursAt(hay, needle, i + 1)
    ensures forall i :: 1 <= i && OccursAt(hay, needle, i) ==> OccursAt(hay[1..], needle, i - 1)
  {
    forall i | OccursAt(hay[1..], needle, i)
      ensures OccursAt(hay, needle, i + 1)
    {
      assert hay[1..][i..i + |needle|] == hay[i + 1..i + 1 + |needle|];
    }
    forall i | 1 <= i && OccursAt(hay, needle, i)
      ensures OccursAt(hay[1..], needle, i - 1)
    {
      assert hay[1..][i - 1..i - 1 + |needle|] == hay[i..i + |needle|];
    }
  }

  /** Python's `needle in hay` on strings: a substring test. */
  function Contains(hay: string, needle: string): (b: bool)
    ensures b <==> exists i :: OccursAt(hay, needle, i)
    decreases |hay|
  {
    if |hay| < |needle| then false
    else if hay[..|needle|] == needle then
      assert OccursAt(hay, needle, 0);
      true
    else
      assert !OccursAt(hay, needle, 0);
      ShiftOccurrence(hay, needle);
      Contains(hay[1..], needle)
  }

  /** Python's `sep.join(fields)`. */
  function Join(fields: seq<string>, sep: char): string
    requires |fields| >= 1
    decreases |fields|
  {
    if |fields| == 1 then fields[0] else fields[0] + [sep] + Join(fields[1..], sep)
  }

  /** Python's `s.split(sep)` for a one-character separator: the pieces between separators. */
  function Split(s: string, sep: char): (fields: seq<string>)
    ensures |fields| >= 1
    ensures forall n :: 0 <= n < |fields| ==> sep !in fields[n]
    decreases |s|
  {
    if |s| == 0 then [""]
    else
      var rest := Split(s[1..], sep);
      if s[0] == sep then [""] + rest
      else [[s[0]] + rest[0]] + rest[1..]
  }

  /** Joining the pieces of a split with the separator gives back the string. */
  lemma {:induction false} JoinSplit(s: string, sep: char)
    ensures Join(Split(s, sep), sep) == s
    decreases |s|
  {
    if |s| > 0 {
      var rest := Split(s[1..], sep);
      JoinSplit(s[1..], sep);
      assert Join(rest, sep) == s[1..];
      assert s == [s[0]] + s[1..];
      if s[0] == sep {
        assert Split(s, sep) == [""] + rest;
        assert ([""] + rest)[1..] == rest;
      } else {
        var fields := [[s[0]] + rest[0]] + rest[1..];
        assert Split(s, sep) == fields;
        assert fields[1..] == rest[1..];
        if |rest| > 1 {
          assert Join(rest, sep) == rest[0] + [sep] + Join(rest[1..], sep);
          assert Join(fields, sep) == [s[0]] + rest[0] + [sep] + Join(rest[1..], sep);
        }
      }
    }
  }

  /** Splitting a field that holds no separator, followed by anything, keeps the field whole. */
  lemma {:induction false} SplitPrefix(f: string, tail: string, sep: char)
    requires sep !in f
    ensures Split(f + tail, sep) == [f + Split(tail, sep)[0]] + Split(tail, sep)[1..]
    decreases |f|
  {
    if |f| == 0 {
      var t := Split(tail, sep);
      assert f + tail == tail;
      assert f + t[0] == t[0];
      assert [t[0]] + t[1..] == t;
    } else {
      var t := Split(tail, sep);
      SplitPrefix(f[1..], tail, sep);
      assert (f + tail)[0] == f[0] != sep;
      assert (f + tail)[1..] == f[1..] + tail;
      var rest := Split(f[1..] + tail, sep);
      assert rest == [f[1..] + t[0]] + t[1..];
      assert Split(f + tail, sep) == [[f[0]] + rest[0]] + rest[1..];
      assert [f[0]] + (f[1..] + t[0]) == f + t[0];
    }
  }

  /** A separator-free field followed by a separator splits off as the first field. */
  lemma SplitSeparated(f: string, rest: string, sep: char)
    requires sep !in f
    ensures Split(f + [sep] + rest, sep) == [f] + Split(rest, sep)
  {
    var tail := [sep] + rest;
    SplitPrefix(f, tail, sep);
    assert f + [sep] + rest == f + tail;
    assert tail[1..] == rest;
    assert Split(tail, sep) == [""] + Split(rest, sep);
    assert f + "" == f;
  }

  /** Joining separator-free fields and splitting again gives the fields back. */
  lemma {:induction false} SplitJoin(fields: seq<string>, sep: char)
    requires |fields| >= 1
    requires forall n :: 0 <= n < |fields| ==> sep !in fields[n]
    ensures Split(Join(fields, sep), sep) == fields
    decreases |fields|
  {
    if |fields| == 1 {
      SplitPrefix(fields[0], "", sep);
      assert fields[0] + "" == fields[0];
    } else {
      assert sep !in fields[0];
      SplitJoin(fields[1..], sep);
      SplitSeparated(fields[0], Join(fields[1..], sep), sep);
      assert fields == [fields[0]] + fields[1..];
    }
  }

  /** Python's `s[lo:hi]` for non-negative bounds: both ends are clamped to the string. */
  function Slice(s: string, lo: nat, hi: nat): string {
    var a := if lo < |s| then lo else |s|;
    var b := if hi < |s| then hi else |s|;
    if a < b then s[a..b] else []
  }

  /** Within bounds, Python's slice is Dafny's. */
  lemma SliceInBounds(s: string, lo: nat, hi: nat)
    requires lo <= hi <= |s|
    ensures Slice(s, lo, hi) == s[lo..hi]
  {
  }

  /**
   * What clamping means for a caller: the slice never reaches past the end of `s` nor past
   * `hi - lo` characters, reads `s` from `lo` on, and is empty once `lo` is past the end.
   */
  lemma SliceChars(s: string, lo: nat, hi: nat)
    ensures |Slice(s, lo, hi)| <= |s|
    ensures lo <= hi ==> |Slice(s, lo, hi)| <= hi - lo
    ensures hi <= lo || |s| <= lo ==> Slice(s, lo, hi) == []
    ensures lo <= hi <= |s| ==> |Slice(s, lo, hi)| == hi - lo
    ensures lo <= |s| <= hi ==> Slice(s, lo, hi) == s[lo..]
    ensures forall n :: 0 <= n < |Slice(s, lo, hi)| ==> lo + n < |s| && Slice(s, lo, hi)[n] == s[lo + n]
  {
  }

  /** Python's `s[1:-1]`: one character dropped from each end, or nothing left. */
  function DropEnds(s: string): (r: string)
    ensures |s| <= 2 ==> r == []
    ensures |s| > 2 ==> |r| == |s| - 2 && forall n :: 0 <= n < |r| ==> r[n] == s[n + 1]
  {
    if |s| <= 2 then [] else s[1..|s| - 1]
  }

  /** The ASCII characters Python's `str.strip()` removes. */
  predicate IsSpace(c: char) {
    c == ' ' || ('\t' <= c && c <= '\r') || ('\U{1C}' <= c && c <= '\U{1F}')
  }

  /** Python's `s.strip() == ''`: empty or whitespace only. */
  predicate IsBlank(s: string) {
    forall n :: 0 <= n < |s| ==> IsSpace(s[n])
  }

  predicate IsDigit(c: char) {
    '0' <= c && c <= '9'
  }

  predicate IsLetter(c: char) {
    ('A' <= c && c <= 'Z') || ('a' <= c && c <= 'z')
  }

  /** The strings on which Python's `int(s)` succeeds, simplified to a non-empty run of ASCII digits. */
  predicate IsNumeral(s: string) {
    |s| > 0 && forall n :: 0 <= n < |s| ==> IsDigit(s[n])
  }

  lemma NumeralNotBlank(s: string)
    requires IsNumeral(s)
    ensures !IsBlank(s)
  {
    assert IsDigit(s[0]);
  }

  /** The value `int(s)` of a run of decimal digits (leading zeros allowed). */
  function NumeralValue(s: string): nat
    requires forall n :: 0 <= n < |s| ==> IsDigit(s[n])
    decreases |s|
  {
    if |s| == 0 then 0
    else
      assert IsDigit(s[|s| - 1]);
      10 * NumeralValue(s[..|s| - 1]) + (s[|s| - 1] as int - '0' as int)
  }

  /** The decimal numeral of `n`, without leading zeros. */
  function ShowNat(n: nat): (s: string)
    ensures IsNumeral(s)
    ensures NumeralValue(s) == n
    decreases n
  {
    var d := ('0' as int + n % 10) as char;
    if n < 10 then
      assert [d][..0] == [];
      [d]
    else
      var front := ShowNat(n / 10);
      assert (front + [d])[..|front|] == front;
      front + [d]
  }
}
