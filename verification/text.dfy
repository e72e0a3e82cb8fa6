/** The JavaScript string operations the application relies on: `trim`,
    `split` on one character, `Array.prototype.join`, ASCII lower-casing and
    substring search. */
module Text {
  import opened Wrappers

  /** A string field that is present and not "", the one falsy string. */
  predicate Truthy(s: Option<string>) {
    s.Some? && s.value != ""
  }

  /** JavaScript's WhiteSpace and LineTerminator code points, the set that
      `String.prototype.trim` removes. */
  predicate IsSpace(c: char) {
    || c == '\t' || c == '\n' || c == '\U{000B}' || c == '\U{000C}' || c == '\r'
    || c == ' ' || c == '\U{00A0}' || c == '\U{1680}'
    || ('\U{2000}' <= c <= '\U{200A}')
    || c == '\U{2028}' || c == '\U{2029}' || c == '\U{202F}' || c == '\U{205F}'
    || c == '\U{3000}' || c == '\U{FEFF}'
  }

  /** Every character of `s` is white space (vacuously true of ""). */
  predicate AllSpace(s: string) {
    forall k :: 0 <= k < |s| ==> IsSpace(s[k])
  }

  /** `s` neither starts nor ends with white space: `trim` leaves it alone. */
  predicate IsTrimmed(s: string) {
    |s| == 0 || (!IsSpace(s[0]) && !IsSpace(s[|s| - 1]))
  }

  /** `r` is the piece of `s` at index `i`, and everything around it in `s`
      is white space. */
  predicate StrippedAt(s: string, r: string, i: int) {
    && 0 <= i && i + |r| <= |s| && r == s[i..i + |r|]
    && (forall k :: 0 <= k < i ==> IsSpace(s[k]))
    && (forall k :: i + |r| <= k < |s| ==> IsSpace(s[k]))
  }

  /** The first index at or after `i` that does not hold white space, or
      `|s|` when there is none. */
  function SkipSpace(s: string, i: nat): (n: nat)
    requires i <= |s|
    ensures i <= n <= |s|
    ensures forall k :: i <= k < n ==> IsSpace(s[k])
    ensures n == |s| || !IsSpace(s[n])
    decreases |s| - i
  {
    if i < |s| && IsSpace(s[i]) then SkipSpace(s, i + 1) else i
  }

  /** Scanning back from `j` but not past `lo`: the index just after the
      last character that is not white space, or `lo` when there is none. */
  function SkipSpaceBack(s: string, lo: nat, j: nat): (n: nat)
    requires lo <= j <= |s|
    ensures lo <= n <= j
    ensures forall k :: n <= k < j ==> IsSpace(s[k])
    ensures n == lo || !IsSpace(s[n - 1])
    decreases j
  {
    if j > lo && IsSpace(s[j - 1]) then SkipSpaceBack(s, lo, j - 1) else j
  }

  /** `String.prototype.trim`: the input with the white space at both ends
      removed. The result is a trimmed piece of `s` with only white space
      around it, so it keeps only characters of `s`, and it is "" exactly
      when `s` is all white space. */
  function Trim(s: string): (r: string)
    ensures exists i :: StrippedAt(s, r, i)
    ensures IsTrimmed(r)
    ensures |r| <= |s|
    ensures forall c :: c in r ==> c in s
    ensures r == [] <==> AllSpace(s)
  {
    var i := SkipSpace(s, 0);
    var j := SkipSpaceBack(s, i, |s|);
    var r := s[i..j];
    assert StrippedAt(s, r, i);
    StrippedKeepsCharacters(s, r, i);
    assert r != [] ==> r[0] == s[i];
    assert r == [] ==> AllSpace(s);
    r
  }

  /** A piece of `s` holds only characters of `s`. */
  lemma StrippedKeepsCharacters(s: string, r: string, i: int)
    requires 0 <= i && i + |r| <= |s| && r == s[i..i + |r|]
    ensures forall c :: c in r ==> c in s
  {
    forall c | c in r ensures c in s {
      var k :| 0 <= k < |r| && r[k] == c;
      assert s[i + k] == c;
    }
  }

  /** `trim` is exactly "remove the white space at both ends": its result
      is the one trimmed piece of `s` that has only white space around it. */
  lemma TrimIsStripping(s: string, r: string)
    ensures Trim(s) == r <==> IsTrimmed(r) && exists i :: StrippedAt(s, r, i)
  {
    if IsTrimmed(r) && exists i :: StrippedAt(s, r, i) {
      var i :| StrippedAt(s, r, i);
      StrippedIsTrim(s, r, i);
    }
  }

  /** A trimmed piece of `s` with white space around it is what `trim`
      returns. */
  lemma StrippedIsTrim(s: string, r: string, i: int)
    requires IsTrimmed(r) && StrippedAt(s, r, i)
    ensures Trim(s) == r
  {
    var st := SkipSpace(s, 0);
    if r == [] {
      assert AllSpace(s) by {
        forall k | 0 <= k < |s| ensures IsSpace(s[k]) {
          if k >= i { assert k >= i + |r|; }
        }
      }
    } else {
      assert s[i] == r[0] && s[i + |r| - 1] == r[|r| - 1];
      assert st == i;
      var en := SkipSpaceBack(s, st, |s|);
      assert en == i + |r|;
    }
  }

  /** A string that `trim` would not change is its own trimming. */
  lemma TrimTrimmed(s: string)
    requires IsTrimmed(s)
    ensures Trim(s) == s
  {
    assert StrippedAt(s, s, 0);
    StrippedIsTrim(s, s, 0);
  }

  /** Leading white space never survives `trim`. */
  lemma TrimSpacePrefix(p: string, s: string)
    requires AllSpace(p)
    ensures Trim(p + s) == Trim(s)
  {
    var r := Trim(s);
    var i :| StrippedAt(s, r, i);
    var t := p + s;
    assert t[|p| + i..|p| + i + |r|] == s[i..i + |r|];
    forall k | 0 <= k < |p| + i ensures IsSpace(t[k]) {
      if k >= |p| { assert t[k] == s[k - |p|]; }
    }
    forall k | |p| + i + |r| <= k < |t| ensures IsSpace(t[k]) {
      assert t[k] == s[k - |p|];
    }
    assert StrippedAt(t, r, |p| + i);
    StrippedIsTrim(t, r, |p| + i);
  }

  /** Index of the first occurrence of `c` in `s`. */
  function IndexOf(s: string, c: char): (i: nat)
    requires c in s
    ensures i < |s| && s[i] == c && c !in s[..i]
  {
    if s[0] == c then 0
    else
      var i := IndexOf(s[1..], c);
      assert s[..i + 1] == [s[0]] + s[1..][..i];
      i + 1
  }

  /** `Array.prototype.join(sep)`: the parts with `sep` between neighbours. */
  function Join(parts: seq<string>, sep: string): (r: string)
    ensures |parts| == 0 ==> r == ""
    ensures |parts| == 1 ==> r == parts[0]
  {
    if |parts| == 0 then ""
    else if |parts| == 1 then parts[0]
    else parts[0] + sep + Join(parts[1..], sep)
  }

  /** Every part occurs in the joined string. */
  lemma {:induction false} JoinKeepsParts(parts: seq<string>, sep: string, k: nat)
    requires k < |parts|
    ensures Occurs(Join(parts, sep), parts[k])
  {
    var r := Join(parts, sep);
    if k == 0 {
      assert r[..|parts[0]|] == parts[0];
      assert OccursAt(r, parts[0], 0);
    } else {
      var rest := Join(parts[1..], sep);
      assert r == parts[0] + sep + rest;
      JoinKeepsParts(parts[1..], sep, k - 1);
      var j :| OccursAt(rest, parts[1..][k - 1], j);
      var off := |parts[0]| + |sep|;
      assert r[off + j..off + j + |parts[k]|] == rest[j..j + |parts[k]|];
      assert OccursAt(r, parts[k], off + j);
    }
  }

  /** No part is lost in the joined string. */
  lemma JoinKeepsAllParts(parts: seq<string>, sep: string)
    ensures forall k :: 0 <= k < |parts| ==> Occurs(Join(parts, sep), parts[k])
  {
    forall k | 0 <= k < |parts| ensures Occurs(Join(parts, sep), parts[k]) {
      JoinKeepsParts(parts, sep, k);
    }
  }

  /** `String.prototype.split(c)` for a one-character separator: the pieces
      between consecutive separators, including empty ones at either end.
      Joining the pieces back with `c` recovers `s`. */
  function Split(s: string, c: char): (r: seq<string>)
    ensures |r| >= 1
    ensures forall k :: 0 <= k < |r| ==> c !in r[k]
    ensures Join(r, [c]) == s
    decreases |s|
  {
    if c !in s then [s]
    else
      var i := IndexOf(s, c);
      var rest := Split(s[i + 1..], c);
      var r := [s[..i]] + rest;
      assert r[1..] == rest;
      assert s == s[..i] + [c] + s[i + 1..];
      r
  }

  /** The pieces of a string that begins with a separator-free piece and a
      separator are that piece followed by the pieces of the remainder. */
  lemma SplitAfterSeparator(a: string, c: char, b: string)
    requires c !in a
    ensures Split(a + [c] + b, c) == [a] + Split(b, c)
  {
    var s := a + [c] + b;
    assert s[|a|] == c;
    var i := IndexOf(s, c);
    assert i == |a|;
    assert s[..i] == a;
    assert s[i + 1..] == b;
  }

  /** A string without the separator is a single piece. */
  lemma SplitWithoutSeparator(s: string, c: char)
    requires c !in s
    ensures Split(s, c) == [s]
  {
  }

  /** ASCII lower-casing of one character; every other character is kept. */
  function LowerChar(c: char): (r: char)
    ensures 'A' <= c <= 'Z' ==> r as int == c as int + 32
    ensures !('A' <= c <= 'Z') ==> r == c
  {
    if 'A' <= c <= 'Z' then (c as int + 32) as char else c
  }

  /** ASCII lower-casing, character by character. */
  function Lower(s: string): (r: string)
    ensures |r| == |s|
    ensures forall k :: 0 <= k < |s| ==> r[k] == LowerChar(s[k])
  {
    if |s| == 0 then "" else [LowerChar(s[0])] + Lower(s[1..])
  }

  /** `needle` occurs in `hay` starting at index `i`. */
  ghost predicate OccursAt(hay: string, needle: string, i: int) {
    0 <= i && i + |needle| <= |hay| && hay[i..i + |needle|] == needle
  }

  /** `needle` occurs somewhere in `hay`. */
  ghost predicate Occurs(hay: string, needle: string) {
    exists i :: OccursAt(hay, needle, i)
  }

  /** Substring search. */
  function Contains(hay: string, needle: string): (r: bool)
    ensures r <==> exists i :: OccursAt(hay, needle, i)
    decreases |hay|
  {
    if |needle| > |hay| then false
    else if hay[..|needle|] == needle then
      assert OccursAt(hay, needle, 0);
      true
    else
      var r := Contains(hay[1..], needle);
      assert r ==> exists i :: OccursAt(hay, needle, i) by {
        if r {
          var j :| OccursAt(hay[1..], needle, j);
          assert hay[1..][j..j + |needle|] == hay[j + 1..j + 1 + |needle|];
          assert OccursAt(hay, needle, j + 1);
        }
      }
      assert (exists i :: OccursAt(hay, needle, i)) ==> r by {
        if exists i :: OccursAt(hay, needle, i) {
          var i :| OccursAt(hay, needle, i);
          assert i != 0;
          assert hay[1..][i - 1..i - 1 + |needle|] == hay[i..i + |needle|];
          assert OccursAt(hay[1..], needle, i - 1);
        }
      }
      r
  }

  /** Lower-casing an already lower-cased string changes nothing. */
  lemma {:induction false} LowerIdempotent(s: string)
    ensures Lower(Lower(s)) == Lower(s)
  {
    forall k | 0 <= k < |s| ensures Lower(Lower(s))[k] == Lower(s)[k] {
      assert !('A' <= Lower(s)[k] <= 'Z');
    }
  }

  /** The piece of `hay` at index `i` spells `needle` up to ASCII case. */
  ghost predicate OccursAtIgnoringCase(hay: string, needle: string, i: int) {
    0 <= i && i + |needle| <= |hay| && Lower(hay[i..i + |needle|]) == Lower(needle)
  }

  /** Lower-casing commutes with taking a piece. */
  lemma LowerSlice(s: string, i: nat, j: nat)
    requires i <= j <= |s|
    ensures Lower(s)[i..j] == Lower(s[i..j])
  {
  }

  /** Case-insensitive substring search, folding ASCII letters only: true
      exactly when some piece of the haystack spells the needle up to case. */
  function ContainsIgnoringCase(hay: string, needle: string): (r: bool)
    ensures r <==> exists i :: OccursAtIgnoringCase(hay, needle, i)
  {
    var h, n := Lower(hay), Lower(needle);
    var r := Contains(h, n);
    assert r ==> exists i :: OccursAtIgnoringCase(hay, needle, i) by {
      if r {
        var i :| OccursAt(h, n, i);
        LowerSlice(hay, i, i + |needle|);
        assert OccursAtIgnoringCase(hay, needle, i);
      }
    }
    assert (exists i :: OccursAtIgnoringCase(hay, needle, i)) ==> r by {
      if exists i :: OccursAtIgnoringCase(hay, needle, i) {
        var i :| OccursAtIgnoringCase(hay, needle, i);
        LowerSlice(hay, i, i + |needle|);
        assert OccursAt(h, n, i);
      }
    }
    r
  }

  /** The search answers the same when either side is first lower-cased. */
  lemma {:induction false} SearchIgnoresCase(hay: string, needle: string)
    ensures ContainsIgnoringCase(Lower(hay), needle) == ContainsIgnoringCase(hay, needle)
    ensures ContainsIgnoringCase(hay, Lower(needle)) == ContainsIgnoringCase(hay, needle)
  {
    LowerIdempotent(hay);
    LowerIdempotent(needle);
  }
}
