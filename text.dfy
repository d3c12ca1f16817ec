/** The few string operations of Python's `str` that the scraper relies on. */
module Text {
  import opened Seqs

  /** `c.lower()` for ASCII letters; every other character is left alone. */
  function ToLowerChar(c: char): char {
    if 'A' <= c <= 'Z' then (c as int + 32) as char else c
  }

  /** `s.lower()`, character by character. */
  function Lower(s: string): string {
    if s == [] then [] else [ToLowerChar(s[0])] + Lower(s[1..])
  }

  /** Lower-casing keeps the length and lower-cases each character in place. */
  lemma {:induction false} LowerAt(s: string)
    ensures |Lower(s)| == |s|
    ensures forall i :: 0 <= i < |s| ==> Lower(s)[i] == ToLowerChar(s[i])
  {
    if s != [] {
      LowerAt(s[1..]);
    }
  }

  /** No character of `s` is an upper-case ASCII letter. */
  predicate NoUpper(s: string) {
    forall i :: 0 <= i < |s| ==> !('A' <= s[i] <= 'Z')
  }

  /** A string without upper-case ASCII letters is its own lower-case form. */
  lemma {:induction false} LowerFixed(s: string)
    requires NoUpper(s)
    ensures Lower(s) == s
  {
    if s != [] {
      assert NoUpper(s[1..]) by {
        forall i | 0 <= i < |s| - 1
          ensures !('A' <= s[1..][i] <= 'Z')
        {
          assert s[1..][i] == s[i + 1];
        }
      }
      LowerFixed(s[1..]);
    }
  }

  /** Lower-casing twice is lower-casing once. */
  lemma LowerIdempotent(s: string)
    ensures Lower(Lower(s)) == Lower(s)
  {
    LowerAt(s);
    LowerFixed(Lower(s));
  }

  /** `s.startswith(p)` */
  predicate StartsWith(s: string, p: string) {
    p <= s
  }

  /** `s.endswith(p)` */
  predicate EndsWith(s: string, p: string) {
    |p| <= |s| && s[|s| - |p|..] == p
  }

  /** Python's `needle in haystack` for strings. */
  predicate IsSubstring(needle: string, haystack: string)
    decreases |haystack|
  {
    needle <= haystack || (|haystack| > 0 && IsSubstring(needle, haystack[1..]))
  }

  /** `needle` occurs in `haystack` starting at position `i`. */
  predicate OccursAt(needle: string, haystack: string, i: int) {
    0 <= i <= |haystack| - |needle| && haystack[i..i + |needle|] == needle
  }

  /** `IsSubstring` agrees with the positional definition of an occurrence. */
  lemma {:induction false} IsSubstringAt(needle: string, haystack: string)
    ensures IsSubstring(needle, haystack) <==> exists i :: OccursAt(needle, haystack, i)
    decreases |haystack|
  {
    if needle <= haystack {
      assert OccursAt(needle, haystack, 0);
    } else if |haystack| > 0 {
      IsSubstringAt(needle, haystack[1..]);
      if IsSubstring(needle, haystack[1..]) {
        var i :| OccursAt(needle, haystack[1..], i);
        assert haystack[i + 1..i + 1 + |needle|] == haystack[1..][i..i + |needle|];
        assert OccursAt(needle, haystack, i + 1);
      }
      if exists i :: OccursAt(needle, haystack, i) {
        var i :| OccursAt(needle, haystack, i);
        assert i != 0;
        assert haystack[1..][i - 1..i - 1 + |needle|] == haystack[i..i + |needle|];
        assert OccursAt(needle, haystack[1..], i - 1);
      }
    }
  }

  /** When `needle + rest` occurs in `haystack`, so does `needle`. */
  lemma {:induction false} IsSubstringOfLonger(needle: string, rest: string, haystack: string)
    requires IsSubstring(needle + rest, haystack)
    ensures IsSubstring(needle, haystack)
    decreases |haystack|
  {
    if needle + rest <= haystack {
      assert haystack[..|needle|] == (needle + rest)[..|needle|] == needle;
    } else {
      IsSubstringOfLonger(needle, rest, haystack[1..]);
    }
  }

  /** A prefix without the needle's first character adds no occurrence. */
  lemma {:induction false} IsSubstringSkipPrefix(needle: string, p: string, h: string)
    requires needle != [] && needle[0] !in p
    ensures IsSubstring(needle, p + h) <==> IsSubstring(needle, h)
    decreases |p|
  {
    if p == [] {
      assert p + h == h;
    } else {
      assert (p + h)[0] != needle[0];
      assert (p + h)[1..] == p[1..] + h;
      IsSubstringSkipPrefix(needle, p[1..], h);
    }
  }

  /**
   * `s.rsplit(sep, 1)[0]`: the part of `s` before the last `sep`, or all of
   * `s` when `sep` does not occur.
   */
  function RsplitHead(s: string, sep: char): (r: string)
    ensures sep !in s ==> r == s
    ensures sep in s ==> |r| < |s| && s[..|r|] == r && s[|r|] == sep && sep !in s[|r| + 1..]
  {
    if sep !in s then s
    else if s[|s| - 1] == sep then s[..|s| - 1]
    else
      assert s == s[..|s| - 1] + [s[|s| - 1]];
      RsplitHead(s[..|s| - 1], sep)
  }
}
