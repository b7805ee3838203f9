/**
 * Value wrappers and the string operations of Python's `str` that the
 * pipeline relies on: prefix tests, `join`, `strip`, ASCII case folding and a
 * leftmost case-insensitive substring search.
 */
module Common {

  /** Python's `Optional[T]`: `None` or a present value. */
  datatype Option<T> = None | Some(value: T)

  /** An operation that either returns a value or raises an error. */
  datatype Result<T, E> = Success(value: T) | Failure(error: E)

  /** Python truthiness of an optional string: present and non-empty. */
  predicate Truthy(o: Option<string>)
  {
    o.Some? && o.value != ""
  }

  /** Python truthiness of an optional list: present and non-empty. */
  predicate NonEmpty<T>(o: Option<seq<T>>)
  {
    o.Some? && o.value != []
  }

  /** `s.startswith(prefix)` */
  predicate StartsWith(s: string, prefix: string)
  {
    |prefix| <= |s| && s[..|prefix|] == prefix
  }

  /** `t` occurs in `s` starting at index `i`. */
  predicate OccursAt(s: string, t: string, i: int)
  {
    0 <= i <= |s| - |t| && s[i..i + |t|] == t
  }

  /** `t in s` for strings: `t` occurs in `s` as a contiguous substring. */
  predicate Contains(s: string, t: string)
  {
    exists i :: 0 <= i <= |s| - |t| && OccursAt(s, t, i)
  }

  /** `sep.join(xs)` */
  function Join(xs: seq<string>, sep: string): string
  {
    if xs == [] then ""
    else if |xs| == 1 then xs[0]
    else xs[0] + sep + Join(xs[1..], sep)
  }

  /** Every element of a join occurs in it. */
  lemma {:induction false} JoinContains(xs: seq<string>, sep: string, k: nat)
    requires k < |xs|
    ensures Contains(Join(xs, sep), xs[k])
  {
    if |xs| == 1 {
      assert OccursAt(Join(xs, sep), xs[0], 0);
    } else if k == 0 {
      var rest := Join(xs[1..], sep);
      assert Join(xs, sep) == xs[0] + (sep + rest);
      assert (xs[0] + (sep + rest))[0..|xs[0]|] == xs[0];
      assert OccursAt(Join(xs, sep), xs[0], 0);
    } else {
      JoinContains(xs[1..], sep, k - 1);
      var rest := Join(xs[1..], sep);
      assert xs[1..][k - 1] == xs[k];
      var i :| 0 <= i <= |rest| - |xs[k]| && OccursAt(rest, xs[k], i);
      var pre := xs[0] + sep;
      assert Join(xs, sep) == pre + rest;
      assert (pre + rest)[|pre| + i..|pre| + i + |xs[k]|] == rest[i..i + |xs[k]|];
      assert OccursAt(Join(xs, sep), xs[k], |pre| + i);
    }
  }

  /** A string contained in a part is contained in any concatenation around it. */
  lemma ContainsWithin(a: string, s: string, b: string, t: string)
    requires Contains(s, t)
    ensures Contains(a + s + b, t)
  {
    var i :| 0 <= i <= |s| - |t| && OccursAt(s, t, i);
    assert (a + s + b)[|a| + i..|a| + i + |t|] == s[i..i + |t|];
    assert OccursAt(a + s + b, t, |a| + i);
  }

  /** A substring of `s` is a substring of `s` followed by anything. */
  lemma ContainsAppend(s: string, b: string, c: string, t: string)
    requires Contains(s, t)
    ensures Contains(s + b + c, t)
  {
    var i :| 0 <= i <= |s| - |t| && OccursAt(s, t, i);
    assert (s + b + c)[i..i + |t|] == s[i..i + |t|];
    assert OccursAt(s + b + c, t, i);
  }

  /** Python's `str.isspace()` for one character (Unicode White_Space with
      the bidirectional classes B, S and WS, plus the separators U+001C..U+001F). */
  predicate IsSpace(c: char)
  {
    var n := c as int;
    n == 0x20 || 0x09 <= n <= 0x0D || 0x1C <= n <= 0x1F || n == 0x85 || n == 0xA0
    || n == 0x1680 || 0x2000 <= n <= 0x200A || n == 0x2028 || n == 0x2029
    || n == 0x202F || n == 0x205F || n == 0x3000
  }

  /** `s.lstrip()`: drop leading whitespace. */
  function StripLeft(s: string): string
  {
    if s != [] && IsSpace(s[0]) then StripLeft(s[1..]) else s
  }

  /** `s.rstrip()`: drop trailing whitespace. */
  function StripRight(s: string): string
  {
    if s != [] && IsSpace(s[|s| - 1]) then StripRight(s[..|s| - 1]) else s
  }

  /** `s.strip()`: drop whitespace at both ends. */
  function Strip(s: string): string
  {
    StripRight(StripLeft(s))
  }

  /** `lstrip` leaves the suffix of `s` that follows its leading whitespace. */
  lemma {:induction false} StripLeftSpec(s: string)
    ensures var r := StripLeft(s);
      && |r| <= |s| && r == s[|s| - |r|..]
      && (forall k :: 0 <= k < |s| - |r| ==> IsSpace(s[k]))
      && (r == [] || !IsSpace(r[0]))
  {
    if s != [] && IsSpace(s[0]) {
      var t := s[1..];
      StripLeftSpec(t);
      var r := StripLeft(t);
      assert r == s[|s| - |r|..];
      forall k | 0 < k < |s| - |r| ensures IsSpace(s[k]) {
        assert s[k] == t[k - 1];
      }
    }
  }

  /** `rstrip` leaves the prefix of `s` that precedes its trailing whitespace. */
  lemma {:induction false} StripRightSpec(s: string)
    ensures var r := StripRight(s);
      && |r| <= |s| && r == s[..|r|]
      && (forall k :: |r| <= k < |s| ==> IsSpace(s[k]))
      && (r == [] || !IsSpace(r[|r| - 1]))
  {
    if s != [] && IsSpace(s[|s| - 1]) {
      StripRightSpec(s[..|s| - 1]);
    }
  }

  /** `strip` leaves the longest slice of `s` that neither starts nor ends with
      whitespace: everything cut off on either side is whitespace. */
  lemma StripSpec(s: string)
    ensures var r := Strip(s); var i := |s| - |StripLeft(s)|;
      && 0 <= i && i + |r| <= |s| && r == s[i..i + |r|]
      && (forall k :: 0 <= k < i ==> IsSpace(s[k]))
      && (forall k :: i + |r| <= k < |s| ==> IsSpace(s[k]))
      && (r == [] || (!IsSpace(r[0]) && !IsSpace(r[|r| - 1])))
  {
    StripSlice(s);
    StripEnds(s);
  }

  /** What `strip` cuts off on either side is whitespace. */
  lemma StripSlice(s: string)
    ensures var r := Strip(s); var i := |s| - |StripLeft(s)|;
      && 0 <= i && i + |r| <= |s| && r == s[i..i + |r|]
      && (forall k :: 0 <= k < i ==> IsSpace(s[k]))
      && (forall k :: i + |r| <= k < |s| ==> IsSpace(s[k]))
  {
    var l := StripLeft(s);
    var r := StripRight(l);
    var i := |s| - |l|;
    assert 0 <= i && l == s[i..] && (forall k :: 0 <= k < i ==> IsSpace(s[k])) by {
      StripLeftSpec(s);
    }
    assert |r| <= |l| && r == l[..|r|] && (forall k :: |r| <= k < |l| ==> IsSpace(l[k])) by {
      StripRightSpec(l);
    }
    SuffixPrefix(s, i, |r|);
    SpacesShift(s, i, |r|);
  }

  /** What `strip` leaves neither starts nor ends with whitespace. */
  lemma StripEnds(s: string)
    ensures var r := Strip(s); r == [] || (!IsSpace(r[0]) && !IsSpace(r[|r| - 1]))
  {
    var l := StripLeft(s);
    var r := StripRight(l);
    assert l == [] || !IsSpace(l[0]) by {
      StripLeftSpec(s);
    }
    assert r == l[..|r|] && (r == [] || !IsSpace(r[|r| - 1])) by {
      StripRightSpec(l);
    }
    if r != [] {
      assert r[0] == l[0];
    }
  }

  lemma SuffixPrefix(s: string, i: nat, n: nat)
    requires i + n <= |s|
    ensures s[i..][..n] == s[i..i + n]
  {
  }

  /** Whitespace from offset `n` of the suffix `s[i..]` on is whitespace from
      offset `i + n` of `s` on. */
  lemma SpacesShift(s: string, i: nat, n: nat)
    requires i + n <= |s|
    requires forall k :: n <= k < |s| - i ==> IsSpace(s[i..][k])
    ensures forall k :: i + n <= k < |s| ==> IsSpace(s[k])
  {
    forall k | i + n <= k < |s| ensures IsSpace(s[k]) {
      assert s[k] == s[i..][k - i];
    }
  }

  /** ASCII lower-casing of one character; other characters are unchanged. */
  function LowerAscii(c: char): char
  {
    if 'A' <= c <= 'Z' then (c as int + 32) as char else c
  }

  /** ASCII upper-casing of one character; other characters are unchanged. */
  function UpperAscii(c: char): char
  {
    if 'a' <= c <= 'z' then (c as int - 32) as char else c
  }

  /** The character a case-insensitive regular expression compares when the
      pattern is ASCII: the simple lower-case mapping where it lands on an
      ASCII letter (`A`-`Z`, U+0130 and the Kelvin sign U+212A), and the two
      extra equivalences Python's `re` adds (dotless `ı` with `i`, long `ſ`
      with `s`); every other character stands for itself. */
  function FoldCase(c: char): char
  {
    if 'A' <= c <= 'Z' then (c as int + 32) as char
    else if c == '\U{0130}' || c == '\U{0131}' then 'i'
    else if c == '\U{017F}' then 's'
    else if c == '\U{212A}' then 'k'
    else c
  }

  /** `pat` occurs at index `i` of `text`, comparing characters without case
      one by one from the left. */
  predicate MatchesAt(text: string, i: int, pat: string)
    decreases |pat|
  {
    0 <= i && i + |pat| <= |text|
    && (pat == [] || (FoldCase(text[i]) == FoldCase(pat[0]) && MatchesAt(text, i + 1, pat[1..])))
  }

  /** Matching at `i` is agreement of every character of `pat`, after case
      folding, with the character of `text` it lies over. */
  lemma {:induction false} MatchesAtSpec(text: string, i: int, pat: string)
    ensures MatchesAt(text, i, pat) <==>
      0 <= i && i + |pat| <= |text| && forall k :: 0 <= k < |pat| ==> FoldCase(text[i + k]) == FoldCase(pat[k])
    decreases |pat|
  {
    if pat != [] && 0 <= i && i + |pat| <= |text| {
      MatchesAtSpec(text, i + 1, pat[1..]);
      if forall k :: 0 <= k < |pat| ==> FoldCase(text[i + k]) == FoldCase(pat[k]) {
        forall k | 0 <= k < |pat| - 1 ensures FoldCase(text[i + 1 + k]) == FoldCase(pat[1..][k]) {
          assert FoldCase(text[i + (k + 1)]) == FoldCase(pat[k + 1]);
        }
      }
    }
  }

  /** The leftmost index at or after `from` where `pat` matches case-insensitively. */
  function FindFrom(text: string, pat: string, from: nat): (r: Option<nat>)
    ensures r.Some? ==>
      from <= r.value && MatchesAt(text, r.value, pat)
      && forall k :: from <= k < r.value ==> !MatchesAt(text, k, pat)
    ensures r.None? ==> forall k :: from <= k ==> !MatchesAt(text, k, pat)
    decreases |text| - from
  {
    if from + |pat| > |text| then None
    else if MatchesAt(text, from, pat) then Some(from)
    else FindFrom(text, pat, from + 1)
  }
}
