/**
 Text helpers the renderer relies on: JavaScript's `String.prototype.split`
 on a single character, `Array.prototype.join`, `indexOf` used as a
 containment test, and the renderer's own `trim`.
 */
module Strings {

  /** `Array.prototype.join(sep)`: the parts with `sep` between neighbours. */
  function Join(parts: seq<string>, sep: string): string
  {
    if |parts| == 0 then ""
    else if |parts| == 1 then parts[0]
    else parts[0] + sep + Join(parts[1..], sep)
  }

  /** `n` copies of `s`, one after another. */
  function Repeat(s: string, n: nat): string
  {
    if n == 0 then "" else s + Repeat(s, n - 1)
  }

  /** `s.split(c)` for a one-character separator: the maximal runs between
      occurrences of `c`; the empty string splits into one empty part. */
  function SplitOn(s: string, c: char): (parts: seq<string>)
    ensures |parts| >= 1
    ensures forall i :: 0 <= i < |parts| ==> c !in parts[i]
    ensures Join(parts, [c]) == s
    decreases |s|
  {
    if |s| == 0 then [""]
    else if s[0] == c then
      var rest := SplitOn(s[1..], c);
      assert s == [c] + s[1..];
      [""] + rest
    else
      var rest := SplitOn(s[1..], c);
      assert s == [s[0]] + s[1..];
      [[s[0]] + rest[0]] + rest[1..]
  }

  /** Splitting a part free of `c` gives that part alone. */
  lemma {:induction false} SplitOnFree(a: string, c: char)
    requires c !in a
    ensures SplitOn(a, c) == [a]
    decreases |a|
  {
    if |a| > 0 {
      assert c !in a[1..];
      SplitOnFree(a[1..], c);
    }
  }

  /** Splitting `a + [c] + b` with `a` free of `c` peels `a` off as the first part. */
  lemma {:induction false} SplitOnPeel(a: string, b: string, c: char)
    requires c !in a
    ensures SplitOn(a + [c] + b, c) == [a] + SplitOn(b, c)
    decreases |a|
  {
    if |a| == 0 {
      assert a + [c] + b == [c] + b;
      assert ([c] + b)[1..] == b;
    } else {
      assert (a + [c] + b)[0] == a[0];
      assert (a + [c] + b)[1..] == a[1..] + [c] + b;
      assert c !in a[1..];
      SplitOnPeel(a[1..], b, c);
      assert [a[0]] + a[1..] == a;
    }
  }

  /** The converse round trip: joining parts free of `c` with `c` and
      splitting again gives back exactly those parts, so the number of
      lines survives a join/split pair. */
  lemma {:induction false} SplitJoin(parts: seq<string>, c: char)
    requires |parts| >= 1
    requires forall i :: 0 <= i < |parts| ==> c !in parts[i]
    ensures SplitOn(Join(parts, [c]), c) == parts
    decreases |parts|
  {
    if |parts| == 1 {
      SplitOnFree(parts[0], c);
    } else {
      assert c !in parts[0];
      SplitJoin(parts[1..], c);
      SplitOnPeel(parts[0], Join(parts[1..], [c]), c);
      assert [parts[0]] + parts[1..] == parts;
    }
  }

  /** `haystack.indexOf(needle) != -1`. */
  predicate Contains(haystack: string, needle: string)
    decreases |haystack|
  {
    needle <= haystack || (|haystack| > 0 && Contains(haystack[1..], needle))
  }

  /** A needle that starts at some position of the text is contained in it. */
  lemma {:induction false} ContainsAt(haystack: string, needle: string, i: nat)
    requires i <= |haystack| && needle <= haystack[i..]
    ensures Contains(haystack, needle)
    decreases i
  {
    if i > 0 {
      assert haystack[1..][i - 1..] == haystack[i..];
      ContainsAt(haystack[1..], needle, i - 1);
    }
  }

  /** `indexOf(needle) != -1` holds exactly when the needle starts at some
      position of the text. */
  lemma {:induction false} ContainsIndex(haystack: string, needle: string)
    ensures Contains(haystack, needle) <==> exists i :: 0 <= i <= |haystack| && needle <= haystack[i..]
    decreases |haystack|
  {
    if exists i :: 0 <= i <= |haystack| && needle <= haystack[i..] {
      var i :| 0 <= i <= |haystack| && needle <= haystack[i..];
      ContainsAt(haystack, needle, i);
    }
    if Contains(haystack, needle) && !(needle <= haystack) {
      ContainsIndex(haystack[1..], needle);
      var j :| 0 <= j <= |haystack[1..]| && needle <= haystack[1..][j..];
      assert haystack[1..][j..] == haystack[j + 1..];
    } else if needle <= haystack {
      assert haystack[0..] == haystack;
    }
  }

  /** A text that contains a non-empty needle contains its first character. */
  lemma {:induction false} ContainsHead(haystack: string, needle: string)
    requires |needle| > 0 && Contains(haystack, needle)
    ensures needle[0] in haystack
    decreases |haystack|
  {
    if !(needle <= haystack) {
      ContainsHead(haystack[1..], needle);
    }
  }

  /** `\s` of ECMAScript 5: white space and line terminators. */
  predicate IsSpace(c: char)
  {
    c == ' ' || c == '\t' || c == '\n' || c == '\r' || c == '\U{000B}' || c == '\U{000C}'
    || c == '\U{00A0}' || c == '\U{1680}' || ('\U{2000}' <= c <= '\U{200A}')
    || c == '\U{2028}' || c == '\U{2029}' || c == '\U{202F}' || c == '\U{205F}'
    || c == '\U{3000}' || c == '\U{FEFF}'
  }

  predicate AllSpace(s: string)
  {
    forall i :: 0 <= i < |s| ==> IsSpace(s[i])
  }

  /** The `^\s*` half of `trim`: the suffix left after the leading white space. */
  function TrimStart(s: string): (r: string)
    ensures |r| <= |s| && r == s[|s| - |r|..]
    ensures AllSpace(s[..|s| - |r|])
    ensures r == [] || !IsSpace(r[0])
    decreases |s|
  {
    if |s| > 0 && IsSpace(s[0]) then
      var r := TrimStart(s[1..]);
      assert s[..|s| - |r|] == [s[0]] + s[1..][..|s| - 1 - |r|];
      assert s[1..][|s| - 1 - |r|..] == s[|s| - |r|..];
      r
    else
      s
  }

  /** The `\s*$` half of `trim`: the prefix left before the trailing white space. */
  function TrimEnd(s: string): (r: string)
    ensures |r| <= |s| && r == s[..|r|]
    ensures AllSpace(s[|r|..])
    ensures r == [] || !IsSpace(r[|r| - 1])
    decreases |s|
  {
    if |s| > 0 && IsSpace(s[|s| - 1]) then TrimEnd(s[..|s| - 1]) else s
  }

  /** `trim(s)`: `s` without its leading and trailing white space; the
      result neither starts nor ends with white space. */
  function Trim(s: string): (r: string)
    ensures r == [] || (!IsSpace(r[0]) && !IsSpace(r[|r| - 1]))
    ensures |r| <= |s|
  {
    TrimEnd(TrimStart(s))
  }

  lemma {:induction false} TrimStartSpaces(p: string, m: string)
    requires AllSpace(p)
    requires m == [] || !IsSpace(m[0])
    ensures TrimStart(p + m) == m
    decreases |p|
  {
    if |p| == 0 {
      assert p + m == m;
    } else {
      assert (p + m)[0] == p[0];
      assert (p + m)[1..] == p[1..] + m;
      TrimStartSpaces(p[1..], m);
    }
  }

  lemma {:induction false} TrimEndSpaces(m: string, q: string)
    requires AllSpace(q)
    requires m == [] || !IsSpace(m[|m| - 1])
    ensures TrimEnd(m + q) == m
    decreases |q|
  {
    if |q| == 0 {
      assert m + q == m;
    } else {
      var k := |m + q| - 1;
      assert (m + q)[k] == q[|q| - 1];
      assert (m + q)[..k] == m + q[..|q| - 1];
      TrimEndSpaces(m, q[..|q| - 1]);
    }
  }

  /** `trim` is characterised by its result: surrounding `m` with white
      space on both sides and trimming gives back exactly `m`, provided `m`
      has none of its own at either end. */
  lemma TrimSurrounded(p: string, m: string, q: string)
    requires AllSpace(p) && AllSpace(q)
    requires m == [] || (!IsSpace(m[0]) && !IsSpace(m[|m| - 1]))
    ensures Trim(p + m + q) == m
  {
    assert p + m + q == p + (m + q);
    if m == [] {
      assert AllSpace(p + q);
      assert p + m + q == (p + q) + [];
      TrimStartSpaces(p + q, []);
      assert TrimEnd([]) == [];
    } else {
      assert (m + q)[0] == m[0];
      TrimStartSpaces(p, m + q);
      TrimEndSpaces(m, q);
    }
  }

  lemma Regroup(p: string, a: string, m: string, b: string, q: string)
    ensures p + (a + m + b) + q == (p + a) + m + (b + q)
  {
  }

  lemma AllSpaceConcat(x: string, y: string)
    requires AllSpace(x) && AllSpace(y)
    ensures AllSpace(x + y)
  {
  }

  /** `trim` removes only white space, and only at the two ends: `s` is the
      trimmed text with a run of white space on either side. */
  lemma TrimSplit(s: string) returns (a: string, b: string)
    ensures s == a + Trim(s) + b
    ensures AllSpace(a) && AllSpace(b)
  {
    var t := TrimStart(s);
    var m := TrimEnd(t);
    a, b := s[..|s| - |t|], t[|m|..];
    SliceThree(s, t, m);
  }

  lemma SliceThree(s: string, t: string, m: string)
    requires |t| <= |s| && t == s[|s| - |t|..]
    requires |m| <= |t| && m == t[..|m|]
    ensures s == s[..|s| - |t|] + m + t[|m|..]
  {
    assert s == s[..|s| - |t|] + t;
    assert t == m + t[|m|..];
  }

  /** White space added around a name is removed again by `trim`. */
  lemma TrimPadded(p: string, s: string, q: string)
    requires AllSpace(p) && AllSpace(q)
    ensures Trim(p + s + q) == Trim(s)
  {
    var m := Trim(s);
    var a, b := TrimSplit(s);
    AllSpaceConcat(p, a);
    AllSpaceConcat(b, q);
    Regroup(p, a, m, b, q);
    TrimSurrounded(p + a, m, b + q);
  }

  /** Trimming twice is trimming once. */
  lemma TrimIdempotent(s: string)
    ensures Trim(Trim(s)) == Trim(s)
  {
    TrimUnpadded(Trim(s));
  }

  /** Text without white space at either end is left as it is by `trim`. */
  lemma TrimUnpadded(m: string)
    requires m == [] || (!IsSpace(m[0]) && !IsSpace(m[|m| - 1]))
    ensures Trim(m) == m
  {
    assert [] + m == m;
    TrimStartSpaces([], m);
    assert m + [] == m;
    TrimEndSpaces(m, []);
  }
}
