/** The pieces of Python's string and path library that the backend relies on,
    written out with CPython's semantics. */
module PyText {

  /** `c.isspace()`: the characters that `str.strip()` removes by default. */
  predicate IsSpace(c: char) {
    || ('\t' <= c <= '\r')
    || ('\U{1c}' <= c <= '\U{1f}')
    || c == ' '
    || c == '\U{85}'
    || c == '\U{a0}'
    || c == '\U{1680}'
    || ('\U{2000}' <= c <= '\U{200a}')
    || c == '\U{2028}'
    || c == '\U{2029}'
    || c == '\U{202f}'
    || c == '\U{205f}'
    || c == '\U{3000}'
  }

  /** `not s.strip()`: the string is empty or whitespace only. */
  predicate IsBlank(s: string) {
    forall i | 0 <= i < |s| :: IsSpace(s[i])
  }

  /** `c.lower()` for an ASCII letter; every other character is kept. */
  function LowerChar(c: char): char {
    if 'A' <= c <= 'Z' then (c as int + 32) as char else c
  }

  /** `s.lower()`, per character as LowerChar. */
  function Lower(s: string): (r: string)
    ensures |r| == |s|
    ensures forall i :: 0 <= i < |s| ==> r[i] == LowerChar(s[i])
  {
    seq(|s|, i requires 0 <= i < |s| => LowerChar(s[i]))
  }

  /** Lower-casing leaves a string without upper-case ASCII letters as it is. */
  lemma LowerIdentity(s: string)
    requires forall i :: 0 <= i < |s| ==> !('A' <= s[i] <= 'Z')
    ensures Lower(s) == s
  {
  }

  /** The last index k with lo <= k < hi and s[k] == c, or -1. */
  function LastIndexIn(s: string, c: char, lo: nat, hi: nat): (r: int)
    requires hi <= |s|
    ensures r == -1 || (lo <= r < hi && s[r] == c)
    ensures r == -1 ==> forall k :: lo <= k < hi ==> s[k] != c
    ensures r != -1 ==> forall k :: r < k < hi ==> s[k] != c
    decreases hi
  {
    if hi <= lo then -1
    else if s[hi - 1] == c then hi - 1
    else LastIndexIn(s, c, lo, hi - 1)
  }

  /** `s.rfind(c)`: the last occurrence of c in s, or -1. */
  function LastIndex(s: string, c: char): (r: int)
    ensures -1 <= r < |s|
    ensures r == -1 <==> c !in s
    ensures r != -1 ==> s[r] == c && forall k :: r < k < |s| ==> s[k] != c
  {
    LastIndexIn(s, c, 0, |s|)
  }

  /** How CPython adjusts a slice bound, or an rfind bound, against a string of
      length n: a negative bound counts from the end, and the result is clamped
      to [0, n]. */
  function SliceBound(i: int, n: nat): (r: nat)
    ensures r <= n
    ensures 0 <= i <= n ==> r == i
    ensures i < 0 ==> r == if i + n < 0 then 0 else i + n
    ensures i > n ==> r == n
  {
    if i < 0 then (if i + n < 0 then 0 else i + n)
    else if i > n then n
    else i
  }

  /** `s[i:j]`, negative and out-of-range bounds included. */
  function Slice(s: string, i: int, j: int): string {
    var lo := SliceBound(i, |s|);
    var hi := SliceBound(j, |s|);
    if lo < hi then s[lo..hi] else []
  }

  /** `s[i:]`. */
  function SliceFrom(s: string, i: int): string {
    s[SliceBound(i, |s|)..]
  }

  /** `s.rfind(c, start, end)`: CPython adjusts both bounds as for a slice (a start
      beyond the end leaves an empty range either way) and searches [start, end). */
  function RFind(s: string, c: char, start: int, end: int): (r: int)
    ensures r == -1 || (SliceBound(start, |s|) <= r < SliceBound(end, |s|) && s[r] == c)
    ensures r == -1 ==> forall k :: SliceBound(start, |s|) <= k < SliceBound(end, |s|) ==> s[k] != c
    ensures r != -1 ==> forall k :: r < k < SliceBound(end, |s|) ==> s[k] != c
  {
    LastIndexIn(s, c, SliceBound(start, |s|), SliceBound(end, |s|))
  }

  /** `posixpath.splitext(p)`: the extension runs from the last '.' of the last
      path component, provided some character before that '.' in the component
      is not a '.' (so ".bashrc" has no extension). */
  function SplitExt(p: string): (r: (string, string))
    ensures r.0 + r.1 == p
    ensures r.1 == [] || (r.1[0] == '.' && '.' !in r.1[1..] && '/' !in r.1)
  {
    var sep := LastIndex(p, '/');
    var dot := LastIndex(p, '.');
    if dot > sep && exists k :: sep + 1 <= k < dot && p[k] != '.' then
      assert p[..dot] + p[dot..] == p;
      assert forall k :: dot < k < |p| ==> p[k] != '.';
      (p[..dot], p[dot..])
    else
      (p, [])
  }

  /** `posixpath.join(a, b)`. */
  function PathJoin(a: string, b: string): string {
    if |b| > 0 && b[0] == '/' then b
    else if a == [] || a[|a| - 1] == '/' then a + b
    else a + "/" + b
  }

  /** `s` ends with `suffix`. */
  predicate EndsWith(s: string, suffix: string) {
    |suffix| <= |s| && s[|s| - |suffix|..] == suffix
  }

  /** A joined path ends with its second part. */
  lemma PathJoinEndsWith(a: string, b: string)
    ensures EndsWith(PathJoin(a, b), b)
  {
    if !(|b| > 0 && b[0] == '/') && !(a == [] || a[|a| - 1] == '/') {
      assert PathJoin(a, b) == (a + "/") + b;
    }
  }

  /** `sep.join(parts)`. */
  function Join(sep: string, parts: seq<string>): string
    decreases |parts|
  {
    if |parts| == 0 then []
    else if |parts| == 1 then parts[0]
    else parts[0] + sep + Join(sep, parts[1..])
  }

  /** `str(n)` for an int. */
  function IntToString(n: int): string {
    if n < 0 then "-" + NatToString(-n) else NatToString(n)
  }

  function NatToString(n: nat): (r: string)
    ensures r != []
    decreases n
  {
    var digit := ['0' + (n % 10) as char];
    if n < 10 then digit else NatToString(n / 10) + digit
  }

  /** The last occurrence in a concatenation is in the right part if there is
      one there, otherwise in the left part. */
  lemma LastIndexConcat(a: string, b: string, c: char)
    ensures LastIndex(a + b, c) == if c in b then |a| + LastIndex(b, c) else LastIndex(a, c)
  {
    var r := LastIndex(a + b, c);
    if c in b {
      var k := LastIndex(b, c);
      assert (a + b)[|a| + k] == c;
      assert forall j :: |a| + k < j < |a + b| ==> (a + b)[j] == b[j - |a|];
    } else {
      assert forall j :: |a| <= j < |a + b| ==> (a + b)[j] == b[j - |a|];
      assert forall j :: 0 <= j < |a| ==> (a + b)[j] == a[j];
      if c in a {
        var k := LastIndex(a, c);
        assert (a + b)[k] == c;
      }
    }
  }

  /** splitext finds no extension when the last '.' is not after the last '/'. */
  lemma SplitExtNone(p: string)
    requires LastIndex(p, '.') <= LastIndex(p, '/')
    ensures SplitExt(p).1 == []
  {
  }

  /** splitext's extension starts at the last '.' when it follows the last '/'
      and the character right after that '/' is not a '.'. */
  lemma SplitExtAt(p: string, sep: int, dot: int)
    requires LastIndex(p, '/') == sep && LastIndex(p, '.') == dot
    requires sep + 1 < dot && p[sep + 1] != '.'
    ensures SplitExt(p).1 == p[dot..]
  {
  }

  /** A directory prefix as posixpath.join leaves it: empty or ending in '/'. */
  predicate DirPrefix(pre: string) {
    pre == [] || pre[|pre| - 1] == '/'
  }

  /** A file name stem with no '.' and no '/'. */
  predicate PlainStem(stem: string) {
    stem != [] && '.' !in stem && '/' !in stem
  }

  /** A value splitext can return as an extension. */
  predicate ExtShaped(e: string) {
    e == [] || (e[0] == '.' && '.' !in e[1..] && '/' !in e)
  }

  lemma NameHasNoSlash(stem: string, e: string)
    requires PlainStem(stem) && ExtShaped(e)
    ensures '/' !in stem + e
  {
    assert forall j :: 0 <= j < |stem + e| ==> (stem + e)[j] == if j < |stem| then stem[j] else e[j - |stem|];
  }

  lemma LastSlashEndsPrefix(pre: string, name: string)
    requires DirPrefix(pre) && '/' !in name
    ensures LastIndex(pre + name, '/') == |pre| - 1
  {
    LastIndexConcat(pre, name, '/');
  }

  lemma LastDotStartsExtension(pre: string, stem: string, e: string)
    requires PlainStem(stem) && ExtShaped(e) && e != []
    ensures LastIndex(pre + (stem + e), '.') == |pre| + |stem|
  {
    LastIndexConcat(stem, e, '.');
    assert LastIndex(e, '.') == 0 by {
      assert forall j :: 0 < j < |e| ==> e[j] == e[1..][j - 1];
    }
    LastIndexConcat(pre, stem + e, '.');
  }

  /** splitext of `pre + stem + e` gives back exactly the extension `e`. */
  lemma SplitExtOfName(pre: string, stem: string, e: string)
    requires DirPrefix(pre) && PlainStem(stem) && ExtShaped(e)
    ensures SplitExt(pre + (stem + e)).1 == e
  {
    var p := pre + (stem + e);
    NameHasNoSlash(stem, e);
    LastSlashEndsPrefix(pre, stem + e);
    if e == [] {
      assert stem + e == stem;
      LastIndexConcat(pre, stem, '.');
      SplitExtNone(p);
    } else {
      LastDotStartsExtension(pre, stem, e);
      assert p[|pre|] == stem[0];
      assert p[|pre| + |stem|..] == e;
      SplitExtAt(p, |pre| - 1, |pre| + |stem|);
    }
  }
}
