/**
 * The pieces of Python's `posixpath` and `str` that the watched-directory code
 * relies on: `rfind` (behind `split` and `splitext`), `os.path.split`, `basename`, `dirname`,
 * `splitext`, `join`, `str.lower`, `str.split` and the substring test `in`.
 * Each is written as the library computes it, and its contract says what the
 * result means.
 */
module PosixPath {
  import opened Sequences

  /** `s.rfind(c)`: the index of the last `c` in `s`, or -1. */
  function RFind(s: string, c: char): (r: int)
    ensures -1 <= r < |s|
    ensures r >= 0 ==> s[r] == c
    ensures forall k :: r < k < |s| ==> s[k] != c
  {
    if s == [] then -1
    else if s[|s| - 1] == c then |s| - 1
    else RFind(s[..|s| - 1], c)
  }

  /** The last `c` in `s` sits at `i` when `s[i]` is `c` and nothing after it is. */
  lemma RFindAt(s: string, c: char, i: int)
    requires 0 <= i < |s| && s[i] == c
    requires forall k :: i < k < |s| ==> s[k] != c
    ensures RFind(s, c) == i
  {
  }

  /** `os.path.basename(p)`: the text after the last '/'. */
  function Basename(p: string): (r: string)
    ensures '/' !in r && |r| <= |p|
    ensures |r| < |p| ==> p[|p| - |r| - 1] == '/'
  {
    var i := RFind(p, '/');
    if i < 0 then p else p[i + 1..]
  }

  /** The basename is a suffix of the path. */
  lemma BasenameSuffix(p: string)
    ensures p[..|p| - |Basename(p)|] + Basename(p) == p
  {
    var i := RFind(p, '/');
    if i >= 0 {
      assert p[..i + 1] + p[i + 1..] == p;
    }
  }

  /** The three facts of Basename's contract determine it: it is the longest
      suffix of `p` without a '/'. */
  lemma {:induction false} BasenameUnique(p: string, t: string)
    requires '/' !in t
    requires |t| <= |p| && p[..|p| - |t|] + t == p
    requires |t| < |p| ==> p[|p| - |t| - 1] == '/'
    ensures Basename(p) == t
  {
  }

  predicate AllSlashes(s: string) {
    forall k :: 0 <= k < |s| ==> s[k] == '/'
  }

  /** `s.rstrip('/')`. */
  function RStripSlashes(s: string): (r: string)
    ensures |r| <= |s| && forall k :: 0 <= k < |r| ==> r[k] == s[k]
    ensures r == [] || r[|r| - 1] != '/'
    ensures forall k :: |r| <= k < |s| ==> s[k] == '/'
  {
    if s != [] && s[|s| - 1] == '/' then RStripSlashes(s[..|s| - 1]) else s
  }

  /** `os.path.split(p)`: (head, tail). The tail is the basename; the head is
      everything before it, with its trailing slashes removed unless the head
      consists of slashes only. */
  function Split(p: string): (r: (string, string))
    ensures r.1 == Basename(p)
    ensures |r.0| + |r.1| <= |p| && forall k :: 0 <= k < |r.0| ==> r.0[k] == p[k]
    ensures forall k :: |r.0| <= k < |p| - |r.1| ==> p[k] == '/'
    ensures r.0 == [] || r.0[|r.0| - 1] != '/' || AllSlashes(r.0)
    ensures AllSlashes(p[..|p| - |r.1|]) ==> r.0 == p[..|p| - |r.1|]
  {
    var i := RFind(p, '/') + 1;
    var head := p[..i];
    var h := if head != [] && !AllSlashes(head) then RStripSlashes(head) else head;
    assert |Basename(p)| == |p| - i;
    assert forall k :: 0 <= k < i ==> head[k] == p[k];
    (h, Basename(p))
  }

  /** `os.path.dirname(p)`: the head of `os.path.split(p)`. */
  function Dirname(p: string): string {
    Split(p).0
  }

  /** Some character in `p[lo..hi]` is not a dot. */
  predicate HasNonDot(p: string, lo: int, hi: int)
    requires 0 <= lo <= hi <= |p|
  {
    exists k :: lo <= k < hi && p[k] != '.'
  }

  /** `os.path.splitext(p)` on POSIX: the extension runs from the last '.' of
      the last path component to the end, and is empty when that component has
      no dot or only leading dots before it (".bashrc" has no extension). */
  function SplitExt(p: string): (r: (string, string))
    ensures r.0 + r.1 == p
    ensures r.1 == [] || (r.1[0] == '.' && '.' !in r.1[1..] && '/' !in r.1)
    ensures r.1 != [] ==> exists k :: 0 <= k < |r.0| && r.0[k] != '.' && '/' !in r.0[k..]
    ensures r.1 == [] ==> forall k :: RFind(p, '/') < k < |p| && p[k] == '.' ==> !HasNonDot(p, RFind(p, '/') + 1, k)
  {
    var sep := RFind(p, '/');
    var dot := RFind(p, '.');
    if dot > sep && HasNonDot(p, sep + 1, dot) then (p[..dot], p[dot..]) else (p, [])
  }

  /** ASCII `str.lower()` of one character. */
  function LowerChar(c: char): char {
    if 'A' <= c <= 'Z' then (c as int + 32) as char else c
  }

  /** `s.lower()`, for ASCII letters. */
  function Lower(s: string): string {
    seq(|s|, k requires 0 <= k < |s| => LowerChar(s[k]))
  }

  /** `needle` occurs in `hay` starting at index `i`. */
  predicate OccursAt(needle: string, hay: string, i: int) {
    0 <= i && i + |needle| <= |hay| && hay[i..i + |needle|] == needle
  }

  /** The search behind `needle in hay`, from index `i` on. */
  function ContainsFrom(hay: string, needle: string, i: nat): (r: bool)
    ensures r <==> exists j :: i <= j && OccursAt(needle, hay, j)
    decreases |hay| - i
  {
    if i + |needle| > |hay| then false
    else OccursAt(needle, hay, i) || ContainsFrom(hay, needle, i + 1)
  }

  /** `needle in hay` for two strings: a substring test. */
  function Contains(hay: string, needle: string): (r: bool)
    ensures r <==> exists j :: OccursAt(needle, hay, j)
  {
    ContainsFrom(hay, needle, 0)
  }

  /** `sep.join(parts)` for a one-character separator. */
  function JoinWith(parts: seq<string>, sep: char): string {
    if parts == [] then []
    else if |parts| == 1 then parts[0]
    else parts[0] + [sep] + JoinWith(parts[1..], sep)
  }

  /** `s.split(sep)`: the pieces between separators, empty ones included;
      joining them back with `sep` gives `s`. */
  function SplitOn(s: string, sep: char): (parts: seq<string>)
    ensures |parts| >= 1
    ensures forall k :: 0 <= k < |parts| ==> sep !in parts[k]
    ensures JoinWith(parts, sep) == s
    decreases |s|
  {
    var i := FirstIndex(s, sep);
    if i < 0 then [s]
    else
      var rest := SplitOn(s[i + 1..], sep);
      SplitOnCons(s, i, sep, rest);
      [s[..i]] + rest
  }

  /** Cutting `s` at its first separator, at `i`: the piece before it,
      followed by pieces without separators that join back to the text after
      it, are pieces without separators that join back to `s`. */
  lemma SplitOnCons(s: string, i: nat, sep: char, rest: seq<string>)
    requires i < |s| && s[i] == sep && forall k :: 0 <= k < i ==> s[k] != sep
    requires |rest| >= 1 && forall k :: 0 <= k < |rest| ==> sep !in rest[k]
    requires JoinWith(rest, sep) == s[i + 1..]
    ensures var parts := [s[..i]] + rest;
            && (forall k :: 0 <= k < |parts| ==> sep !in parts[k])
            && JoinWith(parts, sep) == s
  {
    var parts := [s[..i]] + rest;
    assert sep !in s[..i];
    assert forall k :: 1 <= k < |parts| ==> parts[k] == rest[k - 1];
    assert parts[0] == s[..i] && parts[1..] == rest;
    assert JoinWith(parts, sep) == s[..i] + [sep] + s[i + 1..];
    assert s[..i] + [sep] + s[i + 1..] == s[..i] + s[i..];
    assert s[..i] + s[i..] == s;
  }

  /** The pieces of `str.split` are the only ones with its contract. */
  lemma {:induction false} SplitOnUnique(s: string, sep: char, parts: seq<string>)
    requires |parts| >= 1
    requires forall k :: 0 <= k < |parts| ==> sep !in parts[k]
    requires JoinWith(parts, sep) == s
    ensures SplitOn(s, sep) == parts
    decreases |s|
  {
    if |parts| == 1 {
      assert s == parts[0];
      assert FirstIndex(s, sep) < 0;
    } else {
      var head := parts[0];
      var rest := JoinWith(parts[1..], sep);
      assert s == (head + [sep]) + rest;
      assert forall k :: 0 <= k < |head| ==> s[k] == head[k];
      FirstIndexAt(s, sep, |head|);
      assert s[..|head|] == head && s[|head| + 1..] == rest;
      SplitOnUnique(rest, sep, parts[1..]);
      assert parts == [head] + parts[1..];
    }
  }

  /** The first piece of `s.split(sep)`: the text before the first `sep`. */
  lemma SplitOnHead(s: string, sep: char)
    ensures var h := SplitOn(s, sep)[0];
            sep !in h && h == s[..|h|] && (|h| == |s| || s[|h|] == sep)
  {
  }

  /** `os.path.join(a, b)`: an absolute `b` replaces `a`; otherwise a '/' is
      inserted unless `a` is empty or already ends with one. */
  function Join(a: string, b: string): string {
    if b != [] && b[0] == '/' then b
    else if a == [] then b
    else if a[|a| - 1] == '/' then a + b
    else a + "/" + b
  }

  /** Joining a directory and a plain file name gives back that name as the
      basename (the scan relies on this for the names it records). */
  lemma BasenameOfJoin(a: string, b: string)
    requires '/' !in b
    ensures Basename(Join(a, b)) == b
  {
    var p := Join(a, b);
    assert b != [] ==> b[0] != '/' by {
      if b != [] { assert b[0] in b; }
    }
    if a == [] {
      assert p[..0] + b == p;
    } else if a[|a| - 1] == '/' {
      assert p == a + b && p[..|a|] == a;
    } else {
      assert p == (a + "/") + b && p[..|a| + 1] == a + "/";
      assert p[|a|] == '/';
    }
    BasenameUnique(p, b);
  }

  /** The number a string of decimal digits spells, most significant first. */
  function DigitsValue(s: string): int {
    if s == [] then 0 else DigitsValue(s[..|s| - 1]) * 10 + (s[|s| - 1] as int - '0' as int)
  }

  /** Every character is a decimal digit. */
  predicate AllDigits(s: string) {
    forall k :: 0 <= k < |s| ==> '0' <= s[k] <= '9'
  }

  /** The form `str` gives a natural number: digits only, and no leading
      zero unless the number is 0 itself. */
  predicate Canonical(s: string) {
    s != [] && AllDigits(s) && (|s| > 1 ==> s[0] != '0')
  }

  /** Decimal digits of a natural number, most significant first (`str(n)`):
      they spell `n`, with no leading zero. */
  function NatToString(n: nat): (r: string)
    ensures Canonical(r)
    ensures DigitsValue(r) == n
    ensures n > 0 ==> r[0] != '0'
    ensures n == 0 ==> r == "0"
    decreases n
  {
    var d := [(('0' as int) + n % 10) as char];
    if n < 10 then d
    else
      var prefix := NatToString(n / 10);
      assert (prefix + d)[..|prefix + d| - 1] == prefix;
      prefix + d
  }

  /** `str(i)` for an integer: a leading '-' when negative, then the digits
      of its magnitude, with no leading zero. */
  function IntToString(i: int): (r: string)
    ensures r != [] && '/' !in r
    ensures i >= 0 ==> Canonical(r) && DigitsValue(r) == i
    ensures i > 0 ==> r[0] != '0'
    ensures i == 0 ==> r == "0"
    ensures i < 0 ==> |r| >= 2 && r[0] == '-' && Canonical(r[1..]) && r[1] != '0' && DigitsValue(r[1..]) == -i
  {
    if i < 0 then
      var digits := NatToString(-i);
      assert ("-" + digits)[1..] == digits;
      "-" + digits
    else NatToString(i)
  }

  /** A digit string spells a non-negative number, and a string of two or
      more digits that starts with a non-zero digit spells at least 10. */
  lemma {:induction false} DigitsValueBounds(s: string)
    requires AllDigits(s)
    ensures DigitsValue(s) >= 0
    ensures |s| >= 1 && s[0] != '0' ==> DigitsValue(s) >= 1
    ensures |s| >= 2 && s[0] != '0' ==> DigitsValue(s) >= 10
  {
    if s != [] {
      var init := s[..|s| - 1];
      assert AllDigits(init);
      DigitsValueBounds(init);
    }
  }

  /** Two canonical digit strings that spell the same number are equal. */
  lemma {:induction false} CanonicalUnique(s: string, t: string)
    requires Canonical(s) && Canonical(t) && DigitsValue(s) == DigitsValue(t)
    ensures s == t
    decreases |s|
  {
    DigitsValueBounds(s);
    DigitsValueBounds(t);
    if |s| == 1 || |t| == 1 {
      assert |s| == 1 && |t| == 1 by {
        if |s| == 1 { DigitsValueBounds(t); } else { DigitsValueBounds(s); }
      }
    } else {
      var si, ti := s[..|s| - 1], t[..|t| - 1];
      assert AllDigits(si) && AllDigits(ti);
      DigitsValueBounds(si);
      DigitsValueBounds(ti);
      assert si[0] == s[0] && ti[0] == t[0];
      CanonicalUnique(si, ti);
      assert s == si + [s[|s| - 1]] && t == ti + [t[|t| - 1]];
    }
  }

  /** `str(i)` is the only text of its form that spells `i`: a canonical
      digit string for a non-negative number, '-' and one for a negative. */
  lemma IntToStringUnique(i: int, s: string)
    requires i >= 0 ==> Canonical(s) && DigitsValue(s) == i
    requires i < 0 ==> |s| >= 2 && s[0] == '-' && Canonical(s[1..]) && DigitsValue(s[1..]) == -i
    ensures IntToString(i) == s
  {
    var r := IntToString(i);
    if i >= 0 {
      CanonicalUnique(r, s);
    } else {
      CanonicalUnique(r[1..], s[1..]);
      assert r == [r[0]] + r[1..] && s == [s[0]] + s[1..];
    }
  }
}
