/** String operations of the Python runtime that the client relies on:
    `str.isspace`, `str.strip()`, `str.rstrip(chars)` and the ordering `<=`
    of `str` (code point by code point, a proper prefix first). */
module Text {

  /** Python's `str.isspace` for one character: the characters that
      `str.strip()` with no argument removes. */
  predicate IsSpace(c: char) {
    var n := c as int;
    (0x09 <= n <= 0x0D) || (0x1C <= n <= 0x20) || n == 0x85 || n == 0xA0 ||
    n == 0x1680 || (0x2000 <= n <= 0x200A) || n == 0x2028 || n == 0x2029 ||
    n == 0x202F || n == 0x205F || n == 0x3000
  }

  /** Removes every leading character that `drop` accepts. */
  function TrimStart(s: string, drop: char -> bool): (r: string)
    ensures |r| <= |s| && r == s[|s| - |r|..]
    ensures forall i :: 0 <= i < |s| - |r| ==> drop(s[i])
    ensures r != [] ==> !drop(r[0])
    decreases |s|
  {
    if s != [] && drop(s[0]) then TrimStart(s[1..], drop) else s
  }

  /** Removes every trailing character that `drop` accepts
      (Python's `s.rstrip(chars)` when `drop` is membership in `chars`). */
  function TrimEnd(s: string, drop: char -> bool): (r: string)
    ensures |r| <= |s| && r == s[..|r|]
    ensures forall i :: |r| <= i < |s| ==> drop(s[i])
    ensures r != [] ==> !drop(r[|r| - 1])
    decreases |s|
  {
    if s != [] && drop(s[|s| - 1]) then TrimEnd(s[..|s| - 1], drop) else s
  }

  /** `r` is `s` with a run of `drop` characters taken off each end. */
  ghost predicate TrimmedFrom(r: string, s: string, drop: char -> bool) {
    exists lo: nat {:trigger s[lo..]} ::
      (lo + |r| <= |s| && r == s[lo..][..|r|] &&
       (forall i :: 0 <= i < lo ==> drop(s[i])) &&
       (forall i :: lo + |r| <= i < |s| ==> drop(s[i])))
  }

  /** Removes the characters that `drop` accepts at both ends. */
  function Trim(s: string, drop: char -> bool): (r: string)
    ensures TrimmedFrom(r, s, drop)
    ensures r != [] ==> !drop(r[0]) && !drop(r[|r| - 1])
    ensures r == [] <==> forall i :: 0 <= i < |s| ==> drop(s[i])
  {
    var left := TrimStart(s, drop);
    var r := TrimEnd(left, drop);
    TrimFacts(s, drop, left, r);
    r
  }

  lemma TrimFacts(s: string, drop: char -> bool, left: string, r: string)
    requires |left| <= |s| && left == s[|s| - |left|..]
    requires |r| <= |left| && r == left[..|r|]
    requires forall i :: 0 <= i < |s| - |left| ==> drop(s[i])
    requires forall i :: |r| <= i < |left| ==> drop(left[i])
    requires left != [] ==> !drop(left[0])
    ensures TrimmedFrom(r, s, drop)
    ensures r != [] ==> !drop(r[0])
    ensures r == [] <==> forall i :: 0 <= i < |s| ==> drop(s[i])
  {
  }

  /** Python's `s.strip()`: whitespace removed at both ends. */
  function Strip(s: string): (r: string)
    ensures TrimmedFrom(r, s, IsSpace)
    ensures r != [] ==> !IsSpace(r[0]) && !IsSpace(r[|r| - 1])
    ensures r == [] <==> forall i :: 0 <= i < |s| ==> IsSpace(s[i])
  {
    Trim(s, IsSpace)
  }

  /** Python's `a <= b` on `str`: lexicographic comparison of code points,
      where a proper prefix comes first. */
  predicate LexLe(a: string, b: string)
    decreases |a|
  {
    a == [] || (b != [] && (a[0] < b[0] || (a[0] == b[0] && LexLe(a[1..], b[1..]))))
  }

  lemma {:induction false} LexLeReflexive(a: string)
    ensures LexLe(a, a)
    decreases |a|
  {
    if a != [] {
      LexLeReflexive(a[1..]);
    }
  }

  lemma {:induction false} LexLeAntisymmetric(a: string, b: string)
    requires LexLe(a, b) && LexLe(b, a)
    ensures a == b
    decreases |a|
  {
    if a != [] {
      LexLeAntisymmetric(a[1..], b[1..]);
      assert a == [a[0]] + a[1..] && b == [b[0]] + b[1..];
    }
  }

  lemma {:induction false} LexLeTransitive(a: string, b: string, c: string)
    requires LexLe(a, b) && LexLe(b, c)
    ensures LexLe(a, c)
    decreases |a|
  {
    if a != [] && a[0] == b[0] && b[0] == c[0] {
      LexLeTransitive(a[1..], b[1..], c[1..]);
    }
  }

  lemma {:induction false} LexLeTotal(a: string, b: string)
    ensures LexLe(a, b) || LexLe(b, a)
    decreases |a|
  {
    if a != [] && b != [] && a[0] == b[0] {
      LexLeTotal(a[1..], b[1..]);
    }
  }

  /** A common prefix does not affect the comparison. */
  lemma {:induction false} LexLeCommonPrefix(p: string, a: string, b: string)
    ensures LexLe(p + a, p + b) == LexLe(a, b)
    decreases |p|
  {
    if p == [] {
      assert p + a == a && p + b == b;
    } else {
      var x, y := p + a, p + b;
      assert x[0] == p[0] == y[0];
      assert x[1..] == p[1..] + a && y[1..] == p[1..] + b;
      LexLeCommonPrefix(p[1..], a, b);
    }
  }
}
