/**
 * The string operations the inventory engine applies to user input:
 * `String.prototype.trim`, `toLowerCase` and `includes`.
 */
module Text {

  /**
   * The characters `trim` removes: the ECMAScript WhiteSpace and LineTerminator
   * code points (tab, vertical tab, form feed, space, no-break space, byte-order
   * mark, the Unicode space separators, line feed, carriage return, and the
   * line and paragraph separators).
   */
  predicate IsWhitespace(c: char) {
    var n := c as int;
    n == 0x09 || n == 0x0A || n == 0x0B || n == 0x0C || n == 0x0D || n == 0x20 ||
    n == 0xA0 || n == 0x1680 || (0x2000 <= n <= 0x200A) || n == 0x2028 || n == 0x2029 ||
    n == 0x202F || n == 0x205F || n == 0x3000 || n == 0xFEFF
  }

  /** Every character of t is whitespace. */
  predicate AllWhitespace(t: string) {
    forall k :: 0 <= k < |t| ==> IsWhitespace(t[k])
  }

  /** Drops leading whitespace: the result is the suffix after the whitespace run. */
  function TrimStart(s: string): (r: string)
    ensures |r| <= |s| && r == s[|s| - |r|..]
    ensures AllWhitespace(s[..|s| - |r|])
    ensures r == [] || !IsWhitespace(r[0])
  {
    if s != [] && IsWhitespace(s[0]) then
      var r := TrimStart(s[1..]);
      assert s[..|s| - |r|] == [s[0]] + s[1..][..|s[1..]| - |r|];
      r
    else s
  }

  /** Drops trailing whitespace: the result is the prefix before the whitespace run. */
  function TrimEnd(s: string): (r: string)
    ensures |r| <= |s| && r == s[..|r|]
    ensures AllWhitespace(s[|r|..])
    ensures r == [] || !IsWhitespace(r[|r| - 1])
  {
    if s != [] && IsWhitespace(s[|s| - 1]) then
      var r := TrimEnd(s[..|s| - 1]);
      assert s[|r|..] == s[..|s| - 1][|r|..] + [s[|s| - 1]];
      r
    else s
  }

  /** `s.trim()`: no whitespace at either end; empty exactly when s is all whitespace. */
  function Trim(s: string): (r: string)
    ensures r == [] || (!IsWhitespace(r[0]) && !IsWhitespace(r[|r| - 1]))
    ensures r == [] <==> AllWhitespace(s)
  {
    var a := TrimStart(s);
    var r := TrimEnd(a);
    assert a == [] ==> s == s[..|s| - |a|];
    assert r == [] ==> a == a[|r|..];
    assert r == [] && AllWhitespace(s[..|s| - |a|]) && AllWhitespace(a) ==> AllWhitespace(s) by {
      if r == [] && AllWhitespace(s[..|s| - |a|]) && AllWhitespace(a) {
        assert s == s[..|s| - |a|] + a;
      }
    }
    r
  }

  /** Trim keeps a contiguous slice of s, starting after the leading whitespace. */
  lemma {:induction false} TrimIsSlice(s: string)
    ensures OccursAt(s, Trim(s), |s| - |TrimStart(s)|)
  {
    var a := TrimStart(s);
    var r := TrimEnd(a);
    assert Trim(s) == r;
    PrefixOfSuffix(s, |s| - |a|, a, r);
  }

  /** A prefix of the suffix starting at i occurs in s at i. */
  lemma PrefixOfSuffix(s: string, i: nat, a: string, r: string)
    requires i <= |s| && a == s[i..] && |r| <= |a| && r == a[..|r|]
    ensures OccursAt(s, r, i)
  {
    assert s[i..i + |r|] == r;
  }

  /** What trim removes before and after the kept slice is whitespace. */
  lemma {:induction false} TrimRemovesOnlyWhitespace(s: string)
    ensures AllWhitespace(s[..|s| - |TrimStart(s)|])
    ensures AllWhitespace(s[|s| - |TrimStart(s)| + |Trim(s)|..])
  {
    var a := TrimStart(s);
    var i := |s| - |a|;
    assert s[i + |Trim(s)|..] == a[|Trim(s)|..];
  }

  /** Trimming twice is trimming once. */
  lemma TrimIdempotent(s: string)
    ensures Trim(Trim(s)) == Trim(s)
  {
    var r := Trim(s);
    assert TrimStart(r) == r;
    assert TrimEnd(r) == r;
  }

  /** Lower-cases one character; only A to Z are mapped. */
  function LowerChar(c: char): (d: char)
    ensures 'A' <= c <= 'Z' ==> 'a' <= d <= 'z' && d as int - c as int == 32
    ensures !('A' <= c <= 'Z') ==> d == c
  {
    if 'A' <= c <= 'Z' then (c as int + 32) as char else c
  }

  /** `s.toLowerCase()`, restricted to the ASCII letters. */
  function Lower(s: string): (r: string)
    ensures |r| == |s|
    ensures forall k :: 0 <= k < |s| ==> r[k] == LowerChar(s[k])
  {
    if s == [] then [] else [LowerChar(s[0])] + Lower(s[1..])
  }

  /** Lower-casing is idempotent and leaves no upper-case letter behind. */
  lemma LowerIdempotent(s: string)
    ensures Lower(Lower(s)) == Lower(s)
    ensures forall k :: 0 <= k < |s| ==> !('A' <= Lower(s)[k] <= 'Z')
  {
  }

  /** n occurs in h at position 0. */
  predicate StartsWith(h: string, n: string) {
    |n| <= |h| && h[..|n|] == n
  }

  /** n occurs in h starting at position i. */
  predicate OccursAt(h: string, n: string, i: int) {
    0 <= i <= |h| - |n| && h[i..i + |n|] == n
  }

  /** `h.includes(n)`, scanning the start positions from left to right. */
  predicate Contains(h: string, n: string)
    decreases |h|
  {
    StartsWith(h, n) || (h != [] && Contains(h[1..], n))
  }

  /** The scan agrees with the definition of a substring: n is some slice of h. */
  lemma {:induction false} ContainsIff(h: string, n: string)
    ensures Contains(h, n) <==> exists i :: OccursAt(h, n, i)
  {
    if h == [] {
      if Contains(h, n) {
        assert OccursAt(h, n, 0);
      }
    } else {
      ContainsIff(h[1..], n);
      if StartsWith(h, n) {
        assert OccursAt(h, n, 0);
      } else if Contains(h[1..], n) {
        var i :| OccursAt(h[1..], n, i);
        assert h[1..][i..i + |n|] == h[i + 1..i + 1 + |n|];
        assert OccursAt(h, n, i + 1);
      } else {
        forall i | OccursAt(h, n, i) ensures false {
          if i > 0 {
            assert h[1..][i - 1..i - 1 + |n|] == h[i..i + |n|];
            assert OccursAt(h[1..], n, i - 1);
          }
        }
      }
    }
  }
}
