/**
 * The few string primitives of Python that the monitor relies on, over ASCII:
 * `str.lower`, counting a character, the `in` substring test and
 * `str.replace(old, "")`.
 */
module Strings {

  predicate IsAsciiUpper(c: char) {
    'A' <= c <= 'Z'
  }

  /** `str.lower` on one character: ASCII capitals become small letters, everything else is kept. */
  function LowerChar(c: char): char {
    if IsAsciiUpper(c) then (c as int + 32) as char else c
  }

  /** `str.lower` over ASCII. */
  function Lower(s: string): (r: string)
    ensures |r| == |s|
    ensures forall i :: 0 <= i < |s| ==> r[i] == LowerChar(s[i])
    ensures forall i :: 0 <= i < |r| ==> !IsAsciiUpper(r[i])
  {
    if s == [] then [] else [LowerChar(s[0])] + Lower(s[1..])
  }

  /** Number of occurrences of `c` in `s`. */
  function Count(s: string, c: char): nat {
    if s == [] then 0 else (if s[0] == c then 1 else 0) + Count(s[1..], c)
  }

  lemma {:induction false} CountAbsent(s: string, c: char)
    requires forall i :: 0 <= i < |s| ==> s[i] != c
    ensures Count(s, c) == 0
  {
    if s != [] {
      CountAbsent(s[1..], c);
    }
  }

  /** `x` occurs in `y` starting at index `i`. */
  predicate OccursAt(x: string, y: string, i: int) {
    0 <= i && i + |x| <= |y| && y[i..i + |x|] == x
  }

  /** Python's `x in y` for strings, by trying every start position in turn. */
  predicate IsSubstring(x: string, y: string)
    decreases |y|
  {
    |x| <= |y| && (y[..|x|] == x || IsSubstring(x, y[1..]))
  }

  /** The search agrees with the definition: `x in y` iff `x` occurs in `y` at some index. */
  lemma {:induction false} SubstringIff(x: string, y: string)
    ensures IsSubstring(x, y) <==> exists i :: OccursAt(x, y, i)
    decreases |y|
  {
    if |x| <= |y| {
      if y[..|x|] == x {
        assert OccursAt(x, y, 0);
      } else {
        SubstringIff(x, y[1..]);
        if IsSubstring(x, y[1..]) {
          var i :| OccursAt(x, y[1..], i);
          assert y[1..][i..i + |x|] == y[i + 1..i + 1 + |x|];
          assert OccursAt(x, y, i + 1);
        }
        if i :| OccursAt(x, y, i) {
          assert i != 0;
          assert y[1..][i - 1..i - 1 + |x|] == y[i..i + |x|];
          assert OccursAt(x, y[1..], i - 1);
        }
      }
    }
  }

  /** Every character of a substring is a character of the string it occurs in. */
  lemma SubstringChars(x: string, y: string, k: int)
    requires IsSubstring(x, y) && 0 <= k < |x|
    ensures x[k] in y
  {
    SubstringIff(x, y);
    var i :| OccursAt(x, y, i);
    assert x[k] == y[i..i + |x|][k] == y[i + k];
  }

  /**
   * Python's `s.replace(p, "")`: scanning from the left, every non-overlapping
   * occurrence of `p` is deleted; what the deletion brings together is not scanned again.
   */
  function RemoveAll(s: string, p: string): (r: string)
    requires p != []
    ensures |r| <= |s|
    decreases |s|
  {
    if |s| < |p| then s
    else if s[..|p|] == p then RemoveAll(s[|p|..], p)
    else [s[0]] + RemoveAll(s[1..], p)
  }

  /** A string in which `p` does not occur is left unchanged. */
  lemma {:induction false} RemoveAllAbsent(s: string, p: string)
    requires p != [] && !IsSubstring(p, s)
    ensures RemoveAll(s, p) == s
    decreases |s|
  {
    if |s| >= |p| {
      assert s[..|p|] != p;
      RemoveAllAbsent(s[1..], p);
      assert [s[0]] + s[1..] == s;
    }
  }

  /** A leading copy of `p` is deleted like any other. */
  lemma RemoveAllLeading(s: string, p: string)
    requires p != []
    ensures RemoveAll(p + s, p) == RemoveAll(s, p)
  {
    assert (p + s)[..|p|] == p;
    assert (p + s)[|p|..] == s;
  }

  /**
   * No occurrence of `p` can start inside a prefix free of `p`'s first
   * character, so the prefix is kept and the rest is scanned as on its own.
   */
  lemma {:induction false} RemoveAllAfterFreePrefix(a: string, b: string, p: string)
    requires p != [] && forall i :: 0 <= i < |a| ==> a[i] != p[0]
    ensures RemoveAll(a + b, p) == a + RemoveAll(b, p)
    decreases |a|
  {
    if a == [] {
      assert a + b == b;
    } else if |a + b| < |p| {
      assert |b| < |p|;
    } else {
      var s := a + b;
      assert s[..|p|] != p by {
        assert s[..|p|][0] == a[0];
      }
      assert s[1..] == a[1..] + b;
      RemoveAllAfterFreePrefix(a[1..], b, p);
      assert [a[0]] + a[1..] == a;
    }
  }

  /** An occurrence of `p` after a prefix free of `p`'s first character is deleted too. */
  lemma RemoveAllInside(a: string, p: string, b: string)
    requires p != [] && forall i :: 0 <= i < |a| ==> a[i] != p[0]
    ensures RemoveAll(a + p + b, p) == a + RemoveAll(b, p)
  {
    assert a + p + b == a + (p + b);
    RemoveAllAfterFreePrefix(a, p + b, p);
    RemoveAllLeading(b, p);
  }
}
