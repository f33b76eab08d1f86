/**
 * The string primitives the quiz relies on: `String.prototype.trim`,
 * `String.prototype.toLowerCase` (restricted to ASCII letters) and
 * `String.prototype.includes`, the UTF-16 `length` of a string, together with the answer normalisation
 * `toLowerCase().trim()` that the server applies to stored and submitted answers.
 */
module Text {

  /** The code points `trim` removes: ECMAScript WhiteSpace and LineTerminator. */
  predicate IsSpace(c: char) {
    || c == '\t' || c == '\n' || c == '\U{000B}' || c == '\U{000C}' || c == '\r'
    || c == ' ' || c == '\U{00A0}' || c == '\U{1680}'
    || ('\U{2000}' <= c <= '\U{200A}')
    || c == '\U{2028}' || c == '\U{2029}' || c == '\U{202F}' || c == '\U{205F}'
    || c == '\U{3000}' || c == '\U{FEFF}'
  }

  predicate AllSpace(s: string) {
    forall i :: 0 <= i < |s| ==> IsSpace(s[i])
  }

  /** `trimStart`: drops the leading white space. */
  function TrimStart(s: string): string {
    if s != [] && IsSpace(s[0]) then TrimStart(s[1..]) else s
  }

  /** `trimEnd`: drops the trailing white space. */
  function TrimEnd(s: string): string {
    if s != [] && IsSpace(s[|s| - 1]) then TrimEnd(s[..|s| - 1]) else s
  }

  /** `trim`: both of the above. */
  function Trim(s: string): string {
    TrimEnd(TrimStart(s))
  }

  /** `trimStart` keeps a suffix, drops only white space, and stops at the first other character. */
  lemma {:induction false} TrimStartShape(s: string)
    ensures |TrimStart(s)| <= |s| && TrimStart(s) == s[|s| - |TrimStart(s)|..]
    ensures AllSpace(s[..|s| - |TrimStart(s)|])
    ensures TrimStart(s) == [] || !IsSpace(TrimStart(s)[0])
  {
    if s != [] && IsSpace(s[0]) {
      var r := TrimStart(s[1..]);
      TrimStartShape(s[1..]);
      assert s[..|s| - |r|] == [s[0]] + s[1..][..|s[1..]| - |r|];
    }
  }

  /** `trimEnd` keeps a prefix, drops only white space, and stops at the last other character. */
  lemma {:induction false} TrimEndShape(s: string)
    ensures |TrimEnd(s)| <= |s| && TrimEnd(s) == s[..|TrimEnd(s)|]
    ensures AllSpace(s[|TrimEnd(s)|..])
    ensures TrimEnd(s) == [] || !IsSpace(TrimEnd(s)[|TrimEnd(s)| - 1])
  {
    if s != [] && IsSpace(s[|s| - 1]) {
      var r := TrimEnd(s[..|s| - 1]);
      TrimEndShape(s[..|s| - 1]);
      assert s[|r|..] == s[..|s| - 1][|r|..] + [s[|s| - 1]];
    }
  }

  /**
   * `trim` returns the slice `s[i..i + |Trim(s)|]` for some `i`: everything before and
   * after it is white space, and the slice neither starts nor ends with white space.
   */
  lemma TrimShape(s: string) returns (i: nat)
    ensures i + |Trim(s)| <= |s|
    ensures Trim(s) == s[i..i + |Trim(s)|]
    ensures AllSpace(s[..i]) && AllSpace(s[i + |Trim(s)|..])
    ensures Trim(s) == [] || (!IsSpace(Trim(s)[0]) && !IsSpace(Trim(s)[|Trim(s)| - 1]))
  {
    var t := TrimStart(s);
    TrimStartShape(s);
    TrimEndShape(t);
    i := |s| - |t|;
    assert s[i + |Trim(s)|..] == t[|Trim(s)|..];
    if Trim(s) != [] {
      assert Trim(s)[0] == t[0];
    }
  }

  /** A slice surrounded only by white space, and bounded by non-white characters, is what `trim` keeps. */
  lemma {:induction false} TrimStartIs(s: string, i: nat)
    requires i <= |s| && AllSpace(s[..i])
    requires i == |s| || !IsSpace(s[i])
    ensures TrimStart(s) == s[i..]
  {
    if i > 0 {
      assert IsSpace(s[..i][0]);
      assert s[1..][..i - 1] == s[1..i] == s[..i][1..];
      TrimStartIs(s[1..], i - 1);
      assert s[1..][i - 1..] == s[i..];
    }
  }

  lemma {:induction false} TrimEndIs(s: string, j: nat)
    requires j <= |s| && AllSpace(s[j..])
    requires j == 0 || !IsSpace(s[j - 1])
    ensures TrimEnd(s) == s[..j]
  {
    if j < |s| {
      assert IsSpace(s[j..][|s| - 1 - j]);
      var s' := s[..|s| - 1];
      assert s'[j..] == s[j..|s| - 1];
      TrimEndIs(s', j);
      assert s'[..j] == s[..j];
    }
  }

  /** White space on both sides of an empty middle makes the whole string white space. */
  lemma AllSpaceSplit(s: string, i: nat)
    requires i <= |s| && AllSpace(s[..i]) && AllSpace(s[i..])
    ensures AllSpace(s)
  {
    forall k | 0 <= k < |s| ensures IsSpace(s[k]) {
      if k < i { assert s[k] == s[..i][k]; } else { assert s[k] == s[i..][k - i]; }
    }
  }

  lemma TrimOfSpace(s: string)
    requires AllSpace(s)
    ensures Trim(s) == []
  {
    assert s[..|s|] == s;
    TrimStartIs(s, |s|);
  }

  lemma TrimIs(s: string, i: nat, j: nat)
    requires i <= j <= |s|
    requires AllSpace(s[..i]) && AllSpace(s[j..])
    requires i < j ==> !IsSpace(s[i]) && !IsSpace(s[j - 1])
    ensures Trim(s) == s[i..j]
  {
    if i < j {
      TrimStartIs(s, i);
      var t := s[i..];
      assert t[j - i..] == s[j..];
      TrimEndIs(t, j - i);
      assert t[..j - i] == s[i..j];
    } else {
      AllSpaceSplit(s, i);
      TrimOfSpace(s);
    }
  }

  /** `trim` is idempotent. */
  lemma TrimIdempotent(s: string)
    ensures Trim(Trim(s)) == Trim(s)
  {
    var t := Trim(s);
    var _ := TrimShape(s);
    assert t[..0] == [] && t[|t|..] == [];
    TrimIs(t, 0, |t|);
    assert t[0..|t|] == t;
  }

  lemma AllSpaceConcat(a: string, b: string)
    requires AllSpace(a) && AllSpace(b)
    ensures AllSpace(a + b)
  {
    forall k | 0 <= k < |a + b| ensures IsSpace((a + b)[k]) {
      if k < |a| { assert (a + b)[k] == a[k]; } else { assert (a + b)[k] == b[k - |a|]; }
    }
  }

  /** Leading and trailing white space never changes what `trim` returns. */
  lemma TrimIgnoresPadding(p: string, s: string, q: string)
    requires AllSpace(p) && AllSpace(q)
    ensures Trim(p + s + q) == Trim(s)
  {
    var i := TrimShape(s);
    var t := Trim(s);
    var j := i + |t|;
    var u := p + s + q;
    assert AllSpace(u[..|p| + i]) by {
      assert u[..|p| + i] == p + s[..i];
      AllSpaceConcat(p, s[..i]);
    }
    assert AllSpace(u[|p| + j..]) by {
      assert u[|p| + j..] == s[j..] + q;
      AllSpaceConcat(s[j..], q);
    }
    assert u[|p| + i..|p| + j] == t by {
      assert u[|p| + i..|p| + j] == s[i..j];
    }
    TrimIs(u, |p| + i, |p| + j);
  }

  /** `toLowerCase` on one character; only the ASCII letters A-Z are mapped. */
  function LowerChar(c: char): char {
    if 'A' <= c <= 'Z' then (c as int + 32) as char else c
  }

  /** `toLowerCase`, character by character. */
  function Lower(s: string): (r: string)
    ensures |r| == |s|
  {
    seq(|s|, i requires 0 <= i < |s| => LowerChar(s[i]))
  }

  lemma LowerIdempotent(s: string)
    ensures Lower(Lower(s)) == Lower(s)
  {
  }

  /** Lower-casing never turns white space into text or text into white space, so it commutes with `trim`. */
  lemma LowerKeepsSpace(s: string)
    ensures AllSpace(s) ==> AllSpace(Lower(s))
    ensures forall i :: 0 <= i < |s| ==> (IsSpace(Lower(s)[i]) <==> IsSpace(s[i]))
  {
  }

  lemma LowerTrimCommute(s: string)
    ensures Trim(Lower(s)) == Lower(Trim(s))
  {
    var i := TrimShape(s);
    var t := Trim(s);
    var j := i + |t|;
    var l := Lower(s);
    assert AllSpace(l[..i]) by {
      assert l[..i] == Lower(s[..i]);
      LowerKeepsSpace(s[..i]);
    }
    assert AllSpace(l[j..]) by {
      assert l[j..] == Lower(s[j..]);
      LowerKeepsSpace(s[j..]);
    }
    assert l[i..j] == Lower(t) by {
      assert l[i..j] == Lower(s[i..j]);
    }
    TrimIs(l, i, j);
  }

  /** The answer normalisation of the server: `toLowerCase().trim()`. */
  function Normalize(s: string): string {
    Trim(Lower(s))
  }

  /** Normalising twice is normalising once. */
  lemma NormalizeIdempotent(s: string)
    ensures Normalize(Normalize(s)) == Normalize(s)
  {
    LowerTrimCommute(Lower(s));
    LowerIdempotent(s);
    TrimIdempotent(Lower(s));
  }

  /**
   * Differences of letter case and of leading or trailing white space do not
   * affect the normalised form.
   */
  lemma NormalizeIgnoresCaseAndPadding(p: string, t: string, s: string, q: string)
    requires AllSpace(p) && AllSpace(q) && Lower(t) == Lower(s)
    ensures Normalize(p + t + q) == Normalize(s)
  {
    assert Lower(p + t + q) == Lower(p) + Lower(t) + Lower(q);
    LowerKeepsSpace(p);
    LowerKeepsSpace(q);
    TrimIgnoresPadding(Lower(p), Lower(t), Lower(q));
  }

  /** `haystack.slice(i, i + needle.length) === needle`. */
  predicate OccursAt(haystack: string, needle: string, i: int) {
    0 <= i && i + |needle| <= |haystack| && haystack[i..i + |needle|] == needle
  }

  /** `String.prototype.includes`: scans the start positions from left to right. */
  function Contains(haystack: string, needle: string): bool
    decreases |haystack|
  {
    if |needle| > |haystack| then false
    else if haystack[..|needle|] == needle then true
    else Contains(haystack[1..], needle)
  }

  /** `includes` holds exactly when the needle occurs at some position. */
  lemma {:induction false} ContainsIff(haystack: string, needle: string)
    ensures Contains(haystack, needle) <==> exists i :: OccursAt(haystack, needle, i)
    decreases |haystack|
  {
    if |needle| > |haystack| {
    } else if haystack[..|needle|] == needle {
      assert OccursAt(haystack, needle, 0);
    } else {
      var tail := haystack[1..];
      ContainsIff(tail, needle);
      forall i | 0 <= i
        ensures OccursAt(haystack, needle, i + 1) <==> OccursAt(tail, needle, i)
      {
        if i + |needle| <= |tail| {
          var a, b := haystack[i + 1..i + 1 + |needle|], tail[i..i + |needle|];
          assert |a| == |b|;
          forall k | 0 <= k < |a| ensures a[k] == b[k] {
            assert a[k] == haystack[i + 1 + k];
            assert b[k] == tail[i + k];
          }
          assert a == b;
        }
      }
      if exists i :: OccursAt(haystack, needle, i) {
        var i :| OccursAt(haystack, needle, i);
        assert i != 0;
        assert OccursAt(tail, needle, i - 1);
      }
      if exists i :: OccursAt(tail, needle, i) {
        var i :| OccursAt(tail, needle, i);
        assert OccursAt(haystack, needle, i + 1);
      }
    }
  }

  /**
   * `String.prototype.length`: JavaScript strings are sequences of UTF-16 code
   * units, so a code point above U+FFFF counts twice.
   */
  function Utf16Length(s: string): nat {
    if s == [] then 0 else (if s[0] as int > 0xFFFF then 2 else 1) + Utf16Length(s[1..])
  }

  /** The length of a concatenation is the sum of the lengths. */
  lemma {:induction false} Utf16LengthConcat(a: string, b: string)
    ensures Utf16Length(a + b) == Utf16Length(a) + Utf16Length(b)
    decreases |a|
  {
    if a == [] {
      assert a + b == b;
    } else {
      assert (a + b)[1..] == a[1..] + b;
      Utf16LengthConcat(a[1..], b);
    }
  }

  /**
   * Every code point takes one or two code units; the length equals the
   * number of code points exactly when none lies above U+FFFF, and twice that
   * number exactly when all do.
   */
  lemma {:induction false} Utf16LengthBounds(s: string)
    ensures |s| <= Utf16Length(s) <= 2 * |s|
    ensures Utf16Length(s) == |s| <==> forall i :: 0 <= i < |s| ==> s[i] as int <= 0xFFFF
    ensures Utf16Length(s) == 2 * |s| <==> forall i :: 0 <= i < |s| ==> s[i] as int > 0xFFFF
  {
    if s != [] {
      var tail := s[1..];
      Utf16LengthBounds(tail);
      assert forall i :: 0 < i < |s| ==> s[i] == tail[i - 1];
      assert forall i :: 0 <= i < |tail| ==> tail[i] == s[i + 1];
    }
  }
}
