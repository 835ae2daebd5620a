/** The string operations the workspace code relies on, with the semantics
    of the JavaScript and Go library calls they stand for: `trim`,
    `startsWith`/`endsWith` (`strings.HasSuffix`), `lastIndexOf`, the
    clamping `substring`, the extension-stripping regular expression of the
    tree view, and byte-wise string order (Go's `<` on strings). */
module Text {

  /** The characters JavaScript's `String.prototype.trim` removes: ASCII
      white space, line terminators, the byte-order mark and the Unicode
      space separators. */
  predicate IsSpace(c: char) {
    || c == ' ' || c == '\t' || c == '\n' || c == '\r'
    || c == '\U{000B}' || c == '\U{000C}' || c == '\U{00A0}' || c == '\U{1680}'
    || ('\U{2000}' <= c <= '\U{200A}')
    || c == '\U{2028}' || c == '\U{2029}' || c == '\U{202F}' || c == '\U{205F}'
    || c == '\U{3000}' || c == '\U{FEFF}'
  }

  /** Drops leading white space: the result is the longest suffix that
      does not start with a space, and everything dropped was space. */
  function TrimStart(s: string): (r: string)
    ensures |r| <= |s| && r == s[|s| - |r|..]
    ensures r == [] || !IsSpace(r[0])
    ensures forall i :: 0 <= i < |s| - |r| ==> IsSpace(s[i])
  {
    if s != [] && IsSpace(s[0]) then TrimStart(s[1..]) else s
  }

  /** Drops trailing white space, symmetrically to TrimStart. */
  function TrimEnd(s: string): (r: string)
    ensures |r| <= |s| && r == s[..|r|]
    ensures r == [] || !IsSpace(r[|r| - 1])
    ensures forall i :: |r| <= i < |s| ==> IsSpace(s[i])
  {
    if s != [] && IsSpace(s[|s| - 1]) then TrimEnd(s[..|s| - 1]) else s
  }

  /** JavaScript's `s.trim()`. */
  function Trim(s: string): string {
    TrimEnd(TrimStart(s))
  }

  /** `!s.trim()`: the string is empty once trimmed. */
  predicate IsBlank(s: string) {
    Trim(s) == ""
  }

  /** A string is blank exactly when every character in it is a space. */
  lemma BlankIffAllSpace(s: string)
    ensures IsBlank(s) <==> forall i :: 0 <= i < |s| ==> IsSpace(s[i])
  {
    var t := TrimStart(s);
    TrimStartHead(s);
    assert IsBlank(s) ==> t == [];
  }

  /** The first character TrimStart keeps is the one at the same place in `s`. */
  lemma TrimStartHead(s: string)
    ensures var t := TrimStart(s); t != [] ==> t[0] == s[|s| - |t|]
  {
  }

  /** Trimming is idempotent: a trimmed string has nothing left to trim. */
  lemma TrimIdempotent(s: string)
    ensures Trim(Trim(s)) == Trim(s)
  {
    var r := Trim(s);
    var t := TrimStart(s);
    if r != [] {
      assert r[0] == t[0];
      assert TrimStart(r) == r;
    }
  }

  /** `s.startsWith(p)`. */
  predicate StartsWith(s: string, p: string) {
    |p| <= |s| && s[..|p|] == p
  }

  /** `s.includes(t)`: `t` occurs somewhere in `s`. */
  predicate Contains(s: string, t: string)
    decreases |s|
  {
    StartsWith(s, t) || (s != [] && Contains(s[1..], t))
  }

  /** `toLowerCase` on ASCII letters. Compared against the ASCII needle
      "content-type", this agrees with the full Unicode mapping: no other
      character lowers to one of its letters. */
  function LowerChar(c: char): char {
    if 'A' <= c <= 'Z' then (c as int + 32) as char else c
  }

  function ToLower(s: string): (r: string) {
    seq(|s|, i requires 0 <= i < |s| => LowerChar(s[i]))
  }

  lemma ToLowerAppend(a: string, b: string)
    ensures ToLower(a + b) == ToLower(a) + ToLower(b)
  {
    assert forall i :: 0 <= i < |a + b| ==> ToLower(a + b)[i] == (ToLower(a) + ToLower(b))[i];
  }

  /** What a string contains, any longer string ending in it contains. */
  lemma {:induction false} ContainsAfter(p: string, s: string, t: string)
    requires Contains(s, t)
    ensures Contains(p + s, t)
  {
    if p != [] {
      ContainsAfter(p[1..], s, t);
      assert (p + s)[1..] == p[1..] + s;
    } else {
      assert p + s == s;
    }
  }

  /** Lower-cased, a string contains the lower-cased form of any part of it. */
  lemma ContainsLowered(prefix: string, b: string, suffix: string)
    ensures Contains(ToLower(prefix + b + suffix), ToLower(b))
  {
    var lb, ls := ToLower(b), ToLower(suffix);
    ToLowerAppend(prefix, b + suffix);
    ToLowerAppend(b, suffix);
    assert prefix + b + suffix == prefix + (b + suffix);
    assert (lb + ls)[..|lb|] == lb;
    assert StartsWith(lb + ls, lb);
    assert Contains(lb + ls, lb);
    ContainsAfter(ToLower(prefix), lb + ls, lb);
  }

  lemma LowerContentType()
    ensures ToLower("Content-Type") == "content-type"
  {
    var c := "Content-Type";
    assert forall i :: 0 <= i < |c| ==> ToLower(c)[i] == "content-type"[i];
  }

  /** `s.endsWith(x)` and Go's `strings.HasSuffix(s, x)`. */
  predicate EndsWith(s: string, x: string) {
    |x| <= |s| && s[|s| - |x|..] == x
  }

  lemma EndsWithAppended(s: string, x: string)
    ensures EndsWith(s + x, x)
  {
    assert (s + x)[|s|..] == x;
  }

  /** A suffix of `s` is a suffix of anything that ends with `s`. */
  lemma EndsWithPrepended(t: string, s: string, x: string)
    requires EndsWith(s, x)
    ensures EndsWith(t + s, x)
  {
    assert (t + s)[|t + s| - |x|..] == s[|s| - |x|..];
  }

  /** `s.lastIndexOf(c)`: the last position holding `c`, or -1. */
  function LastIndexOf(s: string, c: char): (r: int)
    ensures -1 <= r < |s|
    ensures r >= 0 ==> s[r] == c
    ensures forall i :: r < i < |s| ==> s[i] != c
  {
    if s == [] then -1
    else if s[|s| - 1] == c then |s| - 1
    else LastIndexOf(s[..|s| - 1], c)
  }

  /** The last occurrence determines LastIndexOf. */
  lemma LastIndexOfAt(s: string, c: char, i: int)
    requires 0 <= i < |s| && s[i] == c
    requires forall k :: i < k < |s| ==> s[k] != c
    ensures LastIndexOf(s, c) == i
  {
  }

  lemma LastIndexOfAbsent(s: string, c: char)
    requires c !in s
    ensures LastIndexOf(s, c) == -1
  {
  }

  /** `StartsWith` through a separator is transitive: below `b` and `b`
      below `c` is below `c`. */
  lemma StartsWithBelow(a: string, b: string, c: string)
    requires StartsWith(a, b + "/") && StartsWith(b, c + "/")
    ensures StartsWith(a, c + "/")
  {
    assert a[..|c| + 1] == a[..|b| + 1][..|c| + 1];
  }

  /** JavaScript clamps a `substring` bound into [0, length]. */
  function Clamp(i: int, n: nat): (r: nat)
    ensures r <= n
  {
    if i < 0 then 0 else if i > n then n else i
  }

  /** `s.substring(start, end)`: both bounds clamped, swapped when
      `start > end`. */
  function Substring(s: string, start: int, end: int): string {
    var a, b := Clamp(start, |s|), Clamp(end, |s|);
    if a <= b then s[a..b] else s[b..a]
  }

  /** `s.substring(start)`. */
  function SubstringFrom(s: string, start: int): string {
    Substring(s, start, |s|)
  }

  /** `substring` from a position inside the string is the plain slice;
      from a negative position it is the whole string. */
  lemma SubstringFromSlice(s: string, i: int)
    ensures 0 <= i <= |s| ==> SubstringFrom(s, i) == s[i..]
    ensures i < 0 ==> SubstringFrom(s, i) == s
  {
  }

  /** `s.split(c).pop() || ''`: the text after the last `c`, the whole
      string when there is none. */
  function AfterLast(s: string, c: char): (r: string)
    ensures c !in r
    ensures EndsWith(s, r)
  {
    s[LastIndexOf(s, c) + 1..]
  }

  /** The final extension the regular expression `/\.[^/.]+$/` matches at
      position `i`: a dot followed, up to the end, by at least one
      character that is neither a dot nor a slash. */
  predicate ExtensionAt(s: string, i: int) {
    0 <= i < |s| - 1 && s[i] == '.' &&
    forall k :: i < k < |s| ==> s[k] != '/' && s[k] != '.'
  }

  /** `s.replace(/\.[^/.]+$/, '')`; its meaning is StripExtensionMatches. */
  function StripExtension(s: string): string {
    var i := LastIndexOf(s, '.');
    if 0 <= i < |s| - 1 && '/' !in s[i + 1..] then s[..i] else s
  }

  /** StripExtension removes exactly the final extension when the regular
      expression matches somewhere, and otherwise changes nothing. */
  lemma StripExtensionMatches(s: string)
    ensures var r := StripExtension(s);
      |r| <= |s| && r == s[..|r|] &&
      (ExtensionAt(s, |r|) || (r == s && forall j :: !ExtensionAt(s, j)))
  {
    var i := LastIndexOf(s, '.');
    if 0 <= i < |s| - 1 && '/' !in s[i + 1..] {
      forall k | i < k < |s| ensures s[k] != '/' {
        assert s[k] == s[i + 1..][k - i - 1];
      }
    } else {
      forall j | 0 <= j < |s| - 1 && s[j] == '.' ensures !ExtensionAt(s, j) {
        if j < i {
          assert s[i] == '.';
        } else {
          var k :| 0 <= k < |s[i + 1..]| && s[i + 1..][k] == '/';
          assert s[i + 1 + k] == '/';
        }
      }
    }
  }

  /** Stripping adds no character: the result is a prefix. */
  lemma StripExtensionSubset(s: string, c: char)
    requires c !in s
    ensures c !in StripExtension(s)
  {
    var i := LastIndexOf(s, '.');
    if 0 <= i < |s| - 1 && '/' !in s[i + 1..] {
      assert forall k :: 0 <= k < i ==> s[..i][k] == s[k];
    }
  }

  /** The extension a file of this model gets is stripped off again:
      `StripExtension(b + ".postier") == b` whatever `b` is. */
  lemma StripPostierExtension(b: string)
    ensures StripExtension(b + ".postier") == b
  {
    var s := b + ".postier";
    assert s[|b|] == '.';
    assert s[|b| + 1..] == "postier";
    assert s[..|b|] == b;
  }

  /** Go's `<` on strings and plain lexicographic order on characters
      (byte order of UTF-8 agrees with code-point order). */
  predicate LexLess(a: string, b: string) {
    if a == [] then b != []
    else if b == [] then false
    else if a[0] != b[0] then a[0] < b[0]
    else LexLess(a[1..], b[1..])
  }

  lemma {:induction false} LexLessIrreflexive(a: string)
    ensures !LexLess(a, a)
  {
    if a != [] { LexLessIrreflexive(a[1..]); }
  }

  lemma {:induction false} LexLessTransitive(a: string, b: string, c: string)
    requires LexLess(a, b) && LexLess(b, c)
    ensures LexLess(a, c)
  {
    if a != [] && b != [] && c != [] && a[0] == b[0] && b[0] == c[0] {
      LexLessTransitive(a[1..], b[1..], c[1..]);
    }
  }

  /** Any two strings are equal or ordered one way or the other. */
  lemma {:induction false} LexLessTotal(a: string, b: string)
    ensures a == b || LexLess(a, b) || LexLess(b, a)
  {
    if a != [] && b != [] && a[0] == b[0] {
      LexLessTotal(a[1..], b[1..]);
      if a[1..] == b[1..] { assert a == [a[0]] + a[1..] && b == [b[0]] + b[1..]; }
    }
  }

  lemma {:induction false} LexLessAsymmetric(a: string, b: string)
    requires LexLess(a, b)
    ensures !LexLess(b, a)
  {
    if LexLess(b, a) {
      LexLessTransitive(a, b, a);
      LexLessIrreflexive(a);
    }
  }

  /* ---------------- JavaScript's own-property order ---------------- */

  predicate IsDigit(c: char) {
    '0' <= c <= '9'
  }

  predicate AllDigits(s: string) {
    forall i :: 0 <= i < |s| ==> IsDigit(s[i])
  }

  /** The number a string of decimal digits writes. */
  function NumeralValue(s: string): nat
    requires AllDigits(s)
  {
    if s == [] then 0
    else NumeralValue(s[..|s| - 1]) * 10 + (s[|s| - 1] as int - '0' as int)
  }

  function Pow10(n: nat): nat {
    if n == 0 then 1 else 10 * Pow10(n - 1)
  }

  /** An array index in the sense of ECMAScript: a decimal numeral without
      sign or leading zero whose value is below 2^32 - 1. */
  predicate IsArrayIndex(k: string) {
    && k != [] && AllDigits(k) && (k[0] == '0' ==> |k| == 1)
    && NumeralValue(k) < 0xFFFF_FFFF
  }

  /** The order in which `Object.entries` lists an ordinary object's keys
      when its string keys were inserted in ascending order (as parsing the
      backend's JSON inserts them): array indices first, by numeric value,
      then the other keys. */
  predicate PropertyBefore(a: string, b: string) {
    if IsArrayIndex(a) && IsArrayIndex(b) then NumeralValue(a) < NumeralValue(b)
    else if IsArrayIndex(a) || IsArrayIndex(b) then IsArrayIndex(a)
    else LexLess(a, b)
  }

  /** A numeral of `n` digits is below 10^n, and at least 10^(n-1) when it
      does not start with zero. */
  lemma {:induction false} NumeralBounds(s: string)
    requires AllDigits(s)
    ensures NumeralValue(s) < Pow10(|s|)
    ensures s != [] && s[0] != '0' ==> Pow10(|s| - 1) <= NumeralValue(s)
  {
    if s != [] {
      var init := s[..|s| - 1];
      NumeralBounds(init);
      if init != [] {
        assert init[0] == s[0];
      }
    }
  }

  lemma {:induction false} Pow10Monotone(m: nat, n: nat)
    requires m <= n
    ensures Pow10(m) <= Pow10(n)
  {
    if m < n {
      Pow10Monotone(m, n - 1);
    }
  }

  /** Distinct numerals of one length write distinct numbers. */
  lemma {:induction false} NumeralInjective(a: string, b: string)
    requires AllDigits(a) && AllDigits(b) && |a| == |b| && a != b
    ensures NumeralValue(a) != NumeralValue(b)
  {
    var n := |a|;
    var ia, ib := a[..n - 1], b[..n - 1];
    var da, db := a[n - 1] as int - '0' as int, b[n - 1] as int - '0' as int;
    if ia == ib {
      assert a == ia + [a[n - 1]] && b == ib + [b[n - 1]];
    } else {
      NumeralInjective(ia, ib);
      var va, vb := NumeralValue(ia), NumeralValue(ib);
      if va < vb {
        assert va * 10 + 10 <= vb * 10;
      } else {
        assert vb * 10 + 10 <= va * 10;
      }
    }
  }

  /** Distinct array indices have distinct values. */
  lemma ArrayIndexInjective(a: string, b: string)
    requires IsArrayIndex(a) && IsArrayIndex(b) && a != b
    ensures NumeralValue(a) != NumeralValue(b)
  {
    if |a| == |b| {
      NumeralInjective(a, b);
    } else if |a| < |b| {
      NumeralBounds(a);
      NumeralBounds(b);
      Pow10Monotone(|a|, |b| - 1);
    } else {
      NumeralBounds(a);
      NumeralBounds(b);
      Pow10Monotone(|b|, |a| - 1);
    }
  }

  lemma PropertyBeforeIrreflexive(a: string)
    ensures !PropertyBefore(a, a)
  {
    LexLessIrreflexive(a);
  }

  lemma PropertyBeforeTransitive(a: string, b: string, c: string)
    requires PropertyBefore(a, b) && PropertyBefore(b, c)
    ensures PropertyBefore(a, c)
  {
    if !IsArrayIndex(a) && !IsArrayIndex(b) && !IsArrayIndex(c) {
      LexLessTransitive(a, b, c);
    }
  }

  /** Any two distinct keys are ordered one way or the other. */
  lemma PropertyBeforeTotal(a: string, b: string)
    ensures a == b || PropertyBefore(a, b) || PropertyBefore(b, a)
  {
    if IsArrayIndex(a) && IsArrayIndex(b) && a != b {
      ArrayIndexInjective(a, b);
    } else if !IsArrayIndex(a) && !IsArrayIndex(b) {
      LexLessTotal(a, b);
    }
  }
}
