/**
 * String primitives the parser relies on, written out for `seq<char>`:
 * whitespace trimming, ASCII case-insensitive comparison and search,
 * literal replace-all, a decimal integer conversion with the semantics of
 * a 32-bit `toInt` that yields 0 on failure, and the lexicographic order
 * in which an ordered string-keyed map enumerates its keys.
 */
module Text {

  /**
   * Whitespace as the trimming and `\s` matching understand it: the ASCII
   * controls tab to carriage return, the space, NEL, NO-BREAK SPACE, and the
   * Unicode space and line separators (Ogham space mark, en quad to hair
   * space, line and paragraph separators, narrow no-break space, medium
   * mathematical space and ideographic space).
   */
  predicate IsSpace(c: char) {
    || '\t' <= c <= '\r' || c == ' ' || c == '\U{0085}' || c == '\U{00A0}' || c == '\U{1680}'
    || '\U{2000}' <= c <= '\U{200A}' || c == '\U{2028}' || c == '\U{2029}' || c == '\U{202F}'
    || c == '\U{205F}' || c == '\U{3000}'
  }

  /** Drops leading whitespace. */
  function TrimStart(s: string): (r: string)
    ensures |r| <= |s|
    ensures r == [] || !IsSpace(r[0])
  {
    if s != [] && IsSpace(s[0]) then TrimStart(s[1..]) else s
  }

  /** Trimming the start keeps a suffix and drops only whitespace before it. */
  lemma {:induction false} TrimStartSlice(s: string)
    ensures TrimStart(s) == s[|s| - |TrimStart(s)|..]
    ensures forall i :: 0 <= i < |s| - |TrimStart(s)| ==> IsSpace(s[i])
    decreases |s|
  {
    if s != [] && IsSpace(s[0]) {
      TrimStartSlice(s[1..]);
      forall i | 1 <= i < |s| - |TrimStart(s)| ensures IsSpace(s[i]) {
        assert s[i] == s[1..][i - 1];
      }
    }
  }

  /** Drops trailing whitespace. */
  function TrimEnd(s: string): (r: string)
    ensures |r| <= |s|
    ensures r == [] || !IsSpace(r[|r| - 1])
  {
    if s != [] && IsSpace(s[|s| - 1]) then TrimEnd(s[..|s| - 1]) else s
  }

  /** Trimming the end keeps a prefix and drops only whitespace after it. */
  lemma {:induction false} TrimEndSlice(s: string)
    ensures TrimEnd(s) == s[..|TrimEnd(s)|]
    ensures forall i :: |TrimEnd(s)| <= i < |s| ==> IsSpace(s[i])
    decreases |s|
  {
    if s != [] && IsSpace(s[|s| - 1]) {
      TrimEndSlice(s[..|s| - 1]);
    }
  }

  /** Removes whitespace from both ends, keeping everything in between. */
  function Trim(s: string): (r: string)
    ensures r == [] || (!IsSpace(r[0]) && !IsSpace(r[|r| - 1]))
  {
    var t := TrimStart(s);
    TrimEndSlice(t);
    TrimEnd(t)
  }

  /**
   * Trimming keeps the slice of its input between the leading and the
   * trailing whitespace, and drops only whitespace around it.
   */
  lemma TrimIsSlice(s: string)
    ensures var i := |s| - |TrimStart(s)|;
      && i + |Trim(s)| <= |s| && Trim(s) == s[i..i + |Trim(s)|]
      && (forall k :: 0 <= k < i ==> IsSpace(s[k]))
      && (forall k :: i + |Trim(s)| <= k < |s| ==> IsSpace(s[k]))
  {
    var t := TrimStart(s);
    var r := TrimEnd(t);
    TrimStartSlice(s);
    TrimEndSlice(t);
    var i := |s| - |t|;
    assert r == s[i..][..|r|] == s[i..i + |r|];
    forall k | i + |r| <= k < |s| ensures IsSpace(s[k]) {
      assert s[k] == t[k - i];
    }
  }

  /** A string without surrounding whitespace is its own trimmed form. */
  lemma TrimIdentity(s: string)
    requires s == [] || (!IsSpace(s[0]) && !IsSpace(s[|s| - 1]))
    ensures Trim(s) == s
  {
  }

  /** Upper-cases the ASCII letters and leaves every other character alone. */
  function ToUpper(c: char): (u: char)
    ensures 'a' <= c <= 'z' ==> u as int == c as int - 32
    ensures !('a' <= c <= 'z') ==> u == c
  {
    if 'a' <= c <= 'z' then (c as int - 32) as char else c
  }

  /** Equality up to ASCII case. */
  predicate EqualsIgnoreCase(a: string, b: string) {
    |a| == |b| && forall i :: 0 <= i < |a| ==> ToUpper(a[i]) == ToUpper(b[i])
  }

  /** `sub` occurs in `s` starting at index `i`, up to ASCII case. */
  predicate OccursIgnoreCaseAt(s: string, sub: string, i: nat) {
    i + |sub| <= |s| && EqualsIgnoreCase(s[i..i + |sub|], sub)
  }

  /** `sub` occurs in `s` starting at index `i`, exactly. */
  predicate OccursAt(s: string, sub: string, i: nat) {
    i + |sub| <= |s| && s[i..i + |sub|] == sub
  }

  /** Case-insensitive substring search, scanning from position `from`. */
  function ContainsIgnoreCaseFrom(s: string, sub: string, from: nat): (b: bool)
    requires from <= |s|
    ensures b <==> exists i :: from <= i <= |s| && OccursIgnoreCaseAt(s, sub, i)
    decreases |s| - from
  {
    if OccursIgnoreCaseAt(s, sub, from) then true
    else if from == |s| then false
    else ContainsIgnoreCaseFrom(s, sub, from + 1)
  }

  /** Case-insensitive substring test (the empty pattern is always contained). */
  predicate ContainsIgnoreCase(s: string, sub: string) {
    ContainsIgnoreCaseFrom(s, sub, 0)
  }

  /** Case-sensitive substring search, scanning from position `from`. */
  function ContainsFrom(s: string, sub: string, from: nat): (b: bool)
    requires from <= |s|
    ensures b <==> exists i :: from <= i <= |s| && OccursAt(s, sub, i)
    decreases |s| - from
  {
    if OccursAt(s, sub, from) then true
    else if from == |s| then false
    else ContainsFrom(s, sub, from + 1)
  }

  /** Case-sensitive substring test. */
  predicate Contains(s: string, sub: string) {
    ContainsFrom(s, sub, 0)
  }

  /**
   * Replaces every occurrence of `pat` by `rep`, scanning left to right and
   * resuming after each replaced occurrence (occurrences do not overlap).
   */
  function ReplaceAll(s: string, pat: string, rep: string): string
    requires pat != []
    decreases |s|
  {
    if s == [] then []
    else if |pat| <= |s| && s[..|pat|] == pat then rep + ReplaceAll(s[|pat|..], pat, rep)
    else [s[0]] + ReplaceAll(s[1..], pat, rep)
  }

  /** A text in which the pattern does not occur is left unchanged. */
  lemma {:induction false} ReplaceAllAbsent(s: string, pat: string, rep: string)
    requires pat != [] && !Contains(s, pat)
    ensures ReplaceAll(s, pat, rep) == s
    decreases |s|
  {
    if s != [] {
      assert !OccursAt(s, pat, 0);
      assert !Contains(s[1..], pat) by {
        forall i | 0 <= i <= |s[1..]| ensures !OccursAt(s[1..], pat, i) {
          assert !OccursAt(s, pat, i + 1);
          if i + |pat| <= |s[1..]| {
            assert s[1..][i..i + |pat|] == s[i + 1..i + 1 + |pat|];
          }
        }
      }
      ReplaceAllAbsent(s[1..], pat, rep);
    }
  }

  /** Replacing a pattern by a text that has no `c` keeps `c` out. */
  lemma {:induction false} ReplaceAllKeepsOut(s: string, pat: string, rep: string, c: char)
    requires pat != [] && c !in s && c !in rep
    ensures c !in ReplaceAll(s, pat, rep)
    decreases |s|
  {
    if s == [] {
    } else if |pat| <= |s| && s[..|pat|] == pat {
      assert c !in s[|pat|..];
      ReplaceAllKeepsOut(s[|pat|..], pat, rep, c);
    } else {
      assert c !in s[1..];
      ReplaceAllKeepsOut(s[1..], pat, rep, c);
    }
  }

  /** A prefix free of the pattern's first character is copied unchanged. */
  lemma {:induction false} ReplaceAllSkip(a: string, b: string, pat: string, rep: string)
    requires pat != [] && pat[0] !in a
    ensures ReplaceAll(a + b, pat, rep) == a + ReplaceAll(b, pat, rep)
    decreases |a|
  {
    if a != [] {
      assert (a + b)[0] == a[0] != pat[0];
      assert (a + b)[1..] == a[1..] + b;
      ReplaceAllSkip(a[1..], b, pat, rep);
    } else {
      assert a + b == b;
    }
  }

  /** A text without the pattern's first character is left unchanged. */
  lemma ReplaceAllNone(s: string, pat: string, rep: string)
    requires pat != [] && pat[0] !in s
    ensures ReplaceAll(s, pat, rep) == s
  {
    ReplaceAllSkip(s, [], pat, rep);
    assert s + [] == s;
  }

  /** A text lacking one of the pattern's characters is left unchanged. */
  lemma ReplaceAllAbsentChar(s: string, pat: string, rep: string, c: char)
    requires pat != [] && c in pat && c !in s
    ensures ReplaceAll(s, pat, rep) == s
  {
    var k :| 0 <= k < |pat| && pat[k] == c;
    forall i | 0 <= i <= |s| ensures !OccursAt(s, pat, i) {
      if i + |pat| <= |s| {
        assert s[i..i + |pat|][k] == s[i + k] != c;
      }
    }
    ReplaceAllAbsent(s, pat, rep);
  }

  /** A front that is not an occurrence is copied and the scan moves on by one. */
  lemma ReplaceAllMiss(s: string, pat: string, rep: string)
    requires pat != [] && s != [] && !(|pat| <= |s| && s[..|pat|] == pat)
    ensures ReplaceAll(s, pat, rep) == [s[0]] + ReplaceAll(s[1..], pat, rep)
  {
  }

  /** An occurrence at the front is replaced and the scan resumes after it. */
  lemma ReplaceAllHit(b: string, pat: string, rep: string)
    requires pat != []
    ensures ReplaceAll(pat + b, pat, rep) == rep + ReplaceAll(b, pat, rep)
  {
    assert (pat + b)[..|pat|] == pat;
    assert (pat + b)[|pat|..] == b;
  }

  /** A text shorter than the pattern is left unchanged. */
  lemma {:induction false} ReplaceAllShort(s: string, pat: string, rep: string)
    requires pat != [] && |s| < |pat|
    ensures ReplaceAll(s, pat, rep) == s
    decreases |s|
  {
    if s != [] { ReplaceAllShort(s[1..], pat, rep); }
  }

  /** Leading whitespace does not change what trimming the start yields. */
  lemma {:induction false} TrimStartSpaces(pre: string, x: string)
    requires forall i :: 0 <= i < |pre| ==> IsSpace(pre[i])
    ensures TrimStart(pre + x) == TrimStart(x)
    decreases |pre|
  {
    if pre != [] {
      assert (pre + x)[0] == pre[0];
      assert (pre + x)[1..] == pre[1..] + x;
      TrimStartSpaces(pre[1..], x);
    } else {
      assert pre + x == x;
    }
  }

  /** Trailing whitespace after a non-space character is exactly what trimming the end drops. */
  lemma {:induction false} TrimEndSpaces(x: string, post: string)
    requires x != [] && !IsSpace(x[|x| - 1])
    requires forall i :: 0 <= i < |post| ==> IsSpace(post[i])
    ensures TrimEnd(x + post) == x
    decreases |post|
  {
    if post != [] {
      assert (x + post)[..|x + post| - 1] == x + post[..|post| - 1];
      TrimEndSpaces(x, post[..|post| - 1]);
    } else {
      assert x + post == x;
    }
  }

  /** Trimming recovers a text from between runs of whitespace. */
  lemma TrimSurrounded(pre: string, x: string, post: string)
    requires forall i :: 0 <= i < |pre| ==> IsSpace(pre[i])
    requires forall i :: 0 <= i < |post| ==> IsSpace(post[i])
    requires x != [] && !IsSpace(x[0]) && !IsSpace(x[|x| - 1])
    ensures Trim(pre + x + post) == x
  {
    assert pre + x + post == pre + (x + post);
    TrimStartSpaces(pre, x + post);
    assert TrimStart(x + post) == x + post;
    TrimEndSpaces(x, post);
  }

  // ---------------------------------------------------------------------
  // Decimal integers

  const IntMin: int := -0x8000_0000
  const IntMax: int := 0x7FFF_FFFF

  predicate IsDigit(c: char) { '0' <= c <= '9' }

  predicate AllDigits(s: string) { forall i :: 0 <= i < |s| ==> IsDigit(s[i]) }

  /** The value of a run of decimal digits, most significant first. */
  function DigitsValue(s: string): (v: nat)
    requires AllDigits(s)
  {
    if s == [] then 0
    else DigitsValue(s[..|s| - 1]) * 10 + (s[|s| - 1] as int - '0' as int)
  }

  /**
   * Converts text to a 32-bit integer: surrounding whitespace is ignored, an
   * optional sign may precede at least one decimal digit, and a malformed or
   * out-of-range text yields 0.
   */
  function ToInt(text: string): (r: int)
    ensures IntMin <= r <= IntMax
  {
    var t := Trim(text);
    var negative := t != [] && t[0] == '-';
    var digits := if t != [] && (t[0] == '-' || t[0] == '+') then t[1..] else t;
    if digits == [] || !AllDigits(digits) then 0
    else
      var n: int := DigitsValue(digits);
      var v := if negative then -n else n;
      if IntMin <= v <= IntMax then v else 0
  }

  /** Decimal representation of a natural number, without leading zeros. */
  function NatToDigits(n: nat): (s: string)
    ensures s != [] && AllDigits(s)
  {
    if n < 10 then ['0' + n as char]
    else NatToDigits(n / 10) + ['0' + (n % 10) as char]
  }

  lemma {:induction false} DigitsRoundTrip(n: nat)
    ensures DigitsValue(NatToDigits(n)) == n
  {
    if n >= 10 {
      var s := NatToDigits(n);
      assert s[..|s| - 1] == NatToDigits(n / 10);
      DigitsRoundTrip(n / 10);
    }
  }

  /** Every non-negative 32-bit integer survives printing and `ToInt`. */
  lemma ToIntRoundTrip(n: nat)
    requires n <= IntMax
    ensures ToInt(NatToDigits(n)) == n
  {
    var s := NatToDigits(n);
    TrimIdentity(s);
    DigitsRoundTrip(n);
    assert Trim(s) == s && IsDigit(s[0]);
    assert DigitsValue(s) == n;
  }

  /** A minus sign followed by decimal digits converts to the negated value when it fits. */
  lemma ToIntMinus(d: string)
    requires d != [] && AllDigits(d)
    ensures ToInt("-" + d) == if DigitsValue(d) <= -IntMin then -(DigitsValue(d) as int) else 0
  {
    var s := "-" + d;
    assert !IsSpace(s[0]) && !IsSpace(s[|s| - 1]) by {
      assert s[|s| - 1] == d[|d| - 1] && IsDigit(d[|d| - 1]);
    }
    TrimIdentity(s);
    assert s[1..] == d;
  }

  /** A negative number down to the 32-bit minimum survives printing with a minus sign. */
  lemma ToIntNegativeRoundTrip(n: nat)
    requires 0 < n <= -IntMin
    ensures ToInt("-" + NatToDigits(n)) == -(n as int)
  {
    ToIntMinus(NatToDigits(n));
    DigitsRoundTrip(n);
  }

  /** A decimal number above the 32-bit maximum converts to 0. */
  lemma ToIntOverflow(n: nat)
    requires n > IntMax
    ensures ToInt(NatToDigits(n)) == 0
  {
    var s := NatToDigits(n);
    TrimIdentity(s);
    DigitsRoundTrip(n);
    assert Trim(s) == s && IsDigit(s[0]);
  }

  /** A negative decimal number below the 32-bit minimum converts to 0. */
  lemma ToIntUnderflow(n: nat)
    requires n > -IntMin
    ensures ToInt("-" + NatToDigits(n)) == 0
  {
    ToIntMinus(NatToDigits(n));
    DigitsRoundTrip(n);
  }

  /** A text holding no decimal digit at all converts to 0. */
  lemma ToIntWithoutDigits(text: string)
    requires forall i :: 0 <= i < |text| ==> !IsDigit(text[i])
    ensures ToInt(text) == 0
  {
    var t := Trim(text);
    TrimIsSlice(text);
    if t != [] && (t[0] == '-' || t[0] == '+') && |t| > 1 {
      assert !IsDigit(t[1..][0]);
    } else if t != [] && !(t[0] == '-' || t[0] == '+') {
      assert !IsDigit(t[0]);
    }
  }

  /**
   * A trimmed text with a character other than a decimal digit after its
   * first position, or whose first character is neither a sign nor a digit,
   * converts to 0.
   */
  lemma ToIntMalformed(text: string, i: nat)
    requires i < |Trim(text)|
    requires !IsDigit(Trim(text)[i])
    requires i > 0 || (Trim(text)[0] != '-' && Trim(text)[0] != '+')
    ensures ToInt(text) == 0
  {
    var t := Trim(text);
    if t[0] == '-' || t[0] == '+' {
      assert t[1..][i - 1] == t[i];
    }
  }

  // ---------------------------------------------------------------------
  // The order in which an ordered map enumerates string keys

  /** Strict lexicographic order on strings, character by character. */
  predicate Less(a: string, b: string) {
    if a == [] then b != []
    else if b == [] then false
    else a[0] < b[0] || (a[0] == b[0] && Less(a[1..], b[1..]))
  }

  lemma {:induction false} LessIrreflexive(a: string)
    ensures !Less(a, a)
  {
    if a != [] { LessIrreflexive(a[1..]); }
  }

  lemma {:induction false} LessTransitive(a: string, b: string, c: string)
    requires Less(a, b) && Less(b, c)
    ensures Less(a, c)
  {
    if a != [] && b != [] && c != [] && a[0] == b[0] == c[0] {
      LessTransitive(a[1..], b[1..], c[1..]);
    }
  }

  lemma {:induction false} LessTotal(a: string, b: string)
    requires a != b
    ensures Less(a, b) || Less(b, a)
  {
    if a != [] && b != [] && a[0] == b[0] {
      LessTotal(a[1..], b[1..]);
    }
  }

  /** `k` is the least element of `keys`. */
  predicate IsLeast(k: string, keys: set<string>) {
    k in keys && forall j :: j in keys && j != k ==> Less(k, j)
  }

  /** Every non-empty finite set of strings has a least element. */
  lemma {:induction false} LeastExists(keys: set<string>)
    requires keys != {}
    ensures exists k :: IsLeast(k, keys)
    decreases |keys|
  {
    var x :| x in keys;
    var rest := keys - {x};
    if rest == {} {
      assert keys == {x};
      assert IsLeast(x, keys);
    } else {
      LeastExists(rest);
      var m :| IsLeast(m, rest);
      if Less(x, m) {
        forall j | j in keys && j != x ensures Less(x, j) {
          if j != m { LessTransitive(x, m, j); }
        }
        assert IsLeast(x, keys);
      } else {
        LessTotal(x, m);
        assert IsLeast(m, keys);
      }
    }
  }

  /** A sequence of keys strictly increasing in the enumeration order. */
  predicate StrictlyIncreasing(s: seq<string>) {
    forall i, j :: 0 <= i < j < |s| ==> Less(s[i], s[j])
  }

  /** The first element of a strictly increasing sequence is below all others. */
  lemma HeadIsLeast(s: seq<string>, x: string)
    requires StrictlyIncreasing(s) && x in s
    ensures x == s[0] || Less(s[0], x)
  {
    var i :| 0 <= i < |s| && s[i] == x;
  }

  /** A strictly increasing sequence is determined by the set of its elements. */
  lemma {:induction false} IncreasingUnique(s: seq<string>, t: seq<string>)
    requires StrictlyIncreasing(s) && StrictlyIncreasing(t)
    requires forall x :: x in s <==> x in t
    ensures s == t
    decreases |s|
  {
    assert s == [] <==> t == [] by {
      if s != [] { assert s[0] in t; }
      if t != [] { assert t[0] in s; }
    }
    if s != [] {
      HeadIsLeast(t, s[0]);
      HeadIsLeast(s, t[0]);
      if s[0] != t[0] {
        LessTransitive(s[0], t[0], s[0]);
        LessIrreflexive(s[0]);
        assert false;
      }
      forall x ensures x in s[1..] <==> x in t[1..] {
        if x in s[1..] {
          var i :| 1 <= i < |s| && s[i] == x;
          assert Less(s[0], x);
          LessIrreflexive(x);
          assert x in t && x != t[0];
        }
        if x in t[1..] {
          var i :| 1 <= i < |t| && t[i] == x;
          assert Less(t[0], x);
          LessIrreflexive(x);
          assert x in s && x != s[0];
        }
      }
      IncreasingUnique(s[1..], t[1..]);
    }
  }

  /** The keys of a finite set in enumeration order. */
  ghost function Enumerate(keys: set<string>): (r: seq<string>)
    ensures StrictlyIncreasing(r)
    ensures forall x :: x in r <==> x in keys
    decreases |keys|
  {
    if keys == {} then []
    else
      LeastExists(keys);
      var k :| IsLeast(k, keys);
      var rest := Enumerate(keys - {k});
      assert forall j :: 0 <= j < |rest| ==> Less(k, rest[j]) by {
        forall j | 0 <= j < |rest| ensures Less(k, rest[j]) {
          assert rest[j] in keys - {k};
        }
      }
      [k] + rest
  }

  /** Enumeration starts with the least key. */
  lemma EnumerateLeast(keys: set<string>, k: string)
    requires IsLeast(k, keys)
    ensures Enumerate(keys) == [k] + Enumerate(keys - {k})
  {
    var t := [k] + Enumerate(keys - {k});
    forall i, j | 0 <= i < j < |t| ensures Less(t[i], t[j]) {
      if i == 0 { assert t[j] in keys - {k}; }
    }
    IncreasingUnique(Enumerate(keys), t);
  }
}
