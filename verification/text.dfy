/** String helpers the components rely on: JavaScript's `trim`,
    `includes`, `toLowerCase` and decimal number rendering. */
module Text {

  /** JavaScript's WhiteSpace and LineTerminator code points, the set that
      `String.prototype.trim` removes. */
  predicate IsWhitespace(c: char)
  {
    || c == '\t' || c == '\n' || c == '\U{000B}' || c == '\U{000C}' || c == '\r'
    || c == ' ' || c == '\U{00A0}' || c == '\U{1680}'
    || ('\U{2000}' <= c <= '\U{200A}')
    || c == '\U{2028}' || c == '\U{2029}' || c == '\U{202F}' || c == '\U{205F}'
    || c == '\U{3000}' || c == '\U{FEFF}'
  }

  /** A string that `trim()` turns into the falsy empty string. */
  predicate IsBlank(s: string)
  {
    forall i :: 0 <= i < |s| ==> IsWhitespace(s[i])
  }

  /** The index of the first non-whitespace character at or after `i`, or
      `|s|` when there is none. */
  function SkipBlanks(s: string, i: nat): (j: nat)
    requires i <= |s|
    ensures i <= j <= |s|
    ensures forall m :: i <= m < j ==> IsWhitespace(s[m])
    ensures j < |s| ==> !IsWhitespace(s[j])
    decreases |s| - i
  {
    if i < |s| && IsWhitespace(s[i]) then SkipBlanks(s, i + 1) else i
  }

  /** The index just past the last non-whitespace character in `s[lo..j]`,
      or `lo` when there is none. */
  function BackBlanks(s: string, lo: nat, j: nat): (k: nat)
    requires lo <= j <= |s|
    ensures lo <= k <= j
    ensures forall m :: k <= m < j ==> IsWhitespace(s[m])
    ensures k > lo ==> !IsWhitespace(s[k - 1])
    decreases j
  {
    if j > lo && IsWhitespace(s[j - 1]) then BackBlanks(s, lo, j - 1) else j
  }

  /** `s.trim()`: `s` without its leading and trailing whitespace; the
      result sits in `s`, neither starts nor ends with whitespace, and is
      empty exactly when `s` is blank. */
  function Trim(s: string): (r: string)
    ensures Contains(s, r)
    ensures r == [] <==> IsBlank(s)
    ensures r != [] ==> !IsWhitespace(r[0]) && !IsWhitespace(r[|r| - 1])
    ensures s != [] && !IsWhitespace(s[0]) && !IsWhitespace(s[|s| - 1]) ==> r == s
  {
    var a := SkipBlanks(s, 0);
    var b := BackBlanks(s, a, |s|);
    TrimFacts(s, a, b);
    s[a..b]
  }

  lemma TrimFacts(s: string, a: nat, b: nat)
    requires a == SkipBlanks(s, 0) && b == BackBlanks(s, a, |s|)
    ensures Contains(s, s[a..b])
    ensures s[a..b] == [] <==> IsBlank(s)
    ensures a < b ==> !IsWhitespace(s[a..b][0]) && !IsWhitespace(s[a..b][b - a - 1])
    ensures s != [] && !IsWhitespace(s[0]) && !IsWhitespace(s[|s| - 1]) ==> s[a..b] == s
  {
    assert OccursAt(s, s[a..b], a);
    if a == b {
      assert IsBlank(s);
    } else {
      assert !IsWhitespace(s[a]);
    }
  }

  /** `trim` removes exactly a blank prefix and a blank suffix: the result
      is the infix `s[a..b]`, everything before `a` and everything from `b`
      on is whitespace, and `s[a]` and `s[b - 1]` are not. */
  lemma TrimShape(s: string)
    ensures var a := SkipBlanks(s, 0); var b := BackBlanks(s, a, |s|);
      Trim(s) == s[a..b]
      && (forall i :: 0 <= i < a ==> IsWhitespace(s[i]))
      && (forall i :: b <= i < |s| ==> IsWhitespace(s[i]))
      && (a < b ==> !IsWhitespace(s[a]) && !IsWhitespace(s[b - 1]))
  {
  }

  /** Trimming twice is the same as trimming once. */
  lemma TrimIdempotent(s: string)
    ensures Trim(Trim(s)) == Trim(s)
  {
    var r := Trim(s);
    if r == [] {
      assert SkipBlanks(r, 0) == 0;
    }
  }

  /** `w` sits in `s` starting at position `i`. */
  predicate OccursAt(s: string, w: string, i: nat)
  {
    i + |w| <= |s| && s[i..i + |w|] == w
  }

  /** `s.includes(w)`: `w` occurs in `s` as a contiguous infix. */
  predicate Contains(s: string, w: string)
    ensures Contains(s, w) <==> exists i: nat :: OccursAt(s, w, i)
    decreases |s|
  {
    if |w| > |s| then false
    else if s[..|w|] == w then assert OccursAt(s, w, 0); true
    else
      assert forall i: nat :: 0 < i && OccursAt(s, w, i) ==> OccursAt(s[1..], w, i - 1) by {
        forall i: nat | 0 < i && OccursAt(s, w, i)
          ensures OccursAt(s[1..], w, i - 1)
        {
          assert s[1..][i - 1..i - 1 + |w|] == s[i..i + |w|];
        }
      }
      assert forall i: nat :: OccursAt(s[1..], w, i) ==> OccursAt(s, w, i + 1) by {
        forall i: nat | OccursAt(s[1..], w, i)
          ensures OccursAt(s, w, i + 1)
        {
          assert s[1..][i..i + |w|] == s[i + 1..i + 1 + |w|];
        }
      }
      assert !OccursAt(s, w, 0);
      Contains(s[1..], w)
  }

  /** An occurrence at any position makes `Contains` true. */
  lemma {:induction false} ContainsAt(s: string, w: string, i: nat)
    requires i + |w| <= |s| && s[i..i + |w|] == w
    ensures Contains(s, w)
    decreases i
  {
    if i > 0 {
      assert s[1..][i - 1..i - 1 + |w|] == s[i..i + |w|];
      ContainsAt(s[1..], w, i - 1);
    } else {
      assert s[..|w|] == w;
    }
  }

  /** Every character of an occurring word occurs in the text; used to show
      that a keyword is absent. */
  lemma {:induction false} ContainsChars(s: string, w: string)
    requires Contains(s, w)
    ensures forall k :: 0 <= k < |w| ==> w[k] in s
    decreases |s|
  {
    if s[..|w|] == w {
      forall k | 0 <= k < |w|
        ensures w[k] in s
      {
        assert w[k] == s[k];
      }
    } else {
      ContainsChars(s[1..], w);
      forall k | 0 <= k < |w|
        ensures w[k] in s
      {
        var j :| 0 <= j < |s[1..]| && s[1..][j] == w[k];
        assert s[j + 1] == w[k];
      }
    }
  }

  /** Upper-case letters of the Latin and Cyrillic alphabets. */
  predicate IsUpperCase(c: char)
  {
    ('A' <= c <= 'Z') || ('Ѐ' <= c <= 'Я')
  }

  /** `toLowerCase` on one character, for the Basic Latin and Cyrillic
      letters (`Ѐ`..`Џ` map to `ѐ`..`џ`, `А`..`Я` to `а`..`я`); every other
      character is returned unchanged. */
  function LowerChar(c: char): (r: char)
    ensures !IsUpperCase(r)
    ensures !IsUpperCase(c) ==> r == c
  {
    if 'A' <= c <= 'Z' then (c as int + 32) as char
    else if 'Ѐ' <= c <= 'Џ' then (c as int + 0x50) as char
    else if 'А' <= c <= 'Я' then (c as int + 0x20) as char
    else c
  }

  /** `s.toLowerCase()`, character by character. */
  function Lower(s: string): (r: string)
    ensures |r| == |s|
    ensures forall i :: 0 <= i < |s| ==> r[i] == LowerChar(s[i])
  {
    seq(|s|, i requires 0 <= i < |s| => LowerChar(s[i]))
  }

  /** Lower-casing is idempotent. */
  lemma LowerIdempotent(s: string)
    ensures Lower(Lower(s)) == Lower(s)
  {
  }

  function DigitChar(d: nat): (c: char)
    requires d < 10
    ensures '0' <= c <= '9'
  {
    ('0' as int + d) as char
  }

  /** `String(n)` for a natural number: its decimal digits, most
      significant first, without leading zeros. */
  function Decimal(n: nat): (r: string)
    ensures |r| >= 1
    ensures n >= 10 <==> |r| >= 2
    ensures r[|r| - 1] == DigitChar(n % 10)
    decreases n
  {
    if n < 10 then [DigitChar(n)] else Decimal(n / 10) + [DigitChar(n % 10)]
  }

  /** Different numbers render differently. */
  lemma {:induction false} DecimalInjective(a: nat, b: nat)
    requires Decimal(a) == Decimal(b)
    ensures a == b
    decreases a
  {
    if a >= 10 {
      var da, db := Decimal(a), Decimal(b);
      assert da[..|da| - 1] == Decimal(a / 10);
      assert db[..|db| - 1] == Decimal(b / 10);
      DecimalInjective(a / 10, b / 10);
    }
  }
}
