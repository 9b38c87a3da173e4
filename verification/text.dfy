/** String operations the pages borrow from the JavaScript runtime: `trim`,
    `toLowerCase`/`toUpperCase`, `includes`, the default `sort` order, and the
    `||` fallback on strings. A `char` here stands for one UTF-16 code unit. */
module Text {
  import opened Options

  // ---------------------------------------------------------------------------
  // Whitespace and trim
  // ---------------------------------------------------------------------------

  /** The WhiteSpace and LineTerminator code points of ECMAScript (section 12.2
      and 12.3 of ECMA-262): exactly what `String.prototype.trim` strips. */
  predicate IsSpace(c: char) {
    || c == '\t' || c == '\n' || c == '\U{000B}' || c == '\U{000C}' || c == '\r'
    || c == ' ' || c == '\U{00A0}' || c == '\U{1680}'
    || ('\U{2000}' <= c <= '\U{200A}')
    || c == '\U{2028}' || c == '\U{2029}' || c == '\U{202F}' || c == '\U{205F}'
    || c == '\U{3000}' || c == '\U{FEFF}'
  }

  predicate AllSpace(s: string) {
    forall i | 0 <= i < |s| :: IsSpace(s[i])
  }

  /** Neither end of `s` is whitespace. */
  predicate IsTrimmed(s: string) {
    s == [] || (!IsSpace(s[0]) && !IsSpace(s[|s| - 1]))
  }

  /** `s` is `r` with `lead` whitespace characters before it and only
      whitespace after it. */
  predicate PaddedAt(s: string, r: string, lead: int) {
    && 0 <= lead && lead + |r| <= |s|
    && s[lead..lead + |r|] == r
    && AllSpace(s[..lead])
    && AllSpace(s[lead + |r|..])
  }

  /** `s` is `r` surrounded by whitespace on both sides. */
  predicate Padded(s: string, r: string) {
    exists lead | 0 <= lead <= |s| - |r| :: PaddedAt(s, r, lead)
  }

  /** A whitespace character followed by whitespace is whitespace. */
  lemma AllSpaceCons(s: string, n: int)
    requires 0 < n <= |s| && IsSpace(s[0]) && AllSpace(s[1..][..n - 1])
    ensures AllSpace(s[..n])
  {
    forall i | 0 <= i < n
      ensures IsSpace(s[..n][i])
    {
      if i > 0 {
        assert s[..n][i] == s[1..][..n - 1][i - 1];
      }
    }
  }

  /** Whitespace followed by a whitespace character is whitespace. */
  lemma AllSpaceSnoc(s: string, n: int)
    requires 0 <= n < |s| && IsSpace(s[|s| - 1]) && AllSpace(s[..|s| - 1][n..])
    ensures AllSpace(s[n..])
  {
    forall i | 0 <= i < |s| - n
      ensures IsSpace(s[n..][i])
    {
      if i < |s| - 1 - n {
        assert s[n..][i] == s[..|s| - 1][n..][i];
      }
    }
  }

  /** The number of whitespace characters `s` starts with. */
  function LeadingSpaces(s: string): (n: nat)
    ensures n <= |s| && AllSpace(s[..n])
    ensures n == |s| || !IsSpace(s[n])
  {
    if |s| > 0 && IsSpace(s[0]) then
      var m := LeadingSpaces(s[1..]);
      AllSpaceCons(s, m + 1);
      m + 1
    else 0
  }

  /** The number of whitespace characters `s` ends with. */
  function TrailingSpaces(s: string): (n: nat)
    ensures n <= |s| && AllSpace(s[|s| - n..])
    ensures n == |s| || !IsSpace(s[|s| - n - 1])
  {
    if |s| > 0 && IsSpace(s[|s| - 1]) then
      var m := TrailingSpaces(s[..|s| - 1]);
      AllSpaceSnoc(s, |s| - 1 - m);
      m + 1
    else 0
  }

  /** Drops leading whitespace. */
  function TrimStart(s: string): (r: string)
    ensures |r| <= |s| && r == s[|s| - |r|..]
    ensures AllSpace(s[..|s| - |r|])
    ensures r == [] || !IsSpace(r[0])
  {
    s[LeadingSpaces(s)..]
  }

  /** Drops trailing whitespace. */
  function TrimEnd(s: string): (r: string)
    ensures |r| <= |s| && r == s[..|r|]
    ensures AllSpace(s[|r|..])
    ensures r == [] || !IsSpace(r[|r| - 1])
  {
    s[..|s| - TrailingSpaces(s)]
  }

  /** A prefix `r` of a suffix `t` of `s`, with only whitespace around both,
      is padded in `s`. */
  lemma PaddedPrefixOfSuffix(s: string, t: string, r: string)
    requires |t| <= |s| && t == s[|s| - |t|..] && AllSpace(s[..|s| - |t|])
    requires |r| <= |t| && r == t[..|r|] && AllSpace(t[|r|..])
    ensures PaddedAt(s, r, |s| - |t|)
  {
    var lead := |s| - |t|;
    assert s[lead..lead + |r|] == t[..|r|];
    assert s[lead + |r|..] == t[|r|..];
  }

  /** `String.prototype.trim`: the text between the surrounding whitespace. */
  function Trim(s: string): (r: string)
    ensures IsTrimmed(r)
    ensures Padded(s, r)
  {
    var t := TrimStart(s);
    var r := TrimEnd(t);
    PaddedPrefixOfSuffix(s, t, r);
    assert r != [] ==> r[0] == t[0];
    r
  }

  /** Only whitespace pads to the empty string. */
  lemma PaddedEmpty(s: string)
    requires Padded(s, [])
    ensures AllSpace(s)
  {
    var lead :| 0 <= lead <= |s| && PaddedAt(s, [], lead);
    forall i | 0 <= i < |s|
      ensures IsSpace(s[i])
    {
      if i < lead {
        assert s[..lead][i] == s[i];
      } else {
        assert s[lead..][i - lead] == s[i];
      }
    }
  }

  /** Trimming gives the empty string exactly when the input is blank: the
      guard `!text.trim()` of every form handler. */
  lemma TrimEmptyIff(s: string)
    ensures Trim(s) == [] <==> AllSpace(s)
  {
    if Trim(s) == [] {
      PaddedEmpty(s);
    }
  }

  /** Two paddings of `s` by strings that start with a non-space character
      start at the same place. */
  lemma PaddedSameStart(s: string, r: string, a: int, t: string, b: int)
    requires PaddedAt(s, r, a) && PaddedAt(s, t, b)
    requires r != [] && t != [] && !IsSpace(r[0]) && !IsSpace(t[0])
    ensures a == b
  {
    assert s[a..a + |r|][0] == s[a];
    assert s[b..b + |t|][0] == s[b];
  }

  /** Two paddings of `s` that start at the same place by strings that end
      with a non-space character are the same string. */
  lemma PaddedSameEnd(s: string, r: string, t: string, a: int)
    requires PaddedAt(s, r, a) && PaddedAt(s, t, a)
    requires r != [] && t != [] && !IsSpace(r[|r| - 1]) && !IsSpace(t[|t| - 1])
    ensures r == t
  {
    var e, f := a + |r|, a + |t|;
    assert s[a..e][|r| - 1] == s[e - 1];
    assert s[a..f][|t| - 1] == s[f - 1];
  }

  /** Trim is determined by its contract: the only string without whitespace
      at its ends that `s` pads is `Trim(s)`. */
  lemma TrimUnique(s: string, r: string)
    requires IsTrimmed(r) && Padded(s, r)
    ensures r == Trim(s)
  {
    var t := Trim(s);
    if r == [] {
      PaddedEmpty(s);
      TrimEmptyIff(s);
    } else if t == [] {
      TrimEmptyIff(s);
    } else {
      var a :| 0 <= a <= |s| - |r| && PaddedAt(s, r, a);
      var b :| 0 <= b <= |s| - |t| && PaddedAt(s, t, b);
      PaddedSameStart(s, r, a, t, b);
      PaddedSameEnd(s, r, t, a);
    }
  }

  /** Trimming an already trimmed string changes nothing. */
  lemma TrimTrimmed(s: string)
    requires IsTrimmed(s)
    ensures Trim(s) == s
  {
    assert PaddedAt(s, s, 0) by {
      assert s[..0] == [] && s[|s|..] == [];
    }
    TrimUnique(s, s);
  }

  /** Trim is idempotent. */
  lemma TrimIdempotent(s: string)
    ensures Trim(Trim(s)) == Trim(s)
  {
    TrimTrimmed(Trim(s));
  }

  // ---------------------------------------------------------------------------
  // Letter case (ASCII)
  // ---------------------------------------------------------------------------

  predicate IsUpperAscii(c: char) { 'A' <= c <= 'Z' }

  predicate IsLowerAscii(c: char) { 'a' <= c <= 'z' }

  function LowerChar(c: char): (r: char)
    ensures !IsUpperAscii(r)
  {
    if IsUpperAscii(c) then (c as int + 32) as char else c
  }

  function UpperChar(c: char): (r: char)
    ensures !IsLowerAscii(r)
  {
    if IsLowerAscii(c) then (c as int - 32) as char else c
  }

  /** `toLowerCase`, restricted to ASCII letters. */
  function Lower(s: string): (r: string)
    ensures |r| == |s|
    ensures forall i | 0 <= i < |s| :: r[i] == LowerChar(s[i])
  {
    if s == [] then [] else [LowerChar(s[0])] + Lower(s[1..])
  }

  /** `toUpperCase`, restricted to ASCII letters. */
  function Upper(s: string): (r: string)
    ensures |r| == |s|
    ensures forall i | 0 <= i < |s| :: r[i] == UpperChar(s[i])
  {
    if s == [] then [] else [UpperChar(s[0])] + Upper(s[1..])
  }

  lemma LowerSlice(s: string, i: int, j: int)
    requires 0 <= i <= j <= |s|
    ensures Lower(s[i..j]) == Lower(s)[i..j]
  {
  }

  // ---------------------------------------------------------------------------
  // Substrings
  // ---------------------------------------------------------------------------

  /** `q` occurs in `s` starting at index `i`. */
  predicate OccursAt(s: string, q: string, i: int) {
    0 <= i && i + |q| <= |s| && s[i..i + |q|] == q
  }

  /** `String.prototype.includes`. */
  predicate Contains(s: string, q: string) {
    exists i | 0 <= i <= |s| - |q| :: OccursAt(s, q, i)
  }

  /** Every string includes the empty string. */
  lemma ContainsEmpty(s: string)
    ensures Contains(s, [])
  {
    assert OccursAt(s, [], 0);
  }

  /** A substring of a substring is a substring. */
  lemma ContainsTransitive(s: string, m: string, q: string)
    requires Contains(s, m) && Contains(m, q)
    ensures Contains(s, q)
  {
    var i :| 0 <= i <= |s| - |m| && OccursAt(s, m, i);
    var j :| 0 <= j <= |m| - |q| && OccursAt(m, q, j);
    assert s[i + j..i + j + |q|] == q by {
      forall k | 0 <= k < |q|
        ensures s[i + j + k] == q[k]
      {
        assert m[j + k] == q[k];
        assert s[i..i + |m|][j + k] == s[i + j + k];
      }
    }
    assert OccursAt(s, q, i + j);
  }

  /** Lower-casing both sides keeps an occurrence. */
  lemma ContainsLower(s: string, q: string)
    requires Contains(s, q)
    ensures Contains(Lower(s), Lower(q))
  {
    var i :| 0 <= i <= |s| - |q| && OccursAt(s, q, i);
    LowerSlice(s, i, i + |q|);
    assert OccursAt(Lower(s), Lower(q), i);
  }

  // ---------------------------------------------------------------------------
  // Default sort order
  // ---------------------------------------------------------------------------

  /** The order `Array.prototype.sort` uses for strings when given no
      comparator: code unit by code unit, a proper prefix first. */
  predicate LexLessEq(a: string, b: string) {
    if a == [] then true
    else if b == [] then false
    else if a[0] != b[0] then a[0] < b[0]
    else LexLessEq(a[1..], b[1..])
  }

  lemma {:induction false} LexTotal(a: string, b: string)
    ensures LexLessEq(a, b) || LexLessEq(b, a)
  {
    if a != [] && b != [] && a[0] == b[0] {
      LexTotal(a[1..], b[1..]);
    }
  }

  lemma {:induction false} LexAntisymmetric(a: string, b: string)
    requires LexLessEq(a, b) && LexLessEq(b, a)
    ensures a == b
  {
    if a != [] && b != [] {
      LexAntisymmetric(a[1..], b[1..]);
      assert a == [a[0]] + a[1..] && b == [b[0]] + b[1..];
    }
  }

  // ---------------------------------------------------------------------------
  // JavaScript fallbacks
  // ---------------------------------------------------------------------------

  /** `value || fallback` for a string that may be missing: both a missing and
      an empty string are falsy. */
  function OrElse(o: Option<string>, fallback: string): string {
    if o.Some? && o.value != "" then o.value else fallback
  }

  /** A template literal `${value}`: a missing value prints as "undefined". */
  function Interpolate(o: Option<string>): string {
    match o
    case Some(s) => s
    case None => "undefined"
  }
}
