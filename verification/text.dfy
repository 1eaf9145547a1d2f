/** The string primitives the scoring code relies on, restricted to the forms
    the site's inputs take: JavaScript's `Number(s)` and `parseInt(s)` on
    decimal integers, `String.prototype.split` by one character,
    `Array.prototype.join`, `trim`, the UTF-16 `length` and the comparison
    with a lower-cased literal. */
module Text {
  import opened Wrappers

  predicate IsDigit(c: char) {
    '0' <= c <= '9'
  }

  predicate AllDigits(s: string) {
    forall i :: 0 <= i < |s| ==> IsDigit(s[i])
  }

  function DigitChar(d: nat): (c: char)
    requires d < 10
    ensures IsDigit(c)
  {
    ['0', '1', '2', '3', '4', '5', '6', '7', '8', '9'][d]
  }

  function DigitValue(c: char): (d: nat)
    requires IsDigit(c)
    ensures d < 10
  {
    c as int - '0' as int
  }

  /** The value of a decimal numeral, most significant digit first. */
  function DigitsValue(s: string): nat
    requires AllDigits(s)
  {
    if s == [] then 0 else DigitsValue(s[..|s| - 1]) * 10 + DigitValue(s[|s| - 1])
  }

  /** The decimal numeral JavaScript prints for a non-negative integer. */
  function NatToString(n: nat): (r: string)
    ensures |r| >= 1 && AllDigits(r)
    ensures DigitsValue(r) == n
    ensures n != 0 ==> r[0] != '0'
  {
    if n < 10 then
      var r := [DigitChar(n)];
      assert r[..0] == [];
      r
    else
      var prefix := NatToString(n / 10);
      var r := prefix + [DigitChar(n % 10)];
      assert r[..|r| - 1] == prefix;
      r
  }

  function IntToString(i: int): (r: string)
    ensures |r| >= 1
  {
    if i < 0 then "-" + NatToString(-i) else NatToString(i)
  }

  predicate IsSign(c: char) {
    c == '+' || c == '-'
  }

  function Signed(c: char, magnitude: nat): int
    requires IsSign(c)
  {
    if c == '-' then -(magnitude as int) else magnitude
  }

  /** The strings `Number` reads as an integer here: the empty string and
      a decimal numeral with an optional sign. */
  predicate IsNumeral(s: string) {
    s == "" || AllDigits(s) || (|s| > 1 && IsSign(s[0]) && AllDigits(s[1..]))
  }

  /** JavaScript's `Number(s)` on the strings a score cell can hold: the
      empty string is 0, an optionally signed decimal numeral is its value,
      and anything else is NaN, written `None`. */
  function ParseNumber(s: string): (r: Option<int>)
    ensures r.Some? <==> IsNumeral(s)
    ensures s == "" ==> r == Some(0)
    ensures AllDigits(s) ==> r == Some(DigitsValue(s))
    ensures |s| > 1 && IsSign(s[0]) && AllDigits(s[1..]) ==> r == Some(Signed(s[0], DigitsValue(s[1..])))
    ensures r.Some? && s != "" ==> IsDigit(s[|s| - 1])
  {
    if s == "" then Some(0)
    else if IsSign(s[0]) then
      if |s| > 1 && AllDigits(s[1..]) then Some(Signed(s[0], DigitsValue(s[1..]))) else None
    else if AllDigits(s) then Some(DigitsValue(s))
    else None
  }

  /** The longest prefix of `s` made of decimal digits. */
  function LeadingDigits(s: string): (r: string)
    ensures AllDigits(r) && r <= s
    ensures |r| < |s| ==> !IsDigit(s[|r|])
  {
    if s != [] && IsDigit(s[0]) then [s[0]] + LeadingDigits(s[1..]) else []
  }

  /** JavaScript's `parseInt(s)` on decimal input: an optional sign followed
      by at least one digit gives the value of those digits, whatever
      follows them; anything else is NaN, written `None`. */
  function ParseInt(s: string): (r: Option<int>)
    ensures r.Some? ==> |s| >= 1 && (IsDigit(s[0]) || (|s| >= 2 && IsSign(s[0]) && IsDigit(s[1])))
  {
    if s != [] && IsSign(s[0]) then
      var digits := LeadingDigits(s[1..]);
      if digits == [] then None else Some(Signed(s[0], DigitsValue(digits)))
    else
      var digits := LeadingDigits(s);
      if digits == [] then None else Some(DigitsValue(digits))
  }

  /** `parseInt(s) || 0`: NaN (and zero) become 0. */
  function ParseIntOrZero(s: string): int {
    ParseInt(s).GetOr(0)
  }

  lemma {:induction false} DigitsValueAppend(s: string, c: char)
    requires AllDigits(s) && IsDigit(c)
    ensures AllDigits(s + [c])
    ensures DigitsValue(s + [c]) == DigitsValue(s) * 10 + DigitValue(c)
  {
    assert (s + [c])[..|s|] == s;
  }

  lemma {:induction false} LeadingDigitsOfNumeral(d: string, rest: string)
    requires AllDigits(d)
    requires rest == [] || !IsDigit(rest[0])
    ensures LeadingDigits(d + rest) == d
  {
    if d != [] {
      assert (d + rest)[1..] == d[1..] + rest;
      LeadingDigitsOfNumeral(d[1..], rest);
      assert d == [d[0]] + d[1..];
    } else {
      assert d + rest == rest;
    }
  }

  /** `Number` reads back every integer JavaScript prints. */
  lemma ParseNumberRoundTrip(i: int)
    ensures ParseNumber(IntToString(i)) == Some(i)
  {
    if i < 0 {
      var s := IntToString(i);
      assert s[1..] == NatToString(-i);
    }
  }

  /** `parseInt` reads back every printed integer, and ignores whatever
      non-digit text follows it. */
  lemma ParseIntRoundTrip(i: int, rest: string)
    requires rest == [] || !IsDigit(rest[0])
    ensures ParseIntOrZero(IntToString(i) + rest) == i
  {
    var s := IntToString(i) + rest;
    if i < 0 {
      var n := NatToString(-i);
      assert s == "-" + (n + rest);
      assert s[0] == '-' && s[1..] == n + rest;
      LeadingDigitsOfNumeral(n, rest);
      assert LeadingDigits(s[1..]) == n;
      assert ParseInt(s) == Some(-(-i));
    } else {
      var n := NatToString(i);
      assert s == n + rest && s[0] == n[0];
      assert !IsSign(s[0]);
      LeadingDigitsOfNumeral(n, rest);
      assert ParseInt(s) == Some(DigitsValue(n));
    }
  }

  /** JavaScript's `s.split(c)` for a one-character separator. */
  function Split(s: string, c: char): (r: seq<string>)
    ensures |r| >= 1
    ensures forall k :: 0 <= k < |r| ==> c !in r[k]
    ensures c in s <==> |r| >= 2
  {
    if s == [] then [[]]
    else
      var tail := Split(s[1..], c);
      if s[0] == c then [[]] + tail
      else
        assert c in s <==> c in s[1..];
        [[s[0]] + tail[0]] + tail[1..]
  }

  /** JavaScript's `xs.join(sep)`. */
  function Join(xs: seq<string>, sep: string): string {
    if |xs| == 0 then ""
    else if |xs| == 1 then xs[0]
    else xs[0] + sep + Join(xs[1..], sep)
  }

  /** Joining the parts of a split with the separator gives the original
      string back. */
  lemma {:induction false} SplitJoin(s: string, c: char)
    ensures Join(Split(s, c), [c]) == s
  {
    if s != [] {
      var tail := Split(s[1..], c);
      SplitJoin(s[1..], c);
      if s[0] == c {
        assert s == [c] + s[1..];
      } else if |tail| == 1 {
        assert s == [s[0]] + s[1..];
      } else {
        assert Join(tail, [c]) == tail[0] + [c] + Join(tail[1..], [c]);
        assert s == [s[0]] + s[1..];
      }
    }
  }

  /** The characters `String.prototype.trim` removes: ECMAScript white space
      and line terminators. */
  predicate IsWhiteSpace(c: char) {
    || c == ' ' || c == '\t' || c == '\n' || c == '\r'
    || c == '\U{000B}' || c == '\U{000C}' || c == '\U{00A0}' || c == '\U{FEFF}'
    || c == '\U{1680}' || ('\U{2000}' <= c <= '\U{200A}')
    || c == '\U{2028}' || c == '\U{2029}' || c == '\U{202F}' || c == '\U{205F}'
    || c == '\U{3000}'
  }

  predicate AllWhiteSpace(s: string) {
    forall i :: 0 <= i < |s| ==> IsWhiteSpace(s[i])
  }

  lemma WhiteSpacePrefixStep(s: string, k: nat)
    requires s != [] && IsWhiteSpace(s[0]) && k < |s| && AllWhiteSpace(s[1..][..k])
    ensures s[1..][k..] == s[k + 1..]
    ensures AllWhiteSpace(s[..k + 1])
  {
    var prefix := s[..k + 1];
    var rest := s[1..][..k];
    forall i | 0 < i < |prefix|
      ensures IsWhiteSpace(prefix[i])
    {
      assert prefix[i] == rest[i - 1];
    }
  }

  function TrimStart(s: string): (r: string)
    ensures r == [] || !IsWhiteSpace(r[0])
    ensures exists k :: 0 <= k <= |s| && r == s[k..] && AllWhiteSpace(s[..k])
  {
    if s != [] && IsWhiteSpace(s[0]) then
      var r := TrimStart(s[1..]);
      ghost var k :| 0 <= k <= |s[1..]| && r == s[1..][k..] && AllWhiteSpace(s[1..][..k]);
      WhiteSpacePrefixStep(s, k);
      r
    else
      assert s == s[0..] && s[..0] == [];
      s
  }

  function TrimEnd(s: string): (r: string)
    ensures r == [] || !IsWhiteSpace(r[|r| - 1])
    ensures exists k :: 0 <= k <= |s| && r == s[..k] && AllWhiteSpace(s[k..])
  {
    if s != [] && IsWhiteSpace(s[|s| - 1]) then
      var front := s[..|s| - 1];
      var r := TrimEnd(front);
      ghost var k :| 0 <= k <= |front| && r == front[..k] && AllWhiteSpace(front[k..]);
      assert r == s[..k];
      assert s[k..] == front[k..] + [s[|s| - 1]];
      r
    else
      assert s == s[..|s|] && s[|s|..] == [];
      s
  }

  /** `s.trim()`: the contiguous middle of `s` left after removing white
      space at both ends. */
  function Trim(s: string): (r: string)
    ensures r == [] || (!IsWhiteSpace(r[0]) && !IsWhiteSpace(r[|r| - 1]))
    ensures exists i, j :: 0 <= i <= j <= |s| && r == s[i..j] && AllWhiteSpace(s[..i]) && AllWhiteSpace(s[j..])
  {
    TrimIsSlice(s);
    TrimEnd(TrimStart(s))
  }

  lemma {:induction false} TrimStartAt(s: string, i: nat)
    requires i <= |s| && AllWhiteSpace(s[..i]) && (i < |s| ==> !IsWhiteSpace(s[i]))
    ensures TrimStart(s) == s[i..]
    decreases i
  {
    if i > 0 {
      assert s[..i][0] == s[0];
      assert s[1..][..i - 1] == s[..i][1..];
      TrimStartAt(s[1..], i - 1);
      assert s[1..][i - 1..] == s[i..];
    }
  }

  lemma {:induction false} TrimEndAt(s: string, j: nat)
    requires j <= |s| && AllWhiteSpace(s[j..]) && (j > 0 ==> !IsWhiteSpace(s[j - 1]))
    ensures TrimEnd(s) == s[..j]
    decreases |s| - j
  {
    if j < |s| {
      var front := s[..|s| - 1];
      assert s[j..][|s| - 1 - j] == s[|s| - 1];
      assert front[j..] == s[j..][..|s| - 1 - j];
      TrimEndAt(front, j);
      assert front[..j] == s[..j];
    } else {
      assert s[..j] == s;
    }
  }

  lemma TrimEndOfRest(s: string, i: nat, j: nat)
    requires i < j <= |s| && AllWhiteSpace(s[j..]) && !IsWhiteSpace(s[j - 1])
    ensures TrimEnd(s[i..]) == s[i..j]
  {
    var rest := s[i..];
    assert rest[j - i..] == s[j..];
    assert rest[j - i - 1] == s[j - 1];
    TrimEndAt(rest, j - i);
    assert rest[..j - i] == s[i..j];
  }

  lemma TrimAllWhiteSpace(s: string, i: nat)
    requires i <= |s| && AllWhiteSpace(s[..i]) && AllWhiteSpace(s[i..])
    ensures Trim(s) == []
  {
    assert s == s[..i] + s[i..];
    assert AllWhiteSpace(s);
    assert s[..|s|] == s;
    TrimStartAt(s, |s|);
  }

  /** Trim is characterised by its contract: the slice of `s` whose ends
      are not white space and outside which there is only white space. */
  lemma TrimCharacterized(s: string, i: nat, j: nat)
    requires i <= j <= |s| && AllWhiteSpace(s[..i]) && AllWhiteSpace(s[j..])
    requires i < j ==> !IsWhiteSpace(s[i]) && !IsWhiteSpace(s[j - 1])
    ensures Trim(s) == s[i..j]
  {
    if i < j {
      TrimStartAt(s, i);
      TrimEndOfRest(s, i, j);
    } else {
      TrimAllWhiteSpace(s, i);
    }
  }

  /** Trimming twice is trimming once. */
  lemma TrimIdempotent(s: string)
    ensures Trim(Trim(s)) == Trim(s)
  {
    var r := Trim(s);
    if r != [] {
      TrimCharacterized(r, 0, |r|);
      assert r[0..|r|] == r;
    } else {
      TrimCharacterized(r, 0, 0);
    }
  }

  lemma {:induction false} TrimStartPadded(before: string, s: string)
    requires AllWhiteSpace(before)
    ensures TrimStart(before + s) == TrimStart(s)
  {
    if before != [] {
      assert (before + s)[1..] == before[1..] + s;
      TrimStartPadded(before[1..], s);
    } else {
      assert before + s == s;
    }
  }

  lemma {:induction false} TrimEndPadded(s: string, after: string)
    requires AllWhiteSpace(after)
    ensures TrimEnd(s + after) == TrimEnd(s)
    decreases |after|
  {
    if after != [] {
      var front := after[..|after| - 1];
      assert (s + after)[..|s + after| - 1] == s + front;
      TrimEndPadded(s, front);
    } else {
      assert s + after == s;
    }
  }

  lemma {:induction false} TrimStartAppend(s: string, rest: string)
    requires TrimStart(s) != []
    ensures TrimStart(s + rest) == TrimStart(s) + rest
  {
    assert (s + rest)[0] == s[0];
    if IsWhiteSpace(s[0]) {
      assert (s + rest)[1..] == s[1..] + rest;
      TrimStartAppend(s[1..], rest);
    }
  }

  /** White space added at either end is trimmed away. */
  lemma TrimPadded(s: string, before: string, after: string)
    requires AllWhiteSpace(before) && AllWhiteSpace(after)
    ensures Trim(before + s + after) == Trim(s)
  {
    assert before + s + after == before + (s + after);
    TrimStartPadded(before, s + after);
    if TrimStart(s) != [] {
      TrimStartAppend(s, after);
      TrimEndPadded(TrimStart(s), after);
    } else {
      var k :| 0 <= k <= |s| && TrimStart(s) == s[k..] && AllWhiteSpace(s[..k]);
      assert k == |s| && s[..k] == s;
      TrimStartPadded(s, after);
      TrimStartPadded(after, []);
      assert after + [] == after;
    }
  }

  lemma SlicesOfSuffix(s: string, i: nat, j: nat)
    requires i + j <= |s|
    ensures s[i..][..j] == s[i..i + j]
    ensures s[i..][j..] == s[i + j..]
  {
  }

  lemma TrimIsSlice(s: string)
    ensures var r := TrimEnd(TrimStart(s));
      && (r == [] || (!IsWhiteSpace(r[0]) && !IsWhiteSpace(r[|r| - 1])))
      && exists i, j :: 0 <= i <= j <= |s| && r == s[i..j] && AllWhiteSpace(s[..i]) && AllWhiteSpace(s[j..])
  {
    var front := TrimStart(s);
    var r := TrimEnd(front);
    var i :| 0 <= i <= |s| && front == s[i..] && AllWhiteSpace(s[..i]);
    var j :| 0 <= j <= |front| && r == front[..j] && AllWhiteSpace(front[j..]);
    SlicesOfSuffix(s, i, j);
    assert AllWhiteSpace(s[i + j..]);
    assert 0 <= i <= i + j <= |s|;
    assert r != [] ==> r[0] == front[0];
    assert r == [] || !IsWhiteSpace(r[0]);
    assert r == [] || !IsWhiteSpace(r[|r| - 1]);
  }

  /** Number of UTF-16 code units of `s`: what JavaScript's `length`
      reports, where a character outside the Basic Multilingual Plane counts
      twice. */
  function Utf16Length(s: string): (n: nat)
    ensures n == |s| + |AstralPositions(s)|
    ensures |s| <= n <= 2 * |s|
  {
    if s == [] then
      assert AstralPositions(s) == {};
      0
    else
      AstralPositionsSnoc(s);
      Utf16Length(s[..|s| - 1]) + (if s[|s| - 1] as int > 0xFFFF then 2 else 1)
  }

  /** The positions of `s` holding a character outside the Basic
      Multilingual Plane, which UTF-16 writes as a surrogate pair. */
  function AstralPositions(s: string): set<int> {
    set i | 0 <= i < |s| && s[i] as int > 0xFFFF
  }

  /** The astral positions of `s` are those of its prefix, and its last
      position when the last character is astral. */
  lemma AstralPositionsSnoc(s: string)
    requires s != []
    ensures var prefix := s[..|s| - 1];
            && |s| - 1 !in AstralPositions(prefix)
            && AstralPositions(s) == AstralPositions(prefix) + (if s[|s| - 1] as int > 0xFFFF then {|s| - 1} else {})
  {
    var prefix := s[..|s| - 1];
    assert forall i :: 0 <= i < |prefix| ==> prefix[i] == s[i];
  }

  function AsciiLower(c: char): char {
    if 'A' <= c <= 'Z' then (c as int - 'A' as int + 'a' as int) as char else c
  }

  /** `s.toLowerCase() === literal` for a literal of lower-case ASCII
      letters. No character outside ASCII lower-cases to one of `a`..`z` in
      a single code unit except `K` (the Kelvin sign, to `k`), so ASCII
      case folding decides the comparison exactly for literals without `k`. */
  predicate LowerEquals(s: string, literal: string) {
    |s| == |literal| && forall i :: 0 <= i < |s| ==> AsciiLower(s[i]) == literal[i]
  }
}
