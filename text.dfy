/** The Python `str` operations the loader, the matcher and the enrichment
    code rely on (`strip`, `lower`, `upper`, `in`, `startswith`, slicing,
    `isdigit`, `int()`, `str()` and ordering), restricted to ASCII. */
module Text {

  /** The optional values the code writes as `None`. */
  datatype Option<T> = None | Some(value: T)

  function Min(a: int, b: int): int { if a <= b then a else b }

  function Max(a: int, b: int): int { if a >= b then a else b }

  /** The ASCII characters `str.isspace` accepts (tab to carriage return,
      the four separators 0x1C to 0x1F, and the space). */
  predicate IsSpace(c: char) {
    var n := c as int;
    n == 32 || 9 <= n <= 13 || 28 <= n <= 31
  }

  function TrimStart(s: string): (r: string)
    ensures |r| <= |s| && r == s[|s| - |r|..]
    ensures r == [] || !IsSpace(r[0])
    ensures forall i :: 0 <= i < |s| - |r| ==> IsSpace(s[i])
  {
    if |s| > 0 && IsSpace(s[0]) then TrimStart(s[1..]) else s
  }

  function TrimEnd(s: string): (r: string)
    ensures |r| <= |s| && r == s[..|r|]
    ensures r == [] || !IsSpace(r[|r| - 1])
    ensures forall i :: |r| <= i < |s| ==> IsSpace(s[i])
  {
    if |s| > 0 && IsSpace(s[|s| - 1]) then TrimEnd(s[..|s| - 1]) else s
  }

  /** `s.strip()`: the longest infix of `s` that neither starts nor ends
      with white space. */
  function Trim(s: string): (r: string)
    ensures r == [] || (!IsSpace(r[0]) && !IsSpace(r[|r| - 1]))
  {
    TrimEnd(TrimStart(s))
  }

  /** `r` sits at position `i` of `s`, with only white space before and
      after it. */
  predicate PaddedAt(s: string, r: string, i: int) {
    && OccursAt(s, r, i)
    && (forall j :: 0 <= j < i ==> IsSpace(s[j]))
    && (forall j :: i + |r| <= j < |s| ==> IsSpace(s[j]))
  }

  /** What `strip` keeps is a piece of the string, and only white space is
      dropped around it. */
  lemma TrimSpec(s: string)
    ensures exists i :: PaddedAt(s, Trim(s), i)
  {
    var t := TrimStart(s);
    var r := TrimEnd(t);
    assert Trim(s) == r;
    PaddedPieces(s, t, r, |s| - |t|);
  }

  lemma PaddedPieces(s: string, t: string, r: string, k: int)
    requires 0 <= k <= |s| && t == s[k..] && |r| <= |t| && r == t[..|r|]
    requires forall j :: 0 <= j < k ==> IsSpace(s[j])
    requires forall j :: |r| <= j < |t| ==> IsSpace(t[j])
    ensures PaddedAt(s, r, k)
  {
    forall j | k + |r| <= j < |s|
      ensures IsSpace(s[j])
    {
      assert t[j - k] == s[j];
    }
    assert s[k..k + |r|] == r;
  }

  /** A string without white space at either end is its own strip. */
  lemma TrimUnpadded(s: string)
    requires s == [] || (!IsSpace(s[0]) && !IsSpace(s[|s| - 1]))
    ensures Trim(s) == s
  {
  }

  /** `strip` keeps every character that is not white space. */
  lemma TrimKeeps(s: string, j: int)
    requires 0 <= j < |s| && !IsSpace(s[j])
    ensures s[j] in Trim(s)
  {
    var t := TrimStart(s);
    var k := |s| - |t|;
    assert k <= j;
    assert t[j - k] == s[j];
    var r := TrimEnd(t);
    assert j - k < |r|;
    assert r[j - k] == s[j];
  }

  /** Digits are never stripped. */
  lemma TrimDigits(s: string)
    requires IsDigits(s)
    ensures Trim(s) == s
  {
    assert !IsSpace(s[0]) && !IsSpace(s[|s| - 1]);
    TrimUnpadded(s);
  }

  /** `strip` is idempotent. */
  lemma TrimTrim(s: string)
    ensures Trim(Trim(s)) == Trim(s)
  {
    TrimUnpadded(Trim(s));
  }

  function LowerChar(c: char): char {
    if 'A' <= c <= 'Z' then ((c as int) + 32) as char else c
  }

  function UpperChar(c: char): char {
    if 'a' <= c <= 'z' then ((c as int) - 32) as char else c
  }

  /** `s.lower()` on ASCII letters. */
  function Lower(s: string): (r: string)
    ensures |r| == |s|
    ensures forall i :: 0 <= i < |s| ==> r[i] == LowerChar(s[i])
  {
    if s == [] then [] else [LowerChar(s[0])] + Lower(s[1..])
  }

  /** `s.upper()` on ASCII letters. */
  function Upper(s: string): (r: string)
    ensures |r| == |s|
    ensures forall i :: 0 <= i < |s| ==> r[i] == UpperChar(s[i])
  {
    if s == [] then [] else [UpperChar(s[0])] + Upper(s[1..])
  }

  /** `upper` is idempotent. */
  lemma UpperUpper(s: string)
    ensures Upper(Upper(s)) == Upper(s)
  {
    forall i | 0 <= i < |s|
      ensures Upper(Upper(s))[i] == Upper(s)[i]
    {
      var c := s[i];
      assert UpperChar(UpperChar(c)) == UpperChar(c);
    }
  }

  /** A string without lower-case letters is its own upper case. */
  lemma UpperFixed(s: string)
    requires forall i :: 0 <= i < |s| ==> !('a' <= s[i] <= 'z')
    ensures Upper(s) == s
  {
  }

  /** Case changes leave white space alone and make none. */
  lemma UpperCharSpace(c: char)
    ensures IsSpace(UpperChar(c)) == IsSpace(c)
    ensures IsSpace(c) ==> UpperChar(c) == c
  {
  }

  lemma {:induction false} TrimStartUpper(s: string)
    ensures TrimStart(Upper(s)) == Upper(TrimStart(s))
  {
    if |s| > 0 {
      var c, rest := s[0], Upper(s[1..]);
      assert Upper(s) == [UpperChar(c)] + rest;
      UpperCharSpace(c);
      if IsSpace(c) {
        TrimStartUpper(s[1..]);
        assert ([UpperChar(c)] + rest)[1..] == rest;
      }
    }
  }

  lemma {:induction false} TrimEndUpper(s: string)
    ensures TrimEnd(Upper(s)) == Upper(TrimEnd(s))
  {
    if |s| > 0 {
      var init := s[..|s| - 1];
      var c := s[|s| - 1];
      assert s == init + [c];
      UpperAppend(init, c);
      UpperCharSpace(c);
      if IsSpace(c) {
        TrimEndUpper(init);
        assert (Upper(init) + [UpperChar(c)])[..|s| - 1] == Upper(init);
      }
    }
  }

  lemma UpperAppend(s: string, c: char)
    ensures Upper(s + [c]) == Upper(s) + [UpperChar(c)]
  {
    assert forall i :: 0 <= i < |s| ==> (s + [c])[i] == s[i];
  }

  lemma TrimUpper(s: string)
    ensures Trim(Upper(s)) == Upper(Trim(s))
  {
    TrimStartUpper(s);
    TrimEndUpper(TrimStart(s));
  }

  lemma LowerUpper(s: string)
    ensures Lower(Upper(s)) == Lower(s)
  {
    forall i | 0 <= i < |s|
      ensures Lower(Upper(s))[i] == Lower(s)[i]
    {
      var c := s[i];
      assert LowerChar(UpperChar(c)) == LowerChar(c);
    }
  }

  /** Case does not matter to `strip().lower()`. */
  lemma StripLowerIgnoresCase(s: string)
    ensures Lower(Trim(Upper(s))) == Lower(Trim(s))
  {
    TrimUpper(s);
    LowerUpper(Trim(s));
  }

  /** `s.startswith(p)`. */
  predicate StartsWith(s: string, p: string) {
    |p| <= |s| && s[..|p|] == p
  }

  /** `s.endswith(p)`. */
  predicate EndsWith(s: string, p: string) {
    |p| <= |s| && s[|s| - |p|..] == p
  }

  /** `s[:n]` for a non-negative `n`. */
  function Prefix(s: string, n: nat): (r: string)
    ensures |r| == Min(n, |s|) && r == s[..|r|]
  {
    if |s| <= n then s else s[..n]
  }

  predicate OccursAt(hay: string, needle: string, i: int) {
    0 <= i && i + |needle| <= |hay| && hay[i..i + |needle|] == needle
  }

  /** `needle in hay`, scanning `hay` from the left. */
  function Contains(hay: string, needle: string): bool
    decreases |hay|
  {
    StartsWith(hay, needle) || (hay != [] && Contains(hay[1..], needle))
  }

  /** The scan finds `needle` exactly when it occurs somewhere in `hay`. */
  lemma {:induction false} ContainsSpec(hay: string, needle: string)
    ensures Contains(hay, needle) <==> exists i :: OccursAt(hay, needle, i)
    decreases |hay|
  {
    if StartsWith(hay, needle) {
      assert OccursAt(hay, needle, 0);
    } else if hay != [] {
      ContainsSpec(hay[1..], needle);
      if Contains(hay[1..], needle) {
        var i :| OccursAt(hay[1..], needle, i);
        assert hay[1..][i..i + |needle|] == hay[i + 1..i + 1 + |needle|];
        assert OccursAt(hay, needle, i + 1);
      }
      if exists i :: OccursAt(hay, needle, i) {
        var i :| OccursAt(hay, needle, i);
        assert i != 0;
        assert hay[1..][i - 1..i - 1 + |needle|] == hay[i..i + |needle|];
        assert OccursAt(hay[1..], needle, i - 1);
      }
    } else {
      assert forall i :: !OccursAt(hay, needle, i);
    }
  }

  predicate IsDigit(c: char) { '0' <= c <= '9' }

  predicate AllDigits(s: string) { forall i :: 0 <= i < |s| ==> IsDigit(s[i]) }

  /** `s.isdigit()` on ASCII: non-empty and every character a digit. */
  predicate IsDigits(s: string) { |s| > 0 && AllDigits(s) }

  function DigitValue(c: char): nat
    requires IsDigit(c)
  {
    (c as int) - ('0' as int)
  }

  function DigitChar(d: nat): char
    requires d < 10
  {
    ((('0' as int) + d) as char)
  }

  /** The number a string of decimal digits denotes, read left to right. */
  function DigitsValue(s: string): nat
    requires AllDigits(s)
  {
    if s == [] then 0 else DigitsValue(s[..|s| - 1]) * 10 + DigitValue(s[|s| - 1])
  }

  /** `str(n)` for a natural number. */
  function NatToString(n: nat): (r: string)
    ensures IsDigits(r)
    ensures r[0] != '0' || n == 0
  {
    (if n < 10 then "" else NatToString(n / 10)) + [DigitChar(n % 10)]
  }

  /** `str(i)` for an integer. */
  function IntToString(i: int): string {
    if i < 0 then "-" + NatToString(-i) else NatToString(i)
  }

  lemma {:induction false} DigitsValueOfNatToString(n: nat)
    ensures DigitsValue(NatToString(n)) == n
  {
    var s := NatToString(n);
    assert s[..|s| - 1] == if n < 10 then "" else NatToString(n / 10);
    if n >= 10 {
      DigitsValueOfNatToString(n / 10);
    }
  }

  /** `int(s)` for a string, `None` where Python raises: an optional sign
      followed by ASCII digits, surrounded by optional white space. */
  function ParseInt(s: string): (r: Option<int>)
    ensures r.Some? ==> Trim(s) != []
  {
    var t := Trim(s);
    if |t| > 0 && (t[0] == '-' || t[0] == '+') && IsDigits(t[1..]) then
      var v: int := DigitsValue(t[1..]);
      Some(if t[0] == '-' then -v else v)
    else if IsDigits(t) then
      Some(DigitsValue(t))
    else
      None
  }

  /** `int` strips its argument itself, so stripping first changes nothing. */
  lemma ParseIntTrimmed(s: string)
    ensures ParseInt(Trim(s)) == ParseInt(s)
  {
    TrimTrim(s);
  }

  /** `int(s)` on a string of digits is the number the digits denote. */
  lemma ParseIntDigits(s: string)
    requires IsDigits(s)
    ensures ParseInt(s) == Some(DigitsValue(s))
  {
    TrimUnpadded(s);
  }

  /** `int(str(i)) == i`. */
  lemma ParseIntRoundTrip(i: int)
    ensures ParseInt(IntToString(i)) == Some(i)
  {
    var s := IntToString(i);
    var n: nat := if i < 0 then -i else i;
    var d := NatToString(n);
    DigitsValueOfNatToString(n);
    assert IsDigit(d[0]) && IsDigit(d[|d| - 1]);
    if i < 0 {
      assert s == "-" + d;
      assert !IsSpace(s[0]) && s[|s| - 1] == d[|d| - 1];
      TrimUnpadded(s);
      assert s[1..] == d;
    } else {
      assert s == d;
      TrimUnpadded(s);
    }
  }

  /** Python's `a <= b` on strings: code-point order, a proper prefix first. */
  predicate LexLe(a: string, b: string)
    decreases |a|
  {
    a == [] || (b != [] && (a[0] < b[0] || (a[0] == b[0] && LexLe(a[1..], b[1..]))))
  }

  lemma {:induction false} LexLeTotal(a: string, b: string)
    ensures LexLe(a, b) || LexLe(b, a)
    decreases |a|
  {
    if a != [] && b != [] && a[0] == b[0] {
      LexLeTotal(a[1..], b[1..]);
    }
  }

  lemma {:induction false} LexLeTransitive(a: string, b: string, c: string)
    requires LexLe(a, b) && LexLe(b, c)
    ensures LexLe(a, c)
    decreases |a|
  {
    if a != [] && a[0] == b[0] && b[0] == c[0] {
      LexLeTransitive(a[1..], b[1..], c[1..]);
    }
  }

  lemma {:induction false} LexLeAntisymmetric(a: string, b: string)
    requires LexLe(a, b) && LexLe(b, a)
    ensures a == b
    decreases |a|
  {
    if a != [] {
      LexLeAntisymmetric(a[1..], b[1..]);
      assert a == [a[0]] + a[1..] && b == [b[0]] + b[1..];
    }
  }
}
