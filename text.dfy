/** String helpers shared by several modules: decimal rendering of integers (Python's
    `str(int)`, JavaScript template interpolation), ASCII lower-casing, substring search,
    JavaScript's global literal `.replace`, and Python's whitespace/`strip`. */
module Text {
  import opened Wrappers

  // ---------------------------------------------------------------- interpolation

  /** Truthiness of an optional string, the same in Python and JavaScript: present and
      non-empty. */
  predicate Truthy(s: Option<string>) {
    s.Some? && s.value != ""
  }

  /** Python's `f"{x}"` for an optional string: None renders as "None". */
  function PyFormat(x: Option<string>): (r: string)
    ensures x.Some? ==> r == x.value
    ensures x.None? ==> r == "None"
  {
    if x.Some? then x.value else "None"
  }

  /** An optional JavaScript value: `undefined` when the member is absent, `null` when
      it was sent as JSON null, or a value. */
  datatype JsValue<T> = Undefined | Null | Present(v: T)

  /** JavaScript truthiness of an optional string: a non-empty string. */
  predicate JsTruthy(x: JsValue<string>) {
    x.Present? && x.v != ""
  }

  /** JavaScript's `${x}` for an optional string: undefined renders as "undefined" and
      null as "null". */
  function JsFormat(x: JsValue<string>): (r: string)
    ensures x.Present? ==> r == x.v
    ensures x.Undefined? ==> r == "undefined"
    ensures x.Null? ==> r == "null"
  {
    match x
    case Present(s) => s
    case Undefined => "undefined"
    case Null => "null"
  }

  // ---------------------------------------------------------------- decimal digits

  predicate IsDigit(c: char) { '0' <= c <= '9' }

  predicate AllDigits(s: string) { forall i :: 0 <= i < |s| ==> IsDigit(s[i]) }

  function DigitChar(d: nat): (c: char)
    requires d < 10
    ensures IsDigit(c) && c as int - '0' as int == d
  {
    (d + '0' as int) as char
  }

  /** Decimal rendering without leading zeros. */
  function NatToString(n: nat): (r: string)
    ensures |r| > 0 && AllDigits(r)
    ensures r[0] == '0' ==> n == 0
    decreases n
  {
    if n < 10 then [DigitChar(n)] else NatToString(n / 10) + [DigitChar(n % 10)]
  }

  /** Python's `str(n)` and JavaScript's `${n}` for an integer. */
  function IntToString(n: int): string {
    if n < 0 then "-" + NatToString(-n) else NatToString(n)
  }

  /** The value of a string of decimal digits (most significant first). */
  function DigitsValue(s: string): nat
    requires AllDigits(s)
  {
    if s == [] then 0 else DigitsValue(s[..|s| - 1]) * 10 + (s[|s| - 1] as int - '0' as int)
  }

  /** Reading back a rendered number gives the number. */
  lemma {:induction false} DigitsValueOfNatToString(n: nat)
    ensures DigitsValue(NatToString(n)) == n
    decreases n
  {
    var r := NatToString(n);
    if n >= 10 {
      DigitsValueOfNatToString(n / 10);
      assert r[..|r| - 1] == NatToString(n / 10);
    }
  }

  /** Distinct numbers render to distinct strings. */
  lemma NatToStringInjective(a: nat, b: nat)
    requires NatToString(a) == NatToString(b)
    ensures a == b
  {
    DigitsValueOfNatToString(a);
    DigitsValueOfNatToString(b);
  }

  /** A number written before text that starts with a non-digit can be read back: equal
      strings of that shape have equal numbers and equal texts. */
  lemma NumberPrefixUnique(a: nat, r1: string, b: nat, r2: string)
    requires r1 != [] && r2 != [] && !IsDigit(r1[0]) && !IsDigit(r2[0])
    requires NatToString(a) + r1 == NatToString(b) + r2
    ensures a == b && r1 == r2
  {
    var d1, d2 := NatToString(a), NatToString(b);
    var s := d1 + r1;
    assert !IsDigit(s[|d1|]) && !IsDigit(s[|d2|]);
    assert forall i :: 0 <= i < |d1| ==> IsDigit(s[i]);
    assert forall i :: 0 <= i < |d2| ==> IsDigit(s[i]);
    assert |d1| == |d2|;
    assert d1 == s[..|d1|] && d2 == s[..|d2|];
    assert r1 == s[|d1|..] && r2 == s[|d2|..];
    NatToStringInjective(a, b);
  }

  // ---------------------------------------------------------------- case and search

  predicate IsUpper(c: char) { 'A' <= c <= 'Z' }

  function LowerChar(c: char): char {
    if IsUpper(c) then (c as int + 32) as char else c
  }

  /** Python's `str.lower()` on ASCII letters. */
  function Lower(s: string): (r: string)
    ensures |r| == |s|
    ensures forall i :: 0 <= i < |s| ==> r[i] == LowerChar(s[i]) && !IsUpper(r[i])
  {
    seq(|s|, i requires 0 <= i < |s| => LowerChar(s[i]))
  }

  /** `k` occurs in `t` starting at index `i`. */
  predicate OccursAt(t: string, k: string, i: int) {
    0 <= i <= |t| - |k| && t[i..i + |k|] == k
  }

  /** Python's `k in t` for strings. */
  predicate Contains(t: string, k: string) {
    exists i | 0 <= i <= |t| :: OccursAt(t, k, i)
  }

  /** A pattern with an upper-case letter never occurs in lower-cased text. */
  lemma UpperPatternNotInLower(t: string, k: string, j: nat)
    requires j < |k| && IsUpper(k[j])
    ensures !Contains(Lower(t), k)
  {
    var lt := Lower(t);
    forall i ensures !OccursAt(lt, k, i) {
      if 0 <= i <= |lt| - |k| {
        assert lt[i..i + |k|][j] == lt[i + j];
      }
    }
  }

  // ---------------------------------------------------------------- replace

  /** JavaScript's `s.replace(/pat/g, rep)` for a literal pattern: non-overlapping
      occurrences, found left to right, each replaced by `rep`. */
  function ReplaceAll(s: string, pat: string, rep: string): string
    requires |pat| > 0
    decreases |s|
  {
    if |s| < |pat| then s
    else if s[..|pat|] == pat then rep + ReplaceAll(s[|pat|..], pat, rep)
    else [s[0]] + ReplaceAll(s[1..], pat, rep)
  }

  /** Replacing every occurrence of a one-character pattern by text without that
      character removes the character completely. */
  lemma {:induction false} ReplaceAllRemovesChar(s: string, c: char, rep: string)
    requires c !in rep
    ensures c !in ReplaceAll(s, [c], rep)
    decreases |s|
  {
    if |s| >= 1 {
      ReplaceAllRemovesChar(s[1..], c, rep);
    }
  }

  /** A character absent from the input and from the replacement is absent from the output. */
  lemma {:induction false} ReplaceAllKeepsAbsent(s: string, pat: string, rep: string, c: char)
    requires |pat| > 0 && c !in s && c !in rep
    ensures c !in ReplaceAll(s, pat, rep)
    decreases |s|
  {
    if |s| >= |pat| {
      if s[..|pat|] == pat {
        ReplaceAllKeepsAbsent(s[|pat|..], pat, rep, c);
      } else {
        ReplaceAllKeepsAbsent(s[1..], pat, rep, c);
      }
    }
  }

  /** A leading character that cannot start the pattern is kept. */
  lemma ReplaceAllSkip(c: char, x: string, pat: string, rep: string)
    requires |pat| > 0 && c != pat[0]
    ensures ReplaceAll([c] + x, pat, rep) == [c] + ReplaceAll(x, pat, rep)
  {
    var s := [c] + x;
    assert s[1..] == x;
    assert |s| >= |pat| ==> s[..|pat|][0] != pat[0];
    if |s| < |pat| {
      ReplaceAllShort(x, pat, rep);
    }
  }

  lemma ReplaceAllShort(x: string, pat: string, rep: string)
    requires |pat| > 0 && |x| < |pat|
    ensures ReplaceAll(x, pat, rep) == x
  {
  }

  /** A leading occurrence is replaced. */
  lemma ReplaceAllMatch(x: string, pat: string, rep: string)
    requires |pat| > 0
    ensures ReplaceAll(pat + x, pat, rep) == rep + ReplaceAll(x, pat, rep)
  {
    var s := pat + x;
    assert s[..|pat|] == pat && s[|pat|..] == x;
  }

  /** Text in which the pattern's first character never appears is left as it is. */
  lemma {:induction false} ReplaceAllAbsent(s: string, pat: string, rep: string)
    requires |pat| > 0 && pat[0] !in s
    ensures ReplaceAll(s, pat, rep) == s
    decreases |s|
  {
    if |s| >= |pat| {
      assert s[..|pat|][0] != pat[0];
      ReplaceAllAbsent(s[1..], pat, rep);
      assert s == [s[0]] + s[1..];
    }
  }

  /** Text before which the pattern's first character never appears is kept as it is. */
  lemma {:induction false} ReplaceAllKeepsPrefix(x: string, z: string, pat: string, rep: string)
    requires |pat| > 0 && pat[0] !in x
    ensures ReplaceAll(x + z, pat, rep) == x + ReplaceAll(z, pat, rep)
    decreases |x|
  {
    if x != [] {
      var c, rest := x[0], x[1..];
      assert x == [c] + rest;
      assert c != pat[0] && pat[0] !in rest;
      ReplaceAllKeepsPrefix(rest, z, pat, rep);
      assert x + z == [c] + (rest + z);
      ReplaceAllSkip(c, rest + z, pat, rep);
      assert ReplaceAll(x + z, pat, rep) == [c] + (rest + ReplaceAll(z, pat, rep));
    } else {
      assert x + z == z;
    }
  }

  /** A replacement no longer than the pattern never lengthens the text. */
  lemma {:induction false} ReplaceAllShrinks(s: string, pat: string, rep: string)
    requires 0 < |pat| && |rep| <= |pat|
    ensures |ReplaceAll(s, pat, rep)| <= |s|
    decreases |s|
  {
    if |s| >= |pat| {
      if s[..|pat|] == pat {
        ReplaceAllShrinks(s[|pat|..], pat, rep);
      } else {
        ReplaceAllShrinks(s[1..], pat, rep);
      }
    }
  }

  // ---------------------------------------------------------------- whitespace

  /** Python's `str.isspace()` for one character. */
  predicate IsPyWhitespace(c: char) {
    var n := c as int;
    (9 <= n <= 13) || (28 <= n <= 32) || n == 0x85 || n == 0xA0 || n == 0x1680
    || (0x2000 <= n <= 0x200A) || n == 0x2028 || n == 0x2029 || n == 0x202F
    || n == 0x205F || n == 0x3000
  }

  function TrimStart(s: string): (r: string)
    ensures |r| <= |s| && r == s[|s| - |r|..]
    ensures r != [] ==> !IsPyWhitespace(r[0])
    ensures forall i :: 0 <= i < |s| - |r| ==> IsPyWhitespace(s[i])
  {
    if s != [] && IsPyWhitespace(s[0]) then TrimStart(s[1..]) else s
  }

  function TrimEnd(s: string): (r: string)
    ensures |r| <= |s| && r == s[..|r|]
    ensures r != [] ==> !IsPyWhitespace(r[|r| - 1])
    ensures forall i :: |r| <= i < |s| ==> IsPyWhitespace(s[i])
  {
    if s != [] && IsPyWhitespace(s[|s| - 1]) then TrimEnd(s[..|s| - 1]) else s
  }

  /** Python's `str.strip()` with no argument. */
  function Strip(s: string): string {
    TrimEnd(TrimStart(s))
  }

  /** `s` has a character that is not whitespace. */
  predicate NonBlank(s: string) {
    exists i :: 0 <= i < |s| && !IsPyWhitespace(s[i])
  }

  /** `s.strip()` is truthy exactly when `s` has a non-whitespace character. */
  lemma StripNonEmptyIff(s: string)
    ensures Strip(s) != "" <==> NonBlank(s)
  {
    var t := TrimStart(s);
    if Strip(s) != "" {
      assert !IsPyWhitespace(t[0]);
      assert s[|s| - |t|] == t[0];
    } else if t != [] {
      assert false;
    }
  }
}
