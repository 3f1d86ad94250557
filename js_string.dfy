/** The JavaScript string builtins the spell-check plugin relies on, over
    strings of code units from the Basic Multilingual Plane (`seq<char>`; a
    Dafny `char` is never a surrogate). Each one reproduces the
    clamping rules of its JavaScript counterpart for the arguments the
    plugin passes. */
module JsString {

  function Min(a: int, b: int): int { if a <= b then a else b }

  function Max(a: int, b: int): int { if a <= b then b else a }

  /** `x` clamped into `[0, n]`, as `substring` treats its arguments. */
  function Clamp(x: int, n: nat): (r: nat)
    ensures r <= n
  {
    if x < 0 then 0 else if x > n then n else x
  }

  /** `s.indexOf(c)`, with "not found" (`-1`) reported as `|s|`. */
  function FirstIndex(s: string, c: char): (r: nat)
    ensures r <= |s|
    ensures c !in s[..r]
    ensures r < |s| ==> s[r] == c
    ensures r == |s| <==> c !in s
  {
    if s == [] then 0
    else if s[0] == c then 0
    else
      assert s[1..][..FirstIndex(s[1..], c)] == s[1..1 + FirstIndex(s[1..], c)];
      1 + FirstIndex(s[1..], c)
  }

  /** `s.substr(start, length)` for a non-negative `start`. */
  function Substr(s: string, start: nat, length: int): string {
    s[Min(start, |s|)..Min(start + Max(length, 0), |s|)]
  }

  /** `s.substring(a, b)`: both ends clamped into the string, swapped when out of order. */
  function Substring(s: string, a: int, b: int): string {
    var x := Clamp(a, |s|);
    var y := Clamp(b, |s|);
    if x <= y then s[x..y] else s[y..x]
  }

  /** `s.slice(start)` for a non-negative `start`. */
  function Slice(s: string, start: nat): string {
    s[Min(start, |s|)..]
  }

  /** `s.endsWith(suffix)`. */
  predicate EndsWith(s: string, suffix: string) {
    |suffix| <= |s| && s[|s| - |suffix|..] == suffix
  }

  /** The text before the first `c` (all of `s` when there is none). */
  function Before(s: string, c: char): string {
    s[..FirstIndex(s, c)]
  }

  /** The text after the first `c` (nothing when there is none). */
  function After(s: string, c: char): string {
    var k := FirstIndex(s, c);
    if k < |s| then s[k + 1..] else []
  }

  /** `s.split(c)` for a one-character separator: the pieces between separators. */
  function Split(s: string, c: char): (parts: seq<string>)
    ensures |parts| >= 1
    ensures parts[0] == Before(s, c)
    ensures forall k :: 0 <= k < |parts| ==> c !in parts[k]
    ensures c in s ==> |parts| >= 2
    decreases |s|
  {
    var k := FirstIndex(s, c);
    if k == |s| then [s] else [s[..k]] + Split(s[k + 1..], c)
  }

  /** The second piece of a split is the text between the first and the second separator. */
  lemma SplitSecond(s: string, c: char)
    requires c in s
    ensures Split(s, c)[1] == Before(After(s, c), c)
  {
    assert Split(s, c) == [s[..FirstIndex(s, c)]] + Split(After(s, c), c);
  }

  /** Searching past a prefix that lacks `c`. */
  lemma {:induction false} FirstIndexConcat(a: string, b: string, c: char)
    requires c !in a
    ensures FirstIndex(a + b, c) == |a| + FirstIndex(b, c)
  {
    if a != [] {
      assert (a + b)[1..] == a[1..] + b;
      FirstIndexConcat(a[1..], b, c);
    } else {
      assert a + b == b;
    }
  }

  /** In `a + [c] + b` with no `c` in `a`, the text before the first `c` is `a` and the
      text after it is `b`. */
  lemma BeforeAfterBetween(a: string, c: char, b: string)
    requires c !in a
    ensures Before(a + [c] + b, c) == a && After(a + [c] + b, c) == b
  {
    var s := a + [c] + b;
    assert s == a + ([c] + b);
    FirstIndexConcat(a, [c] + b, c);
    assert s[..|a|] == a;
    assert s[|a| + 1..] == b;
  }

  /** Without `c`, the text before the first `c` is everything. */
  lemma BeforeAbsent(s: string, c: char)
    requires c !in s
    ensures Before(s, c) == s
  {
  }

  /** `parts.join(c)` for a one-character separator. */
  function Join(parts: seq<string>, c: char): string
  {
    if |parts| == 0 then []
    else if |parts| == 1 then parts[0]
    else parts[0] + [c] + Join(parts[1..], c)
  }

  /** Splitting a join of separator-free pieces gives the pieces back. */
  lemma {:induction false} SplitJoin(parts: seq<string>, c: char)
    requires |parts| >= 1
    requires forall k :: 0 <= k < |parts| ==> c !in parts[k]
    ensures Split(Join(parts, c), c) == parts
  {
    if |parts| > 1 {
      var p := parts[0];
      var rest := Join(parts[1..], c);
      var j := p + [c] + rest;
      assert Join(parts, c) == j;
      assert j[|p|] == c;
      assert j[..|p|] == p;
      var k := FirstIndex(j, c);
      assert k == |p|;
      assert j[k + 1..] == rest;
      SplitJoin(parts[1..], c);
    }
  }

  /** `s.replace(/c/, rep)` for a replacement without `$` patterns: only the first
      occurrence of `c` is replaced. */
  function ReplaceFirst(s: string, c: char, rep: string): (r: string)
    ensures var k := FirstIndex(s, c);
      r == if k == |s| then s else s[..k] + rep + s[k + 1..]
  {
    if s == [] then []
    else if s[0] == c then rep + s[1..]
    else [s[0]] + ReplaceFirst(s[1..], c, rep)
  }

  predicate IsUpper(ch: char) { 'A' <= ch <= 'Z' }

  /** `toLowerCase` of one code unit (ASCII letters only). */
  function LowerChar(ch: char): char {
    if IsUpper(ch) then (ch as int + 32) as char else ch
  }

  /** `s.toLowerCase()`: every upper-case letter lowered, nothing else touched. */
  function ToLower(s: string): (r: string)
    ensures |r| == |s|
    ensures forall k :: 0 <= k < |r| ==> !IsUpper(r[k])
    ensures forall k :: 0 <= k < |s| && !IsUpper(s[k]) ==> r[k] == s[k]
    ensures forall k :: 0 <= k < |s| && IsUpper(s[k]) ==>
      'a' <= r[k] <= 'z' && r[k] as int - 'a' as int == s[k] as int - 'A' as int
  {
    seq(|s|, k requires 0 <= k < |s| => LowerChar(s[k]))
  }

  /** Lower-casing a lower-cased string changes nothing. */
  lemma ToLowerIdempotent(s: string)
    ensures ToLower(ToLower(s)) == ToLower(s)
  {
    var t := ToLower(s);
    assert forall k :: 0 <= k < |t| ==> ToLower(t)[k] == t[k];
  }

  predicate IsDigit(ch: char) { '0' <= ch <= '9' }

  function DigitChar(d: nat): (ch: char)
    requires d < 10
    ensures IsDigit(ch)
  {
    ('0' as int + d) as char
  }

  /** `${n}`: the decimal form of a natural number. */
  function NatToDecimal(n: nat): (r: string)
    ensures |r| >= 1
    ensures forall k :: 0 <= k < |r| ==> IsDigit(r[k])
  {
    if n < 10 then [DigitChar(n)] else NatToDecimal(n / 10) + [DigitChar(n % 10)]
  }

  /** The number a string of decimal digits denotes. */
  function DecimalValue(s: string): int
    requires forall k :: 0 <= k < |s| ==> IsDigit(s[k])
  {
    if s == [] then 0 else 10 * DecimalValue(s[..|s| - 1]) + (s[|s| - 1] as int - '0' as int)
  }

  /** Reading back the decimal form of `n` gives `n`. */
  lemma {:induction false} DecimalRoundTrip(n: nat)
    ensures DecimalValue(NatToDecimal(n)) == n
  {
    if n >= 10 {
      DecimalRoundTrip(n / 10);
      var r := NatToDecimal(n);
      assert r[..|r| - 1] == NatToDecimal(n / 10);
    }
  }
}
