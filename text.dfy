/** Text helpers shared by the commands and the listener: the Java string operations the
    core relies on (startsWith, equalsIgnoreCase, toLowerCase, Long.parseLong,
    String.valueOf, String.join, String.replace), restricted to what the core uses. */
module Text {

  datatype Option<T> = None | Some(value: T)

  /** Java `String.startsWith`. */
  predicate StartsWith(s: string, prefix: string) {
    |prefix| <= |s| && s[..|prefix|] == prefix
  }

  /** Lower-casing of one character; only the ASCII letters are mapped. */
  function LowerChar(c: char): char {
    if 'A' <= c <= 'Z' then (c as int + 32) as char else c
  }

  /** Java `String.toLowerCase`, for ASCII letters. */
  function ToLower(s: string): (r: string)
    ensures |r| == |s|
    ensures forall i :: 0 <= i < |s| ==> r[i] == LowerChar(s[i])
  {
    if s == [] then [] else [LowerChar(s[0])] + ToLower(s[1..])
  }

  /** Java `String.equalsIgnoreCase`, for ASCII letters. */
  predicate EqualsIgnoreCase(a: string, b: string) {
    |a| == |b| && forall i :: 0 <= i < |a| ==> LowerChar(a[i]) == LowerChar(b[i])
  }

  /** `list.stream().filter(x -> x.startsWith(p)).collect(toList())`. */
  function FilterPrefix(xs: seq<string>, p: string): (r: seq<string>)
    ensures |r| <= |xs|
    ensures forall x :: x in r <==> x in xs && StartsWith(x, p)
  {
    if xs == [] then []
    else (if StartsWith(xs[0], p) then [xs[0]] else []) + FilterPrefix(xs[1..], p)
  }

  /** The filter keeps list order: filtering a concatenation filters each part in turn. */
  lemma {:induction false} FilterPrefixAppend(a: seq<string>, b: seq<string>, p: string)
    ensures FilterPrefix(a + b, p) == FilterPrefix(a, p) + FilterPrefix(b, p)
  {
    if a != [] {
      assert (a + b)[0] == a[0];
      assert (a + b)[1..] == a[1..] + b;
      FilterPrefixAppend(a[1..], b, p);
      var h := if StartsWith(a[0], p) then [a[0]] else [];
      assert FilterPrefix(a + b, p) == h + FilterPrefix(a[1..] + b, p);
      assert FilterPrefix(a, p) == h + FilterPrefix(a[1..], p);
    } else {
      assert a + b == b;
    }
  }

  // ---------------------------------------------------------------------------
  // Decimal numbers: String.valueOf / Long.toString and Long.parseLong

  const LONG_MIN: int := -0x8000_0000_0000_0000
  const LONG_MAX: int := 0x7fff_ffff_ffff_ffff

  predicate IsDigit(c: char) {
    '0' <= c <= '9'
  }

  predicate AllDigits(s: string) {
    forall i :: 0 <= i < |s| ==> IsDigit(s[i])
  }

  function DigitChar(d: int): (c: char)
    requires 0 <= d < 10
    ensures IsDigit(c)
  {
    ('0' as int + d) as char
  }

  function DigitValue(c: char): (d: int)
    requires IsDigit(c)
    ensures 0 <= d < 10
  {
    c as int - '0' as int
  }

  /** Decimal digits of a natural number, most significant first, without leading zeros. */
  function NatToString(n: nat): (s: string)
    ensures |s| > 0 && AllDigits(s)
  {
    if n < 10 then [DigitChar(n)] else NatToString(n / 10) + [DigitChar(n % 10)]
  }

  /** The value of a string of decimal digits. */
  function DigitsValue(s: string): nat
    requires AllDigits(s)
  {
    if s == [] then 0 else DigitsValue(s[..|s| - 1]) * 10 + DigitValue(s[|s| - 1])
  }

  lemma {:induction false} DigitsValueOfNatToString(n: nat)
    ensures DigitsValue(NatToString(n)) == n
  {
    var s := NatToString(n);
    if n >= 10 {
      DigitsValueOfNatToString(n / 10);
      assert s[..|s| - 1] == NatToString(n / 10);
      assert DigitValue(s[|s| - 1]) == n % 10;
    }
  }

  /** Java `Long.toString` / `String.valueOf` of an integer. */
  function IntToString(n: int): string {
    if n < 0 then "-" + NatToString(-n) else NatToString(n)
  }

  /** Java `Long.parseLong`: an optional sign, at least one decimal digit, and a value
      within the range of a 64-bit long; anything else is a NumberFormatException (None). */
  function ParseLong(s: string): (r: Option<int>)
    ensures r.Some? ==> LONG_MIN <= r.value <= LONG_MAX
    ensures r.Some? ==> |s| > 0
  {
    if |s| == 0 then None
    else
      var body := if s[0] == '-' || s[0] == '+' then s[1..] else s;
      if |body| == 0 || !AllDigits(body) then None
      else
        var v: int := if s[0] == '-' then -(DigitsValue(body) as int) else DigitsValue(body);
        if LONG_MIN <= v <= LONG_MAX then Some(v) else None
  }

  /** Printing a long and parsing it back gives the same long. */
  lemma ParseLongIntToString(n: int)
    requires LONG_MIN <= n <= LONG_MAX
    ensures ParseLong(IntToString(n)) == Some(n)
  {
    var s := IntToString(n);
    if n < 0 {
      DigitsValueOfNatToString(-n);
      assert s[1..] == NatToString(-n);
    } else {
      DigitsValueOfNatToString(n);
      assert s[0] != '-' && s[0] != '+';
    }
  }

  // ---------------------------------------------------------------------------
  // String.join and its inverse

  /** Java `String.join(sep, words)`. */
  function Join(ws: seq<string>, sep: string): string {
    if |ws| == 0 then "" else if |ws| == 1 then ws[0] else ws[0] + sep + Join(ws[1..], sep)
  }

  /** Splitting on every occurrence of `c`: the way a command line is cut into arguments. */
  function SplitOn(s: string, c: char): (r: seq<string>)
    ensures |r| > 0
  {
    if s == [] then [""]
    else if s[0] == c then [""] + SplitOn(s[1..], c)
    else
      var rest := SplitOn(s[1..], c);
      [[s[0]] + rest[0]] + rest[1..]
  }

  lemma {:induction false} SplitOnWord(w: string, c: char, t: string)
    requires c !in w
    ensures SplitOn(w + [c] + t, c) == [w] + SplitOn(t, c)
  {
    if w != [] {
      assert (w + [c] + t)[0] == w[0];
      assert (w + [c] + t)[1..] == w[1..] + [c] + t;
      SplitOnWord(w[1..], c, t);
      assert [w[0]] + w[1..] == w;
    } else {
      assert w + [c] + t == [c] + t;
    }
  }

  lemma {:induction false} SplitOnPlain(w: string, c: char)
    requires c !in w
    ensures SplitOn(w, c) == [w]
  {
    if w != [] {
      SplitOnPlain(w[1..], c);
      assert [w[0]] + w[1..] == w;
    }
  }

  /** Joining words that contain no separator character and splitting the result on that
      character gives the words back. */
  lemma {:induction false} SplitOnJoin(ws: seq<string>, c: char)
    requires |ws| > 0
    requires forall i :: 0 <= i < |ws| ==> c !in ws[i]
    ensures SplitOn(Join(ws, [c]), c) == ws
  {
    if |ws| == 1 {
      SplitOnPlain(ws[0], c);
    } else {
      SplitOnJoin(ws[1..], c);
      SplitOnWord(ws[0], c, Join(ws[1..], [c]));
      assert [ws[0]] + ws[1..] == ws;
    }
  }

  // ---------------------------------------------------------------------------
  // String.replace

  /** Java `String.replace(target, replacement)`: every occurrence of `t`, scanning from the
      left and without overlaps, is replaced by `r`. */
  function ReplaceAll(s: string, t: string, r: string): string
    requires |t| > 0
    decreases |s|
  {
    if |s| < |t| then s
    else if s[..|t|] == t then r + ReplaceAll(s[|t|..], t, r)
    else [s[0]] + ReplaceAll(s[1..], t, r)
  }

  /** Text that cannot start an occurrence of `t` passes through unchanged. */
  lemma {:induction false} ReplaceAllSkips(a: string, s: string, t: string, r: string)
    requires |t| > 0 && t[0] !in a
    ensures ReplaceAll(a + s, t, r) == a + ReplaceAll(s, t, r)
  {
    if a != [] {
      var x := a + s;
      assert x[0] == a[0];
      if |x| >= |t| {
        assert x[..|t|][0] != t[0];
      }
      assert x[1..] == a[1..] + s;
      ReplaceAllSkips(a[1..], s, t, r);
      assert [a[0]] + a[1..] == a;
    } else {
      assert a + s == s;
    }
  }

  /** A placeholder surrounded by text free of its first character is replaced exactly once. */
  lemma ReplaceAllSplice(a: string, b: string, t: string, r: string)
    requires |t| > 0 && t[0] !in a && t[0] !in b
    ensures ReplaceAll(a + t + b, t, r) == a + r + b
  {
    ReplaceAllSkips(a, t + b, t, r);
    assert a + t + b == a + (t + b);
    assert (t + b)[..|t|] == t;
    assert (t + b)[|t|..] == b;
    ReplaceAllSkips(b, [], t, r);
    assert b + [] == b;
  }

  /** Text free of the first character of `t` is left unchanged. */
  lemma ReplaceAllUnchanged(s: string, t: string, r: string)
    requires |t| > 0 && t[0] !in s
    ensures ReplaceAll(s, t, r) == s
  {
    ReplaceAllSkips(s, [], t, r);
    assert s + [] == s;
  }

  /** A different placeholder `u` (same opening character, different second character) is
      not an occurrence of `t` and is left in place. */
  lemma ReplaceAllMismatch(a: string, u: string, b: string, t: string, r: string)
    requires |t| >= 2 && |u| >= 2 && u[0] == t[0] && u[1] != t[1]
    requires t[0] !in a && t[0] !in u[1..] && t[0] !in b
    ensures ReplaceAll(a + u + b, t, r) == a + u + b
  {
    var s := u + b;
    ReplaceAllSkips(a, s, t, r);
    assert a + u + b == a + s;
    if |s| >= |t| {
      assert s[..|t|][1] == u[1];
      assert s[1..] == u[1..] + b;
      ReplaceAllUnchanged(s[1..], t, r);
      assert [s[0]] + s[1..] == s;
    }
  }
}
