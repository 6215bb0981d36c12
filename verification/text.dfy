/** Characters and strings: ASCII case mapping, decimal numerals, and the
    handful of Python `str` operations the programs rely on (`rstrip`,
    `ljust`, `zfill`, prefix slicing and `split`). */
module Text {
  import opened Wrappers

  predicate IsAscii(s: string)
  {
    forall i :: 0 <= i < |s| ==> s[i] as int < 128
  }

  /** Upper-case form of an ASCII letter; every other character is kept. */
  function UpperChar(c: char): char
  {
    if 'a' <= c <= 'z' then (c as int - 32) as char else c
  }

  /** Lower-case form of an ASCII letter; every other character is kept. */
  function LowerChar(c: char): char
  {
    if 'A' <= c <= 'Z' then (c as int + 32) as char else c
  }

  /** ASCII upper-casing, as `bytes.upper` does. */
  function Upper(s: string): (r: string)
    ensures |r| == |s|
    ensures forall i :: 0 <= i < |s| ==> r[i] == UpperChar(s[i])
  {
    seq(|s|, i requires 0 <= i < |s| => UpperChar(s[i]))
  }

  /** ASCII lower-casing. */
  function Lower(s: string): (r: string)
    ensures |r| == |s|
    ensures forall i :: 0 <= i < |s| ==> r[i] == LowerChar(s[i])
  {
    seq(|s|, i requires 0 <= i < |s| => LowerChar(s[i]))
  }

  function Repeat(c: char, n: nat): (r: string)
    ensures |r| == n
    ensures forall i :: 0 <= i < n ==> r[i] == c
  {
    seq(n, _ => c)
  }

  /** Python's `s.rstrip(c)`: `s` without its trailing run of `c`. */
  function RStrip(s: string, c: char): (r: string)
    ensures |r| <= |s| && r == s[..|r|]
    ensures forall i :: |r| <= i < |s| ==> s[i] == c
    ensures r == [] || r[|r| - 1] != c
    decreases |s|
  {
    if s != [] && s[|s| - 1] == c then RStrip(s[..|s| - 1], c) else s
  }

  /** Stripping a run of `c` appended to a string that does not end in `c`
      gives that string back. */
  lemma {:induction false} RStripAppended(s: string, c: char, n: nat)
    requires s == [] || s[|s| - 1] != c
    ensures RStrip(s + Repeat(c, n), c) == s
    decreases n
  {
    if n == 0 {
      assert s + Repeat(c, n) == s;
    } else {
      assert (s + Repeat(c, n))[..|s| + n - 1] == s + Repeat(c, n - 1);
      RStripAppended(s, c, n - 1);
    }
  }

  /** Appending a run of `c` does not change what `rstrip` leaves. */
  lemma RStripPadded(s: string, c: char, n: nat)
    ensures RStrip(s + Repeat(c, n), c) == RStrip(s, c)
  {
    var b := RStrip(s, c);
    assert s == b + Repeat(c, |s| - |b|);
    assert s + Repeat(c, n) == b + Repeat(c, |s| - |b| + n);
    RStripAppended(b, c, |s| - |b| + n);
  }

  /** Python's `s[:n]`: the first `n` characters, where a negative `n`
      counts back from the end. */
  function Prefix(s: string, n: int): (r: string)
    ensures n >= 0 ==> |r| == if n <= |s| then n else |s|
    ensures n < 0 ==> |r| == if |s| + n >= 0 then |s| + n else 0
    ensures r == s[..|r|]
  {
    if n >= 0 then (if n <= |s| then s[..n] else s)
    else if |s| + n >= 0 then s[..|s| + n]
    else []
  }

  /** Python's `s.ljust(width, c)`. */
  function LJust(s: string, width: int, c: char): (r: string)
    ensures |s| < width ==> |r| == width
    ensures |s| >= width ==> r == s
    ensures r[..|s|] == s
    ensures forall i :: |s| <= i < |r| ==> r[i] == c
  {
    if |s| < width then s + Repeat(c, width - |s|) else s
  }

  /** Python's `s.zfill(width)` for a string without a leading sign. */
  function ZFill(s: string, width: int): (r: string)
    ensures |r| == if |s| < width then width else |s|
    ensures r[|r| - |s|..] == s
    ensures forall i :: 0 <= i < |r| - |s| ==> r[i] == '0'
  {
    if |s| < width then Repeat('0', width - |s|) + s else s
  }

  predicate IsDigit(c: char)
  {
    '0' <= c <= '9'
  }

  predicate AllDigits(s: string)
  {
    forall i :: 0 <= i < |s| ==> IsDigit(s[i])
  }

  function DigitChar(d: nat): (c: char)
    requires d < 10
    ensures IsDigit(c)
  {
    ('0' as int + d) as char
  }

  function DigitValue(c: char): (d: nat)
    requires IsDigit(c)
    ensures d < 10 && DigitChar(d) == c
  {
    c as int - '0' as int
  }

  /** Python's `str(n)` for a non-negative `n`. */
  function DecimalString(n: nat): (s: string)
    ensures 1 <= |s| && AllDigits(s)
    ensures n < 10 ==> |s| == 1
    decreases n
  {
    if n < 10 then [DigitChar(n)] else DecimalString(n / 10) + [DigitChar(n % 10)]
  }

  /** The number a string of decimal digits denotes. */
  function DecimalValue(s: string): nat
    requires AllDigits(s)
    decreases |s|
  {
    if s == [] then 0 else 10 * DecimalValue(s[..|s| - 1]) + DigitValue(s[|s| - 1])
  }

  /** Python's `int(s)`, restricted to strings of ASCII decimal digits. */
  function ParseDecimal(s: string): (r: Option<nat>)
    ensures r.Some? <==> s != [] && AllDigits(s)
  {
    if s != [] && AllDigits(s) then Some(DecimalValue(s)) else None
  }

  lemma {:induction false} DecimalStringValue(n: nat)
    ensures DecimalValue(DecimalString(n)) == n
    decreases n
  {
    if n >= 10 {
      var s := DecimalString(n);
      assert s[..|s| - 1] == DecimalString(n / 10);
      DecimalStringValue(n / 10);
    }
  }

  /** `str(n)` has at most three digits exactly when `n < 1000`. */
  lemma {:induction false} DecimalStringShort(n: nat)
    ensures |DecimalString(n)| <= 3 <==> n < 1000
  {
    if n >= 10 {
      assert |DecimalString(n)| == |DecimalString(n / 10)| + 1;
      if n >= 100 {
        assert |DecimalString(n / 10)| == |DecimalString(n / 100)| + 1;
        if n >= 1000 {
          assert |DecimalString(n / 100)| == |DecimalString(n / 1000)| + 1;
        } else {
          assert |DecimalString(n / 100)| == 1;
        }
      } else {
        assert |DecimalString(n / 10)| == 1;
      }
    }
  }

  /** Leading zeros do not change the value of a numeral. */
  lemma {:induction false} LeadingZeros(k: nat, s: string)
    requires AllDigits(s)
    ensures AllDigits(Repeat('0', k) + s)
    ensures DecimalValue(Repeat('0', k) + s) == DecimalValue(s)
    decreases |s|
  {
    var z := Repeat('0', k) + s;
    if s == [] {
      ZeroRun(k);
      assert z == Repeat('0', k);
    } else {
      var init := s[..|s| - 1];
      assert z[..|z| - 1] == Repeat('0', k) + init;
      LeadingZeros(k, init);
    }
  }

  lemma {:induction false} ZeroRun(k: nat)
    ensures DecimalValue(Repeat('0', k)) == 0
    decreases k
  {
    if k > 0 {
      assert Repeat('0', k)[..k - 1] == Repeat('0', k - 1);
      ZeroRun(k - 1);
    }
  }

  /** Parsing a zero-filled numeral gives back the number. */
  lemma ParseZeroFilled(n: nat, width: int)
    ensures ParseDecimal(ZFill(DecimalString(n), width)) == Some(n)
  {
    var s := DecimalString(n);
    DecimalStringValue(n);
    if |s| < width {
      LeadingZeros(width - |s|, s);
    }
  }

  /** Python's `s.split(c)[0]`: the text before the first `c`. */
  function Before(s: string, c: char): (r: string)
    ensures |r| <= |s| && r == s[..|r|]
    ensures c !in r
    ensures |r| < |s| ==> s[|r|] == c
    decreases |s|
  {
    if s == [] || s[0] == c then [] else [s[0]] + Before(s[1..], c)
  }

  /** The text before the first `c` of `a + [c] + b`, when `a` holds no `c`,
      is `a`. */
  lemma {:induction false} BeforeJoined(a: string, c: char, b: string)
    requires c !in a
    ensures Before(a + [c] + b, c) == a
    decreases |a|
  {
    var s := a + [c] + b;
    if a == [] {
      assert s[0] == c;
    } else {
      assert s[0] == a[0] && s[1..] == a[1..] + [c] + b;
      BeforeJoined(a[1..], c, b);
      assert [a[0]] + a[1..] == a;
    }
  }

  /** Python's `s.split(c, 1)[1]`: the text after the first `c`. */
  function After(s: string, c: char): (r: string)
    requires c in s
    ensures s == Before(s, c) + [c] + r
  {
    var head := Before(s, c);
    assert |head| < |s|;
    s[|head| + 1..]
  }

  /** Python's `s.split(c, 1)` when it yields two parts: the text before the
      first `c` and the text after it. */
  function SplitOnce(s: string, c: char): (r: Option<(string, string)>)
    ensures r.Some? <==> c in s
    ensures r.Some? ==> r.value.0 == Before(s, c) && s == r.value.0 + [c] + r.value.1
  {
    var head := Before(s, c);
    if |head| < |s| then
      assert s == head + [c] + s[|head| + 1..];
      Some((head, s[|head| + 1..]))
    else
      assert s == head;
      None
  }
}
