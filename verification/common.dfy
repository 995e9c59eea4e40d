/** Shared vocabulary of the reconciliation layer: optional and failing
    results, real-number helpers for times, Python's two-decimal rounding,
    and the few string operations (strip, lower, join) the pipeline uses. */
module Common {

  /** Python's `None` versus a present value. */
  datatype Option<T> = None | Some(value: T)

  /** A computation that returns a value or raises a Python exception,
      named by its class. */
  datatype Result<T> = Ok(value: T) | Raises(error: string)

  function Min(a: real, b: real): (r: real)
    ensures r <= a && r <= b
    ensures r == a || r == b
  {
    if a <= b then a else b
  }

  function Max(a: real, b: real): (r: real)
    ensures r >= a && r >= b
    ensures r == a || r == b
  {
    if a >= b then a else b
  }

  /** Python's `round(x)` for an exact real: the nearest integer, ties to
      the even neighbour. */
  function RoundHalfEven(x: real): (n: int)
    ensures -0.5 <= x - n as real <= 0.5
    ensures x - n as real == 0.5 ==> n % 2 == 0
    ensures n as real - x == 0.5 ==> n % 2 == 0
  {
    var f := x.Floor;
    var frac := x - f as real;
    if frac < 0.5 then f
    else if frac > 0.5 then f + 1
    else if f % 2 == 0 then f
    else f + 1
  }

  /** Python's `round(x, 2)`: the nearest multiple of 0.01, ties to even
      hundredths. */
  function Round2(x: real): (r: real)
    ensures -0.005 <= x - r <= 0.005
    ensures (r * 100.0).Floor as real == r * 100.0
  {
    var n := RoundHalfEven(x * 100.0);
    HundredthsNear(x, n);
    n as real / 100.0
  }

  /** `n` hundredths is within half a hundredth of `x` when `n` is within a
      half of `100 x`, and it is a whole number of hundredths. */
  lemma HundredthsNear(x: real, n: int)
    requires -0.5 <= x * 100.0 - n as real <= 0.5
    ensures -0.005 <= x - n as real / 100.0 <= 0.005
    ensures (n as real / 100.0 * 100.0).Floor as real == n as real / 100.0 * 100.0
  {
    var h := n as real / 100.0;
    assert h * 100.0 == n as real;
    assert x - h == (x * 100.0 - n as real) / 100.0;
  }

  lemma RoundHalfEvenOfInteger(n: int)
    ensures RoundHalfEven(n as real) == n
  {
  }

  /** A value that is already a whole number of hundredths rounds to itself. */
  lemma Round2OfHundredths(x: real)
    requires (x * 100.0).Floor as real == x * 100.0
    ensures Round2(x) == x
  {
    RoundHalfEvenOfInteger((x * 100.0).Floor);
  }

  /** Rounding an already rounded value changes nothing. */
  lemma Round2Idempotent(x: real)
    ensures Round2(Round2(x)) == Round2(x)
  {
    var r := Round2(x);
    var n := (r * 100.0).Floor;
    assert r * 100.0 == n as real;
    RoundHalfEvenOfInteger(n);
    assert Round2(r) == n as real / 100.0;
  }

  /** Rounding a non-negative value yields a non-negative value. */
  lemma Round2NonNegative(x: real)
    requires x >= 0.0
    ensures Round2(x) >= 0.0
  {
  }

  /** A positive rounded value comes from a positive value. */
  lemma Round2PositiveFromPositive(x: real)
    requires Round2(x) > 0.0
    ensures x > 0.0
  {
  }

  lemma Round2Zero()
    ensures Round2(0.0) == 0.0
  {
    RoundHalfEvenOfInteger(0);
  }

  /** The characters Python's `str.isspace` accepts. */
  predicate IsSpace(c: char)
  {
    || '\U{0009}' <= c <= '\U{000D}'
    || '\U{001C}' <= c <= '\U{0020}'
    || c == '\U{0085}' || c == '\U{00A0}' || c == '\U{1680}'
    || '\U{2000}' <= c <= '\U{200A}'
    || c == '\U{2028}' || c == '\U{2029}' || c == '\U{202F}' || c == '\U{205F}' || c == '\U{3000}'
  }

  /** `s.lstrip()`: the suffix left after dropping leading whitespace. */
  function LStrip(s: string): (r: string)
    ensures |r| <= |s|
    ensures r == [] || !IsSpace(r[0])
  {
    if s == [] || !IsSpace(s[0]) then s else LStrip(s[1..])
  }

  /** What `lstrip` keeps is a suffix of its argument, and what it drops is
      whitespace. */
  lemma {:induction false} LStripSuffix(s: string)
    ensures LStrip(s) == s[|s| - |LStrip(s)|..]
    ensures forall k :: 0 <= k < |s| - |LStrip(s)| ==> IsSpace(s[k])
  {
    if s != [] && IsSpace(s[0]) {
      LStripSuffix(s[1..]);
      assert s[1..][|s| - 1 - |LStrip(s)|..] == s[|s| - |LStrip(s)|..];
    }
  }

  /** `s.rstrip()`: the prefix left after dropping trailing whitespace. */
  function RStrip(s: string): (r: string)
    ensures |r| <= |s|
    ensures r == [] || !IsSpace(r[|r| - 1])
  {
    if s == [] || !IsSpace(s[|s| - 1]) then s else RStrip(s[..|s| - 1])
  }

  /** What `rstrip` keeps is a prefix of its argument, and what it drops is
      whitespace. */
  lemma {:induction false} RStripPrefix(s: string)
    ensures RStrip(s) == s[..|RStrip(s)|]
    ensures forall k :: |RStrip(s)| <= k < |s| ==> IsSpace(s[k])
  {
    if s != [] && IsSpace(s[|s| - 1]) {
      RStripPrefix(s[..|s| - 1]);
      assert s[..|s| - 1][..|RStrip(s)|] == s[..|RStrip(s)|];
    }
  }

  /** `s.strip()`. */
  function Strip(s: string): (r: string)
    ensures |r| <= |s|
    ensures r == [] || (!IsSpace(r[0]) && !IsSpace(r[|r| - 1]))
  {
    var l := LStrip(s);
    RStripPrefix(l);
    RStrip(l)
  }

  /** A string made only of whitespace strips to the empty string, and
      only such strings do. */
  lemma StripEmptyIffAllSpace(s: string)
    ensures Strip(s) == [] <==> forall k :: 0 <= k < |s| ==> IsSpace(s[k])
  {
    var l := LStrip(s);
    LStripSuffix(s);
    RStripPrefix(l);
    if Strip(s) == [] {
      forall k | 0 <= k < |s|
        ensures IsSpace(s[k])
      {
        if k >= |s| - |l| {
          assert s[k] == l[k - (|s| - |l|)];
        }
      }
    } else {
      var r := Strip(s);
      assert r == l[..|r|];
      assert !IsSpace(s[|s| - |l|]);
    }
  }

  /** A string without surrounding whitespace is its own strip. */
  lemma StripOfStripped(s: string)
    requires s == [] || (!IsSpace(s[0]) && !IsSpace(s[|s| - 1]))
    ensures Strip(s) == s
  {
  }

  /** Lower-casing of one character: ASCII and Latin-1 capitals. */
  function LowerChar(c: char): (d: char)
    ensures 'A' <= d <= 'Z' ==> false
  {
    if 'A' <= c <= 'Z' then (c as int + 32) as char
    else if '\U{00C0}' <= c <= '\U{00DE}' && c != '\U{00D7}' then (c as int + 32) as char
    else c
  }

  /** `s.lower()` on the characters `LowerChar` covers. */
  function Lower(s: string): (r: string)
    ensures |r| == |s|
    ensures forall k :: 0 <= k < |r| ==> r[k] == LowerChar(s[k])
  {
    if s == [] then [] else [LowerChar(s[0])] + Lower(s[1..])
  }

  /** `sep.join(parts)`. */
  function Join(parts: seq<string>, sep: string): (r: string)
    ensures parts == [] ==> r == []
    ensures |parts| == 1 ==> r == parts[0]
  {
    if parts == [] then []
    else if |parts| == 1 then parts[0]
    else parts[0] + sep + Join(parts[1..], sep)
  }

  /** Joining one more part appends the separator and the part. */
  lemma {:induction false} JoinSnoc(parts: seq<string>, sep: string, t: string)
    requires parts != []
    ensures Join(parts + [t], sep) == Join(parts, sep) + sep + t
    decreases |parts|
  {
    if |parts| == 1 {
      assert (parts + [t])[1..] == [t];
    } else {
      assert (parts + [t])[1..] == parts[1..] + [t];
      JoinSnoc(parts[1..], sep, t);
    }
  }

  /** Concatenation of a sequence of sequences. */
  function Flatten<T>(ss: seq<seq<T>>): (r: seq<T>)
    ensures ss == [] ==> r == []
  {
    if ss == [] then [] else ss[0] + Flatten(ss[1..])
  }

  /** `[f(x, k) for k, x in enumerate(s) if k >= i]`. */
  function MapIndexed<T, U>(s: seq<T>, i: nat, f: (T, nat) -> U): (r: seq<U>)
    requires i <= |s|
    ensures |r| == |s| - i
    ensures forall j :: i <= j < |s| ==> r[j - i] == f(s[j], j)
    decreases |s| - i
  {
    if i == |s| then [] else [f(s[i], i)] + MapIndexed(s, i + 1, f)
  }

  lemma MapIndexedCons<T, U>(s: seq<T>, i: nat, f: (T, nat) -> U)
    requires i < |s|
    ensures MapIndexed(s, i, f) == [f(s[i], i)] + MapIndexed(s, i + 1, f)
  {
  }

  lemma FlattenCons<T>(a: seq<T>, rest: seq<seq<T>>)
    ensures Flatten([a] + rest) == a + Flatten(rest)
  {
    assert ([a] + rest)[1..] == rest;
  }

  lemma FlattenAppend<T>(a: seq<seq<T>>, b: seq<seq<T>>)
    ensures Flatten(a + b) == Flatten(a) + Flatten(b)
  {
    if a == [] {
      assert a + b == b;
    } else {
      assert (a + b)[1..] == a[1..] + b;
      FlattenAppend(a[1..], b);
    }
  }

  function DigitChar(d: nat): (c: char)
    requires d < 10
    ensures '0' <= c <= '9'
  {
    ('0' as int + d) as char
  }

  /** `str(n)` for a natural number. */
  function NatToString(n: nat): (r: string)
    ensures |r| >= 1
  {
    if n < 10 then [DigitChar(n)] else NatToString(n / 10) + [DigitChar(n % 10)]
  }

  /** `str(n)` is made of decimal digits and has no leading zero. */
  lemma {:induction false} NatToStringDigits(n: nat)
    ensures forall k :: 0 <= k < |NatToString(n)| ==> '0' <= NatToString(n)[k] <= '9'
    ensures |NatToString(n)| > 1 ==> NatToString(n)[0] != '0'
  {
    if n >= 10 {
      NatToStringDigits(n / 10);
    }
  }
}
