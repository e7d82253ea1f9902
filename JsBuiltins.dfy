/** The JavaScript built-ins the page script relies on, restricted to the
    values it meets: `Number(s)` (and unary `+`) on integer strings, the
    decimal rendering of an integer, relational comparison of two strings,
    `String.prototype.split` on one separator character, `Array.prototype.join`
    and the first-match lookups `Array.prototype.find` / `getElementById`. */
module JsBuiltins {

  datatype Option<T> = None | Some(value: T)

  /** A JavaScript number as the script can meet it: an integer, or NaN. */
  datatype Num = NaN | Int(value: int)

  // ---------------------------------------------------------------------
  // Decimal digits
  // ---------------------------------------------------------------------

  predicate IsDigit(c: char) { '0' <= c <= '9' }

  predicate AllDigits(s: string) { forall i :: 0 <= i < |s| ==> IsDigit(s[i]) }

  function DigitValue(c: char): (d: nat)
    requires IsDigit(c)
    ensures d < 10
  {
    c as int - '0' as int
  }

  function DigitChar(d: nat): (c: char)
    requires d < 10
    ensures IsDigit(c) && DigitValue(c) == d
  {
    (('0' as int) + d) as char
  }

  /** The value of a run of decimal digits, most significant first. */
  function DigitsValue(s: string): nat
    requires AllDigits(s)
    decreases |s|
  {
    if s == [] then 0 else DigitsValue(s[..|s| - 1]) * 10 + DigitValue(s[|s| - 1])
  }

  /** The decimal digits of `n` without leading zeros. */
  function NatToDigits(n: nat): (s: string)
    ensures |s| > 0 && AllDigits(s)
    decreases n
  {
    if n < 10 then [DigitChar(n)] else NatToDigits(n / 10) + [DigitChar(n % 10)]
  }

  /** `String(n)` for an integer-valued number `n`. */
  function IntToString(n: int): (s: string)
    ensures |s| > 0
  {
    if n < 0 then "-" + NatToDigits(-n) else NatToDigits(n)
  }

  /** `Number(s)`: the empty string is 0, an optional sign followed by at
      least one decimal digit is that integer, anything else is NaN. */
  function ToNumber(s: string): (r: Num)
    ensures AllDigits(s) ==> r == Int(DigitsValue(s))
    ensures |s| > 1 && s[0] == '-' && AllDigits(s[1..]) ==> r == Int(-(DigitsValue(s[1..]) as int))
    ensures |s| > 1 && s[0] == '+' && AllDigits(s[1..]) ==> r == Int(DigitsValue(s[1..]))
    ensures r.NaN? <==> !AllDigits(s) && !(|s| > 1 && (s[0] == '-' || s[0] == '+') && AllDigits(s[1..]))
  {
    if s == [] then Int(0)
    else if s[0] == '-' && |s| > 1 && AllDigits(s[1..]) then Int(-(DigitsValue(s[1..]) as int))
    else if s[0] == '+' && |s| > 1 && AllDigits(s[1..]) then Int(DigitsValue(s[1..]))
    else if AllDigits(s) then Int(DigitsValue(s))
    else NaN
  }

  lemma {:induction false} DigitsRoundTrip(n: nat)
    ensures DigitsValue(NatToDigits(n)) == n
    decreases n
  {
    var s := NatToDigits(n);
    if n >= 10 {
      DigitsRoundTrip(n / 10);
      assert s[..|s| - 1] == NatToDigits(n / 10);
    }
  }

  /** Reading back the decimal rendering of an integer gives that integer. */
  lemma NumberOfString(n: int)
    ensures ToNumber(IntToString(n)) == Int(n)
  {
    if n < 0 {
      DigitsRoundTrip(-n);
      assert IntToString(n)[1..] == NatToDigits(-n);
    } else {
      DigitsRoundTrip(n);
    }
  }

  /** A string with a character that is neither a digit nor a leading sign is NaN. */
  lemma NumberOfNonNumeric(s: string, i: nat)
    requires 0 < i < |s| && !IsDigit(s[i])
    ensures ToNumber(s) == NaN
  {
    assert !IsDigit(s[1..][i - 1]);
  }

  // ---------------------------------------------------------------------
  // Relational comparison of strings
  // ---------------------------------------------------------------------

  /** `a < b` on two strings: character-wise lexicographic order, where a
      proper prefix is smaller than the longer string. */
  function StrLess(a: string, b: string): (r: bool)
    ensures r <==> exists k :: LessAt(a, b, k)
    decreases |a|
  {
    if b == [] then false
    else if a == [] then assert LessAt(a, b, 0); true
    else if a[0] != b[0] then
      assert forall k :: LessAt(a, b, k) ==> k == 0;
      assert a[0] < b[0] ==> LessAt(a, b, 0);
      a[0] < b[0]
    else
      var r := StrLess(a[1..], b[1..]);
      assert forall k :: LessAt(a, b, k + 1) <==> LessAt(a[1..], b[1..], k) by {
        forall k ensures LessAt(a, b, k + 1) <==> LessAt(a[1..], b[1..], k) {
          if 0 <= k <= |a[1..]| && k < |b[1..]| {
            assert a[..k + 1] == [a[0]] + a[1..][..k];
            assert b[..k + 1] == [b[0]] + b[1..][..k];
          }
        }
      }
      assert !LessAt(a, b, 0);
      assert (exists k :: LessAt(a, b, k)) ==> exists k :: LessAt(a[1..], b[1..], k) by {
        if k :| LessAt(a, b, k) { assert k > 0 && LessAt(a[1..], b[1..], k - 1); }
      }
      r
  }

  /** `a` and `b` agree on their first `k` characters, and then `a` ends
      where `b` goes on, or `a` has the smaller character. */
  predicate LessAt(a: string, b: string, k: int)
  {
    0 <= k <= |a| && k < |b| && a[..k] == b[..k] && (k == |a| || a[k] < b[k])
  }

  /** `StrLess` is a strict total order, so `!(a < b)` is `a >= b`. */
  lemma {:induction false} StrLessTrichotomy(a: string, b: string)
    ensures !(StrLess(a, b) && StrLess(b, a))
    ensures a == b || StrLess(a, b) || StrLess(b, a)
    ensures !StrLess(a, a)
    decreases |a|
  {
    if a != [] && b != [] && a[0] == b[0] {
      StrLessTrichotomy(a[1..], b[1..]);
      if a[1..] == b[1..] {
        assert a == [a[0]] + a[1..] && b == [b[0]] + b[1..];
      }
    }
    if a != [] {
      StrLessTrichotomy(a[1..], a[1..]);
    }
  }

  // ---------------------------------------------------------------------
  // split and join
  // ---------------------------------------------------------------------

  /** `parts.join(sep)`. */
  function Join(parts: seq<string>, sep: string): string
    decreases |parts|
  {
    if parts == [] then []
    else if |parts| == 1 then parts[0]
    else parts[0] + sep + Join(parts[1..], sep)
  }

  lemma JoinPrepend(parts: seq<string>, sep: string, c: char)
    requires |parts| >= 1
    ensures Join([[c] + parts[0]] + parts[1..], sep) == [c] + Join(parts, sep)
  {
    var ps := [[c] + parts[0]] + parts[1..];
    assert ps[1..] == parts[1..];
  }

  /** Joining all but the last part and then the last part. */
  lemma {:induction false} JoinSnoc(parts: seq<string>, sep: string)
    requires |parts| >= 2
    ensures Join(parts, sep) == Join(parts[..|parts| - 1], sep) + sep + parts[|parts| - 1]
    decreases |parts|
  {
    var front := parts[..|parts| - 1];
    if |parts| > 2 {
      JoinSnoc(parts[1..], sep);
      assert parts[1..][..|parts| - 2] == front[1..];
    }
  }

  /** `s.split(sep)`: the pieces between occurrences of `sep`; joining them
      with `sep` gives `s` back and no piece contains `sep`. */
  function Split(s: string, sep: char): (parts: seq<string>)
    ensures |parts| >= 1
    ensures forall i :: 0 <= i < |parts| ==> sep !in parts[i]
    ensures Join(parts, [sep]) == s
    decreases |s|
  {
    if s == [] then [[]]
    else
      var rest := Split(s[1..], sep);
      if s[0] == sep then
        assert ([[]] + rest)[1..] == rest;
        [[]] + rest
      else
        JoinPrepend(rest, [sep], s[0]);
        [[s[0]] + rest[0]] + rest[1..]
  }

  /** `s.split(sep).pop()` is the text after the last `sep` in `s`, or all
      of `s` when it has none. */
  lemma LastOfSplit(s: string, sep: char)
    ensures var parts := Split(s, sep); var seg := parts[|parts| - 1];
      && sep !in seg
      && |seg| <= |s| && seg == s[|s| - |seg|..]
      && (|seg| < |s| ==> s[|s| - |seg| - 1] == sep)
  {
    var parts := Split(s, sep);
    var seg := parts[|parts| - 1];
    if |parts| >= 2 {
      JoinSnoc(parts, [sep]);
      var prefix := Join(parts[..|parts| - 1], [sep]);
      assert s == prefix + [sep] + seg;
      assert s[|s| - |seg|..] == seg;
      assert s[|s| - |seg| - 1] == sep;
    }
  }

  // ---------------------------------------------------------------------
  // First-match lookup
  // ---------------------------------------------------------------------

  /** The index of the first element equal to `x`, as `find` and
      `getElementById` return the first match in order. */
  function FindFirst(xs: seq<string>, x: string): (r: Option<nat>)
    ensures r.Some? ==> r.value < |xs| && xs[r.value] == x
    ensures r.Some? ==> forall j :: 0 <= j < r.value ==> xs[j] != x
    ensures r.None? <==> x !in xs
    decreases |xs|
  {
    if xs == [] then None
    else if xs[0] == x then Some(0)
    else match FindFirst(xs[1..], x)
      case None => None
      case Some(i) => Some(i + 1)
  }
}
