/**
 * The few JavaScript built-ins the decoders are written with, modelled on
 * values: `undefined` as an Option, `String.prototype.split` and `join` on
 * one separator character, unary `+` on a string of decimal digits, and the
 * 32-bit `<<` operator on numbers.
 */
module JsRuntime {
  import opened Bitboards

  /** A value that may be `undefined`. */
  datatype Option<+T> = None | Some(value: T)

  /** How many times d occurs in s. */
  function Count(s: seq<char>, d: char): (n: nat)
    ensures n <= |s|
  {
    if s == [] then 0 else (if s[0] == d then 1 else 0) + Count(s[1..], d)
  }

  /**
   * `s.split(d)` for a one-character separator: one field more than there
   * are separators, so never empty, and "" gives [""].
   */
  function Split(s: seq<char>, d: char): (r: seq<seq<char>>)
    ensures |r| == Count(s, d) + 1
    decreases |s|
  {
    if s == [] then [[]]
    else
      var rest := Split(s[1..], d);
      if s[0] == d then [[]] + rest else [[s[0]] + rest[0]] + rest[1..]
  }

  /**
   * The tokens of a split hold no separator and only characters of the
   * input, and joining them back gives the input.
   */
  lemma JoinSplit(s: seq<char>, d: char)
    ensures var r := Split(s, d);
      && (forall i | 0 <= i < |r| :: d !in r[i])
      && (forall i, j | 0 <= i < |r| && 0 <= j < |r[i]| :: r[i][j] in s)
      && Join(r, d) == s
  {
    SplitTokens(s, d);
    JoinOfSplit(s, d);
  }

  lemma {:induction false} SplitTokens(s: seq<char>, d: char)
    ensures forall i | 0 <= i < |Split(s, d)| :: d !in Split(s, d)[i]
    ensures forall i, j | 0 <= i < |Split(s, d)| && 0 <= j < |Split(s, d)[i]| :: Split(s, d)[i][j] in s
    decreases |s|
  {
    if s != [] {
      SplitTokens(s[1..], d);
      var rest := Split(s[1..], d);
      var r := Split(s, d);
      assert s == [s[0]] + s[1..];
      forall i, j | 0 <= i < |r| && 0 <= j < |r[i]| ensures r[i][j] in s {
        if s[0] != d && i == 0 && j == 0 {
          assert r[i][j] == s[0];
        } else if s[0] != d && i == 0 {
          assert r[0] == [s[0]] + rest[0];
          assert r[i][j] == rest[0][j - 1];
          assert rest[0][j - 1] in s[1..];
        } else {
          var t := if s[0] == d then i - 1 else i;
          assert r[i] == rest[t];
          assert rest[t][j] in s[1..];
        }
      }
      if s[0] != d {
        forall i | 0 <= i < |r| ensures d !in r[i] {
          if i > 0 {
            assert r[i] == rest[i];
          } else {
            assert r[0] == [s[0]] + rest[0];
          }
        }
      }
    }
  }

  lemma {:induction false} JoinOfSplit(s: seq<char>, d: char)
    ensures Join(Split(s, d), d) == s
    decreases |s|
  {
    if s != [] {
      JoinOfSplit(s[1..], d);
      var rest := Split(s[1..], d);
      var r := Split(s, d);
      assert s == [s[0]] + s[1..];
      if s[0] != d {
        assert r[1..] == rest[1..];
      }
    }
  }

  /** `ts.join(d)`. */
  function Join(ts: seq<seq<char>>, d: char): (s: seq<char>)
    requires |ts| >= 1
    decreases |ts|
  {
    if |ts| == 1 then ts[0] else ts[0] + [d] + Join(ts[1..], d)
  }

  /** Eight tokens joined: each followed by the separator, but the last. */
  lemma JoinEight(ts: seq<seq<char>>, d: char)
    requires |ts| == 8
    ensures Join(ts, d) == ts[0] + [d] + ts[1] + [d] + ts[2] + [d] + ts[3] + [d]
      + ts[4] + [d] + ts[5] + [d] + ts[6] + [d] + ts[7]
  {
    var j7 := Join(ts[7..], d);
    assert j7 == ts[7];
    var j6 := Join(ts[6..], d);
    assert ts[6..][1..] == ts[7..];
    assert j6 == ts[6] + [d] + j7;
    var j5 := Join(ts[5..], d);
    assert ts[5..][1..] == ts[6..];
    assert j5 == ts[5] + [d] + j6;
    var j4 := Join(ts[4..], d);
    assert ts[4..][1..] == ts[5..];
    assert j4 == ts[4] + [d] + j5;
    var j3 := Join(ts[3..], d);
    assert ts[3..][1..] == ts[4..];
    assert j3 == ts[3] + [d] + j4;
    var j2 := Join(ts[2..], d);
    assert ts[2..][1..] == ts[3..];
    assert j2 == ts[2] + [d] + j3;
    var j1 := Join(ts[1..], d);
    assert ts[1..][1..] == ts[2..];
    assert j1 == ts[1] + [d] + j2;
    assert Join(ts, d) == ts[0] + [d] + j1;
  }

  lemma {:induction false} JoinAppend(xs: seq<seq<char>>, ys: seq<seq<char>>, d: char)
    requires |xs| >= 1 && |ys| >= 1
    ensures Join(xs + ys, d) == Join(xs, d) + [d] + Join(ys, d)
    decreases |xs|
  {
    if |xs| == 1 {
      assert (xs + ys)[1..] == ys;
    } else {
      assert (xs + ys)[1..] == xs[1..] + ys;
      JoinAppend(xs[1..], ys, d);
    }
  }

  /** Splitting undoes joining tokens that do not contain the separator. */
  lemma {:induction false} SplitJoin(ts: seq<seq<char>>, d: char)
    requires |ts| >= 1
    requires forall i | 0 <= i < |ts| :: d !in ts[i]
    ensures Split(Join(ts, d), d) == ts
    decreases |ts|, |ts[0]|
  {
    var t := ts[0];
    if |ts| == 1 {
      SplitToken(t, d);
    } else if t == [] {
      var rest := Join(ts[1..], d);
      SplitJoin(ts[1..], d);
      assert Join(ts, d) == [d] + rest;
      SplitCons(d, rest, d);
      assert ts == [[]] + ts[1..];
    } else {
      var tail := [t[1..]] + ts[1..];
      assert tail[1..] == ts[1..];
      assert Join(ts, d) == [t[0]] + Join(tail, d);
      SplitJoin(tail, d);
      SplitCons(t[0], Join(tail, d), d);
      assert [t[0]] + t[1..] == t;
      assert ts == [[t[0]] + tail[0]] + tail[1..];
    }
  }

  lemma SplitCons(c: char, s: seq<char>, d: char)
    ensures Split([c] + s, d) ==
      if c == d then [[]] + Split(s, d) else [[c] + Split(s, d)[0]] + Split(s, d)[1..]
  {
    assert ([c] + s)[1..] == s;
  }

  lemma {:induction false} SplitToken(t: seq<char>, d: char)
    requires d !in t
    ensures Split(t, d) == [t]
    decreases |t|
  {
    if t != [] {
      SplitToken(t[1..], d);
      assert t == [t[0]] + t[1..];
    }
  }

  predicate IsDigit(c: char)
  {
    '0' <= c <= '9'
  }

  predicate AllDigits(s: seq<char>)
  {
    forall i | 0 <= i < |s| :: IsDigit(s[i])
  }

  function DigitValue(c: char): (r: nat)
    requires IsDigit(c)
    ensures r < 10
  {
    (c as int) - ('0' as int)
  }

  function DigitChar(n: nat): (c: char)
    requires n < 10
    ensures IsDigit(c) && DigitValue(c) == n
  {
    (('0' as int) + n) as char
  }

  /**
   * Unary `+` on a string of decimal digits: its base-10 value. The empty
   * string converts to 0, and leading zeros are ignored.
   */
  function DecimalValue(s: seq<char>): (r: nat)
    requires AllDigits(s)
    ensures r < Pow10(|s|)
    decreases |s|
  {
    if s == [] then 0 else 10 * DecimalValue(s[..|s| - 1]) + DigitValue(s[|s| - 1])
  }

  function Pow10(n: nat): (r: nat)
    ensures r >= 1
  {
    if n == 0 then 1 else 10 * Pow10(n - 1)
  }

  /** The shortest decimal spelling of n, the reference the conversion is checked against. */
  function DecimalString(n: nat): (s: seq<char>)
    ensures |s| >= 1 && AllDigits(s)
    decreases n
  {
    if n < 10 then [DigitChar(n)] else DecimalString(n / 10) + [DigitChar(n % 10)]
  }

  /** Converting the decimal spelling of n gives n back. */
  lemma {:induction false} DecimalRoundTrip(n: nat)
    ensures DecimalValue(DecimalString(n)) == n
    decreases n
  {
    var s := DecimalString(n);
    if n < 10 {
      assert s[..0] == [];
    } else {
      DecimalRoundTrip(n / 10);
      assert s[..|s| - 1] == DecimalString(n / 10);
    }
  }

  /** A leading zero does not change the converted value. */
  lemma {:induction false} DecimalLeadingZero(s: seq<char>)
    requires AllDigits(s)
    ensures AllDigits(['0'] + s) && DecimalValue(['0'] + s) == DecimalValue(s)
    decreases |s|
  {
    var z := ['0'] + s;
    if s != [] {
      DecimalLeadingZero(s[..|s| - 1]);
      assert z[..|z| - 1] == ['0'] + s[..|s| - 1];
    } else {
      assert z[..0] == [];
    }
  }

  /** ECMAScript ToInt32: wrap an integer into the signed 32-bit range. */
  function ToInt32(x: int): (r: int)
    ensures -0x8000_0000 <= r < 0x8000_0000
    ensures (r - x) % 0x1_0000_0000 == 0
  {
    var u := x % 0x1_0000_0000;
    if u >= 0x8000_0000 then u - 0x1_0000_0000 else u
  }

  /**
   * JavaScript `x << n` on numbers: the operand is converted to a 32-bit
   * integer, only the low five bits of the count are used, and the result
   * is a signed 32-bit integer. Shifting by k is k doublings, each wrapped
   * back into 32 bits.
   */
  function JsShl(x: int, n: nat): (r: int)
    ensures -0x8000_0000 <= r < 0x8000_0000
  {
    Doublings(x, n % 32)
  }

  function Doublings(x: int, k: nat): (r: int)
    ensures -0x8000_0000 <= r < 0x8000_0000
    decreases k
  {
    if k == 0 then ToInt32(x) else ToInt32(2 * Doublings(x, k - 1))
  }

  /** The 32-bit shift is the exact product x * 2^(n mod 32), modulo 2^32. */
  lemma JsShlCongruent(x: int, n: nat)
    ensures (JsShl(x, n) - x * Pow2(n % 32)) % 0x1_0000_0000 == 0
  {
    DoublingsCongruent(x, n % 32);
  }

  lemma {:induction false} DoublingsCongruent(x: int, k: nat)
    ensures (Doublings(x, k) - x * Pow2(k)) % 0x1_0000_0000 == 0
    decreases k
  {
    if k > 0 {
      DoublingsCongruent(x, k - 1);
      var prev := Doublings(x, k - 1);
      assert (Doublings(x, k) - 2 * prev) % 0x1_0000_0000 == 0;
      TimesDouble(x, Pow2(k - 1));
      DoubleCongruent(Doublings(x, k), prev, x * Pow2(k - 1));
    }
  }

  lemma TimesDouble(x: int, p: int)
    ensures x * (2 * p) == 2 * (x * p)
  {
  }

  /** Doubling keeps two values congruent modulo 2^32. */
  lemma DoubleCongruent(r: int, prev: int, exact: int)
    requires (prev - exact) % 0x1_0000_0000 == 0
    requires (r - 2 * prev) % 0x1_0000_0000 == 0
    ensures (r - 2 * exact) % 0x1_0000_0000 == 0
  {
    var m := 0x1_0000_0000;
    var a := (prev - exact) / m;
    var b := (r - 2 * prev) / m;
    assert prev - exact == a * m;
    assert r - 2 * prev == b * m;
    assert r - 2 * exact == (b + 2 * a) * m;
  }
}
