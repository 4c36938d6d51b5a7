/**
 * The handful of Python string operations the engine relies on:
 * `str.split` with a one-character separator, `str.endswith`, `str.join`
 * and `str()` of a non-negative integer, each with the property that
 * pins down what it computes.
 */
module Text {
  import opened Wrappers

  /**
   * Python truthiness of an optional string, as `if not value:` tests it:
   * `None` and `""` are both false.
   */
  predicate Truthy(value: Option<string>)
  {
    value.Some? && value.value != ""
  }

  // ---------------------------------------------------------------------------
  // s.split(c)
  // ---------------------------------------------------------------------------

  /**
   * Python's `s.split(c)` for a one-character separator `c`: the pieces of
   * `s` between consecutive occurrences of `c`, in order. There is always at
   * least one piece (`"".split(".") == [""]`) and no piece contains `c`.
   */
  function Split(s: string, c: char): (r: seq<string>)
    ensures |r| >= 1
    ensures forall i :: 0 <= i < |r| ==> c !in r[i]
    ensures (c in s) == (|r| >= 2)
    decreases |s|
  {
    if |s| == 0 then [""]
    else
      var rest := Split(s[1..], c);
      assert s == [s[0]] + s[1..];
      if s[0] == c then [""] + rest
      else [[s[0]] + rest[0]] + rest[1..]
  }

  /** Python's `s.split(c)[-1]`. */
  function LastPiece(s: string, c: char): string
  {
    var pieces := Split(s, c);
    pieces[|pieces| - 1]
  }

  /**
   * The last piece is the longest suffix of `s` free of `c`: it is a suffix
   * of `s`, it holds no `c`, and the character just before it (if any) is `c`.
   */
  lemma {:induction false} LastPieceIsMaximalSuffix(s: string, c: char)
    ensures var l := LastPiece(s, c);
      && |l| <= |s|
      && s[|s| - |l|..] == l
      && c !in l
      && (|l| < |s| ==> s[|s| - |l| - 1] == c)
    decreases |s|
  {
    if |s| > 0 {
      LastPieceIsMaximalSuffix(s[1..], c);
      var rest := Split(s[1..], c);
      var l' := LastPiece(s[1..], c);
      if s[0] != c && |rest| == 1 {
        JoinSplit(s[1..], c);
        assert rest == [s[1..]];
        assert LastPiece(s, c) == [s[0]] + s[1..] == s;
      } else {
        assert LastPiece(s, c) == l';
        if s[0] != c {
          assert c in s[1..];
          assert |l'| < |s| - 1;
        }
        assert s[|s| - |l'|..] == s[1..][|s| - 1 - |l'|..];
        if |l'| < |s| - 1 {
          assert s[|s| - |l'| - 1] == s[1..][|s| - 1 - |l'| - 1];
        }
      }
    }
  }

  /** Without any `c` in `s`, `s.split(c)[-1]` is `s` itself. */
  lemma LastPieceWithoutSeparator(s: string, c: char)
    requires c !in s
    ensures LastPiece(s, c) == s
  {
    LastPieceIsMaximalSuffix(s, c);
  }

  // ---------------------------------------------------------------------------
  // sep.join(parts)
  // ---------------------------------------------------------------------------

  /** Python's `sep.join(parts)`: the parts in order, with `sep` between neighbours. */
  function Join(parts: seq<string>, sep: string): string
  {
    if |parts| == 0 then ""
    else if |parts| == 1 then parts[0]
    else parts[0] + sep + Join(parts[1..], sep)
  }

  lemma JoinCons(p: string, parts: seq<string>, sep: string)
    requires |parts| >= 1
    ensures Join([p] + parts, sep) == p + sep + Join(parts, sep)
  {
  }

  /** Joining the pieces of a split with the separator gives the string back. */
  lemma {:induction false} JoinSplit(s: string, c: char)
    ensures Join(Split(s, c), [c]) == s
    decreases |s|
  {
    if |s| > 0 {
      JoinSplit(s[1..], c);
      var rest := Split(s[1..], c);
      if s[0] == c {
        JoinCons("", rest, [c]);
      } else if |rest| == 1 {
        assert Split(s, c) == [[s[0]] + rest[0]];
      } else {
        assert Split(s, c) == [[s[0]] + rest[0]] + rest[1..];
        JoinCons([s[0]] + rest[0], rest[1..], [c]);
        JoinCons(rest[0], rest[1..], [c]);
        assert rest == [rest[0]] + rest[1..];
      }
      assert s == [s[0]] + s[1..];
    }
  }

  /** Splitting `a + t` where `a` holds no `c` merges `a` into the first piece of `t`. */
  lemma {:induction false} SplitPrefix(a: string, t: string, c: char)
    requires c !in a
    ensures Split(a + t, c) == [a + Split(t, c)[0]] + Split(t, c)[1..]
    decreases |a|
  {
    if |a| > 0 {
      SplitPrefix(a[1..], t, c);
      assert (a + t)[1..] == a[1..] + t;
      var rest := Split(a[1..] + t, c);
      assert rest[0] == a[1..] + Split(t, c)[0];
      assert rest[1..] == Split(t, c)[1..];
      assert a == [a[0]] + a[1..];
      assert [(a + t)[0]] + rest[0] == a + Split(t, c)[0];
      assert Split(a + t, c) == [[(a + t)[0]] + rest[0]] + rest[1..];
    } else {
      assert a + t == t;
      assert a + Split(t, c)[0] == Split(t, c)[0];
      assert Split(t, c) == [Split(t, c)[0]] + Split(t, c)[1..];
    }
  }

  /** Splitting a join of `c`-free parts with `c` gives the parts back. */
  lemma {:induction false} SplitJoin(parts: seq<string>, c: char)
    requires |parts| >= 1
    requires forall i :: 0 <= i < |parts| ==> c !in parts[i]
    ensures Split(Join(parts, [c]), c) == parts
    decreases |parts|
  {
    if |parts| == 1 {
      SplitPrefix(parts[0], "", c);
      assert parts[0] + "" == parts[0];
    } else {
      var tail := Join(parts[1..], [c]);
      SplitJoin(parts[1..], c);
      SplitPrefix(parts[0], [c] + tail, c);
      assert parts[0] + [c] + tail == parts[0] + ([c] + tail);
      assert ([c] + tail)[1..] == tail;
      assert Split([c] + tail, c) == [""] + parts[1..];
      assert Join(parts, [c]) == parts[0] + ([c] + tail);
      assert parts[0] + "" == parts[0];
      assert parts == [parts[0]] + parts[1..];
    }
  }

  /** Where part `k` starts in `Join(parts, sep)`. */
  function Offset(parts: seq<string>, sep: string, k: nat): nat
    requires k <= |parts|
  {
    if k == 0 then 0 else |parts[0]| + |sep| + Offset(parts[1..], sep, k - 1)
  }

  /**
   * `Join(parts, sep)` holds part `k` at `Offset(parts, sep, k)`, followed by
   * `sep` unless it is the last part: the parts appear whole and in order.
   */
  lemma {:induction false} JoinAt(parts: seq<string>, sep: string, k: nat)
    requires k < |parts|
    ensures var j, o := Join(parts, sep), Offset(parts, sep, k);
      && o + |parts[k]| <= |j|
      && j[o..o + |parts[k]|] == parts[k]
      && (k + 1 < |parts| ==> o + |parts[k]| + |sep| <= |j| && j[o + |parts[k]|..o + |parts[k]| + |sep|] == sep)
      && (k + 1 == |parts| ==> o + |parts[k]| == |j|)
    decreases k
  {
    if k > 0 {
      JoinAt(parts[1..], sep, k - 1);
      var p := parts[0] + sep;
      assert Join(parts, sep) == p + Join(parts[1..], sep);
    }
  }

  // ---------------------------------------------------------------------------
  // s.endswith(t)
  // ---------------------------------------------------------------------------

  /** Python's `s.endswith(t)`: exact, case-sensitive comparison of the tail. */
  predicate EndsWith(s: string, t: string)
  {
    |t| <= |s| && s[|s| - |t|..] == t
  }

  // ---------------------------------------------------------------------------
  // str(n) for n >= 0
  // ---------------------------------------------------------------------------

  predicate IsDigit(ch: char)
  {
    '0' <= ch <= '9'
  }

  predicate AllDigits(s: string)
  {
    forall i :: 0 <= i < |s| ==> IsDigit(s[i])
  }

  function DigitChar(d: nat): (ch: char)
    requires d < 10
    ensures IsDigit(ch) && ch as int - '0' as int == d
  {
    ('0' as int + d) as char
  }

  /** Python's `str(n)` for a non-negative integer: decimal, without leading zeros. */
  function NatToString(n: nat): string
    decreases n
  {
    if n < 10 then [DigitChar(n)] else NatToString(n / 10) + [DigitChar(n % 10)]
  }

  /** The value of a string of decimal digits. */
  function DigitsValue(s: string): nat
    requires AllDigits(s)
  {
    if |s| == 0 then 0
    else DigitsValue(s[..|s| - 1]) * 10 + (s[|s| - 1] as int - '0' as int)
  }

  /** `str(n)` is a non-empty run of digits without a leading zero whose value is `n`. */
  lemma {:induction false} NatToStringRoundTrip(n: nat)
    ensures var s := NatToString(n);
      && |s| >= 1
      && AllDigits(s)
      && (|s| > 1 ==> s[0] != '0')
      && DigitsValue(s) == n
    decreases n
  {
    if n >= 10 {
      NatToStringRoundTrip(n / 10);
      var s := NatToString(n);
      assert s[..|s| - 1] == NatToString(n / 10);
    }
  }

  /** Different numbers print differently. */
  lemma NatToStringInjective(a: nat, b: nat)
    requires NatToString(a) == NatToString(b)
    ensures a == b
  {
    NatToStringRoundTrip(a);
    NatToStringRoundTrip(b);
  }

  /**
   * A run of digits directly followed by a non-digit is determined by the text:
   * if `a + x == b + y`, with `a`, `b` all digits and `x`, `y` starting with a
   * non-digit, then `a == b` and `x == y`.
   */
  lemma DigitRunUnique(a: string, x: string, b: string, y: string)
    requires AllDigits(a) && AllDigits(b)
    requires |x| > 0 && !IsDigit(x[0]) && |y| > 0 && !IsDigit(y[0])
    requires a + x == b + y
    ensures a == b && x == y
  {
    assert a == (a + x)[..|a|];
    assert b == (b + y)[..|b|];
    assert x == (a + x)[|a|..];
    assert y == (b + y)[|b|..];
  }
}
