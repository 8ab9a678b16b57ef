/** The string primitives the converter is built from: Python's
    single-character `str.split`, its inverse `join`, `str(n)` for a natural
    number and `int(s)` for a decimal numeral. */
module Strings {
  import opened Results

  /** Position of the first occurrence of `c` in `s`. */
  function IndexOf(s: string, c: char): (i: nat)
    requires c in s
    ensures i < |s| && s[i] == c
    ensures c !in s[..i]
  {
    if s[0] == c then 0
    else
      var j := IndexOf(s[1..], c);
      assert s[..j + 1] == [s[0]] + s[1..][..j];
      1 + j
  }

  /** `s.split(c)`: the maximal pieces of `s` between occurrences of `c`. */
  function Split(s: string, c: char): (parts: seq<string>)
    ensures |parts| >= 1
    decreases |s|
  {
    if c !in s then [s]
    else
      var i := IndexOf(s, c);
      [s[..i]] + Split(s[i + 1..], c)
  }

  /** `c.join(parts)`. */
  function Join(parts: seq<string>, c: char): string
  {
    if |parts| == 0 then ""
    else if |parts| == 1 then parts[0]
    else parts[0] + [c] + Join(parts[1..], c)
  }

  /** Concatenation is associative. */
  lemma Assoc<T>(x: seq<T>, y: seq<T>, z: seq<T>)
    ensures (x + y) + z == x + (y + z)
  {
  }

  /** `''.join(ls)`. */
  function Concat(ls: seq<string>): string {
    if ls == [] then "" else ls[0] + Concat(ls[1..])
  }

  lemma {:induction false} ConcatAppend(x: seq<string>, y: seq<string>)
    ensures Concat(x + y) == Concat(x) + Concat(y)
  {
    if x != [] {
      assert (x + y)[0] == x[0];
      assert (x + y)[1..] == x[1..] + y;
      ConcatAppend(x[1..], y);
      Assoc(x[0], Concat(x[1..]), Concat(y));
    } else {
      assert x + y == y;
    }
  }

  /** No piece of a split holds the separator. */
  lemma {:induction false} SplitFree(s: string, c: char)
    ensures forall k :: 0 <= k < |Split(s, c)| ==> c !in Split(s, c)[k]
    decreases |s|
  {
    if c in s {
      var i := IndexOf(s, c);
      SplitFree(s[i + 1..], c);
      var parts := Split(s, c);
      forall k | 0 <= k < |parts|
        ensures c !in parts[k]
      {
        if k > 0 {
          assert parts[k] == Split(s[i + 1..], c)[k - 1];
        }
      }
    }
  }

  /** Joining the pieces of a split gives the string back. */
  lemma {:induction false} JoinSplit(s: string, c: char)
    ensures Join(Split(s, c), c) == s
    decreases |s|
  {
    if c in s {
      var i := IndexOf(s, c);
      var rest := Split(s[i + 1..], c);
      assert Join(Split(s, c), c) == s[..i] + [c] + Join(rest, c) by {
        var parts := [s[..i]] + rest;
        assert parts[0] == s[..i] && parts[1..] == rest;
      }
      JoinSplit(s[i + 1..], c);
      assert s == s[..i] + [c] + s[i + 1..];
    }
  }

  /** The first occurrence of `c` in `x + [c] + y` is right after `x` when
      `x` does not contain it. */
  lemma IndexOfAfterPiece(x: string, y: string, c: char)
    requires c !in x
    ensures IndexOf(x + [c] + y, c) == |x|
  {
    var s := x + [c] + y;
    var i := IndexOf(s, c);
    assert s[|x|] == c;
    assert forall k :: 0 <= k < |x| ==> s[k] == x[k];
  }

  /** Splitting a join of pieces free of the separator recovers the pieces. */
  lemma {:induction false} SplitJoin(parts: seq<string>, c: char)
    requires |parts| >= 1
    requires forall k :: 0 <= k < |parts| ==> c !in parts[k]
    ensures Split(Join(parts, c), c) == parts
  {
    if |parts| > 1 {
      var x := parts[0];
      var tail := parts[1..];
      var rest := Join(tail, c);
      var s := x + [c] + rest;
      assert Join(parts, c) == s;
      assert c !in x;
      IndexOfAfterPiece(x, rest, c);
      assert s[..|x|] == x;
      assert s[|x| + 1..] == rest;
      assert Split(s, c) == [x] + Split(rest, c);
      assert forall k :: 0 <= k < |tail| ==> c !in tail[k] by {
        forall k | 0 <= k < |tail|
          ensures c !in tail[k]
        {
          assert tail[k] == parts[k + 1];
        }
      }
      SplitJoin(tail, c);
      assert parts == [x] + tail;
    }
  }

  /** Appending a piece to a join adds one separator and the piece. */
  lemma {:induction false} JoinSnoc(parts: seq<string>, y: string, c: char)
    requires |parts| >= 1
    ensures Join(parts + [y], c) == Join(parts, c) + [c] + y
  {
    if |parts| > 1 {
      assert (parts + [y])[1..] == parts[1..] + [y];
      JoinSnoc(parts[1..], y, c);
    }
  }

  /** Every character of every piece comes from the split string, and a
      string containing the separator splits into at least two pieces. */
  lemma {:induction false} SplitPieces(s: string, c: char)
    ensures forall k, ch :: 0 <= k < |Split(s, c)| && ch in Split(s, c)[k] ==> ch in s
    ensures c in s ==> |Split(s, c)| >= 2
    decreases |s|
  {
    if c in s {
      var i := IndexOf(s, c);
      SplitPieces(s[i + 1..], c);
      var parts := Split(s, c);
      forall k, ch | 0 <= k < |parts| && ch in parts[k]
        ensures ch in s
      {
        if k == 0 {
          assert ch in s[..i];
        } else {
          assert parts[k] == Split(s[i + 1..], c)[k - 1];
          assert ch in s[i + 1..];
        }
      }
    }
  }

  /** Every piece followed by the separator: what a loop appending
      `piece + c` for each piece builds. */
  function Terminated(parts: seq<string>, c: char): string
  {
    if parts == [] then "" else parts[0] + [c] + Terminated(parts[1..], c)
  }

  /** The terminated form is the join plus one trailing separator. */
  lemma {:induction false} TerminatedJoin(parts: seq<string>, c: char)
    requires |parts| >= 1
    ensures Terminated(parts, c) == Join(parts, c) + [c]
  {
    if |parts| > 1 {
      TerminatedJoin(parts[1..], c);
    }
  }

  /** Python's `s[:-1]`: all but the last character (empty stays empty). */
  function DropLast(s: string): string {
    if s == [] then [] else s[..|s| - 1]
  }

  predicate IsDigit(ch: char) {
    '0' <= ch <= '9'
  }

  predicate AllDigits(s: string) {
    forall k :: 0 <= k < |s| ==> IsDigit(s[k])
  }

  function DigitChar(d: nat): (ch: char)
    requires d < 10
    ensures IsDigit(ch) && ch as int - '0' as int == d
  {
    ('0' as int + d) as char
  }

  /** `str(n)` for a natural number: its decimal numeral without leading
      zeros. */
  function NatToString(n: nat): (s: string)
    ensures |s| >= 1 && AllDigits(s)
    decreases n
  {
    if n < 10 then [DigitChar(n)]
    else NatToString(n / 10) + [DigitChar(n % 10)]
  }

  /** Value of a string of decimal digits (leading zeros allowed). */
  function DigitsValue(s: string): nat
    requires AllDigits(s)
  {
    if s == [] then 0
    else DigitsValue(s[..|s| - 1]) * 10 + (s[|s| - 1] as int - '0' as int)
  }

  /** `int(s)` restricted to ASCII decimal numerals; anything else raises
      ValueError. */
  function ParseInt(s: string): (r: Result<int>)
    ensures r.Ok? <==> |s| >= 1 && AllDigits(s)
    ensures r.Ok? ==> r.value >= 0
  {
    if |s| >= 1 && AllDigits(s) then Ok(DigitsValue(s)) else Err(ValueError)
  }

  /** `int(str(n)) == n`. */
  lemma {:induction false} ParseNatToString(n: nat)
    ensures ParseInt(NatToString(n)) == Ok(n)
    decreases n
  {
    var s := NatToString(n);
    if n >= 10 {
      ParseNatToString(n / 10);
      assert s[..|s| - 1] == NatToString(n / 10);
      assert s[|s| - 1] as int - '0' as int == n % 10;
      assert DigitsValue(s) == (n / 10) * 10 + n % 10;
    }
  }

  /** Distinct numbers have distinct numerals. */
  lemma NatToStringInjective(a: nat, b: nat)
    requires NatToString(a) == NatToString(b)
    ensures a == b
  {
    ParseNatToString(a);
    ParseNatToString(b);
  }

  /** A numeral contains neither of the converter's path or suffix
      separators. */
  lemma NumeralHasNoSeparator(n: nat, c: char)
    requires !IsDigit(c)
    ensures c !in NatToString(n)
  {
  }
}
