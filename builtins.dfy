/**
  The pieces of Python's built-in behaviour that the heap view-model relies on,
  stated as functions: `'\n'.join(...)` (message text), `str(n)` of an integer
  (the `%s` of a found key) and `list.remove(x)` (dropping a deleted key).
  Each comes with a partner: `str.split('\n')`, a decimal reader, and the
  multiset/membership facts that removal promises.
*/
module Builtins {

  datatype Option<T> = None | Some(value: T)

  /** No string occurs twice in `s`. */
  ghost predicate Distinct(s: seq<string>)
  {
    forall i, j :: 0 <= i < j < |s| ==> s[i] != s[j]
  }

  // ---------------------------------------------------------------------------
  // '\n'.join(lines) and its inverse str.split('\n')
  // ---------------------------------------------------------------------------

  /** Total length of the lines. */
  function LinesLength(lines: seq<string>): nat
  {
    if |lines| == 0 then 0 else |lines[0]| + LinesLength(lines[1..])
  }

  /**
    `'\n'.join(lines)`: the lines separated by single newlines, so one
    character longer than the lines together for each line after the first,
    and starting with the first line.
  */
  function Join(lines: seq<string>): (text: string)
    ensures |lines| == 0 ==> text == ""
    ensures |lines| >= 1 ==> |text| == LinesLength(lines) + |lines| - 1
    ensures |lines| >= 1 ==> text[..|lines[0]|] == lines[0]
  {
    if |lines| == 0 then ""
    else if |lines| == 1 then lines[0]
    else lines[0] + "\n" + Join(lines[1..])
  }

  /** `s.split('\n')`: the pieces between newlines; never empty (`"".split('\n') == [""]`). */
  function Split(s: string): (pieces: seq<string>)
    ensures |pieces| >= 1
  {
    if |s| == 0 then [""]
    else
      var rest := Split(s[1..]);
      if s[0] == '\n' then [""] + rest
      else [[s[0]] + rest[0]] + rest[1..]
  }

  /** True when no line contains the separator. */
  predicate SingleLines(lines: seq<string>)
  {
    forall i :: 0 <= i < |lines| ==> '\n' !in lines[i]
  }

  /** A newline-free prefix glues onto the first piece of what follows it. */
  lemma {:induction false} SplitPrefix(l: string, t: string)
    requires '\n' !in l
    ensures Split(l + t) == [l + Split(t)[0]] + Split(t)[1..]
    decreases |l|
  {
    if |l| == 0 {
      assert l + t == t;
      assert l + Split(t)[0] == Split(t)[0];
      assert Split(t) == [Split(t)[0]] + Split(t)[1..];
    } else {
      assert (l + t)[0] == l[0];
      assert (l + t)[1..] == l[1..] + t;
      SplitPrefix(l[1..], t);
      assert [l[0]] + (l[1..] + Split(t)[0]) == l + Split(t)[0];
    }
  }

  /** Splitting the joined text gives back the lines, when none contains a newline. */
  lemma {:induction false} SplitJoin(lines: seq<string>)
    requires |lines| >= 1 && SingleLines(lines)
    ensures Split(Join(lines)) == lines
    decreases |lines|
  {
    if |lines| == 1 {
      SplitPrefix(lines[0], "");
      assert lines[0] + "" == lines[0];
    } else {
      assert SingleLines(lines[1..]) by {
        forall i | 0 <= i < |lines[1..]| ensures '\n' !in lines[1..][i] {
          assert lines[1..][i] == lines[i + 1];
        }
      }
      SplitJoin(lines[1..]);
      var rest := Join(lines[1..]);
      assert Join(lines) == lines[0] + ("\n" + rest);
      SplitPrefix(lines[0], "\n" + rest);
      assert ("\n" + rest)[1..] == rest;
      assert Split("\n" + rest) == [""] + lines[1..];
      assert lines[0] + "" == lines[0];
      assert [lines[0]] + lines[1..] == lines;
    }
  }

  // ---------------------------------------------------------------------------
  // template % args, for templates whose only conversions are %s
  // ---------------------------------------------------------------------------

  /**
    `t % tuple(args)` where every `%` in `t` starts a `%s`: each `%s` takes
    the next argument; `None` where Python raises `TypeError` because there
    are too few or too many arguments.
  */
  function Format(t: string, args: seq<string>): Option<string>
    decreases |t|
  {
    if |t| == 0 then
      if |args| == 0 then Some("") else None
    else if |t| >= 2 && t[0] == '%' && t[1] == 's' then
      if |args| == 0 then None
      else match Format(t[2..], args[1..])
        case None => None
        case Some(r) => Some(args[0] + r)
    else
      match Format(t[1..], args)
      case None => None
      case Some(r) => Some([t[0]] + r)
  }

  /** Text without conversions is copied through. */
  lemma {:induction false} FormatText(a: string, t: string, args: seq<string>, r: string)
    requires '%' !in a && Format(t, args) == Some(r)
    ensures Format(a + t, args) == Some(a + r)
    decreases |a|
  {
    if |a| > 0 {
      assert (a + t)[0] == a[0] && (a + t)[1..] == a[1..] + t;
      FormatText(a[1..], t, args, r);
      assert [a[0]] + (a[1..] + r) == a + r;
    } else {
      assert a + t == t && a + r == r;
    }
  }

  /** A `%s` slot takes the next argument. */
  lemma FormatSlot(t: string, x: string, args: seq<string>, r: string)
    requires Format(t, args) == Some(r)
    ensures Format("%s" + t, [x] + args) == Some(x + r)
  {
    var u := "%s" + t;
    assert u[0] == '%' && u[1] == 's' && u[2..] == t;
    assert ([x] + args)[0] == x && ([x] + args)[1..] == args;
  }

  /** Text without conversions, on its own, formats to itself. */
  lemma FormatPlain(c: string)
    requires '%' !in c
    ensures Format(c, []) == Some(c)
  {
    FormatText(c, "", [], "");
    assert c + "" == c;
  }

  /** Text, then a `%s` slot, then a formatted rest. */
  lemma FormatPrefixSlot(a: string, x: string, t: string, args: seq<string>, r: string)
    requires '%' !in a && Format(t, args) == Some(r)
    ensures Format(a + "%s" + t, [x] + args) == Some(a + x + r)
  {
    FormatSlot(t, x, args, r);
    FormatText(a, "%s" + t, [x] + args, x + r);
    assert a + "%s" + t == a + ("%s" + t);
    assert a + (x + r) == a + x + r;
  }

  /** A template with one `%s` slot, given one argument. */
  lemma FormatOne(a: string, x: string, b: string)
    requires '%' !in a && '%' !in b
    ensures Format(a + "%s" + b, [x]) == Some(a + x + b)
  {
    FormatPlain(b);
    FormatPrefixSlot(a, x, b, [], b);
    assert [x] + [] == [x];
  }

  /** A template with two `%s` slots, given two arguments. */
  lemma FormatTwo(a: string, x: string, b: string, y: string, c: string)
    requires '%' !in a && '%' !in b && '%' !in c
    ensures Format(a + "%s" + b + "%s" + c, [x, y]) == Some(a + x + b + y + c)
  {
    var tail, rest := b + "%s" + c, b + y + c;
    FormatOne(b, y, c);
    FormatPrefixSlot(a, x, tail, [y], rest);
    assert [x] + [y] == [x, y];
    assert a + "%s" + tail == a + "%s" + b + "%s" + c;
    assert a + x + rest == a + x + b + y + c;
  }

  // ---------------------------------------------------------------------------
  // str(n) for an integer, and reading it back
  // ---------------------------------------------------------------------------

  predicate IsDigit(c: char)
  {
    '0' <= c <= '9'
  }

  predicate AllDigits(s: string)
  {
    forall i :: 0 <= i < |s| ==> IsDigit(s[i])
  }

  function DigitChar(d: nat): (c: char)
    requires d < 10
    ensures IsDigit(c) && c as int - '0' as int == d
  {
    (d + '0' as int) as char
  }

  /** The decimal digits of `n`, most significant first, without leading zeros. */
  function NatToDecimal(n: nat): (s: string)
    ensures |s| >= 1 && AllDigits(s)
    ensures s[0] == '0' ==> n == 0
    decreases n
  {
    if n < 10 then [DigitChar(n)]
    else NatToDecimal(n / 10) + [DigitChar(n % 10)]
  }

  /** `str(n)`: a minus sign for negative numbers, then the digits of |n|. */
  function IntToDecimal(n: int): (s: string)
    ensures |s| >= 1
    ensures (s[0] == '-') == (n < 0)
  {
    if n < 0 then "-" + NatToDecimal(-n) else NatToDecimal(n)
  }

  /** The number a string of decimal digits denotes. */
  function DecimalValue(s: string): nat
    requires AllDigits(s)
    decreases |s|
  {
    if |s| == 0 then 0
    else 10 * DecimalValue(s[..|s| - 1]) + (s[|s| - 1] as int - '0' as int)
  }

  /** Reads back what `IntToDecimal` writes. */
  function DecimalToInt(s: string): Option<int>
  {
    if |s| >= 2 && s[0] == '-' && AllDigits(s[1..]) then Some(0 - DecimalValue(s[1..]) as int)
    else if |s| >= 1 && AllDigits(s) then Some(DecimalValue(s))
    else None
  }

  lemma {:induction false} NatDecimalRoundTrip(n: nat)
    ensures DecimalValue(NatToDecimal(n)) == n
    decreases n
  {
    if n >= 10 {
      NatDecimalRoundTrip(n / 10);
      var s := NatToDecimal(n);
      assert s[..|s| - 1] == NatToDecimal(n / 10);
    }
  }

  /** The decimal text of a key reads back as that key. */
  lemma IntDecimalRoundTrip(n: int)
    ensures DecimalToInt(IntToDecimal(n)) == Some(n)
  {
    if n < 0 {
      var d := NatToDecimal(-n);
      NatDecimalRoundTrip(-n);
      assert IntToDecimal(n) == "-" + d;
      assert ("-" + d)[0] == '-' && ("-" + d)[1..] == d;
      assert DecimalToInt("-" + d) == Some(0 - (-n));
    } else {
      var d := NatToDecimal(n);
      NatDecimalRoundTrip(n);
      assert IsDigit(d[0]) && d[0] != '-';
      assert DecimalToInt(d) == Some(n);
    }
  }

  // ---------------------------------------------------------------------------
  // list.remove(x)
  // ---------------------------------------------------------------------------

  /** Index of the first occurrence of `x` in `s`. */
  function FirstIndex(s: seq<string>, x: string): (i: nat)
    requires x in s
    ensures i < |s| && s[i] == x && x !in s[..i]
  {
    if s[0] == x then 0
    else
      var j := FirstIndex(s[1..], x);
      assert s[..j + 1] == [s[0]] + s[1..][..j];
      j + 1
  }

  /** `s.remove(x)` on a list that holds `x`: the first occurrence is dropped. */
  function RemoveFirst(s: seq<string>, x: string): (r: seq<string>)
    requires x in s
    ensures |r| == |s| - 1
    ensures multiset(r) == multiset(s) - multiset{x}
    ensures forall k :: 0 <= k < FirstIndex(s, x) ==> r[k] == s[k]
    ensures forall k :: FirstIndex(s, x) <= k < |r| ==> r[k] == s[k + 1]
  {
    var i := FirstIndex(s, x);
    MultisetWithout(s, i);
    s[..i] + s[i + 1..]
  }

  lemma MultisetWithout(s: seq<string>, i: nat)
    requires i < |s|
    ensures multiset(s[..i] + s[i + 1..]) == multiset(s) - multiset{s[i]}
  {
    assert s == s[..i] + [s[i]] + s[i + 1..];
  }

  /** Removing a member of a duplicate-free list removes exactly that member. */
  lemma RemoveFirstDistinct(s: seq<string>, x: string)
    requires Distinct(s) && x in s
    ensures Distinct(RemoveFirst(s, x))
    ensures forall y :: y in RemoveFirst(s, x) <==> y in s && y != x
  {
    var r := RemoveFirst(s, x);
    var i := FirstIndex(s, x);
    forall p, q | 0 <= p < q < |r| ensures r[p] != r[q] {
      var p' := if p < i then p else p + 1;
      var q' := if q < i then q else q + 1;
      assert r[p] == s[p'] && r[q] == s[q'];
    }
    forall y ensures y in r <==> y in s && y != x {
      assert y in r <==> y in multiset(r);
      assert y in s <==> y in multiset(s);
    }
  }
}
