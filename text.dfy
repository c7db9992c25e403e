/** The handful of Python string built-ins the generator relies on, stated
    exactly enough to reason about: `str.split` with a one-character
    separator, `str.join`, `str(n)` for an integer and `int(s)` in base 10,
    including the whitespace `int(s)` skips at both ends. */
module PyText {

  datatype Option<T> = None | Some(value: T)

  // ---------------------------------------------------------------------
  // Characters

  /** The characters `int()` skips at both ends of its argument: the ASCII
      whitespace `\t`, `\n`, `\v`, `\f`, `\r` and space, and every non-ASCII
      character for which `str.isspace()` holds. The ASCII separators
      U+001C to U+001F satisfy `str.isspace()` too, but `int()` does not
      skip them, so `int("\x1c9")` raises ValueError. */
  predicate IsIntSpace(c: char) {
    ('\t' <= c <= '\r') || c == ' '
    || c == '\U{85}' || c == '\U{A0}' || c == '\U{1680}'
    || ('\U{2000}' <= c <= '\U{200A}') || c == '\U{2028}' || c == '\U{2029}'
    || c == '\U{202F}' || c == '\U{205F}' || c == '\U{3000}'
  }

  predicate IsDigit(c: char) {
    '0' <= c <= '9'
  }

  function DigitValue(c: char): nat
    requires IsDigit(c)
  {
    (c as int) - ('0' as int)
  }

  function DigitChar(d: nat): (c: char)
    requires d < 10
    ensures IsDigit(c) && DigitValue(c) == d
  {
    (('0' as int) + d) as char
  }

  predicate AllIntSpace(s: string) {
    forall i :: 0 <= i < |s| ==> IsIntSpace(s[i])
  }

  predicate AllDigits(s: string) {
    forall i :: 0 <= i < |s| ==> IsDigit(s[i])
  }

  // ---------------------------------------------------------------------
  // str.join and str.split

  /** `sep.join(parts)`. */
  function Join(parts: seq<string>, sep: string): string
    decreases |parts|
  {
    if |parts| == 0 then ""
    else if |parts| == 1 then parts[0]
    else parts[0] + sep + Join(parts[1..], sep)
  }

  /** `s.split(c)` for a one-character separator: the pieces between
      consecutive occurrences of `c`; never empty (`"".split(c) == [""]`). */
  function Split(s: string, c: char): (parts: seq<string>)
    ensures |parts| >= 1
    decreases |s|
  {
    if |s| == 0 then [""]
    else
      var rest := Split(s[1..], c);
      if s[0] == c then [""] + rest
      else [[s[0]] + rest[0]] + rest[1..]
  }

  /** Joining the pieces with the separator gives back the string. */
  lemma {:induction false} JoinSplit(s: string, c: char)
    ensures Join(Split(s, c), [c]) == s
    decreases |s|
  {
    if |s| > 0 {
      var rest := Split(s[1..], c);
      JoinSplit(s[1..], c);
      if s[0] == c {
        assert Split(s, c) == [""] + rest;
        assert Join(Split(s, c), [c]) == "" + [c] + Join(rest, [c]);
        assert s == [s[0]] + s[1..];
      } else {
        var parts := Split(s, c);
        assert parts == [[s[0]] + rest[0]] + rest[1..];
        if |rest| == 1 {
          assert Join(parts, [c]) == [s[0]] + rest[0];
          assert s == [s[0]] + s[1..];
        } else {
          assert parts[1..] == rest[1..];
          assert Join(rest, [c]) == rest[0] + [c] + Join(rest[1..], [c]);
          assert s == [s[0]] + s[1..];
        }
      }
    }
  }

  /** No piece contains the separator. */
  lemma {:induction false} SplitPiecesFree(s: string, c: char)
    ensures forall p :: p in Split(s, c) ==> c !in p
    decreases |s|
  {
    if |s| > 0 {
      SplitPiecesFree(s[1..], c);
      var rest := Split(s[1..], c);
      if s[0] != c {
        assert c !in rest[0];
        assert c !in [s[0]] + rest[0];
      }
    }
  }

  /** A string free of the separator is a single piece. */
  lemma {:induction false} SplitNoSeparator(s: string, c: char)
    requires c !in s
    ensures Split(s, c) == [s]
    decreases |s|
  {
    if |s| > 0 {
      assert c !in s[1..];
      SplitNoSeparator(s[1..], c);
      assert [s[0]] + s[1..] == s;
    }
  }

  /** The text before the first separator is the first piece, and the rest
      is split on its own. */
  lemma {:induction false} SplitAtFirst(p: string, c: char, t: string)
    requires c !in p
    ensures Split(p + [c] + t, c) == [p] + Split(t, c)
    decreases |p|
  {
    if |p| == 0 {
      assert p + [c] + t == [c] + t;
      assert ([c] + t)[1..] == t;
    } else {
      assert c !in p[1..];
      SplitAtFirst(p[1..], c, t);
      assert (p + [c] + t)[1..] == p[1..] + [c] + t;
      assert [p[0]] + p[1..] == p;
    }
  }

  /** Splitting a join of separator-free pieces gives the pieces back:
      together with JoinSplit, `split` and `join` are inverses. */
  lemma {:induction false} SplitJoin(parts: seq<string>, c: char)
    requires |parts| >= 1
    requires forall p :: p in parts ==> c !in p
    ensures Split(Join(parts, [c]), c) == parts
    decreases |parts|
  {
    if |parts| == 1 {
      SplitNoSeparator(parts[0], c);
    } else {
      assert parts[0] in parts;
      forall p | p in parts[1..] ensures c !in p {
        assert p in parts;
      }
      SplitJoin(parts[1..], c);
      SplitAtFirst(parts[0], c, Join(parts[1..], [c]));
      assert [parts[0]] + parts[1..] == parts;
    }
  }

  /** Length of a join: the pieces plus one separator between each pair. */
  lemma {:induction false} JoinLength(parts: seq<string>, sep: string)
    requires |parts| >= 1
    ensures |Join(parts, sep)| == SumLengths(parts) + (|parts| - 1) * |sep|
    decreases |parts|
  {
    if |parts| > 1 {
      JoinLength(parts[1..], sep);
    }
  }

  function SumLengths(parts: seq<string>): nat
    decreases |parts|
  {
    if |parts| == 0 then 0 else |parts[0]| + SumLengths(parts[1..])
  }

  /** Joining two non-empty lists puts exactly one separator between the
      two joins. */
  lemma {:induction false} JoinAppend(a: seq<string>, b: seq<string>, sep: string)
    requires |a| >= 1 && |b| >= 1
    ensures Join(a + b, sep) == Join(a, sep) + sep + Join(b, sep)
    decreases |a|
  {
    if |a| == 1 {
      assert (a + b)[1..] == b;
    } else {
      JoinAppend(a[1..], b, sep);
      assert (a + b)[1..] == a[1..] + b;
    }
  }

  // ---------------------------------------------------------------------
  // str(n)

  /** Decimal digits of a natural number, most significant first, with no
      leading zero. */
  function NatToString(n: nat): (s: string)
    decreases n
  {
    if n < 10 then [DigitChar(n)]
    else NatToString(n / 10) + [DigitChar(n % 10)]
  }

  /** `str(n)` for a Python int. */
  function IntToString(n: int): string {
    if n < 0 then "-" + NatToString(-n) else NatToString(n)
  }

  /** The value of a string of decimal digits. */
  function DigitsValue(s: string): nat
    requires AllDigits(s)
    decreases |s|
  {
    if |s| == 0 then 0
    else DigitsValue(s[..|s| - 1]) * 10 + DigitValue(s[|s| - 1])
  }

  /** `str` of a natural number is a non-empty digit string, without a
      leading zero unless it is "0", whose value is the number. */
  lemma {:induction false} NatToStringDigits(n: nat)
    ensures |NatToString(n)| >= 1 && AllDigits(NatToString(n))
    ensures DigitsValue(NatToString(n)) == n
    ensures NatToString(n)[0] == '0' ==> n == 0
    decreases n
  {
    var s := NatToString(n);
    if n >= 10 {
      NatToStringDigits(n / 10);
      var p := NatToString(n / 10);
      assert s[..|s| - 1] == p;
      assert s[0] == p[0];
    }
  }

  // ---------------------------------------------------------------------
  // int(s)

  function TrimLeft(s: string): (t: string)
    decreases |s|
  {
    if |s| > 0 && IsIntSpace(s[0]) then TrimLeft(s[1..]) else s
  }

  function TrimRight(s: string): (t: string)
    decreases |s|
  {
    if |s| > 0 && IsIntSpace(s[|s| - 1]) then TrimRight(s[..|s| - 1]) else s
  }

  /** `s` without the whitespace `int()` skips at both ends. */
  function Trim(s: string): string {
    TrimRight(TrimLeft(s))
  }

  /** The digits of a base-10 integer literal as `int()` accepts them:
      ASCII digits, where single underscores may separate two digits. */
  predicate IsDecimalBody(s: string) {
    |s| >= 1 && IsDigit(s[0]) && IsDigit(s[|s| - 1])
    && (forall i :: 0 <= i < |s| ==> IsDigit(s[i]) || s[i] == '_')
    && (forall i :: 0 <= i < |s| - 1 ==> !(s[i] == '_' && s[i + 1] == '_'))
  }

  function RemoveUnderscores(s: string): (t: string)
    decreases |s|
  {
    if |s| == 0 then ""
    else (if s[0] == '_' then "" else [s[0]]) + RemoveUnderscores(s[1..])
  }

  lemma {:induction false} RemoveUnderscoresDigits(s: string)
    requires forall i :: 0 <= i < |s| ==> IsDigit(s[i]) || s[i] == '_'
    ensures AllDigits(RemoveUnderscores(s))
    decreases |s|
  {
    if |s| > 0 {
      RemoveUnderscoresDigits(s[1..]);
    }
  }

  lemma {:induction false} RemoveUnderscoresOfDigits(s: string)
    requires AllDigits(s)
    ensures RemoveUnderscores(s) == s
    decreases |s|
  {
    if |s| > 0 {
      RemoveUnderscoresOfDigits(s[1..]);
      assert [s[0]] + s[1..] == s;
    }
  }

  /** The value of an accepted digit body. */
  function BodyValue(s: string): nat
    requires IsDecimalBody(s)
  {
    RemoveUnderscoresDigits(s);
    DigitsValue(RemoveUnderscores(s))
  }

  /** `int(s)` in base 10: `None` where Python raises ValueError. */
  function ParseInt(s: string): Option<int> {
    var t := Trim(s);
    if |t| >= 1 && (t[0] == '+' || t[0] == '-') then
      if IsDecimalBody(t[1..]) then
        var m: int := BodyValue(t[1..]);
        Some(if t[0] == '-' then -m else m)
      else None
    else if IsDecimalBody(t) then Some(BodyValue(t))
    else None
  }

  lemma {:induction false} TrimLeftSpaces(w: string, x: string)
    requires AllIntSpace(w)
    requires |x| >= 1 && !IsIntSpace(x[0])
    ensures TrimLeft(w + x) == x
    decreases |w|
  {
    if |w| > 0 {
      assert (w + x)[1..] == w[1..] + x;
      TrimLeftSpaces(w[1..], x);
    } else {
      assert w + x == x;
    }
  }

  lemma {:induction false} TrimRightSpaces(x: string, w: string)
    requires AllIntSpace(w)
    requires |x| >= 1 && !IsIntSpace(x[|x| - 1])
    ensures TrimRight(x + w) == x
    decreases |w|
  {
    if |w| > 0 {
      assert (x + w)[..|x + w| - 1] == x + w[..|w| - 1];
      TrimRightSpaces(x, w[..|w| - 1]);
    } else {
      assert x + w == x;
    }
  }

  /** Trimming removes the whitespace padding and nothing else. */
  lemma TrimPadded(w1: string, x: string, w2: string)
    requires AllIntSpace(w1) && AllIntSpace(w2)
    requires |x| >= 1 && !IsIntSpace(x[0]) && !IsIntSpace(x[|x| - 1])
    ensures Trim(w1 + x + w2) == x
  {
    assert w1 + x + w2 == w1 + (x + w2);
    TrimLeftSpaces(w1, x + w2);
    TrimRightSpaces(x, w2);
  }

  /** A plain digit string is an accepted body with its digit value. */
  lemma DigitsAreBody(d: string)
    requires |d| >= 1 && AllDigits(d)
    ensures IsDecimalBody(d) && BodyValue(d) == DigitsValue(d)
  {
    RemoveUnderscoresOfDigits(d);
  }

  /** The text `str(n)` writes: an optional minus sign and the digits of
      the magnitude. */
  lemma IntToStringShape(n: int)
    ensures var x := IntToString(n);
      |x| >= 1 && !IsIntSpace(x[0]) && !IsIntSpace(x[|x| - 1])
      && (n < 0 ==> x[0] == '-' && IsDecimalBody(x[1..]) && BodyValue(x[1..]) == -n)
      && (n >= 0 ==> IsDecimalBody(x) && BodyValue(x) == n && x[0] != '+' && x[0] != '-')
  {
    var m: nat := if n < 0 then -n else n;
    NatToStringShape(m);
    var d := NatToString(m);
    if n < 0 {
      assert IntToString(n) == "-" + d && IntToString(n)[1..] == d;
    } else {
      assert IntToString(n) == d;
    }
  }

  /** The decimal numeral of `m` is a digit body worth `m`, digits at both ends. */
  lemma NatToStringShape(m: nat)
    ensures var d := NatToString(m);
      |d| >= 1 && IsDigit(d[0]) && IsDigit(d[|d| - 1])
      && IsDecimalBody(d) && BodyValue(d) == m
  {
    NatToStringDigits(m);
    DigitsAreBody(NatToString(m));
  }


  /** `int` reads back what `str` wrote, whatever whitespace surrounds it. */
  lemma ParseIntToString(n: int, w1: string, w2: string)
    requires AllIntSpace(w1) && AllIntSpace(w2)
    ensures ParseInt(w1 + IntToString(n) + w2) == Some(n)
  {
    IntToStringShape(n);
    TrimPadded(w1, IntToString(n), w2);
  }

  lemma {:induction false} TrimRightKeepsFront(s: string)
    requires |s| >= 1 && !IsIntSpace(s[0])
    ensures |TrimRight(s)| >= 1 && TrimRight(s)[0] == s[0]
    decreases |s|
  {
    if IsIntSpace(s[|s| - 1]) {
      TrimRightKeepsFront(s[..|s| - 1]);
    }
  }

  /** `int()` refuses a string that starts with one of the separators
      U+001C to U+001F, whatever follows it. */
  lemma ParseIntRejectsSeparator(c: char, rest: string)
    requires '\U{1C}' <= c <= '\U{1F}'
    ensures ParseInt([c] + rest).None?
  {
    TrimRightKeepsFront([c] + rest);
  }

  // ---------------------------------------------------------------------
  // Reading an integer back from the front of a string

  /** Number of leading ASCII digits of `s`. */
  function LeadingDigits(s: string): (k: nat)
    ensures k <= |s|
    decreases |s|
  {
    if |s| > 0 && IsDigit(s[0]) then 1 + LeadingDigits(s[1..]) else 0
  }

  lemma {:induction false} LeadingDigitsAllDigits(s: string)
    ensures AllDigits(s[..LeadingDigits(s)])
    decreases |s|
  {
    if |s| > 0 && IsDigit(s[0]) {
      LeadingDigitsAllDigits(s[1..]);
      assert s[..LeadingDigits(s)] == [s[0]] + s[1..][..LeadingDigits(s[1..])];
    }
  }

  lemma {:induction false} LeadingDigitsOf(d: string, t: string)
    requires AllDigits(d)
    requires |t| == 0 || !IsDigit(t[0])
    ensures LeadingDigits(d + t) == |d|
    decreases |d|
  {
    if |d| > 0 {
      assert (d + t)[1..] == d[1..] + t;
      LeadingDigitsOf(d[1..], t);
    } else {
      assert d + t == t;
    }
  }

  /** An optional minus sign and a maximal non-empty run of digits at the
      front of `s`: the integer it denotes and what follows it. */
  function ReadInt(s: string): Option<(int, string)> {
    var neg := |s| >= 1 && s[0] == '-';
    var body := if neg then s[1..] else s;
    var k := LeadingDigits(body);
    if k == 0 then None
    else
      LeadingDigitsAllDigits(body);
      var m: int := DigitsValue(body[..k]);
      Some((if neg then -m else m, body[k..]))
  }

  /** A digit string followed by anything that does not start with a digit
      is read back as its value and that remainder. */
  lemma ReadIntDigits(d: string, t: string)
    requires |d| >= 1 && AllDigits(d)
    requires |t| == 0 || !IsDigit(t[0])
    ensures ReadInt(d + t) == Some((DigitsValue(d) as int, t))
  {
    LeadingDigitsOf(d, t);
    assert (d + t)[..|d|] == d && (d + t)[|d|..] == t;
    assert !((d + t)[0] == '-');
  }

  /** The same behind a minus sign. */
  lemma ReadIntNegDigits(s: string, d: string, t: string)
    requires |d| >= 1 && AllDigits(d)
    requires |t| == 0 || !IsDigit(t[0])
    requires |s| >= 1 && s[0] == '-' && s[1..] == d + t
    ensures ReadInt(s) == Some((-(DigitsValue(d) as int), t))
  {
    LeadingDigitsOf(d, t);
    assert (d + t)[..|d|] == d && (d + t)[|d|..] == t;
  }

  /** `str(n)` followed by anything that does not start with a digit is read
      back as `n` and that remainder. */
  lemma ReadIntToString(n: int, t: string)
    requires |t| == 0 || !IsDigit(t[0])
    ensures ReadInt(IntToString(n) + t) == Some((n, t))
  {
    var m: nat := if n < 0 then -n else n;
    var d := NatToString(m);
    NatToStringDigits(m);
    if n < 0 {
      var s := "-" + d + t;
      assert IntToString(n) + t == s && s[1..] == d + t;
      ReadIntNegDigits(s, d, t);
    } else {
      ReadIntDigits(d, t);
    }
  }


}
