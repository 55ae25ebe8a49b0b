/** Character classes, searching, trimming, splitting and decimal digits,
    shared by the Go client and the Arduino firmware. Characters are Unicode
    scalar values; every operation below only looks at ASCII delimiters, so
    working per character agrees with working per UTF-8 byte. */
module Text {

  /** Integer widths of the two ends: Go `int` on a 64-bit host, `int`/`long`
      on the ESP32, and the `int8_t` the radio reports its signal in. */
  type Int64 = x: int | -0x8000_0000_0000_0000 <= x < 0x8000_0000_0000_0000
  type Int32 = x: int | -0x8000_0000 <= x < 0x8000_0000
  type Int8 = x: int | -0x80 <= x < 0x80

  /** Go's `unicode.IsSpace`; fmt's scanner uses the same table. */
  predicate IsGoSpace(c: char) {
    var k := c as int;
    (9 <= k <= 13) || k == 32 || k == 0x85 || k == 0xA0 || k == 0x1680
    || (0x2000 <= k <= 0x200A) || k == 0x2028 || k == 0x2029
    || k == 0x202F || k == 0x205F || k == 0x3000
  }

  /** C `isspace` in the "C" locale: space, tab, newline, vertical tab,
      form feed, carriage return. */
  predicate IsCSpace(c: char) {
    var k := c as int;
    (9 <= k <= 13) || k == 32
  }

  predicate IsDigit(c: char) {
    '0' <= c <= '9'
  }

  predicate AllDigits(s: string) {
    forall i :: 0 <= i < |s| ==> IsDigit(s[i])
  }

  // ---------------------------------------------------------------------
  // Regrouping sequences

  lemma Regroup3<T>(a: seq<T>, b: seq<T>, c: seq<T>)
    ensures a + b + c == a + (b + c)
  {
  }

  lemma Regroup4<T>(a: seq<T>, b: seq<T>, c: seq<T>, d: seq<T>)
    ensures a + b + (c + d) == a + b + c + d
  {
  }

  lemma Snoc<T>(s: seq<T>)
    requires |s| > 0
    ensures s[..|s| - 1] + [s[|s| - 1]] == s
  {
  }

  lemma Cons3<T>(x: T, y: T, z: T, after: seq<T>)
    ensures [x, y, z] + after == [x, y] + ([z] + after)
  {
  }

  // ---------------------------------------------------------------------
  // Prefixes and substrings

  /** Go `strings.HasPrefix`, Arduino `String::startsWith`. */
  predicate HasPrefix(s: string, p: string) {
    |p| <= |s| && s[..|p|] == p
  }

  /** A string that differs from `p` at some index of `p`, or is shorter,
      does not start with `p`. */
  lemma PrefixMismatch(s: string, p: string, i: nat)
    requires i < |p| && (i < |s| ==> s[i] != p[i])
    ensures !HasPrefix(s, p)
  {
    if |p| <= |s| {
      assert s[..|p|][i] == s[i];
    }
  }

  /** Go `strings.TrimPrefix`: drops `p` when `s` starts with it. */
  function TrimPrefix(s: string, p: string): (r: string)
    ensures HasPrefix(s, p) ==> s == p + r
    ensures !HasPrefix(s, p) ==> r == s
  {
    if HasPrefix(s, p) then s[|p|..] else s
  }

  predicate OccursAt(s: string, p: string, i: int) {
    0 <= i && i + |p| <= |s| && s[i..i + |p|] == p
  }

  /** Go `strings.Contains`. */
  predicate Contains(s: string, p: string) {
    exists i :: 0 <= i <= |s| - |p| && OccursAt(s, p, i)
  }

  lemma ContainsAt(s: string, p: string, i: int)
    requires OccursAt(s, p, i)
    ensures Contains(s, p)
  {
  }

  /** An occurrence survives surrounding text. */
  lemma ContainsWithin(a: string, s: string, b: string, p: string)
    requires Contains(s, p)
    ensures Contains(a + s + b, p)
  {
    var i :| 0 <= i <= |s| - |p| && OccursAt(s, p, i);
    var t := a + s + b;
    assert t[|a| + i..|a| + i + |p|] == s[i..i + |p|];
    assert OccursAt(t, p, |a| + i);
  }

  lemma ContainsWithin3(a: string, s: string, b: string, c: string, p: string)
    requires Contains(s, p)
    ensures Contains(a + s + b + c, p)
  {
    ContainsWithin(a, s, b + c, p);
    assert a + s + (b + c) == a + s + b + c;
  }

  lemma PrefixContained(s: string, p: string)
    requires HasPrefix(s, p)
    ensures Contains(s, p)
  {
    assert OccursAt(s, p, 0);
  }

  /** A pattern with a character that never occurs in `s` does not occur in `s`. */
  lemma AbsentChar(s: string, p: string, k: nat)
    requires k < |p| && p[k] !in s
    ensures !Contains(s, p)
  {
    forall i | 0 <= i <= |s| - |p|
      ensures !OccursAt(s, p, i)
    {
      assert s[i + k] in s;
      assert s[i..i + |p|][k] == s[i + k];
    }
  }

  /** A pattern whose first character never occurs in `s` does not occur in `s`. */
  lemma AbsentHead(s: string, p: string)
    requires |p| > 0 && p[0] !in s
    ensures !Contains(s, p)
  {
    forall i | 0 <= i <= |s| - |p|
      ensures !OccursAt(s, p, i)
    {
      assert s[i] in s;
      assert s[i..i + |p|][0] == s[i];
    }
  }

  /** A pattern whose first character occurs in `a + [c] + d` only at `c`,
      and is not followed there by the pattern's second character, does not
      occur at all. */
  lemma SingleHead(a: string, c: char, d: string, p: string)
    requires |p| >= 2 && |d| >= 1
    requires p[0] !in a && c == p[0] && d[0] != p[1] && p[0] !in d
    ensures !Contains(a + [c] + d, p)
  {
    var s := a + [c] + d;
    forall i | 0 <= i <= |s| - |p|
      ensures !OccursAt(s, p, i)
    {
      assert s[i..i + |p|][0] == s[i];
      assert s[i..i + |p|][1] == s[i + 1];
      if i < |a| {
        assert s[i] == a[i] && a[i] in a;
      } else if i == |a| {
        assert s[i + 1] == d[0];
      } else {
        assert s[i] == d[i - |a| - 1] && d[i - |a| - 1] in d;
      }
    }
  }

  // ---------------------------------------------------------------------
  // Index searches (Arduino String::indexOf / lastIndexOf)

  /** `indexOf(c, from)`: the first index at or after `from` holding `c`,
      or -1 when there is none (including when `from` is past the end). */
  function IndexFrom(s: string, c: char, from: nat): (r: int)
    ensures r == -1 || (from <= r < |s| && s[r] == c)
    ensures forall k :: from <= k < |s| && (r == -1 || k < r) ==> s[k] != c
    decreases |s| - from
  {
    if from >= |s| then -1
    else if s[from] == c then from
    else IndexFrom(s, c, from + 1)
  }

  /** `lastIndexOf(c)`: the last index holding `c`, or -1. */
  function LastIndex(s: string, c: char): (r: int)
    ensures r == -1 || (0 <= r < |s| && s[r] == c)
    ensures forall k :: r < k < |s| ==> s[k] != c
    decreases |s|
  {
    if |s| == 0 then -1
    else if s[|s| - 1] == c then |s| - 1
    else LastIndex(s[..|s| - 1], c)
  }

  // ---------------------------------------------------------------------
  // Splitting (Go strings.Split with a one-character separator)

  function Split(s: string, sep: char): (parts: seq<string>)
    ensures |parts| >= 1
    ensures forall i :: 0 <= i < |parts| ==> sep !in parts[i]
    decreases |s|
  {
    var i := IndexFrom(s, sep, 0);
    if i < 0 then [s] else [s[..i]] + Split(s[i + 1..], sep)
  }

  function Join(parts: seq<string>, sep: char): string
    requires |parts| >= 1
    decreases |parts|
  {
    if |parts| == 1 then parts[0] else parts[0] + [sep] + Join(parts[1..], sep)
  }

  /** Splitting loses nothing: joining the parts back gives the input. */
  lemma {:induction false} JoinSplit(s: string, sep: char)
    ensures Join(Split(s, sep), sep) == s
    decreases |s|
  {
    var i := IndexFrom(s, sep, 0);
    if i >= 0 {
      JoinSplit(s[i + 1..], sep);
      assert s == s[..i] + [sep] + s[i + 1..];
    }
  }

  /** A separator-free field followed by the separator becomes the first part. */
  lemma SplitField(a: string, sep: char, rest: string)
    requires sep !in a
    ensures Split(a + [sep] + rest, sep) == [a] + Split(rest, sep)
  {
    var s := a + [sep] + rest;
    assert s[|a|] == sep;
    assert forall k :: 0 <= k < |a| ==> s[k] == a[k];
    var i := IndexFrom(s, sep, 0);
    assert i == |a|;
    assert s[..i] == a && s[i + 1..] == rest;
  }

  /** A separator-free string is a single part. */
  lemma SplitWhole(s: string, sep: char)
    requires sep !in s
    ensures Split(s, sep) == [s]
  {
    assert IndexFrom(s, sep, 0) == -1;
  }

  // ---------------------------------------------------------------------
  // Trimming

  /** White space fmt's scanner skips before a number; a newline ends the
      input instead. */
  predicate IsBlank(c: char) {
    IsGoSpace(c) && c != '\n'
  }

  /** The notions of white space in play: Go's `unicode.IsSpace`, which
      `strings.TrimSpace` uses; C's `isspace`, which `String::trim` and
      `strtol` use; and the blanks fmt's scanner skips. */
  datatype Spaces = GoSpaces | CSpaces | Blanks

  predicate IsSpace(sp: Spaces, c: char) {
    match sp
    case GoSpaces => IsGoSpace(c)
    case CSpaces => IsCSpace(c)
    case Blanks => IsBlank(c)
  }

  predicate All(s: string, sp: Spaces) {
    forall k :: 0 <= k < |s| ==> IsSpace(sp, s[k])
  }

  function TrimLeft(s: string, sp: Spaces): (r: string)
    ensures |r| <= |s| && r == s[|s| - |r|..]
    ensures forall k :: 0 <= k < |s| - |r| ==> IsSpace(sp, s[k])
    ensures r == [] || !IsSpace(sp, r[0])
    decreases |s|
  {
    if |s| > 0 && IsSpace(sp, s[0]) then TrimLeft(s[1..], sp) else s
  }

  function TrimRight(s: string, sp: Spaces): (r: string)
    ensures |r| <= |s| && r == s[..|r|]
    ensures forall k :: |r| <= k < |s| ==> IsSpace(sp, s[k])
    ensures r == [] || !IsSpace(sp, r[|r| - 1])
    decreases |s|
  {
    if |s| > 0 && IsSpace(sp, s[|s| - 1]) then TrimRight(s[..|s| - 1], sp) else s
  }

  /** Removes the longest leading and trailing runs of `sp` characters:
      Go `strings.TrimSpace` with `GoSpaces`, Arduino `String::trim` with
      `CSpaces`. */
  function Trim(s: string, sp: Spaces): (r: string)
    ensures |r| <= |s|
    ensures Trimmed(r, sp)
    ensures Stripped(s, r, sp)
  {
    var l := TrimLeft(s, sp);
    var r := TrimRight(l, sp);
    TrimSlice(s, l, r, sp);
    r
  }

  /** `r` is a slice of `s` with nothing but `sp` characters around it. */
  predicate Stripped(s: string, r: string, sp: Spaces) {
    exists i :: 0 <= i <= |s| - |r| && r == s[i..i + |r|] && All(s[..i], sp) && All(s[i + |r|..], sp)
  }

  lemma TrimSlice(s: string, l: string, r: string, sp: Spaces)
    requires |l| <= |s| && l == s[|s| - |l|..] && forall k :: 0 <= k < |s| - |l| ==> IsSpace(sp, s[k])
    requires |r| <= |l| && r == l[..|r|] && forall k :: |r| <= k < |l| ==> IsSpace(sp, l[k])
    ensures Stripped(s, r, sp)
  {
    var i := |s| - |l|;
    var front := s[..i];
    var back := s[i + |r|..];
    assert s[i..i + |r|] == r;
    assert All(front, sp) by {
      forall k | 0 <= k < |front| ensures IsSpace(sp, front[k]) { assert front[k] == s[k]; }
    }
    assert All(back, sp) by {
      forall k | 0 <= k < |back| ensures IsSpace(sp, back[k]) { assert back[k] == l[|r| + k]; }
    }
  }

  /** Neither starts nor ends with an `sp` character. */
  predicate Trimmed(s: string, sp: Spaces) {
    s == [] || (!IsSpace(sp, s[0]) && !IsSpace(sp, s[|s| - 1]))
  }

  /** A string that neither starts nor ends with a trimmed character is kept. */
  lemma TrimKeeps(s: string, sp: Spaces)
    requires Trimmed(s, sp)
    ensures Trim(s, sp) == s
  {
  }

  /** Trimming twice is trimming once. */
  lemma TrimIdempotent(s: string, sp: Spaces)
    ensures Trim(Trim(s, sp), sp) == Trim(s, sp)
  {
    TrimKeeps(Trim(s, sp), sp);
  }

  lemma {:induction false} TrimRightSpaces(s: string, t: string, sp: Spaces)
    requires All(t, sp)
    ensures TrimRight(s + t, sp) == TrimRight(s, sp)
    decreases |t|
  {
    if |t| > 0 {
      var u := s + t;
      assert u[..|u| - 1] == s + t[..|t| - 1];
      TrimRightSpaces(s, t[..|t| - 1], sp);
    } else {
      assert s + t == s;
    }
  }

  lemma {:induction false} TrimLeftSpaces(s: string, t: string, sp: Spaces)
    requires All(t, sp)
    ensures TrimLeft(s + t, sp) == if TrimLeft(s, sp) == [] then [] else TrimLeft(s, sp) + t
    decreases |s| + |t|
  {
    if |s| > 0 {
      assert (s + t)[0] == s[0];
      if IsSpace(sp, s[0]) {
        assert (s + t)[1..] == s[1..] + t;
        TrimLeftSpaces(s[1..], t, sp);
      }
    } else if |t| > 0 {
      assert s + t == t;
      assert [] + t[1..] == t[1..];
      TrimLeftSpaces([], t[1..], sp);
    } else {
      assert s + t == [];
    }
  }

  /** Trailing trimmed characters (a printed "\r\n", say) do not change the
      trimmed text. */
  lemma TrimSpacesAfter(s: string, t: string, sp: Spaces)
    requires All(t, sp)
    ensures Trim(s + t, sp) == Trim(s, sp)
  {
    TrimLeftSpaces(s, t, sp);
    var l := TrimLeft(s, sp);
    if l != [] {
      TrimRightSpaces(l, t, sp);
    }
  }

  // ---------------------------------------------------------------------
  // Decimal numerals (Go `%d`, Arduino `Print::print(long)`)

  function DigitChar(d: nat): (c: char)
    requires d < 10
    ensures IsDigit(c)
  {
    (48 + d) as char
  }

  function DigitValue(c: char): (d: nat)
    requires IsDigit(c)
    ensures d < 10
  {
    c as int - 48
  }

  /** The shortest decimal numeral of `n`: no sign and no leading zero. */
  function Digits(n: nat): (r: string)
    ensures |r| >= 1 && AllDigits(r)
    ensures |r| > 1 ==> r[0] != '0'
    decreases n
  {
    if n < 10 then [DigitChar(n)] else Digits(n / 10) + [DigitChar(n % 10)]
  }

  /** A decimal integer as both ends print one: a minus sign for negative
      values, then the digits of the magnitude. */
  function Decimal(n: int): (r: string)
    ensures |r| >= 1
    ensures n < 0 <==> r[0] == '-'
    ensures n < 0 ==> AllDigits(r[1..])
    ensures n >= 0 ==> AllDigits(r)
  {
    if n < 0 then "-" + Digits(-n) else Digits(n)
  }

  /** The value of a numeral, most significant digit first. */
  function ValueOf(s: string): nat
    requires AllDigits(s)
    decreases |s|
  {
    if |s| == 0 then 0 else ValueOf(s[..|s| - 1]) * 10 + DigitValue(s[|s| - 1])
  }

  /** The length of the run of digits that starts `s`. */
  function DigitRun(s: string): (k: nat)
    ensures k <= |s| && AllDigits(s[..k])
    ensures k == |s| || !IsDigit(s[k])
    decreases |s|
  {
    if |s| > 0 && IsDigit(s[0]) then 1 + DigitRun(s[1..]) else 0
  }

  /** The value of the digit run that starts `s` (0 when there is none). */
  function LeadingValue(s: string): nat {
    ValueOf(s[..DigitRun(s)])
  }

  /** Reading back the digits of `n` gives `n`. */
  lemma {:induction false} DigitsValue(n: nat)
    ensures ValueOf(Digits(n)) == n
    decreases n
  {
    if n >= 10 {
      DigitsValue(n / 10);
      var s := Digits(n);
      assert s[..|s| - 1] == Digits(n / 10);
    }
  }

  /** The digit run of a numeral followed by a non-digit is the numeral. */
  lemma {:induction false} DigitRunStops(a: string, b: string)
    requires AllDigits(a)
    requires b == [] || !IsDigit(b[0])
    ensures DigitRun(a + b) == |a|
    ensures (a + b)[..|a|] == a
    decreases |a|
  {
    if |a| > 0 {
      assert (a + b)[0] == a[0];
      assert (a + b)[1..] == a[1..] + b;
      DigitRunStops(a[1..], b);
    } else {
      assert a + b == b;
    }
  }

  /** The leading value of a numeral followed by a non-digit is its value. */
  lemma LeadingDigits(n: nat, rest: string)
    requires rest == [] || !IsDigit(rest[0])
    ensures LeadingValue(Digits(n) + rest) == n
  {
    DigitRunStops(Digits(n), rest);
    DigitsValue(n);
  }
}
