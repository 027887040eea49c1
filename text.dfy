/**
 * Character-level helpers: decimal rendering and reading of integers (what
 * `operator<<` on an int, `std::to_string` and `std::stoi` do on
 * well-formed input) and character and substring search.
 */
module Text {
  import opened Wrappers

  predicate IsDigit(c: char) {
    '0' <= c <= '9'
  }

  predicate AllDigits(s: string) {
    forall i :: 0 <= i < |s| ==> IsDigit(s[i])
  }

  function DigitChar(d: nat): (c: char)
    requires d < 10
    ensures IsDigit(c) && c as int - '0' as int == d
  {
    (('0' as int) + d) as char
  }

  /** The decimal digits of `n`, most significant first, without leading zeros. */
  function ShowNat(n: nat): (s: string)
    ensures s != [] && AllDigits(s)
    decreases n
  {
    if n < 10 then [DigitChar(n)] else ShowNat(n / 10) + [DigitChar(n % 10)]
  }

  /** The decimal text of an int, with a leading '-' when negative. */
  function ShowInt(n: int): (s: string)
    ensures s != []
  {
    if n < 0 then "-" + ShowNat(-n) else ShowNat(n)
  }

  /** The text of an int is digits, after a leading '-' when negative. */
  lemma ShowIntChars(n: int)
    ensures forall i :: 0 <= i < |ShowInt(n)| ==> IsDigit(ShowInt(n)[i]) || (i == 0 && ShowInt(n)[i] == '-')
  {
  }

  /** The value of a string of decimal digits. */
  function DigitsValue(s: string): nat
    requires AllDigits(s)
    decreases |s|
  {
    if s == [] then 0
    else DigitsValue(s[..|s| - 1]) * 10 + (s[|s| - 1] as int - '0' as int)
  }

  /** The characters `isspace` accepts in the C locale. */
  predicate IsSpace(c: char) {
    c == ' ' || c == '\t' || c == '\n' || c == '\r' || c as int == 11 || c as int == 12
  }

  /** `s` without its leading white space. */
  function DropSpaces(s: string): (r: string)
    ensures |r| <= |s| && r == s[|s| - |r|..]
    ensures r == [] || !IsSpace(r[0])
    decreases |s|
  {
    if s != [] && IsSpace(s[0]) then DropSpaces(s[1..]) else s
  }

  /** The longest prefix of `s` made of digits. */
  function DigitPrefix(s: string): (d: string)
    ensures AllDigits(d) && |d| <= |s| && d == s[..|d|]
    ensures |d| == |s| || !IsDigit(s[|d|])
    decreases |s|
  {
    if s != [] && IsDigit(s[0]) then [s[0]] + DigitPrefix(s[1..]) else []
  }

  const IntMin: int := -0x8000_0000
  const IntMax: int := 0x7FFF_FFFF

  /** The range of a C++ `int` on the platforms the program targets. */
  predicate IsInt32(n: int) {
    IntMin <= n <= IntMax
  }

  /**
   * A conversion of an integer to `int` (`static_cast<int>` of a 64-bit
   * value, as two's-complement targets perform it): the one `int` that
   * agrees with `n` modulo 2^32, which is `n` itself when it fits.
   */
  function Wrap32(n: int): (r: int)
    ensures IsInt32(r)
    ensures (r - n) % 0x1_0000_0000 == 0
    ensures IsInt32(n) ==> r == n
  {
    var m := n % 0x1_0000_0000;
    if m > IntMax then m - 0x1_0000_0000 else m
  }

  /**
   * `std::stoi(s)`: skip leading white space, read an optional sign and the
   * digits that follow, ignore the rest. None stands for the exception it
   * throws: no digits at all (`invalid_argument`) or a value outside the
   * `int` range (`out_of_range`).
   */
  function Stoi(s: string): (r: Option<int>)
    ensures r.Some? ==> IsInt32(r.value)
  {
    ReadSigned(DropSpaces(s))
  }

  /** The optional sign and the digits after it, at the start of `t`. */
  function ReadSigned(t: string): (r: Option<int>)
    ensures r.Some? ==> IsInt32(r.value)
  {
    if t != [] && (t[0] == '-' || t[0] == '+') then SignedValue(t[0] == '-', DigitPrefix(t[1..]))
    else SignedValue(false, DigitPrefix(t))
  }

  /** The value of the digits read, negated after a '-'; None without digits or outside the `int` range. */
  function SignedValue(negative: bool, d: string): (r: Option<int>)
    requires AllDigits(d)
    ensures r.Some? ==> IsInt32(r.value)
  {
    if d == [] then None
    else
      var v := if negative then 0 - DigitsValue(d) else DigitsValue(d) as int;
      if IsInt32(v) then Some(v) else None
  }

  lemma {:induction false} DigitsValueShowNat(n: nat)
    ensures DigitsValue(ShowNat(n)) == n
    decreases n
  {
    var s := ShowNat(n);
    if n >= 10 {
      DigitsValueShowNat(n / 10);
      assert s[..|s| - 1] == ShowNat(n / 10);
    }
  }

  /** The digit prefix of some digits followed by a non-digit is those digits. */
  lemma {:induction false} DigitPrefixOf(d: string, tail: string)
    requires AllDigits(d)
    requires tail == [] || !IsDigit(tail[0])
    ensures DigitPrefix(d + tail) == d
    decreases |d|
  {
    if d != [] {
      assert (d + tail)[0] == d[0] && (d + tail)[1..] == d[1..] + tail;
      DigitPrefixOf(d[1..], tail);
    } else {
      assert d + tail == tail;
    }
  }

  lemma ConcatAssociative<T>(a: seq<T>, b: seq<T>, c: seq<T>)
    ensures a + (b + c) == (a + b) + c
  {
  }

  lemma ConcatAssociative4<T>(a: seq<T>, b: seq<T>, c: seq<T>, d: seq<T>)
    ensures a + (b + c + d) == a + b + c + d
  {
    ConcatAssociative(a, b + c, d);
    ConcatAssociative(a, b, c);
  }

  /** A sequence is what comes before position `i`, the element there, and what follows. */
  lemma SplitAround<T>(s: seq<T>, i: nat)
    requires i < |s|
    ensures s == s[..i] + [s[i]] + s[i + 1..]
  {
  }

  lemma NoLeadingSpace(s: string)
    requires s != [] && !IsSpace(s[0])
    ensures DropSpaces(s) == s
  {
  }

  /** Digits, then something other than a digit, read as their value. */
  lemma StoiNonNegative(digits: string, tail: string)
    requires digits != [] && AllDigits(digits) && DigitsValue(digits) <= IntMax
    requires tail == [] || !IsDigit(tail[0])
    ensures Stoi(digits + tail) == Some(DigitsValue(digits) as int)
  {
    var s := digits + tail;
    assert s[0] == digits[0] && IsDigit(s[0]);
    NoLeadingSpace(s);
    DigitPrefixOf(digits, tail);
    assert ReadSigned(s) == SignedValue(false, digits);
  }

  /** A minus sign and digits, then something other than a digit, read as the negated value. */
  lemma StoiNegative(s: string, digits: string, tail: string)
    requires digits != [] && AllDigits(digits) && IntMin <= 0 - DigitsValue(digits)
    requires tail == [] || !IsDigit(tail[0])
    requires s != [] && s[0] == '-' && s[1..] == digits + tail
    ensures Stoi(s) == Some(0 - DigitsValue(digits))
  {
    NoLeadingSpace(s);
    DigitPrefixOf(digits, tail);
    assert ReadSigned(s) == SignedValue(true, DigitPrefix(digits + tail));
  }

  /** What follows the first element of `[x] + a + b`. */
  lemma AfterHead<T>(x: T, a: seq<T>, b: seq<T>)
    ensures ([x] + a + b)[1..] == a + b
  {
  }

  /**
   * `std::stoi` reads back what `operator<<` wrote, whatever follows the
   * number as long as it does not continue it with another digit.
   */
  lemma StoiShowInt(n: int, tail: string)
    requires IsInt32(n)
    requires tail == [] || !IsDigit(tail[0])
    ensures Stoi(ShowInt(n) + tail) == Some(n)
  {
    if n < 0 {
      StoiShowNegated(-n, tail);
    } else {
      StoiShowNat(n, tail);
    }
  }

  /** The digits of a natural in the `int` range read back as it. */
  lemma StoiShowNat(m: nat, tail: string)
    requires m <= IntMax
    requires tail == [] || !IsDigit(tail[0])
    ensures Stoi(ShowNat(m) + tail) == Some(m)
  {
    DigitsValueShowNat(m);
    StoiNonNegative(ShowNat(m), tail);
  }

  /** A minus sign and the digits of a natural read back as its negation, down to the least `int`. */
  lemma StoiShowNegated(m: nat, tail: string)
    requires 0 < m && IntMin <= 0 - m
    requires tail == [] || !IsDigit(tail[0])
    ensures Stoi("-" + ShowNat(m) + tail) == Some(0 - m)
  {
    DigitsValueShowNat(m);
    AfterHead('-', ShowNat(m), tail);
    StoiNegative("-" + ShowNat(m) + tail, ShowNat(m), tail);
  }

  /** `std::stoi` reads back a number written on its own. */
  lemma StoiOfShowInt(n: int)
    requires IsInt32(n)
    ensures Stoi(ShowInt(n)) == Some(n)
  {
    StoiShowInt(n, []);
    assert ShowInt(n) + [] == ShowInt(n);
  }

  /** A written number holds no character other than digits and '-'. */
  lemma ShowIntOmits(n: int, c: char)
    requires c != '-' && !IsDigit(c)
    ensures c !in ShowInt(n)
  {
    ShowIntChars(n);
  }

  /** Distinct naturals have distinct decimal texts. */
  lemma ShowNatInjective(a: nat, b: nat)
    requires ShowNat(a) == ShowNat(b)
    ensures a == b
  {
    DigitsValueShowNat(a);
    DigitsValueShowNat(b);
  }

  /** `pat` occurs in `s` starting at index `i`. */
  predicate OccursAt(s: string, pat: string, i: nat) {
    i + |pat| <= |s| && s[i..i + |pat|] == pat
  }

  /** `s.find(pat)`: the index of the first occurrence of `pat`, or None. */
  function Find(s: string, pat: string): (r: Option<nat>)
    ensures r.Some? ==> OccursAt(s, pat, r.value) && forall j :: 0 <= j < r.value ==> !OccursAt(s, pat, j)
    ensures r.None? ==> forall j :: 0 <= j <= |s| ==> !OccursAt(s, pat, j)
  {
    FindFrom(s, pat, 0)
  }

  function FindFrom(s: string, pat: string, from: nat): (r: Option<nat>)
    requires from <= |s| + 1
    requires forall j :: 0 <= j < from ==> !OccursAt(s, pat, j)
    ensures r.Some? ==> OccursAt(s, pat, r.value) && forall j :: 0 <= j < r.value ==> !OccursAt(s, pat, j)
    ensures r.None? ==> forall j :: 0 <= j <= |s| ==> !OccursAt(s, pat, j)
    decreases |s| + 1 - from
  {
    if from > |s| then None
    else if OccursAt(s, pat, from) then Some(from)
    else FindFrom(s, pat, from + 1)
  }

  /** `s.find(c)`: the index of the first `c`, or None. */
  function FirstIndexOf(s: string, c: char): (r: Option<nat>)
    ensures r.Some? ==> r.value < |s| && s[r.value] == c && forall j :: 0 <= j < r.value ==> s[j] != c
    ensures r.None? ==> forall j :: 0 <= j < |s| ==> s[j] != c
    decreases |s|
  {
    if s == [] then None
    else if s[0] == c then Some(0)
    else
      var r := FirstIndexOf(s[1..], c);
      if r.Some? then Some(r.value + 1) else None
  }

  /** `s.rfind(c)` / `s.find_last_of(c)`: the index of the last `c`, or None. */
  function LastIndexOf(s: string, c: char): (r: Option<nat>)
    ensures r.Some? ==> r.value < |s| && s[r.value] == c && forall j :: r.value < j < |s| ==> s[j] != c
    ensures r.None? ==> forall j :: 0 <= j < |s| ==> s[j] != c
    decreases |s|
  {
    if s == [] then None
    else if s[|s| - 1] == c then Some(|s| - 1)
    else LastIndexOf(s[..|s| - 1], c)
  }
  /** A string of digits holds no other character. */
  lemma DigitsExclude(s: string, c: char)
    requires AllDigits(s) && !IsDigit(c)
    ensures c !in s
  {
  }

  /** A `c` at `pos` with none before it is the first one. */
  lemma {:induction false} FirstIndexAt(s: string, c: char, pos: nat)
    requires pos < |s| && s[pos] == c
    requires forall j :: 0 <= j < pos ==> s[j] != c
    ensures FirstIndexOf(s, c) == Some(pos)
    decreases pos
  {
    if pos > 0 {
      FirstIndexAt(s[1..], c, pos - 1);
    }
  }

  /** A `c` at `pos` with none after it is the last one. */
  lemma {:induction false} LastIndexAt(s: string, c: char, pos: nat)
    requires pos < |s| && s[pos] == c
    requires forall j :: pos < j < |s| ==> s[j] != c
    ensures LastIndexOf(s, c) == Some(pos)
    decreases |s|
  {
    if pos < |s| - 1 {
      LastIndexAt(s[..|s| - 1], c, pos);
    }
  }
}
