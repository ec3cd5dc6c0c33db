/** Byte strings and the few Python `bytes`/`str` operations the HTTP code is written with.
    A byte is the `char` with its value, which is how the source reads header bytes
    (iso-8859-1 decoding keeps every value). */
module ByteStrings {
  import opened Wrappers

  type Bytes = seq<char>

  const CRLF: Bytes := ['\r', '\n']
  const SEPARATOR: Bytes := ['\r', '\n', '\r', '\n']

  // ----- find -----

  predicate At(b: Bytes, pat: Bytes, k: int) {
    0 <= k && k + |pat| <= |b| && b[k..k + |pat|] == pat
  }

  /** `b.find(pat, p)`: the first occurrence at or after `p`, or -1. */
  function Find(b: Bytes, pat: Bytes, p: nat): (r: int)
    ensures r == -1 || p <= r <= |b| - |pat|
    decreases |b| - p
  {
    if p + |pat| > |b| then -1
    else if At(b, pat, p) then p
    else Find(b, pat, p + 1)
  }

  lemma {:induction false} FindIsFirst(b: Bytes, pat: Bytes, p: nat)
    ensures Find(b, pat, p) >= 0 ==> At(b, pat, Find(b, pat, p))
    ensures forall k :: p <= k && (Find(b, pat, p) < 0 || k < Find(b, pat, p)) ==> !At(b, pat, k)
    decreases |b| - p
  {
    if p + |pat| <= |b| && !At(b, pat, p) { FindIsFirst(b, pat, p + 1); }
  }

  lemma {:induction false} FirstIsFound(b: Bytes, pat: Bytes, p: nat, r: int)
    requires p <= r && At(b, pat, r)
    requires forall k :: p <= k < r ==> !At(b, pat, k)
    ensures Find(b, pat, p) == r
  {
    FindIsFirst(b, pat, p);
  }

  lemma AtExtends(b: Bytes, b': Bytes, pat: Bytes, k: int)
    requires b <= b' && k + |pat| <= |b|
    ensures At(b, pat, k) == At(b', pat, k)
  {
    if 0 <= k {
      assert b[k..k + |pat|] == b'[k..k + |pat|];
    }
  }

  /** A CRLF, character by character. */
  lemma AtCrlf(b: Bytes, k: int)
    ensures At(b, CRLF, k) <==> 0 <= k && k + 2 <= |b| && b[k] == '\r' && b[k + 1] == '\n'
  {
    if 0 <= k && k + 2 <= |b| {
      assert b[k..k + 2] == [b[k], b[k + 1]];
    }
  }

  /** A hit does not move when the buffer grows. */
  lemma {:induction false} FindExtends(b: Bytes, b': Bytes, pat: Bytes, p: nat)
    requires b <= b' && Find(b, pat, p) >= 0
    ensures Find(b', pat, p) == Find(b, pat, p)
    decreases |b| - p
  {
    AtExtends(b, b', pat, p);
    if !At(b, pat, p) { FindExtends(b, b', pat, p + 1); }
  }

  /** A hit of the longer buffer that ends inside the shorter one was already there. */
  lemma {:induction false} FindShrinks(b: Bytes, b': Bytes, pat: Bytes, p: nat)
    requires b <= b' && 0 <= Find(b', pat, p) && Find(b', pat, p) + |pat| <= |b|
    ensures Find(b, pat, p) == Find(b', pat, p)
    decreases |b'| - p
  {
    AtExtends(b, b', pat, p);
    if !At(b', pat, p) { FindShrinks(b, b', pat, p + 1); }
  }

  // ----- Python indices, which count from the end when negative -----

  function Index(b: Bytes, i: int): (k: nat)
    ensures k <= |b|
  {
    if i > |b| then |b| else if i >= 0 then i else if i + |b| >= 0 then i + |b| else 0
  }

  /** `b[i:j]` */
  function Slice(b: Bytes, i: int, j: int): Bytes {
    if Index(b, i) <= Index(b, j) then b[Index(b, i)..Index(b, j)] else []
  }

  /** `b.find(pat, start)` */
  function FindFrom(b: Bytes, pat: Bytes, start: int): int {
    Find(b, pat, if start < 0 then Index(b, start) else start)
  }

  lemma SliceInside(b: Bytes, i: nat, j: nat)
    requires i <= j <= |b|
    ensures Slice(b, i, j) == b[i..j]
  {}

  lemma SliceIsCrlf(b: Bytes, i: nat)
    ensures Slice(b, i, i + 2) == CRLF <==> At(b, CRLF, i)
  {}

  // ----- a string standing at a position -----

  lemma AtIsSlice(b: Bytes, s: Bytes, k: nat)
    ensures At(b, s, k) <==> k + |s| <= |b| && b[k..k + |s|] == s
  {}

  /** `At` composes: `s + t` stands at `k` exactly when `s` does and `t` does right after it. */
  lemma AtConcat(b: Bytes, s: Bytes, t: Bytes, k: nat)
    ensures At(b, s + t, k) <==> At(b, s, k) && At(b, t, k + |s|)
  {
    if k + |s| + |t| <= |b| {
      var w := b[k..k + |s| + |t|];
      assert w == b[k..k + |s|] + b[k + |s|..k + |s| + |t|];
      assert w[..|s|] == b[k..k + |s|] && w[|s|..] == b[k + |s|..k + |s| + |t|];
      assert (s + t)[..|s|] == s && (s + t)[|s|..] == t;
    }
  }

  // ----- lines -----

  /** A line is what a CRLF ends: it holds no CRLF of its own. */
  predicate IsLine(line: Bytes) { Find(line, CRLF, 0) < 0 }

  /** A line followed by CRLF is found at its end, wherever it stands. */
  lemma LineIsFound(b: Bytes, line: Bytes, k: nat)
    requires IsLine(line) && At(b, line, k) && At(b, CRLF, k + |line|)
    ensures Find(b, CRLF, k) == k + |line|
    ensures b[k..k + |line|] == line
  {
    FindIsFirst(line, CRLF, 0);
    forall j | k <= j < k + |line| ensures !At(b, CRLF, j) {
      AtCrlf(b, j);
      AtCrlf(b, k + |line|);
      AtCrlf(line, j - k);
      assert !At(line, CRLF, j - k);
      assert b[j] == b[k..k + |line|][j - k];
      if j + 1 < k + |line| { assert b[j + 1] == b[k..k + |line|][j + 1 - k]; }
    }
    FirstIsFound(b, CRLF, k, k + |line|);
  }

  /** What stands before a found CRLF is a line. */
  lemma FoundIsLine(b: Bytes, k: nat)
    requires Find(b, CRLF, k) >= 0
    ensures IsLine(b[k..Find(b, CRLF, k)])
    ensures At(b, b[k..Find(b, CRLF, k)], k) && At(b, CRLF, Find(b, CRLF, k))
  {
    FindIsFirst(b, CRLF, k);
    var line := b[k..Find(b, CRLF, k)];
    forall j | 0 <= j ensures !At(line, CRLF, j) {
      AtCrlf(line, j);
      AtCrlf(b, k + j);
      assert j < |line| ==> !At(b, CRLF, k + j);
    }
    FindIsFirst(line, CRLF, 0);
  }

  // ----- split -----

  /** Index of the first `c`, or the length. */
  function IndexOf(s: Bytes, c: char): (i: nat)
    ensures i <= |s| && c !in s[..i] && (i < |s| ==> s[i] == c)
  {
    if s == [] || s[0] == c then 0
    else
      var i := 1 + IndexOf(s[1..], c);
      assert s[..i] == [s[0]] + s[1..][..i - 1];
      i
  }

  lemma {:induction false} IndexOfIs(s: Bytes, c: char, i: nat)
    requires i < |s| && s[i] == c && c !in s[..i]
    ensures IndexOf(s, c) == i
    decreases |s|
  {
    if i > 0 {
      assert s[..i][0] == s[0] && s[..i] == [s[0]] + s[1..][..i - 1];
      IndexOfIs(s[1..], c, i - 1);
    }
  }

  /** `s.split(c, 1)[0]`, and the part after the first `c`. */
  function Before(s: Bytes, c: char): Bytes { s[..IndexOf(s, c)] }

  function After(s: Bytes, c: char): Bytes
    requires c in s
  {
    s[IndexOf(s, c) + 1..]
  }

  /** `s.split("\r\n")` */
  function Lines(s: Bytes): (lines: seq<Bytes>)
    ensures |lines| > 0
    decreases |s|
  {
    var e := Find(s, CRLF, 0);
    if e < 0 then [s] else [s[..e]] + Lines(s[e + 2..])
  }

  function SplitOn(s: Bytes, c: char): (parts: seq<Bytes>)
    ensures |parts| > 0
    decreases |s|
  {
    var i := IndexOf(s, c);
    if i == |s| then [s] else [s[..i]] + SplitOn(s[i + 1..], c)
  }

  /** The first part ends at the first blank. */
  lemma SplitAt(s: Bytes, i: nat)
    requires i < |s| && s[i] == ' ' && ' ' !in s[..i]
    ensures SplitOn(s, ' ') == [s[..i]] + SplitOn(s[i + 1..], ' ')
  {
    IndexOfIs(s, ' ', i);
  }

  lemma NoSplit(s: Bytes)
    requires ' ' !in s
    ensures SplitOn(s, ' ') == [s]
  {}

  // ----- strip, lower, substring -----

  /** The bytes `bytes.strip()` removes. */
  predicate ByteSpace(c: char) {
    c == ' ' || '\t' <= c <= '\r'
  }

  /** The characters below 256 that `str.strip()` removes. */
  predicate TextSpace(c: char) {
    ByteSpace(c) || 0x1c <= c as int <= 0x1f || c as int == 0x85 || c as int == 0xa0
  }

  function Strip(s: Bytes, space: char -> bool): Bytes
    decreases |s|
  {
    if s == [] then s
    else if space(s[0]) then Strip(s[1..], space)
    else if space(s[|s| - 1]) then Strip(s[..|s| - 1], space)
    else s
  }

  function LowerChar(c: char): char {
    if 'A' <= c <= 'Z' || (0xc0 <= c as int <= 0xde && c as int != 0xd7) then (c as int + 32) as char
    else c
  }

  function Lower(s: Bytes): Bytes { seq(|s|, i requires 0 <= i < |s| => LowerChar(s[i])) }

  predicate Contains(s: Bytes, pat: Bytes) { Find(s, pat, 0) >= 0 }

  // ----- integers -----

  /** Value of a digit, or 99. */
  function Digit(c: char): nat {
    if '0' <= c <= '9' then c as int - '0' as int
    else if 'a' <= c <= 'f' then c as int - 'a' as int + 10
    else if 'A' <= c <= 'F' then c as int - 'A' as int + 10
    else 99
  }

  /** Digits with single underscores between them, as Python's `int` reads them. */
  function Digits(s: Bytes, base: nat, acc: nat): Option<nat>
    decreases |s|
  {
    if s == [] || Digit(s[0]) >= base then None
    else
      var acc' := acc * base + Digit(s[0]);
      if |s| == 1 then Some(acc')
      else Digits(if s[1] == '_' then s[2..] else s[1..], base, acc')
  }

  /** Python's default limit on the digits of a decimal literal it converts. */
  const MAX_STR_DIGITS := 4300

  function DigitCount(s: Bytes): nat {
    if s == [] then 0 else DigitCount(s[1..]) + if s[0] == '_' then 0 else 1
  }

  /** `int(s, base)` for an already stripped token: optional sign, and for base 16 an optional `0x`. */
  function ParseInt(s: Bytes, base: nat): Option<int> {
    var signed := s != [] && (s[0] == '-' || s[0] == '+');
    var rest := if signed then s[1..] else s;
    var prefixed := base == 16 && |rest| >= 2 && rest[0] == '0' && (rest[1] == 'x' || rest[1] == 'X');
    var body := if !prefixed then rest else if |rest| > 2 && rest[2] == '_' then rest[3..] else rest[2..];
    match if base == 10 && DigitCount(body) > MAX_STR_DIGITS then None else Digits(body, base, 0)
    case None => None
    case Some(n) => var v: int := n; Some(if signed && s[0] == '-' then -v else v)
  }

  /** `f"{n:X}"` and `str(n)` */
  function Numeral(n: nat, base: nat): (s: Bytes)
    requires base == 10 || base == 16
    ensures |s| > 0
  {
    if n < base then [DigitChar(n)] else Numeral(n / base, base) + [DigitChar(n % base)]
  }

  function Hex(n: nat): Bytes { Numeral(n, 16) }

  function Decimal(n: nat): Bytes { Numeral(n, 10) }

  function DigitChar(d: nat): (c: char)
    requires d < 16
    ensures Digit(c) == d && IsDigitChar(c)
  {
    if d < 10 then (d + '0' as int) as char else (d - 10 + 'A' as int) as char
  }

  predicate IsDigitChar(c: char) { '0' <= c <= '9' || 'A' <= c <= 'F' }

  predicate IsNumeral(s: Bytes) { forall i :: 0 <= i < |s| ==> IsDigitChar(s[i]) }

  lemma {:induction false} NumeralIsNumeral(n: nat, base: nat)
    requires base == 10 || base == 16
    ensures IsNumeral(Numeral(n, base))
  {
    if n >= base { NumeralIsNumeral(n / base, base); }
  }

  lemma {:induction false} DigitsSnoc(s: Bytes, c: char, base: nat, acc: nat)
    requires s != [] && IsNumeral(s + [c]) && Digit(c) < base
    requires Digits(s, base, acc).Some?
    ensures Digits(s + [c], base, acc) == Some(Digits(s, base, acc).value * base + Digit(c))
    decreases |s|
  {
    hide Digit;
    var t := s + [c];
    assert t[0] == s[0] && t[1..] == s[1..] + [c];
    if |s| == 1 {
      assert t[1] == c && t[1..] == [c];
    } else {
      assert IsNumeral(s[1..] + [c]) by {
        assert forall i :: 0 <= i < |s[1..] + [c]| ==> (s[1..] + [c])[i] == t[i + 1];
      }
      assert IsDigitChar(t[1]) && t[1] == s[1];
      DigitsSnoc(s[1..], c, base, acc * base + Digit(s[0]));
    }
  }

  lemma {:induction false} DigitsOfNumeral(n: nat, base: nat)
    requires base == 10 || base == 16
    ensures Digits(Numeral(n, base), base, 0) == Some(n)
  {
    NumeralIsNumeral(n, base);
    if n >= base {
      DigitsOfNumeral(n / base, base);
      DigitsSnoc(Numeral(n / base, base), DigitChar(n % base), base, 0);
    }
  }

  /** The printer of hexadecimal numerals is inverted by the integer parser. */
  lemma ParseIntOfHex(n: nat)
    ensures ParseInt(Hex(n), 16) == Some(n)
  {
    NumeralIsNumeral(n, 16);
    DigitsOfNumeral(n, 16);
    var s := Hex(n);
    assert IsDigitChar(s[0]);
    if |s| >= 2 { assert IsDigitChar(s[1]); }
  }

  // ----- concatenation -----

  function Flatten(parts: seq<Bytes>): Bytes {
    if parts == [] then [] else parts[0] + Flatten(parts[1..])
  }

  lemma {:induction false} FlattenAppend(a: seq<Bytes>, b: seq<Bytes>)
    ensures Flatten(a + b) == Flatten(a) + Flatten(b)
  {
    if a == [] {
      assert a + b == b;
    } else {
      assert (a + b)[1..] == a[1..] + b;
      FlattenAppend(a[1..], b);
    }
  }
}
