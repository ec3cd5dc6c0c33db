/** What the small readers of text mean: strip, lower, and integers as Python writes them. */
module TextReading {
  import opened Wrappers
  import opened ByteStrings

  // ----- strip -----

  predicate AllSpace(s: Bytes, space: char -> bool) { forall i :: 0 <= i < |s| ==> space(s[i]) }

  /** Nothing to strip at either end. */
  predicate Bare(s: Bytes, space: char -> bool) { s == [] || (!space(s[0]) && !space(s[|s| - 1])) }

  /** White space around a bare text, and nothing else, is stripped. */
  lemma {:induction false} StripTakesAway(pre: Bytes, s: Bytes, post: Bytes, space: char -> bool)
    requires AllSpace(pre, space) && AllSpace(post, space) && Bare(s, space)
    ensures Strip(pre + s + post, space) == s
    decreases |pre| + |post|
  {
    var all := pre + s + post;
    if pre != [] {
      assert all[0] == pre[0] && all[1..] == pre[1..] + s + post;
      StripTakesAway(pre[1..], s, post, space);
    } else if s == [] {
      assert all == post;
      if post != [] {
        assert all[1..] == [] + s + post[1..];
        StripTakesAway([], s, post[1..], space);
      }
    } else if post != [] {
      assert all[0] == s[0] && all[|all| - 1] == post[|post| - 1] && all[..|all| - 1] == [] + s + post[..|post| - 1];
      StripTakesAway([], s, post[..|post| - 1], space);
    } else {
      assert all == s;
    }
  }

  /** Every text is what strip leaves, with white space around it. */
  lemma {:induction false} StripLeaves(s: Bytes, space: char -> bool) returns (pre: Bytes, post: Bytes)
    ensures Bare(Strip(s, space), space) && AllSpace(pre, space) && AllSpace(post, space)
    ensures s == pre + Strip(s, space) + post
    decreases |s|
  {
    pre, post := [], [];
    if s != [] && space(s[0]) {
      pre, post := StripLeaves(s[1..], space);
      pre := [s[0]] + pre;
      assert s == [s[0]] + s[1..];
    } else if s != [] && space(s[|s| - 1]) {
      pre, post := StripLeaves(s[..|s| - 1], space);
      post := post + [s[|s| - 1]];
      assert s == s[..|s| - 1] + [s[|s| - 1]];
    }
  }

  /** The white space of bytes, and of the characters below 256, by number. */
  lemma WhiteSpace(c: char)
    ensures ByteSpace(c) <==> c as int in {9, 10, 11, 12, 13, 32}
    ensures TextSpace(c) <==> c as int in {9, 10, 11, 12, 13, 28, 29, 30, 31, 32, 133, 160}
  {}

  // ----- lower -----

  /** The upper-case letters below 256: the basic ones, and the accented ones around the
      multiplication sign. */
  predicate IsUpper(c: char) { c in "ABCDEFGHIJKLMNOPQRSTUVWXYZ" || 192 <= c as int <= 214 || 216 <= c as int <= 222 }

  /** Exactly the upper-case letters are changed, each to a letter of its own that stays as it is. */
  lemma LowerChanges(c: char, d: char)
    requires c as int < 256 && d as int < 256
    ensures LowerChar(c) != c <==> IsUpper(c)
    ensures LowerChar(LowerChar(c)) == LowerChar(c)
    ensures IsUpper(c) && IsUpper(d) && LowerChar(c) == LowerChar(d) ==> c == d
  {
    UpperLetters(c);
    UpperLetters(d);
  }

  lemma UpperLetters(c: char)
    ensures c in "ABCDEFGHIJKLMNOPQRSTUVWXYZ" <==> 'A' <= c <= 'Z'
  {
    var letters := "ABCDEFGHIJKLMNOPQRSTUVWXYZ";
    if 'A' <= c <= 'Z' { assert letters[c as int - 'A' as int] == c; }
  }

  lemma LowerAlphabet()
    ensures Lower("ABCDEFGHIJKLMNOPQRSTUVWXYZ") == "abcdefghijklmnopqrstuvwxyz"
  {}

  // ----- integers -----

  lemma {:induction false} DigitsIgnoreCase(s: Bytes, base: nat, acc: nat)
    ensures Digits(Lower(s), base, acc) == Digits(s, base, acc)
    decreases |s|
  {
    if s != [] {
      DigitIgnoresCase(s[0]);
      assert Lower(s)[1..] == Lower(s[1..]);
      if |s| > 1 {
        assert Lower(s)[1] == '_' <==> s[1] == '_' by { UnderscoreStays(s[1]); }
        assert Lower(s)[2..] == Lower(s[2..]);
        var acc' := acc * base + Digit(s[0]);
        DigitsIgnoreCase(if s[1] == '_' then s[2..] else s[1..], base, acc');
      }
    }
  }

  lemma DigitIgnoresCase(c: char)
    ensures Digit(LowerChar(c)) == Digit(c)
  {}

  lemma UnderscoreStays(c: char)
    ensures LowerChar(c) == '_' <==> c == '_'
  {}

  /** A single underscore between two digits is passed over. */
  lemma {:induction false} UnderscoreIsPassedOver(a: Bytes, b: Bytes, base: nat, acc: nat)
    requires a != [] && b != [] && IsNumeral(a) && IsNumeral(b)
    ensures Digits(a + "_" + b, base, acc) == Digits(a + b, base, acc)
    decreases |a|
  {
    hide Digit;
    var s, t := a + "_" + b, a + b;
    assert IsDigitChar(a[0]) && IsDigitChar(b[0]);
    if |a| == 1 {
      assert s[1] == '_' && s[2..] == b && t[1..] == b && t[1] == b[0];
    } else {
      assert IsDigitChar(a[1]) && s[1] == a[1] == t[1];
      assert s[1..] == a[1..] + "_" + b && t[1..] == a[1..] + b;
      assert IsNumeral(a[1..]) by { assert forall i :: 0 <= i < |a[1..]| ==> a[1..][i] == a[i + 1]; }
      UnderscoreIsPassedOver(a[1..], b, base, acc * base + Digit(a[0]));
    }
  }

  /** Two underscores, or one at an end, are not. */
  lemma UnderscoreAlone(s: Bytes, base: nat, acc: nat)
    requires base <= 16
    ensures Digits("_" + s, base, acc) == None
  {}

  lemma {:induction false} NumeralDigits(s: Bytes)
    requires IsNumeral(s)
    ensures DigitCount(s) == |s|
    decreases |s|
  {
    if s != [] {
      assert IsDigitChar(s[0]);
      assert forall i :: 0 <= i < |s[1..]| ==> s[1..][i] == s[i + 1];
      NumeralDigits(s[1..]);
    }
  }

  /** The integer parser on what `str` and `f"{n:X}"` print: plain, with a sign, and in the other
      case; decimal numerals up to the limit on their digits and none above it. */
  lemma ParseIntReads(n: nat, base: nat)
    requires base == 10 || base == 16
    ensures var s := Numeral(n, base);
            if base == 10 && |s| > MAX_STR_DIGITS then ParseInt(s, base) == None
            else
              && ParseInt(s, base) == Some(n) && ParseInt("+" + s, base) == Some(n)
              && ParseInt("-" + s, base).Some? && ParseInt("-" + s, base).value + n == 0
              && ParseInt(Lower(s), base) == Some(n)
  {
    var s := Numeral(n, base);
    NumeralIsNumeral(n, base);
    DigitsOfNumeral(n, base);
    NumeralDigits(s);
    assert IsDigitChar(s[0]) && (|s| > 1 ==> IsDigitChar(s[1]));
    assert ("+" + s)[1..] == s && ("-" + s)[1..] == s;
    LowerDigits(s);
    DigitsIgnoreCase(s, base, 0);
    hide Digits, Numeral, DigitCount;
  }

  /** A printed number has upper-case digits of its base only, and no leading zero. */
  lemma {:induction false} NumeralIsPlain(n: nat, base: nat)
    requires base == 10 || base == 16
    ensures var s := Numeral(n, base);
            && s != [] && (s[0] == '0' ==> n == 0 && s == "0")
            && forall i :: 0 <= i < |s| ==> s[i] in if base == 10 then "0123456789" else "0123456789ABCDEF"
    decreases n
  {
    var digits := if base == 10 then "0123456789" else "0123456789ABCDEF";
    assert Numeral(n % base, base)[0] == digits[n % base];
    if n >= base { NumeralIsPlain(n / base, base); }
  }

  lemma LowerDigits(s: Bytes)
    requires IsNumeral(s)
    ensures DigitCount(Lower(s)) == DigitCount(s)
    ensures forall i :: 0 <= i < |s| ==> Lower(s)[i] != '-' && Lower(s)[i] != '+' && Lower(s)[i] != 'x'
                                         && Lower(s)[i] != 'X' && s[i] != 'x' && s[i] != 'X'
  {
    forall i | 0 <= i < |s| ensures Lower(s)[i] != '-' && Lower(s)[i] != '+' && Lower(s)[i] != 'x' && Lower(s)[i] != 'X'
                                    && s[i] != 'x' && s[i] != 'X' && Lower(s)[i] != '_'
    {
      assert IsDigitChar(s[i]);
    }
    NumeralDigits(s);
    NoUnderscores(Lower(s));
  }

  lemma {:induction false} NoUnderscores(s: Bytes)
    requires '_' !in s
    ensures DigitCount(s) == |s|
    decreases |s|
  {
    if s != [] {
      assert s[0] in s && '_' !in s[1..];
      NoUnderscores(s[1..]);
    }
  }

  /** The prefix `0x` belongs to base 16 only. */
  lemma PrefixIsForHex(n: nat, x: char)
    requires x == 'x' || x == 'X'
    ensures ParseInt("0" + [x] + Hex(n), 16) == Some(n) && ParseInt("0" + [x] + Hex(n), 10) == None
  {
    var s := Hex(n);
    NumeralIsNumeral(n, 16);
    DigitsOfNumeral(n, 16);
    assert IsDigitChar(s[0]);
    var t := "0" + [x] + s;
    assert t[0] == '0' && t[1] == x && t[2] == s[0] && t[2..] == s && t[1..] == [x] + s;
    assert Digits([x] + s, 10, 0) == None;
    hide Numeral, DigitCount;
  }

  // ----- words -----

  /** `token` occurs in `s`. */
  ghost predicate Occurs(s: Bytes, token: Bytes) { exists k :: At(s, token, k) }

  lemma ContainsIsOccurrence(s: Bytes, token: Bytes)
    ensures Contains(s, token) <==> Occurs(s, token)
  {
    FindIsFirst(s, token, 0);
    if k :| At(s, token, k) { assert 0 <= k; }
  }

  /** Two words and the rest are taken apart again. */
  lemma WordsAreSplit(a: Bytes, b: Bytes, c: Bytes)
    requires ' ' !in a && ' ' !in b
    ensures SplitOn(a + " " + b + " " + c, ' ') == [a, b] + SplitOn(c, ' ')
  {
    hide SplitOn;
    var s, t := a + " " + b + " " + c, b + " " + c;
    assert s[|a|] == ' ' && s[..|a|] == a && s[|a| + 1..] == t;
    SplitAt(s, |a|);
    assert t[|b|] == ' ' && t[..|b|] == b && t[|b| + 1..] == c;
    SplitAt(t, |b|);
  }
}
