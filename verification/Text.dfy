/** Strings as the client handles them: decimal numerals, trimming, searching and joining. */
module Text {

  function Digit(n: nat): char
    requires n < 10
  {
    "0123456789"[n]
  }

  /** The decimal numeral of a number, as string formatting writes it. */
  function Decimal(n: nat): string {
    if n < 10 then [Digit(n)] else Decimal(n / 10) + [Digit(n % 10)]
  }

  predicate IsDigit(c: char) {
    '0' <= c <= '9'
  }

  lemma {:induction false} DecimalDigits(n: nat)
    ensures Decimal(n) != "" && forall i :: 0 <= i < |Decimal(n)| ==> IsDigit(Decimal(n)[i])
  {
    if n >= 10 {
      DecimalDigits(n / 10);
    }
  }

  /** A numeral ends in its last digit, and is a single digit exactly for the numbers below ten. */
  lemma DecimalLast(n: nat)
    ensures Decimal(n) != "" && Decimal(n)[|Decimal(n)| - 1] == Digit(n % 10)
    ensures |Decimal(n)| == 1 <==> n < 10
  {
    if n >= 10 {
      DecimalDigits(n / 10);
    }
  }

  lemma DigitInjective(a: nat, b: nat)
    requires a < 10 && b < 10
    ensures Digit(a) == Digit(b) ==> a == b
  {
  }

  lemma {:induction false} DecimalInjective(a: nat, b: nat)
    ensures Decimal(a) == Decimal(b) ==> a == b
  {
    DecimalLast(a);
    DecimalLast(b);
    DigitInjective(a % 10, b % 10);
    hide Digit;
    if Decimal(a) == Decimal(b) && a >= 10 && b >= 10 {
      var s := Decimal(a);
      assert Decimal(a / 10) == s[..|s| - 1] == Decimal(b / 10);
      DecimalInjective(a / 10, b / 10);
    }
  }

  /** The number that a numeral of digits stands for. */
  function NumberOf(s: string): int {
    if s == "" then 0 else 10 * NumberOf(s[..|s| - 1]) + (s[|s| - 1] as int - '0' as int)
  }

  lemma DigitIs(n: nat)
    requires n < 10
    ensures Digit(n) as int - '0' as int == n
  {
    assert "0123456789"[n] as int == '0' as int + n;
  }

  /** The decimal numeral of a number stands for that number, and has no needless zero in front. */
  lemma {:induction false} DecimalReads(n: nat)
    ensures NumberOf(Decimal(n)) == n
    ensures Decimal(n) != "" && (n > 0 ==> Decimal(n)[0] != '0')
  {
    DigitIs(n % 10);
    if n < 10 {
      assert Decimal(n)[..0] == "";
    } else {
      DecimalReads(n / 10);
      var s := Decimal(n);
      assert s[..|s| - 1] == Decimal(n / 10);
    }
  }

  predicate IsSpace(c: char) {
    c in " \t\n\r"
  }

  function StripLeft(s: string): (r: string)
    ensures |r| <= |s|
  {
    if s != "" && IsSpace(s[0]) then StripLeft(s[1..]) else s
  }

  function StripRight(s: string): (r: string)
    ensures |r| <= |s|
  {
    if s != "" && IsSpace(s[|s| - 1]) then StripRight(s[..|s| - 1]) else s
  }

  /** `s.strip()`. */
  function Strip(s: string): (r: string)
    ensures |r| <= |s|
  {
    StripRight(StripLeft(s))
  }

  /** Blanks, tabs, line feeds and carriage returns at both ends are taken off, and nothing else. */
  lemma StripsBlanks(left: string, s: string, right: string)
    requires forall i :: 0 <= i < |left| ==> left[i] in [' ', '\t', '\n', '\r']
    requires forall i :: 0 <= i < |right| ==> right[i] in [' ', '\t', '\n', '\r']
    requires s != "" && s[0] !in [' ', '\t', '\n', '\r'] && s[|s| - 1] !in [' ', '\t', '\n', '\r']
    ensures Strip(left + s + right) == s
  {
    StripsLeft(left, s + right);
    assert left + s + right == left + (s + right);
    StripsRight(s, right);
  }

  lemma {:induction false} StripsLeft(left: string, s: string)
    requires forall i :: 0 <= i < |left| ==> left[i] in [' ', '\t', '\n', '\r']
    requires s != "" && s[0] !in [' ', '\t', '\n', '\r']
    ensures StripLeft(left + s) == s
  {
    if left == "" {
      assert left + s == s;
    } else {
      assert (left + s)[1..] == left[1..] + s;
      StripsLeft(left[1..], s);
    }
  }

  lemma {:induction false} StripsRight(s: string, right: string)
    requires forall i :: 0 <= i < |right| ==> right[i] in [' ', '\t', '\n', '\r']
    requires s != "" && s[|s| - 1] !in [' ', '\t', '\n', '\r']
    ensures StripRight(s + right) == s
    decreases |right|
  {
    if right == "" {
      assert s + right == s;
    } else {
      assert (s + right)[..|s + right| - 1] == s + right[..|right| - 1];
      StripsRight(s, right[..|right| - 1]);
    }
  }

  /** `s[from:-back]`. */
  function Slice(s: string, from: nat, back: nat): (r: string)
    ensures |r| <= |s|
    ensures from > 0 && s != "" ==> |r| < |s|
  {
    if from + back >= |s| then "" else s[from..|s| - back]
  }

  /** `", ".join(parts)`. */
  function Join(parts: seq<string>): string {
    if parts == [] then ""
    else if |parts| == 1 then parts[0]
    else parts[0] + ", " + Join(parts[1..])
  }

  predicate OccursAt(s: string, word: string, i: int) {
    0 <= i <= |s| - |word| && s[i..i + |word|] == word
  }

  /** `word in s`. */
  predicate Contains(s: string, word: string) {
    exists i :: 0 <= i <= |s| && OccursAt(s, word, i)
  }

  lemma OccursInPart(s: string, from: nat, part: string, word: string, i: nat)
    requires from + |part| <= |s| && s[from..from + |part|] == part && i + |word| <= |part|
    ensures OccursAt(part, word, i) <==> OccursAt(s, word, from + i)
  {
    assert forall k :: i <= k < i + |word| ==> part[k] == s[from + k];
    assert part[i..i + |word|] == s[from + i..from + i + |word|];
  }

  /** An occurrence cannot reach across a character that the word does not have. */
  lemma ContainsAcross(a: string, c: char, b: string, word: string)
    requires c !in word && word != ""
    ensures Contains(a + [c] + b, word) <==> Contains(a, word) || Contains(b, word)
  {
    var s := a + [c] + b;
    assert s[0..|a|] == a && s[|a| + 1..|a| + 1 + |b|] == b;
    hide Contains;
    if i: int :| 0 <= i <= |a| && OccursAt(a, word, i) {
      OccursInPart(s, 0, a, word, i);
      ContainsAt(a, word, i);
      ContainsAt(s, word, i);
    } else if i: int :| 0 <= i <= |b| && OccursAt(b, word, i) {
      OccursInPart(s, |a| + 1, b, word, i);
      ContainsAt(b, word, i);
      ContainsAt(s, word, |a| + 1 + i);
    } else {
      NowhereAcross(a, c, b, word);
      ContainsNowhere(a, word);
      ContainsNowhere(b, word);
      ContainsNowhere(s, word);
    }
  }

  lemma NowhereAcross(a: string, c: char, b: string, word: string)
    requires c !in word && word != ""
    requires forall i :: 0 <= i <= |a| ==> !OccursAt(a, word, i)
    requires forall i :: 0 <= i <= |b| ==> !OccursAt(b, word, i)
    ensures forall i :: 0 <= i <= |a + [c] + b| ==> !OccursAt(a + [c] + b, word, i)
  {
    var s, n := a + [c] + b, |word|;
    assert s[0..|a|] == a && s[|a| + 1..|a| + 1 + |b|] == b && s[|a|] == c;
    forall i | 0 <= i <= |s| ensures !OccursAt(s, word, i) {
      if i + n <= |a| {
        OccursInPart(s, 0, a, word, i);
      } else if |a| < i && i + n <= |s| {
        OccursInPart(s, |a| + 1, b, word, i - |a| - 1);
      } else if i + n <= |s| {
        assert s[i..i + n][|a| - i] == c;
      }
    }
  }

  lemma ContainsAt(s: string, word: string, i: nat)
    requires OccursAt(s, word, i)
    ensures Contains(s, word)
  {
  }

  lemma ContainsNowhere(s: string, word: string)
    requires forall i :: 0 <= i <= |s| ==> !OccursAt(s, word, i)
    ensures !Contains(s, word)
  {
  }

  lemma ContainsNot(s: string, word: string)
    requires word != "" && word[0] !in s
    ensures !Contains(s, word)
  {
    forall i | 0 <= i <= |s| ensures !OccursAt(s, word, i) {
      if i + |word| <= |s| {
        assert s[i] in s && s[i..i + |word|][0] == s[i];
      }
    }
  }

  lemma StripTrimmed(s: string)
    requires s != "" && !IsSpace(s[0]) && !IsSpace(s[|s| - 1])
    ensures Strip(s) == s && Strip(" " + s) == s
  {
    assert (" " + s)[1..] == s;
  }
}
