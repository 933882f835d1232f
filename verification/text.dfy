/** The string built-ins the catalog query relies on: lower-casing
    (`toLowerCase`), substring search (`includes`) and the decimal text of a
    whole-number price (`Number.prototype.toString`), together with the
    parsing that reads a typed price back (`parseFloat` on integer text). */
module Text {

  import opened Types

  /** Lower-cases one character. Only the ASCII letters A-Z are mapped. */
  function LowerChar(c: char): char
  {
    if 'A' <= c <= 'Z' then (c as int - 'A' as int + 'a' as int) as char else c
  }

  /** `s.toLowerCase()`, character by character: each upper-case ASCII letter
      becomes its lower-case letter, every other character is kept. */
  function Lower(s: string): (r: string)
    ensures |r| == |s|
    ensures forall i :: 0 <= i < |s| ==> !('A' <= r[i] <= 'Z')
    ensures forall i :: 0 <= i < |s| && !('A' <= s[i] <= 'Z') ==> r[i] == s[i]
    ensures forall i :: 0 <= i < |s| && 'A' <= s[i] <= 'Z' ==> r[i] as int == s[i] as int + 32
  {
    seq(|s|, i requires 0 <= i < |s| => LowerChar(s[i]))
  }

  /** Lower-casing is idempotent. */
  lemma LowerIdempotent(s: string)
    ensures Lower(Lower(s)) == Lower(s)
  {
  }

  /** `q` is a prefix of `s`. */
  predicate StartsWith(s: string, q: string)
  {
    |q| <= |s| && s[..|q|] == q
  }

  /** `s.includes(q)`: `q` occurs somewhere in `s`. The empty query occurs
      in every string; a query longer than the string occurs in none. */
  predicate Includes(s: string, q: string): (r: bool)
    ensures q == "" ==> r
    ensures r ==> |q| <= |s|
    decreases |s|
  {
    StartsWith(s, q) || (|s| > 0 && Includes(s[1..], q))
  }

  /** `q` occurs in `s` starting at position `i`. */
  ghost predicate OccursAt(s: string, q: string, i: int)
  {
    0 <= i && i + |q| <= |s| && s[i..i + |q|] == q
  }

  /** `Includes` is exactly "occurs at some position". */
  lemma {:induction false} IncludesIff(s: string, q: string)
    ensures Includes(s, q) <==> exists i :: OccursAt(s, q, i)
  {
    if Includes(s, q) {
      if StartsWith(s, q) {
        assert OccursAt(s, q, 0);
      } else {
        IncludesIff(s[1..], q);
        var j :| OccursAt(s[1..], q, j);
        assert s[1..][j..j + |q|] == s[j + 1..j + 1 + |q|];
        assert OccursAt(s, q, j + 1);
      }
    }
    if exists i :: OccursAt(s, q, i) {
      var i :| OccursAt(s, q, i);
      if i == 0 {
        assert StartsWith(s, q);
      } else {
        assert s[1..][i - 1..i - 1 + |q|] == s[i..i + |q|];
        assert OccursAt(s[1..], q, i - 1);
        IncludesIff(s[1..], q);
      }
    }
  }

  /** Every string contains itself. */
  lemma IncludesSelf(s: string)
    ensures Includes(s, s)
  {
  }

  /** A decimal digit character. */
  predicate IsDigit(c: char)
  {
    '0' <= c <= '9'
  }

  /** The digit character of `d`. */
  function DigitChar(d: int): char
    requires 0 <= d < 10
  {
    ('0' as int + d) as char
  }

  /** The value of a digit character. */
  function DigitValue(c: char): int
    requires IsDigit(c)
  {
    c as int - '0' as int
  }

  /** A string of decimal digits with no superfluous leading zero. */
  predicate IsCanonicalDigits(s: string)
  {
    |s| >= 1 && (forall i :: 0 <= i < |s| ==> IsDigit(s[i])) && (s[0] == '0' ==> |s| == 1)
  }

  /** The decimal text of a natural number: non-empty digits without leading zeros. */
  function NatToString(n: nat): (r: string)
    ensures IsCanonicalDigits(r)
    ensures n < 10 <==> |r| == 1
    decreases n
  {
    if n < 10 then [DigitChar(n)] else NatToString(n / 10) + [DigitChar(n % 10)]
  }

  /** The value of a string of decimal digits. */
  function ParseDigits(s: string): nat
    requires |s| >= 1 && forall i :: 0 <= i < |s| ==> IsDigit(s[i])
    decreases |s|
  {
    if |s| == 1 then DigitValue(s[0]) else 10 * ParseDigits(s[..|s| - 1]) + DigitValue(s[|s| - 1])
  }

  /** Reading back the decimal text of a natural number gives the number. */
  lemma {:induction false} ParseNatToString(n: nat)
    ensures ParseDigits(NatToString(n)) == n
    decreases n
  {
    if n >= 10 {
      var front := NatToString(n / 10);
      var r := front + [DigitChar(n % 10)];
      assert r[..|r| - 1] == front;
      ParseNatToString(n / 10);
    }
  }

  /** `n.toString()` for a whole number: a minus sign before the digits of a negative number. */
  function IntToString(n: int): (r: string)
    ensures |r| >= 1
    ensures r[0] == '-' <==> n < 0
  {
    if n < 0 then "-" + NatToString(-n) else NatToString(n)
  }

  /** Reads the text typed into a price field as a whole number; `None` when
      the text is not an optional minus sign followed by decimal digits. */
  function ParseInt(s: string): (r: Option<int>)
    ensures r.Some? ==> |s| >= 1 && forall i :: 0 <= i < |s| ==> IsDigit(s[i]) || (i == 0 && s[i] == '-')
    ensures r.Some? && r.value < 0 ==> s[0] == '-'
    ensures (|s| >= 1 && forall i :: 0 <= i < |s| ==> IsDigit(s[i])) ==> r.Some? && r.value >= 0
  {
    if |s| >= 2 && s[0] == '-' && (forall i :: 1 <= i < |s| ==> IsDigit(s[i])) then Some(0 - ParseDigits(s[1..]))
    else if |s| >= 1 && (forall i :: 0 <= i < |s| ==> IsDigit(s[i])) then Some(ParseDigits(s))
    else None
  }

  /** Reading back the text of a whole number gives the number: the edit
      field's displayed price and its parse agree. */
  lemma ParseIntToString(n: int)
    ensures ParseInt(IntToString(n)) == Some(n)
  {
    if n < 0 {
      var digits := NatToString(-n);
      assert IntToString(n)[1..] == digits;
      ParseNatToString(-n);
    } else {
      ParseNatToString(n);
    }
  }

  /** Each character of a query that occurs in `s` is a character of `s`. */
  lemma {:induction false} IncludesChar(s: string, q: string, k: nat)
    requires k < |q|
    ensures Includes(s, q) ==> q[k] in s
    decreases |s|
  {
    if StartsWith(s, q) {
      assert s[k] == q[k];
    } else if |s| > 0 {
      IncludesChar(s[1..], q, k);
      assert forall c :: c in s[1..] ==> c in s;
    }
  }

  /** A whole number's text consists of digits and at most a leading minus sign. */
  lemma IntToStringChars(n: int)
    ensures forall c :: c in IntToString(n) ==> c == '-' || IsDigit(c)
  {
  }

  /** A whole number's text holds no letters, so a query with a letter in it
      never matches a price. */
  lemma IntToStringHasNoLetters(n: int, q: string, k: nat)
    requires k < |q| && 'a' <= q[k] <= 'z'
    ensures !Includes(IntToString(n), q)
  {
    IncludesChar(IntToString(n), q, k);
    IntToStringChars(n);
  }
}
