/** String helpers the library needs: lower-casing, substring search and integer formatting. */
module Text {

  /** `str.lower()` on one character; only the ASCII letters A-Z are mapped. */
  function LowerChar(c: char): char
  {
    if 'A' <= c <= 'Z' then (c as int - 'A' as int + 'a' as int) as char else c
  }

  /** `str.lower()` on a whole string, character by character. */
  function Lower(s: string): (r: string)
    ensures |r| == |s|
    ensures forall i :: 0 <= i < |s| ==> r[i] == LowerChar(s[i])
  {
    if s == [] then [] else [LowerChar(s[0])] + Lower(s[1..])
  }

  /** `q` occurs in `s` at offset `i`. */
  predicate OccursAt(q: string, s: string, i: int)
  {
    0 <= i && i + |q| <= |s| && s[i..i + |q|] == q
  }

  /** Python's `q in s` on strings: `q` is a substring of `s` (the empty string is in every string). */
  function Contains(s: string, q: string): (r: bool)
    ensures r <==> exists i :: OccursAt(q, s, i)
    decreases |s|
  {
    if |q| > |s| then
      assert forall i :: !OccursAt(q, s, i);
      false
    else if s[..|q|] == q then
      assert OccursAt(q, s, 0);
      true
    else
      var rest := Contains(s[1..], q);
      assert forall i :: OccursAt(q, s[1..], i) <==> OccursAt(q, s, i + 1) by {
        forall i ensures OccursAt(q, s[1..], i) <==> OccursAt(q, s, i + 1) {
          if 0 <= i && i + |q| <= |s| - 1 {
            assert s[1..][i..i + |q|] == s[i + 1..i + 1 + |q|];
          }
        }
      }
      assert rest ==> exists i :: OccursAt(q, s, i) by {
        if rest {
          var i :| OccursAt(q, s[1..], i);
          assert OccursAt(q, s, i + 1);
        }
      }
      assert (exists i :: OccursAt(q, s, i)) ==> rest by {
        if exists i :: OccursAt(q, s, i) {
          var i :| OccursAt(q, s, i);
          assert i != 0;
          assert OccursAt(q, s[1..], i - 1);
        }
      }
      rest
  }

  /** Decimal digits of a natural number, most significant first (`str(n)` for n >= 0). */
  function NatToString(n: nat): (r: string)
    ensures |r| > 0
    ensures forall i :: 0 <= i < |r| ==> '0' <= r[i] <= '9'
    decreases n
  {
    if n < 10 then [DigitChar(n)] else NatToString(n / 10) + [DigitChar(n % 10)]
  }

  function DigitChar(d: nat): char
    requires d < 10
  {
    (d + '0' as int) as char
  }

  /** Python's `str(n)` / f-string formatting of an integer: an optional minus sign and the digits. */
  function IntToString(n: int): (r: string)
    ensures |r| > 0
  {
    if n < 0 then "-" + NatToString(-n) else NatToString(n)
  }

  /** Reads back a string of decimal digits, least significant last. */
  function ParseNat(s: string): nat
  {
    if s == [] then 0
    else
      var d := s[|s| - 1] as int - '0' as int;
      ParseNat(s[..|s| - 1]) * 10 + (if 0 <= d < 10 then d else 0)
  }

  function ParseInt(s: string): int
  {
    if |s| > 0 && s[0] == '-' then 0 - ParseNat(s[1..]) as int else ParseNat(s) as int
  }

  lemma {:induction false} ParseNatToString(n: nat)
    ensures ParseNat(NatToString(n)) == n
    decreases n
  {
    var s := NatToString(n);
    if n < 10 {
      assert s[..|s| - 1] == [];
    } else {
      ParseNatToString(n / 10);
      assert s[..|s| - 1] == NatToString(n / 10);
    }
  }

  /** The formatted integer can be read back exactly, so a message that ends in `IntToString(n)` names `n`. */
  lemma ParseIntToString(n: int)
    ensures ParseInt(IntToString(n)) == n
  {
    if n < 0 {
      ParseNatToString(-n);
      assert IntToString(n)[1..] == NatToString(-n);
    } else {
      ParseNatToString(n);
    }
  }

  /** Formatting is injective: different ids give different strings. */
  lemma IntToStringInjective(m: int, n: int)
    requires IntToString(m) == IntToString(n)
    ensures m == n
  {
    ParseIntToString(m);
    ParseIntToString(n);
  }
}
