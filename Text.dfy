/**
 * Character and string helpers shared by the storefront script (`toLowerCase`,
 * `includes`, `join`) and by the product-URL builder (`lower`, `str` of an int).
 */
module Text {

  predicate IsAscii(s: string) {
    forall i :: 0 <= i < |s| ==> s[i] < '\U{80}'
  }

  lemma AsciiAppend(a: string, b: string)
    requires IsAscii(a) && IsAscii(b)
    ensures IsAscii(a + b)
  {
    assert forall i :: |a| <= i < |a + b| ==> (a + b)[i] == b[i - |a|];
  }

  predicate IsAsciiUpper(c: char) { 'A' <= c <= 'Z' }

  /** The upper-case letters of Latin-1: U+00C0 to U+00DE without the sign U+00D7. */
  predicate IsLatin1Upper(c: char) { 'À' <= c <= 'Þ' && c != '×' }

  predicate IsUpper(c: char) { IsAsciiUpper(c) || IsLatin1Upper(c) }

  /** Lower-case mapping of one character; both ranges lower by adding 0x20. */
  function LowerChar(c: char): (r: char)
    ensures !IsUpper(r)
    ensures (r < '\U{80}') == (c < '\U{80}')
    ensures !IsUpper(c) ==> r == c
  {
    if IsUpper(c) then (c as int + 32) as char else c
  }

  /** `toLowerCase()` / `lower()`, character by character. */
  function ToLower(s: string): (r: string)
    ensures |r| == |s|
    ensures forall i :: 0 <= i < |s| ==> r[i] == LowerChar(s[i])
    ensures forall i :: 0 <= i < |r| ==> !IsUpper(r[i])
    ensures IsAscii(s) ==> IsAscii(r)
  {
    seq(|s|, i requires 0 <= i < |s| => LowerChar(s[i]))
  }

  /**
   * The reference table: each upper-case letter of ASCII and of Latin-1
   * becomes its own lower-case form; the sign `×` and the letter `ß` stay as
   * they are.
   */
  lemma LowerAsciiLetters()
    ensures LowerChar('A') == 'a' && LowerChar('B') == 'b' && LowerChar('C') == 'c' && LowerChar('D') == 'd' && LowerChar('E') == 'e' &&
            LowerChar('F') == 'f' && LowerChar('G') == 'g' && LowerChar('H') == 'h' && LowerChar('I') == 'i' && LowerChar('J') == 'j' &&
            LowerChar('K') == 'k' && LowerChar('L') == 'l' && LowerChar('M') == 'm'
    ensures LowerChar('N') == 'n' && LowerChar('O') == 'o' && LowerChar('P') == 'p' && LowerChar('Q') == 'q' && LowerChar('R') == 'r' &&
            LowerChar('S') == 's' && LowerChar('T') == 't' && LowerChar('U') == 'u' && LowerChar('V') == 'v' && LowerChar('W') == 'w' &&
            LowerChar('X') == 'x' && LowerChar('Y') == 'y' && LowerChar('Z') == 'z'
  {
  }

  /** The same for the Latin-1 letters, which lower by the same offset. */
  lemma LowerLatin1Letters()
    ensures LowerChar('À') == 'à' && LowerChar('Á') == 'á' && LowerChar('Â') == 'â' && LowerChar('Ã') == 'ã' && LowerChar('Ä') == 'ä' &&
            LowerChar('Å') == 'å' && LowerChar('Æ') == 'æ' && LowerChar('Ç') == 'ç' && LowerChar('È') == 'è' && LowerChar('É') == 'é' &&
            LowerChar('Ê') == 'ê' && LowerChar('Ë') == 'ë' && LowerChar('Ì') == 'ì' && LowerChar('Í') == 'í' && LowerChar('Î') == 'î'
    ensures LowerChar('Ï') == 'ï' && LowerChar('Ð') == 'ð' && LowerChar('Ñ') == 'ñ' && LowerChar('Ò') == 'ò' && LowerChar('Ó') == 'ó' &&
            LowerChar('Ô') == 'ô' && LowerChar('Õ') == 'õ' && LowerChar('Ö') == 'ö' && LowerChar('Ø') == 'ø' && LowerChar('Ù') == 'ù' &&
            LowerChar('Ú') == 'ú' && LowerChar('Û') == 'û' && LowerChar('Ü') == 'ü' && LowerChar('Ý') == 'ý' && LowerChar('Þ') == 'þ'
    ensures LowerChar('×') == '×' && LowerChar('ß') == 'ß'
  {
  }

  lemma LowerExample()
    ensures ToLower("ÄPPLE Öl") == "äpple öl"
  {
  }

  /** Lower-casing twice is lower-casing once. */
  lemma LowerIdempotent(s: string)
    ensures ToLower(ToLower(s)) == ToLower(s)
  {
    LowerOfLower(ToLower(s));
  }

  /** A string without upper-case letters is its own lower-case form. */
  lemma LowerOfLower(s: string)
    requires forall i :: 0 <= i < |s| ==> !IsUpper(s[i])
    ensures ToLower(s) == s
  {
  }

  lemma LowerSlice(s: string, i: nat, j: nat)
    requires i <= j <= |s|
    ensures ToLower(s)[i..j] == ToLower(s[i..j])
  {
  }

  /** `t` occurs in `s` starting at index `i`. */
  predicate OccursAt(t: string, s: string, i: int) {
    0 <= i && i + |t| <= |s| && s[i..i + |t|] == t
  }

  /** `s.includes(t)`: `t` occurs in `s` as a contiguous run. */
  predicate IsSubstring(t: string, s: string) {
    exists i | 0 <= i <= |s| :: OccursAt(t, s, i)
  }

  lemma SubstringAt(t: string, s: string, i: nat)
    requires OccursAt(t, s, i)
    ensures IsSubstring(t, s)
  {
  }

  /** A term holding a character that the text lacks does not occur in it. */
  lemma MissingCharNotSubstring(t: string, s: string, k: nat)
    requires k < |t| && t[k] !in s
    ensures !IsSubstring(t, s)
  {
    forall i | 0 <= i <= |s|
      ensures !OccursAt(t, s, i)
    {
      if i + |t| <= |s| {
        assert s[i..i + |t|][k] == s[i + k] && s[i + k] in s;
      }
    }
  }

  /** Occurrence is transitive: a run of a run of `c` is a run of `c`. */
  lemma SubstringTransitive(a: string, b: string, c: string)
    requires IsSubstring(a, b) && IsSubstring(b, c)
    ensures IsSubstring(a, c)
  {
    var i: int :| OccursAt(a, b, i);
    assert OccursAt(a, b, i);
    var j: int :| OccursAt(b, c, j);
    assert OccursAt(b, c, j);
    forall k | 0 <= k < |a|
      ensures c[j + i + k] == a[k]
    {
      assert a[k] == b[i + k] == c[j + i + k];
    }
    assert c[j + i..j + i + |a|] == a;
    SubstringAt(a, c, j + i);
  }

  /** Lower-casing keeps every occurrence. */
  lemma SubstringLower(t: string, s: string)
    requires IsSubstring(t, s)
    ensures IsSubstring(ToLower(t), ToLower(s))
  {
    var i: int :| OccursAt(t, s, i);
    assert OccursAt(t, s, i);
    LowerSlice(s, i, i + |t|);
    SubstringAt(ToLower(t), ToLower(s), i);
  }

  /** `parts.join(sep)`. */
  function Join(parts: seq<string>, sep: string): (r: string)
    ensures parts == [] ==> r == ""
  {
    if |parts| == 0 then ""
    else if |parts| == 1 then parts[0]
    else parts[0] + sep + Join(parts[1..], sep)
  }

  /** Every joined part occurs in the joined text. */
  lemma {:induction false} JoinContainsPart(parts: seq<string>, sep: string, k: nat)
    requires k < |parts|
    ensures IsSubstring(parts[k], Join(parts, sep))
  {
    if |parts| == 1 {
      SubstringAt(parts[0], parts[0], 0);
    } else {
      var rest := Join(parts[1..], sep);
      assert Join(parts, sep) == parts[0] + (sep + rest);
      if k == 0 {
        assert (parts[0] + (sep + rest))[0..|parts[0]|] == parts[0];
        SubstringAt(parts[0], Join(parts, sep), 0);
      } else {
        JoinContainsPart(parts[1..], sep, k - 1);
        var off := |parts[0] + sep|;
        assert (parts[0] + sep) + rest == Join(parts, sep);
        assert IsSubstring(rest, Join(parts, sep)) by {
          assert Join(parts, sep)[off..off + |rest|] == rest;
          SubstringAt(rest, Join(parts, sep), off);
        }
        SubstringTransitive(parts[k], rest, Join(parts, sep));
      }
    }
  }

  predicate IsDigit(c: char) { '0' <= c <= '9' }

  predicate AllDigits(s: string) {
    forall i :: 0 <= i < |s| ==> IsDigit(s[i])
  }

  function DigitChar(d: nat): (c: char)
    requires d < 10
    ensures IsDigit(c) && c as int - '0' as int == d
  {
    ('0' as int + d) as char
  }

  /** The value of a string of decimal digits, most significant first. */
  function DigitsValue(ds: string): nat
    requires AllDigits(ds)
  {
    if |ds| == 0 then 0
    else DigitsValue(ds[..|ds| - 1]) * 10 + (ds[|ds| - 1] as int - '0' as int)
  }

  /** Decimal text of a natural number, without leading zeros. */
  function NatText(n: nat): (r: string)
    ensures |r| > 0 && AllDigits(r)
    ensures r[0] == '0' ==> n == 0
  {
    if n < 10 then [DigitChar(n)] else NatText(n / 10) + [DigitChar(n % 10)]
  }

  /** Reading back the decimal text gives the number. */
  lemma {:induction false} NatTextRoundTrip(n: nat)
    ensures DigitsValue(NatText(n)) == n
  {
    if n >= 10 {
      var a := NatText(n / 10);
      var t := a + [DigitChar(n % 10)];
      assert t[..|t| - 1] == a;
      NatTextRoundTrip(n / 10);
    }
  }

  /** Python's `str()` of an int. */
  function IntText(i: int): (r: string)
    ensures IsAscii(r) && |r| > 0
    ensures (r[0] == '-') == (i < 0)
  {
    if i < 0 then "-" + NatText(-i) else NatText(i)
  }
}
