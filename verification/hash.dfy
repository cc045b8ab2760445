/**
 * The short-code generator of utils/hash.go: a code of six symbols, each
 * picked from a 62-symbol alphanumeric charset by one random draw.  The random
 * source is an oracle: the caller supplies the values `rand.Intn(len(charset))`
 * returned, in the order they were drawn.
 */
module Hash {

  const ShortURLLength: nat := 6
  const Charset: string := "abcdefghijklmnopqrstuvwxyzABCDEFGHIJKLMNOPQRSTUVWXYZ0123456789"

  /** The three character ranges the charset is made of. */
  const Lowercase: string := "abcdefghijklmnopqrstuvwxyz"
  const Uppercase: string := "ABCDEFGHIJKLMNOPQRSTUVWXYZ"
  const Digits: string := "0123456789"

  /** The symbol at charset position `i`, described by character ranges rather than by the literal. */
  function SymbolAt(i: nat): char
    requires i < 62
  {
    if i < 26 then ('a' as int + i) as char
    else if i < 52 then ('A' as int + (i - 26)) as char
    else ('0' as int + (i - 52)) as char
  }

  predicate IsAlphanumeric(c: char) {
    'a' <= c <= 'z' || 'A' <= c <= 'Z' || '0' <= c <= '9'
  }

  /** The position of an alphanumeric symbol in the charset, computed from its range. */
  function IndexOf(c: char): (i: nat)
    requires IsAlphanumeric(c)
    ensures i < 62 && SymbolAt(i) == c
  {
    if 'a' <= c <= 'z' then c as int - 'a' as int
    else if 'A' <= c <= 'Z' then 26 + (c as int - 'A' as int)
    else 52 + (c as int - '0' as int)
  }

  /** The charset is the 26 lower-case letters, then the 26 upper-case letters, then the 10 digits, each in order. */
  lemma CharsetLayout()
    ensures Charset == Lowercase + Uppercase + Digits
    ensures |Charset| == 62
    ensures forall i :: 0 <= i < |Charset| ==> Charset[i] == SymbolAt(i)
  {
    CharacterRanges();
    CharsetConcat();
    forall i | 0 <= i < |Charset| ensures Charset[i] == SymbolAt(i) {
      if i < 26 {
        assert Charset[i] == Lowercase[i];
      } else if i < 52 {
        assert Charset[i] == Uppercase[i - 26];
      } else {
        assert Charset[i] == Digits[i - 52];
      }
    }
  }

  /** The charset literal is the three range literals one after the other. */
  lemma CharsetConcat()
    ensures Charset == Lowercase + Uppercase + Digits
  {
  }

  /** Each of the three ranges lists consecutive characters. */
  lemma CharacterRanges()
    ensures |Lowercase| == 26 && forall i :: 0 <= i < |Lowercase| ==> Lowercase[i] as int == 'a' as int + i
    ensures |Uppercase| == 26 && forall i :: 0 <= i < |Uppercase| ==> Uppercase[i] as int == 'A' as int + i
    ensures |Digits| == 10 && forall i :: 0 <= i < |Digits| ==> Digits[i] as int == '0' as int + i
  {
  }

  /** Reading a symbol's position back from its range gives the position it was built from. */
  lemma IndexOfSymbolAt(i: nat)
    requires i < 62
    ensures IsAlphanumeric(SymbolAt(i)) && IndexOf(SymbolAt(i)) == i
  {
  }

  /** The charset holds exactly the alphanumeric characters, each once: 62 distinct symbols. */
  lemma CharsetAlphabet()
    ensures |Charset| == 62
    ensures forall i :: 0 <= i < |Charset| ==> IsAlphanumeric(Charset[i]) && IndexOf(Charset[i]) == i
    ensures forall i, j :: 0 <= i < j < |Charset| ==> Charset[i] != Charset[j]
    ensures forall c :: c in Charset <==> IsAlphanumeric(c)
  {
    CharsetLayout();
    forall i | 0 <= i < |Charset| ensures IsAlphanumeric(Charset[i]) && IndexOf(Charset[i]) == i {
      IndexOfSymbolAt(i);
    }
    forall c | IsAlphanumeric(c) ensures c in Charset {
      assert Charset[IndexOf(c)] == c;
    }
  }

  /** Six draws, each a value `rand.Intn(len(charset))` can return. */
  predicate ValidDraws(draws: seq<nat>) {
    |draws| == ShortURLLength && forall i :: 0 <= i < |draws| ==> draws[i] < |Charset|
  }

  /** A string the generator can produce: six charset symbols. */
  predicate IsShortCode(s: string) {
    |s| == ShortURLLength && forall i :: 0 <= i < |s| ==> s[i] in Charset
  }

  /** The code a sequence of draws selects: symbol `i` is the charset symbol at draw `i`. */
  function CodeOf(draws: seq<nat>): (s: string)
    requires forall i :: 0 <= i < |draws| ==> draws[i] < |Charset|
    ensures |s| == |draws| && forall i :: 0 <= i < |s| ==> s[i] in Charset
    ensures ValidDraws(draws) ==> IsShortCode(s)
  {
    seq(|draws|, i requires 0 <= i < |draws| => Charset[draws[i]])
  }

  /** The draws that select a code: the inverse of CodeOf. */
  function DrawsOf(s: string): (draws: seq<nat>)
    requires forall i :: 0 <= i < |s| ==> IsAlphanumeric(s[i])
  {
    seq(|s|, i requires 0 <= i < |s| => IndexOf(s[i]))
  }

  /** Every valid sequence of draws selects a short code, and the draws can be read back from it. */
  lemma DrawsOfCodeOf(draws: seq<nat>)
    requires ValidDraws(draws)
    ensures IsShortCode(CodeOf(draws))
    ensures forall i :: 0 <= i < ShortURLLength ==> IsAlphanumeric(CodeOf(draws)[i])
    ensures DrawsOf(CodeOf(draws)) == draws
  {
    CharsetAlphabet();
  }

  /** Every short code is selected by exactly the draws read back from it. */
  lemma CodeOfDrawsOf(s: string)
    requires IsShortCode(s)
    ensures forall i :: 0 <= i < |s| ==> IsAlphanumeric(s[i])
    ensures ValidDraws(DrawsOf(s))
    ensures CodeOf(DrawsOf(s)) == s
  {
    CharsetAlphabet();
    CharsetLayout();
  }

  /** Distinct draw sequences select distinct codes: with `CodeOfDrawsOf`, valid draws and short codes are in one-to-one correspondence. */
  lemma CodeOfInjective(d1: seq<nat>, d2: seq<nat>)
    requires ValidDraws(d1) && ValidDraws(d2)
    requires CodeOf(d1) == CodeOf(d2)
    ensures d1 == d2
  {
    DrawsOfCodeOf(d1);
    DrawsOfCodeOf(d2);
  }

  /**
   * GenerateShortURL fills a six-symbol buffer position by position, each from
   * one draw.  The draws are indices the random source returned, so indexing
   * the charset is always in bounds.
   */
  method GenerateShortURL(draws: seq<nat>) returns (shortURL: string)
    requires ValidDraws(draws)
    ensures |shortURL| == ShortURLLength
    ensures forall i :: 0 <= i < |shortURL| ==> shortURL[i] == Charset[draws[i]]
    ensures shortURL == CodeOf(draws) && IsShortCode(shortURL)
  {
    var buffer := new char[ShortURLLength];
    for i := 0 to buffer.Length
      invariant forall k :: 0 <= k < i ==> buffer[k] == Charset[draws[k]]
    {
      buffer[i] := Charset[draws[i]];
    }
    shortURL := buffer[..];
  }
}
