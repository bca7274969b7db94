/**
 * Short-code generation and validation, URL validation and URL truncation
 * (the helpers every request handler shares).
 */
module Utils {
  import opened Wrappers
  import opened JsStrings

  const UpperLetters: string := "ABCDEFGHIJKLMNOPQRSTUVWXYZ"
  const LowerLetters: string := "abcdefghijklmnopqrstuvwxyz"
  const Digits: string := "0123456789"

  /**
   * The 62 characters the code generator draws from: the literal
   * `ABCDEFGHIJKLMNOPQRSTUVWXYZabcdefghijklmnopqrstuvwxyz0123456789`,
   * written as its three runs.
   */
  const Alphabet: string := UpperLetters + LowerLetters + Digits

  /** Length of a generated code. */
  const CodeLength: nat := 7

  /** Shortest and longest code `isValidCode` accepts. */
  const MinCodeLength: nat := 6
  const MaxCodeLength: nat := 8

  /** Default `maxLength` of `truncateUrl`. */
  const DefaultMaxLength: int := 50

  /** The character class `[A-Za-z0-9]`. */
  predicate IsAlnum(c: char)
  {
    'A' <= c <= 'Z' || 'a' <= c <= 'z' || '0' <= c <= '9'
  }

  /** All characters of `s` are in `[A-Za-z0-9]`. */
  ghost predicate AllAlnum(s: string)
  {
    forall i :: 0 <= i < |s| ==> IsAlnum(s[i])
  }

  /**
   * The anchored pattern `^[A-Za-z0-9]{min,max}$`, matched one repetition of
   * the class at a time, with the bounds counting down.
   */
  function MatchesAlnumRun(s: string, min: nat, max: nat): (r: bool)
    ensures r <==> min <= |s| <= max && AllAlnum(s)
  {
    if s == [] then min == 0
    else max > 0 && IsAlnum(s[0]) && MatchesAlnumRun(s[1..], if min == 0 then 0 else min - 1, max - 1)
  }

  /** `isValidCode`: the pattern `^[A-Za-z0-9]{6,8}$`. */
  predicate IsValidCode(code: string)
    ensures IsValidCode(code) <==> MinCodeLength <= |code| <= MaxCodeLength && AllAlnum(code)
  {
    MatchesAlnumRun(code, MinCodeLength, MaxCodeLength)
  }

  /** Position of an alphanumeric character in `Alphabet`. */
  function AlphabetIndex(c: char): (k: nat)
    requires IsAlnum(c)
    ensures k < |Alphabet| && Alphabet[k] == c
  {
    AlphabetLayout();
    if 'A' <= c <= 'Z' then c as int - 'A' as int
    else if 'a' <= c <= 'z' then 26 + (c as int - 'a' as int)
    else 52 + (c as int - '0' as int)
  }

  /** The `n` characters from `first` upwards. */
  function CharRange(first: char, n: nat): (r: string)
    requires first as int + n <= 0xD800
  {
    seq(n, i requires 0 <= i < n => (first as int + i) as char)
  }

  lemma UpperLettersRange() ensures UpperLetters == CharRange('A', 26) {}
  lemma LowerLettersRange() ensures LowerLetters == CharRange('a', 26) {}
  lemma DigitsRange() ensures Digits == CharRange('0', 10) {}

  /** `Alphabet` is the upper-case letters, then the lower-case letters, then the digits. */
  lemma AlphabetLayout()
    ensures Alphabet == CharRange('A', 26) + CharRange('a', 26) + CharRange('0', 10)
  {
    UpperLettersRange();
    LowerLettersRange();
    DigitsRange();
  }

  /** Each alphabet character is a letter or digit whose position is its index. */
  lemma AlphabetAt(i: int)
    requires 0 <= i < |Alphabet|
    ensures IsAlnum(Alphabet[i]) && AlphabetIndex(Alphabet[i]) == i
  {
    AlphabetLayout();
    var upper, lower, digits := CharRange('A', 26), CharRange('a', 26), CharRange('0', 10);
    if i < 26 {
      assert Alphabet[i] == upper[i];
    } else if i < 52 {
      assert Alphabet[i] == lower[i - 26];
    } else {
      assert Alphabet[i] == digits[i - 52];
    }
  }

  /** Every one of the 62 alphabet characters is an ASCII letter or digit. */
  lemma AlphabetAlnum()
    ensures |Alphabet| == 62 && forall i :: 0 <= i < |Alphabet| ==> IsAlnum(Alphabet[i])
  {
    forall i | 0 <= i < |Alphabet| ensures IsAlnum(Alphabet[i]) {
      AlphabetAt(i);
    }
  }

  /**
   * `Alphabet` holds 62 distinct characters, and a character is in it exactly
   * when it is an ASCII letter or digit.
   */
  lemma AlphabetIsAlnumClass()
    ensures |Alphabet| == 62
    ensures forall i, j :: 0 <= i < j < |Alphabet| ==> Alphabet[i] != Alphabet[j]
    ensures forall c :: c in Alphabet <==> IsAlnum(c)
  {
    AlphabetLayout();
    forall i, j | 0 <= i < j < |Alphabet| ensures Alphabet[i] != Alphabet[j] {
      AlphabetAt(i);
      AlphabetAt(j);
    }
    forall c | c in Alphabet ensures IsAlnum(c) {
      var i :| 0 <= i < |Alphabet| && Alphabet[i] == c;
      AlphabetAt(i);
    }
    forall c | IsAlnum(c) ensures c in Alphabet {
      var k := AlphabetIndex(c);
    }
  }

  /** The randomness of the generator, abstracted: one alphabet index per character. */
  predicate ValidPicks(picks: seq<int>)
  {
    |picks| == CodeLength && forall i :: 0 <= i < |picks| ==> 0 <= picks[i] < |Alphabet|
  }

  /**
   * `generateCode`: seven characters of `Alphabet`, the `i`-th chosen by
   * `picks[i]`. Every code it returns passes `isValidCode`.
   */
  function GenerateCode(picks: seq<int>): (code: string)
    requires ValidPicks(picks)
    ensures |code| == CodeLength
    ensures IsValidCode(code)
  {
    AlphabetAlnum();
    seq(CodeLength, i requires 0 <= i < CodeLength => Alphabet[picks[i]])
  }

  /** The picks that produce an alphanumeric string. */
  function PicksOf(code: string): (picks: seq<int>)
    requires AllAlnum(code)
  {
    seq(|code|, i requires 0 <= i < |code| => AlphabetIndex(code[i]))
  }

  /**
   * The generator is a bijection between the picks and the seven-character
   * alphanumeric strings: different picks give different codes, and every
   * such string is generated by some picks.
   */
  lemma GenerateCodeBijective(picks: seq<int>, code: string)
    requires ValidPicks(picks)
    ensures AllAlnum(GenerateCode(picks)) && PicksOf(GenerateCode(picks)) == picks
    ensures |code| == CodeLength && AllAlnum(code) ==> ValidPicks(PicksOf(code)) && GenerateCode(PicksOf(code)) == code
  {
    AlphabetIsAlnumClass();
    var g := GenerateCode(picks);
    forall i | 0 <= i < CodeLength ensures AlphabetIndex(g[i]) == picks[i] {
      var k := AlphabetIndex(g[i]);
      assert Alphabet[k] == Alphabet[picks[i]];
    }
  }

  /** What `new URL(url)` reports: its protocol, or `None` when the constructor throws. */
  type UrlParser = string -> Option<string>

  /** `isValidUrl`: the URL parses and its protocol is `http:` or `https:`. */
  predicate IsValidUrl(url: string, parse: UrlParser)
    ensures IsValidUrl(url, parse) <==> parse(url) == Some("http:") || parse(url) == Some("https:")
  {
    match parse(url)
    case None => false
    case Some(protocol) => protocol == "http:" || protocol == "https:"
  }

  /** `truncateUrl(url, maxLength)`: cut to `maxLength` characters and mark the cut with `...`. */
  function TruncateUrl(url: string, maxLength: int): (r: string)
    ensures |url| <= maxLength ==> r == url
    ensures |url| > maxLength && maxLength >= 0 ==>
              |r| == maxLength + 3 && r[..maxLength] == url[..maxLength] && r[maxLength..] == "..."
    ensures maxLength < 0 ==> r == "..."
  {
    if |url| <= maxLength then url else Prefix(url, maxLength) + "..."
  }

  /** Truncating an already truncated URL with the same bound changes nothing. */
  lemma TruncateUrlIdempotent(url: string, maxLength: int)
    ensures TruncateUrl(TruncateUrl(url, maxLength), maxLength) == TruncateUrl(url, maxLength)
  {
  }
}
