/** The two key generators of src/lib/utils.ts.

    `genRandomCode` builds the email verification code and `genApiKey` the
    API key. Both run a counted loop that appends one piece per iteration to a
    local accumulator. Each piece comes from one call of
    `Math.floor(Math.random() * n)`. Here the random source is an oracle: the
    sequence `draws` of the natural numbers those calls return, in call order.
    Each method is proved equal to a recursive function that appends the same
    pieces (`CodeOf`, `ApiKeyOf`). The lemmas then relate those functions to
    independent reference definitions (`DigitsFrom`, `KeyFrom`) and to their
    inverses (`DigitsOf`, `IndicesOf`).

    The functions do not assume the draws are in range. A draw of 10 or more
    (below 10^21, where `toString()` still prints plain decimal digits) turns
    into several digits through `toString()`, and an index of 62 or more
    makes `charAt` return "". The lemmas say exactly when the output has the
    promised length. */
module Utils {
  import Schema

  /** genRandomCode runs its loop 6 times. */
  const CodeLength: nat := 6
  /** Each code draw is `Math.floor(Math.random() * 10)`, so it lies in [0, 10). */
  const DigitRange: nat := 10
  /** genApiKey runs its loop 32 times. */
  const ApiKeyLength: nat := 32
  /** The `characters` string of genApiKey, as written in the source. */
  const Characters: string := "ABCDEFGHIJKLMNOPQRSTUVWXYZabcdefghijklmnopqrstuvwxyz0123456789"
  /** `charactersLength`: each key draw lies in [0, CharactersLength). */
  const CharactersLength: nat := |Characters|

  // The three runs of `Characters`; used only to prove the alphabet's layout.
  const Upper: string := "ABCDEFGHIJKLMNOPQRSTUVWXYZ"
  const Lower: string := "abcdefghijklmnopqrstuvwxyz"
  const Digits: string := "0123456789"

  predicate AllBelow(draws: seq<nat>, n: nat) {
    forall k :: 0 <= k < |draws| ==> draws[k] < n
  }

  // ---------------------------------------------------------------------
  // Decimal digits and Number.prototype.toString

  predicate IsDigit(c: char) {
    '0' <= c <= '9'
  }

  predicate AllDigits(s: string) {
    forall k :: 0 <= k < |s| ==> IsDigit(s[k])
  }

  function DigitChar(d: nat): char
    requires d < 10
  {
    ('0' as int + d) as char
  }

  function DigitValue(c: char): nat
    requires IsDigit(c)
  {
    c as int - '0' as int
  }

  /** The decimal rendering of a non-negative integer: digits only, never
      empty, and a single character exactly for 0..9. It agrees with
      JavaScript's `n.toString()` for n below 10^21 (from there on JavaScript
      switches to exponential notation); every draw is far below that. */
  function DecimalString(n: nat): (s: string)
    ensures |s| >= 1 && AllDigits(s)
    ensures |s| == 1 <==> n < 10
  {
    if n < 10 then [DigitChar(n)] else DecimalString(n / 10) + [DigitChar(n % 10)]
  }

  /** Reads a string of decimal digits back as a number (most significant first). */
  function ParseDecimal(s: string): nat
    requires AllDigits(s)
  {
    if s == [] then 0 else ParseDecimal(s[..|s| - 1]) * 10 + DigitValue(s[|s| - 1])
  }

  /** `toString()` loses nothing: parsing the rendering gives the number back. */
  lemma {:induction false} DecimalStringRoundTrip(n: nat)
    ensures ParseDecimal(DecimalString(n)) == n
  {
    var s := DecimalString(n);
    if n < 10 {
      assert s[..|s| - 1] == [];
    } else {
      assert s[..|s| - 1] == DecimalString(n / 10);
      DecimalStringRoundTrip(n / 10);
    }
  }

  // ---------------------------------------------------------------------
  // genRandomCode

  /** The string genRandomCode's loop has built after consuming `draws`:
      each draw's `toString()`, appended in draw order. */
  function CodeOf(draws: seq<nat>): (code: string) {
    if draws == [] then "" else CodeOf(draws[..|draws| - 1]) + DecimalString(draws[|draws| - 1])
  }

  /** Reference definition: character k is the digit of draw k. */
  function DigitsFrom(draws: seq<nat>): (s: string)
    requires AllBelow(draws, DigitRange)
    ensures |s| == |draws| && AllDigits(s)
  {
    seq(|draws|, k requires 0 <= k < |draws| => DigitChar(draws[k]))
  }

  /** The inverse of DigitsFrom: the value of each digit of a code. */
  function DigitsOf(code: string): (d: seq<nat>)
    requires AllDigits(code)
    ensures |d| == |code| && AllBelow(d, DigitRange)
  {
    seq(|code|, k requires 0 <= k < |code| => DigitValue(code[k]))
  }

  /** One iteration appends at least one character, and exactly one for every
      draw precisely when every draw is a single digit. */
  lemma {:induction false} CodeLengthExact(draws: seq<nat>)
    ensures |CodeOf(draws)| >= |draws|
    ensures |CodeOf(draws)| == |draws| <==> AllBelow(draws, DigitRange)
  {
    if draws != [] {
      var init := draws[..|draws| - 1];
      CodeLengthExact(init);
      assert AllBelow(draws, DigitRange) <==> AllBelow(init, DigitRange) && draws[|draws| - 1] < DigitRange;
    }
  }

  /** Whatever the draws, the code consists of decimal digits only. */
  lemma {:induction false} CodeIsDigits(draws: seq<nat>)
    ensures AllDigits(CodeOf(draws))
  {
    if draws != [] {
      CodeIsDigits(draws[..|draws| - 1]);
    }
  }

  /** With every draw in [0, 10), the code is the draws' digits in draw order. */
  lemma {:induction false} CodeOfDigits(draws: seq<nat>)
    requires AllBelow(draws, DigitRange)
    ensures CodeOf(draws) == DigitsFrom(draws)
  {
    if draws != [] {
      var init := draws[..|draws| - 1];
      CodeOfDigits(init);
      assert DigitsFrom(draws) == DigitsFrom(init) + [DigitChar(draws[|draws| - 1])];
    }
  }

  /** The code determines the draws: reading its digits gives them back. */
  lemma {:induction false} CodeRoundTrip(draws: seq<nat>)
    requires AllBelow(draws, DigitRange)
    ensures AllDigits(CodeOf(draws)) && DigitsOf(CodeOf(draws)) == draws
  {
    CodeOfDigits(draws);
  }

  /** Later iterations only append: the code built from the first i draws is
      a prefix of the code built from all of them. */
  lemma {:induction false} CodePrefixStable(draws: seq<nat>, i: nat)
    requires i <= |draws|
    ensures CodeOf(draws[..i]) <= CodeOf(draws)
  {
    if i < |draws| {
      var init := draws[..|draws| - 1];
      assert draws[..i] == init[..i];
      CodePrefixStable(init, i);
    } else {
      assert draws[..i] == draws;
    }
  }

  /** A code drawn from [0, 10) fits the `varchar(6)` column `users.code`. */
  lemma CodeFitsColumn(draws: seq<nat>)
    requires |draws| == CodeLength && AllBelow(draws, DigitRange)
    ensures Schema.FitsVarchar(CodeOf(draws), Schema.CodeColumnLength)
  {
    CodeLengthExact(draws);
  }

  /** genRandomCode: six times, append the `toString()` of the next draw.
      Only the first six draws are read, and the result is a function of them
      alone. When they are in [0, 10) the result is exactly six decimal
      digits, digit k being draw k. */
  method GenRandomCode(draws: seq<nat>) returns (result: string)
    requires |draws| >= CodeLength
    ensures result == CodeOf(draws[..CodeLength])
    ensures AllDigits(result)
    ensures AllBelow(draws[..CodeLength], DigitRange) ==>
              |result| == CodeLength && result == DigitsFrom(draws[..CodeLength])
  {
    result := "";
    for i := 0 to CodeLength
      invariant result == CodeOf(draws[..i])
    {
      assert draws[..i + 1][..i] == draws[..i];
      result := result + DecimalString(draws[i]);
    }
    CodeIsDigits(draws[..CodeLength]);
    CodeLengthExact(draws[..CodeLength]);
    if AllBelow(draws[..CodeLength], DigitRange) {
      CodeOfDigits(draws[..CodeLength]);
    }
  }

  // ---------------------------------------------------------------------
  // The key alphabet and String.prototype.charAt

  /** `s.charAt(i)`: the one-character string at index i, or "" past the end. */
  function CharAt(s: string, i: nat): (r: string)
    ensures |r| <= 1 && (r == "" <==> i >= |s|)
    ensures i < |s| ==> r[0] == s[i]
  {
    if i < |s| then [s[i]] else ""
  }

  predicate IsAlphanumeric(c: char) {
    'A' <= c <= 'Z' || 'a' <= c <= 'z' || '0' <= c <= '9'
  }

  /** The position of c in `Characters`, computed from its code point; -1 for
      a character outside the alphabet. */
  function AlphabetIndex(c: char): int {
    if 'A' <= c <= 'Z' then c as int - 'A' as int
    else if 'a' <= c <= 'z' then 26 + (c as int - 'a' as int)
    else if '0' <= c <= '9' then 52 + (c as int - '0' as int)
    else -1
  }

  // `Characters` is the upper-case run, then the lower-case run, then the
  // digit run, each at consecutive code points (stated per run, which the
  // verifier reads at a symbolic index).
  lemma RunsLayout()
    ensures Characters == Upper + Lower + Digits
    ensures forall i :: 0 <= i < 26 ==> Upper[i] == ('A' as int + i) as char
    ensures forall i :: 0 <= i < 26 ==> Lower[i] == ('a' as int + i) as char
    ensures forall i :: 0 <= i < 10 ==> Digits[i] == ('0' as int + i) as char
  {
  }

  /** The character at position i of `Characters`: upper-case letters, then
      lower-case letters, then digits. */
  lemma AlphabetAt(i: nat)
    requires i < |Characters|
    ensures Characters[i] == if i < 26 then ('A' as int + i) as char
                             else if i < 52 then ('a' as int + (i - 26)) as char
                             else ('0' as int + (i - 52)) as char
  {
    RunsLayout();
    if i < 26 {
      assert Characters[i] == Upper[i];
    } else if i < 52 {
      assert Characters[i] == Lower[i - 26];
    } else {
      assert Characters[i] == Digits[i - 52];
    }
  }

  /** `Characters` holds 62 characters; AlphabetIndex finds each of them at
      its own position, and the alphabet is exactly the ASCII letters and
      digits. */
  lemma AlphabetLayout()
    ensures CharactersLength == |Characters| == 62
    ensures forall i :: 0 <= i < |Characters| ==> AlphabetIndex(Characters[i]) == i
    ensures forall c :: c in Characters <==> IsAlphanumeric(c)
  {
    forall i | 0 <= i < |Characters|
      ensures AlphabetIndex(Characters[i]) == i && IsAlphanumeric(Characters[i])
    {
      AlphabetAt(i);
    }
    forall c | IsAlphanumeric(c)
      ensures c in Characters
    {
      var i := AlphabetIndex(c);
      AlphabetAt(i);
      assert Characters[i] == c;
    }
  }

  /** The 62 characters of the alphabet are pairwise distinct. */
  lemma AlphabetDistinct()
    ensures forall i, j :: 0 <= i < j < |Characters| ==> Characters[i] != Characters[j]
  {
    AlphabetLayout();
  }

  // ---------------------------------------------------------------------
  // genApiKey

  /** The string genApiKey's loop has built after consuming `draws`:
      `characters.charAt(draw)` for each draw, appended in draw order. */
  function ApiKeyOf(draws: seq<nat>): (key: string) {
    if draws == [] then "" else ApiKeyOf(draws[..|draws| - 1]) + CharAt(Characters, draws[|draws| - 1])
  }

  /** Reference definition: character k is the alphabet's character at draw k. */
  function KeyFrom(draws: seq<nat>): (s: string)
    requires AllBelow(draws, CharactersLength)
    ensures |s| == |draws|
    ensures forall k :: 0 <= k < |s| ==> s[k] in Characters
  {
    seq(|draws|, k requires 0 <= k < |draws| => Characters[draws[k]])
  }

  /** The inverse of KeyFrom: each character's position in the alphabet. */
  function IndicesOf(key: string): (d: seq<int>)
    ensures |d| == |key|
  {
    seq(|key|, k requires 0 <= k < |key| => AlphabetIndex(key[k]))
  }

  /** An iteration appends at most one character, and every iteration appends
      one precisely when every draw is a valid index into the alphabet, which
      is when `charAt` never returns "". */
  lemma {:induction false} ApiKeyLengthExact(draws: seq<nat>)
    ensures |ApiKeyOf(draws)| <= |draws|
    ensures |ApiKeyOf(draws)| == |draws| <==> AllBelow(draws, CharactersLength)
  {
    if draws != [] {
      var init := draws[..|draws| - 1];
      ApiKeyLengthExact(init);
      assert AllBelow(draws, CharactersLength) <==>
             AllBelow(init, CharactersLength) && draws[|draws| - 1] < CharactersLength;
    }
  }

  /** Whatever the draws, every character of the key is in the alphabet. */
  lemma {:induction false} ApiKeyInAlphabet(draws: seq<nat>)
    ensures forall k :: 0 <= k < |ApiKeyOf(draws)| ==> ApiKeyOf(draws)[k] in Characters
  {
    if draws != [] {
      ApiKeyInAlphabet(draws[..|draws| - 1]);
    }
  }

  /** With every draw in [0, 62), the key is the alphabet's characters at the
      draws, in draw order. */
  lemma {:induction false} ApiKeyOfIndices(draws: seq<nat>)
    requires AllBelow(draws, CharactersLength)
    ensures ApiKeyOf(draws) == KeyFrom(draws)
  {
    if draws != [] {
      var init := draws[..|draws| - 1];
      ApiKeyOfIndices(init);
      assert KeyFrom(draws) == KeyFrom(init) + [Characters[draws[|draws| - 1]]];
    }
  }

  /** The key determines the draws: looking its characters up in the
      alphabet gives them back. This needs the alphabet to be duplicate-free. */
  lemma ApiKeyRoundTrip(draws: seq<nat>)
    requires AllBelow(draws, CharactersLength)
    ensures IndicesOf(ApiKeyOf(draws)) == draws
  {
    ApiKeyOfIndices(draws);
    AlphabetLayout();
  }

  /** Later iterations only append: the key built from the first i draws is a
      prefix of the key built from all of them. */
  lemma {:induction false} ApiKeyPrefixStable(draws: seq<nat>, i: nat)
    requires i <= |draws|
    ensures ApiKeyOf(draws[..i]) <= ApiKeyOf(draws)
  {
    if i < |draws| {
      var init := draws[..|draws| - 1];
      assert draws[..i] == init[..i];
      ApiKeyPrefixStable(init, i);
    } else {
      assert draws[..i] == draws;
    }
  }

  /** genApiKey: 32 times, append `characters.charAt(next draw)`. Only the
      first 32 draws are read, and the result is a function of them alone;
      every character is in the alphabet. When the draws are in [0, 62) the
      result has exactly 32 characters, character k being the alphabet's
      character at draw k. */
  method GenApiKey(draws: seq<nat>) returns (apiKey: string)
    requires |draws| >= ApiKeyLength
    ensures apiKey == ApiKeyOf(draws[..ApiKeyLength])
    ensures forall k :: 0 <= k < |apiKey| ==> apiKey[k] in Characters
    ensures AllBelow(draws[..ApiKeyLength], CharactersLength) ==>
              |apiKey| == ApiKeyLength && apiKey == KeyFrom(draws[..ApiKeyLength])
  {
    var characters := Characters;
    apiKey := "";
    for i := 0 to ApiKeyLength
      invariant apiKey == ApiKeyOf(draws[..i])
    {
      var randomIndex := draws[i];
      assert draws[..i + 1][..i] == draws[..i];
      apiKey := apiKey + CharAt(characters, randomIndex);
    }
    ApiKeyInAlphabet(draws[..ApiKeyLength]);
    ApiKeyLengthExact(draws[..ApiKeyLength]);
    if AllBelow(draws[..ApiKeyLength], CharactersLength) {
      ApiKeyOfIndices(draws[..ApiKeyLength]);
    }
  }
}
