/**
 * The lexer of W3-1.cpp: `TokenMap` and `Tokenize`.  `Lex` is the specification, one character
 * (or one maximal digit run) at a time; `Tokenize` is the source's scanning loop, proved equal to it.
 */
module Lexer {

  /** The alternatives of the source's `Token` variant, in declaration order. */
  datatype Token =
    | OpeningBracket
    | ClosingBracket
    | Number(value: int)
    | UnknownToken(text: string)
    | MinToken
    | AbsToken
    | Plus
    | Minus
    | Multiply
    | Modulo
    | Divide
    | Sqr

  /** The single characters that stand for a token; only the letter `s` means `Sqr`. */
  const TokenMap: map<char, Token> := map[
    '+' := Plus,
    '-' := Minus,
    '*' := Multiply,
    '/' := Divide,
    '%' := Modulo,
    '(' := OpeningBracket,
    ')' := ClosingBracket,
    's' := Sqr
  ]

  /** `std::isspace` in the "C" locale. */
  predicate IsSpace(c: char) {
    c == ' ' || c == '\t' || c == '\n' || c == '\U{0B}' || c == '\U{0C}' || c == '\r'
  }

  /** `std::isdigit`. */
  predicate IsDigit(c: char) {
    '0' <= c <= '9'
  }

  /** The keys of `TokenMap` are exactly the eight characters `+ - * / % ( ) s`, each with its own token. */
  lemma TokenMapEntries()
    ensures TokenMap.Keys == {'+', '-', '*', '/', '%', '(', ')', 's'}
    ensures forall c, d :: c in TokenMap && d in TokenMap && c != d ==> TokenMap[c] != TokenMap[d]
  {
  }

  /**
   * Spaces, digits and the keys of `TokenMap` are three disjoint classes, so the order in which
   * `Tokenize` tests them does not matter; the digits are the ten characters `'0'` to `'9'`.
   */
  lemma CharacterClassesDisjoint(c: char)
    ensures IsSpace(c) ==> !IsDigit(c) && c !in TokenMap
    ensures IsDigit(c) <==> 0 <= c as int - '0' as int <= 9
    ensures IsDigit(c) ==> c !in TokenMap
  {
  }

  function DigitValue(c: char): (d: nat)
    requires IsDigit(c)
    ensures d < 10
  {
    c as int - '0' as int
  }

  /**
   * The end of the digit run that starts at `k`: the inner loop of `Tokenize` stops at the first
   * position that is not a digit, or at the end of the input.
   */
  function DigitRunEnd(s: string, k: nat): (j: nat)
    requires k <= |s|
    ensures k <= j <= |s|
    ensures forall i :: k <= i < j ==> IsDigit(s[i])
    ensures j < |s| ==> !IsDigit(s[j])
    decreases |s| - k
  {
    if k < |s| && IsDigit(s[k]) then DigitRunEnd(s, k + 1) else k
  }

  /** The base-10 value of the digits `s[k..j]`, as `std::stoi` reads them (leading zeros allowed). */
  function DecimalValue(s: string, k: nat, j: nat): (v: nat)
    requires k <= j <= |s|
    requires forall i :: k <= i < j ==> IsDigit(s[i])
    decreases j - k
  {
    if j == k then 0 else 10 * DecimalValue(s, k, j - 1) + DigitValue(s[j - 1])
  }

  /** A run of `j - k` digits has a value below `10` to the power `j - k`. */
  lemma {:induction false} DecimalValueBound(s: string, k: nat, j: nat)
    requires k <= j <= |s| && forall i :: k <= i < j ==> IsDigit(s[i])
    ensures DecimalValue(s, k, j) < Pow10(j - k)
    decreases j - k
  {
    if j > k {
      DecimalValueBound(s, k, j - 1);
      assert Pow10(j - k) == 10 * Pow10(j - 1 - k);
    }
  }

  /** `10` to the power `n`. */
  function Pow10(n: nat): (p: nat)
    ensures p > 0
  {
    if n == 0 then 1 else 10 * Pow10(n - 1)
  }

  /** The tokens `Tokenize` emits from position `k` of `s` on. */
  function LexFrom(s: string, k: nat): seq<Token>
    requires k <= |s|
    decreases |s| - k
  {
    if k == |s| then []
    else if IsSpace(s[k]) then LexFrom(s, k + 1)
    else if IsDigit(s[k]) then
      var j := DigitRunEnd(s, k);
      [Number(DecimalValue(s, k, j))] + LexFrom(s, j)
    else if s[k] in TokenMap then [TokenMap[s[k]]] + LexFrom(s, k + 1)
    else LexFrom(s, k + 1)
  }

  /** The token sequence `Tokenize` produces for `s`: at most one token per character. */
  function Lex(s: string): (r: seq<Token>)
    ensures |r| <= |s|
  {
    LexLength(s, 0);
    LexFrom(s, 0)
  }

  /** Every character yields at most one token; a digit run yields exactly one. */
  lemma {:induction false} LexLength(s: string, k: nat)
    requires k <= |s|
    ensures |LexFrom(s, k)| <= |s| - k
    decreases |s| - k
  {
    if k < |s| {
      if IsSpace(s[k]) {
        LexLength(s, k + 1);
      } else if IsDigit(s[k]) {
        LexLength(s, DigitRunEnd(s, k));
      } else {
        LexLength(s, k + 1);
      }
    }
  }

  /** A maximal digit run `s[k..j]`: the run-end function agrees with the scanning loop. */
  lemma {:induction false} DigitRunIs(s: string, k: nat, j: nat)
    requires k <= j <= |s|
    requires forall i :: k <= i < j ==> IsDigit(s[i])
    requires j < |s| ==> !IsDigit(s[j])
    ensures DigitRunEnd(s, k) == j
    decreases j - k
  {
    if k < j {
      DigitRunIs(s, k + 1, j);
    }
  }

  /** `Tokenize`: skip whitespace, read maximal digit runs, look single characters up in `TokenMap`, drop the rest. */
  method Tokenize(input: string) returns (tokens: seq<Token>)
    ensures tokens == Lex(input)
  {
    tokens := [];
    var pos := 0;
    while pos < |input|
      invariant pos <= |input|
      invariant tokens + LexFrom(input, pos) == LexFrom(input, 0)
    {
      if IsSpace(input[pos]) {
        pos := pos + 1;
        continue;
      } else if IsDigit(input[pos]) {
        var start := pos;
        while pos < |input| && IsDigit(input[pos])
          invariant start <= pos <= |input|
          invariant forall k :: start <= k < pos ==> IsDigit(input[k])
        {
          pos := pos + 1;
        }
        DigitRunIs(input, start, pos);
        tokens := tokens + [Number(DecimalValue(input, start, pos))];
      } else {
        if input[pos] in TokenMap {
          tokens := tokens + [TokenMap[input[pos]]];
          pos := pos + 1;
        } else {
          pos := pos + 1;
        }
      }
    }
  }

  /** The tokens `Tokenize` can emit: non-negative numbers and the eight tokens of `TokenMap`. */
  predicate Producible(t: Token) {
    if t.Number? then t.value >= 0 else !(t.UnknownToken? || t.MinToken? || t.AbsToken?)
  }

  /** Every token `Lex` emits is producible; in particular it never emits `UnknownToken`, `MinToken` or `AbsToken`. */
  lemma {:induction false} LexProducible(s: string, k: nat)
    requires k <= |s|
    ensures forall i :: 0 <= i < |LexFrom(s, k)| ==> Producible(LexFrom(s, k)[i])
    decreases |s| - k
  {
    if k == |s| {
    } else if IsSpace(s[k]) {
      LexProducible(s, k + 1);
    } else if IsDigit(s[k]) {
      LexProducible(s, DigitRunEnd(s, k));
    } else {
      LexProducible(s, k + 1);
    }
  }

  /** The value of a digit run depends only on its characters, not on where they stand. */
  lemma {:induction false} DecimalValueShift(s: string, t: string, d: nat, k: nat, j: nat)
    requires k <= j <= |t| && d + j <= |s|
    requires forall i :: k <= i < j ==> IsDigit(t[i]) && s[d + i] == t[i]
    requires forall i :: d + k <= i < d + j ==> IsDigit(s[i])
    ensures DecimalValue(s, d + k, d + j) == DecimalValue(t, k, j)
    decreases j - k
  {
    if k < j {
      DecimalValueShift(s, t, d, k, j - 1);
    }
  }

  /**
   * Lexing depends only on the text from the starting position on: if `s` continues, from `d + k`,
   * exactly as `t` does from `k`, the two positions yield the same tokens.
   */
  lemma {:induction false} LexShift(s: string, t: string, d: nat, k: nat)
    requires k <= |t| && |s| == d + |t|
    requires forall i :: k <= i < |t| ==> s[d + i] == t[i]
    ensures LexFrom(s, d + k) == LexFrom(t, k)
    decreases |t| - k
  {
    if k < |t| {
      if IsSpace(t[k]) {
        LexShift(s, t, d, k + 1);
      } else if IsDigit(t[k]) {
        var j := DigitRunEnd(t, k);
        forall i | d + k <= i < d + j
          ensures IsDigit(s[i])
        {
          assert s[d + (i - d)] == t[i - d];
        }
        if j < |t| {
          assert s[d + j] == t[j];
        }
        DigitRunIs(s, d + k, d + j);
        DecimalValueShift(s, t, d, k, j);
        LexShift(s, t, d, j);
      } else {
        LexShift(s, t, d, k + 1);
      }
    }
  }

  /** Lexing from position `k` past a character that yields no token. */
  lemma LexSkipAt(s: string, k: nat)
    requires k < |s| && (IsSpace(s[k]) || (!IsDigit(s[k]) && s[k] !in TokenMap))
    ensures LexFrom(s, k) == LexFrom(s, k + 1)
  {
  }

  /** Lower-case letters other than `s` yield no token: `sqr` lexes as `Sqr` alone. */
  lemma LexLetterAt(s: string, k: nat)
    requires k < |s| && 'a' <= s[k] <= 'z' && s[k] != 's'
    ensures LexFrom(s, k) == LexFrom(s, k + 1)
  {
    assert s[k] !in TokenMap;
  }

  /** Lexing from position `k` past a maximal digit run `s[k..j]`: one `Number` holding its value. */
  lemma LexDigitRunAt(s: string, k: nat, j: nat)
    requires k < j <= |s|
    requires forall i :: k <= i < j ==> IsDigit(s[i])
    requires j < |s| ==> !IsDigit(s[j])
    ensures LexFrom(s, k) == [Number(DecimalValue(s, k, j))] + LexFrom(s, j)
  {
    DigitRunIs(s, k, j);
  }

  /** Lexing from position `k` past a one-digit number. */
  lemma LexDigitAt(s: string, k: nat)
    requires k < |s| && IsDigit(s[k]) && (k + 1 == |s| || !IsDigit(s[k + 1]))
    ensures LexFrom(s, k) == [Number(DigitValue(s[k]))] + LexFrom(s, k + 1)
  {
    LexDigitRunAt(s, k, k + 1);
  }

  function DigitChar(d: nat): (c: char)
    requires d < 10
    ensures IsDigit(c) && DigitValue(c) == d
  {
    ('0' as int + d) as char
  }

  /** The decimal spelling of `n`, without leading zeros. */
  function NatDigits(n: nat): (ds: string)
    ensures |ds| > 0 && forall i :: 0 <= i < |ds| ==> IsDigit(ds[i])
  {
    if n < 10 then [DigitChar(n)] else NatDigits(n / 10) + [DigitChar(n % 10)]
  }

  /** Reading back the spelling of `n` gives `n`. */
  lemma {:induction false} DecimalValueOfDigits(n: nat)
    ensures DecimalValue(NatDigits(n), 0, |NatDigits(n)|) == n
  {
    var ds := NatDigits(n);
    if n >= 10 {
      var prefix := NatDigits(n / 10);
      DecimalValueShift(ds, prefix, 0, 0, |prefix|);
      DecimalValueOfDigits(n / 10);
    }
  }

  /** The spelling of a number, followed by a non-digit, lexes to that number. */
  lemma LexNatDigitsAt(s: string, k: nat, n: nat)
    requires k + |NatDigits(n)| <= |s|
    requires forall i :: 0 <= i < |NatDigits(n)| ==> s[k + i] == NatDigits(n)[i]
    requires k + |NatDigits(n)| < |s| ==> !IsDigit(s[k + |NatDigits(n)|])
    ensures LexFrom(s, k) == [Number(n)] + LexFrom(s, k + |NatDigits(n)|)
  {
    var ds := NatDigits(n);
    forall i | k <= i < k + |ds|
      ensures IsDigit(s[i])
    {
      assert s[k + (i - k)] == ds[i - k];
    }
    LexDigitRunAt(s, k, k + |ds|);
    DecimalValueShift(s, ds, k, 0, |ds|);
    DecimalValueOfDigits(n);
  }

  /** The character `TokenMap` maps to a producible token other than a number. */
  function TokenChar(t: Token): (c: char)
    requires Producible(t) && !t.Number?
    ensures c in TokenMap && TokenMap[c] == t && !IsSpace(c) && !IsDigit(c)
  {
    match t
    case Plus => '+'
    case Minus => '-'
    case Multiply => '*'
    case Divide => '/'
    case Modulo => '%'
    case OpeningBracket => '('
    case ClosingBracket => ')'
    case Sqr => 's'
  }

  /** Lexing from position `k` past the character of a token. */
  lemma LexTokenAt(s: string, k: nat, t: Token)
    requires k < |s| && Producible(t) && !t.Number? && s[k] == TokenChar(t)
    ensures LexFrom(s, k) == [t] + LexFrom(s, k + 1)
  {
  }

  /** The text of one producible token: its digits or its `TokenMap` character. */
  function TokenText(t: Token): string
    requires Producible(t)
  {
    if t.Number? then NatDigits(t.value) else [TokenChar(t)]
  }

  /** A character that yields no token, in front of `rest`, changes nothing. */
  lemma LexSkipThen(c: char, rest: string)
    requires IsSpace(c) || (!IsDigit(c) && c !in TokenMap)
    ensures Lex([c] + rest) == Lex(rest)
  {
    LexShift([c] + rest, rest, 1, 0);
  }

  /** The character of a token, in front of `rest`, yields exactly that token. */
  lemma LexTokenThen(t: Token, rest: string)
    requires Producible(t) && !t.Number?
    ensures Lex([TokenChar(t)] + rest) == [t] + Lex(rest)
  {
    LexShift([TokenChar(t)] + rest, rest, 1, 0);
  }

  /** The spelling of `n`, in front of a `rest` that does not start with a digit, yields `Number(n)`. */
  lemma LexNumberThen(n: nat, rest: string)
    requires |rest| == 0 || !IsDigit(rest[0])
    ensures Lex(NatDigits(n) + rest) == [Number(n)] + Lex(rest)
  {
    var s := NatDigits(n) + rest;
    LexNatDigitsAt(s, 0, n);
    LexShift(s, rest, |NatDigits(n)|, 0);
  }

  /** A token's text followed by a space lexes to that token alone. */
  lemma LexTokenText(t: Token, rest: string)
    requires Producible(t)
    ensures Lex(TokenText(t) + [' '] + rest) == [t] + Lex(rest)
  {
    assert TokenText(t) + [' '] + rest == TokenText(t) + ([' '] + rest);
    LexSkipThen(' ', rest);
    if t.Number? {
      LexNumberThen(t.value, [' '] + rest);
    } else {
      LexTokenThen(t, [' '] + rest);
    }
  }

  /** Source text for a token sequence: each token followed by one space. */
  function Show(ts: seq<Token>): string
    requires forall i :: 0 <= i < |ts| ==> Producible(ts[i])
  {
    if |ts| == 0 then "" else TokenText(ts[0]) + [' '] + Show(ts[1..])
  }

  /**
   * Round trip: lexing the text of any sequence of producible tokens gives the sequence back.
   * With `LexProducible` this says the outputs of `Tokenize` are exactly the sequences of producible tokens.
   */
  lemma {:induction false} LexShow(ts: seq<Token>)
    requires forall i :: 0 <= i < |ts| ==> Producible(ts[i])
    ensures Lex(Show(ts)) == ts
  {
    if |ts| > 0 {
      LexShow(ts[1..]);
      LexTokenText(ts[0], Show(ts[1..]));
    }
  }
}
