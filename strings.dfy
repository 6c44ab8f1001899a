/** String operations of the Rust standard library that the reference sink relies on:
    `split_whitespace`, `take`, `join`, and the character classes it filters with. */
module Strings {

  /** Rust's `char::is_whitespace`: the characters with the Unicode White_Space property. */
  predicate IsWhitespace(c: char)
  {
    || ('\t' <= c <= '\r')
    || c == ' '
    || c == '\U{0085}' || c == '\U{00A0}' || c == '\U{1680}'
    || ('\U{2000}' <= c <= '\U{200A}')
    || c == '\U{2028}' || c == '\U{2029}' || c == '\U{202F}' || c == '\U{205F}' || c == '\U{3000}'
  }

  /** `char::is_alphanumeric`, restricted to ASCII letters and digits. */
  predicate IsAlphanumeric(c: char)
  {
    ('a' <= c <= 'z') || ('A' <= c <= 'Z') || ('0' <= c <= '9')
  }

  /** `to_lowercase`, restricted to ASCII letters. */
  function ToLower(c: char): (r: char)
    ensures IsAlphanumeric(c) ==> IsAlphanumeric(r) && !('A' <= r <= 'Z')
    ensures !('A' <= c <= 'Z') ==> r == c
  {
    if 'A' <= c <= 'Z' then (c as int + 32) as char else c
  }

  ghost predicate NoWhitespace(s: string)
  {
    forall i :: 0 <= i < |s| ==> !IsWhitespace(s[i])
  }

  /** The longest prefix of `s` that holds no whitespace. */
  function LeadingWord(s: string): (w: string)
    ensures |w| <= |s| && w == s[..|w|]
    ensures NoWhitespace(w)
    ensures |w| < |s| ==> IsWhitespace(s[|w|])
    ensures s != [] && !IsWhitespace(s[0]) ==> |w| > 0
  {
    if s == [] || IsWhitespace(s[0]) then [] else [s[0]] + LeadingWord(s[1..])
  }

  /** `split_whitespace`: the maximal runs of non-whitespace characters, in order. */
  function Words(s: string): (ws: seq<string>)
    ensures forall i :: 0 <= i < |ws| ==> |ws[i]| > 0 && NoWhitespace(ws[i])
    decreases |s|
  {
    if s == [] then []
    else if IsWhitespace(s[0]) then Words(s[1..])
    else
      var w := LeadingWord(s);
      [w] + Words(s[|w|..])
  }

  /** `take(n)`: the first `n` elements, or all of them when there are fewer. */
  function Take<T>(xs: seq<T>, n: nat): (r: seq<T>)
    ensures |r| == if |xs| <= n then |xs| else n
    ensures r == xs[..|r|]
  {
    if |xs| <= n then xs else xs[..n]
  }

  /** `join(sep)`: the strings with `sep` between each neighbouring pair. */
  function Join(ws: seq<string>, sep: string): string
  {
    if ws == [] then []
    else if |ws| == 1 then ws[0]
    else ws[0] + sep + Join(ws[1..], sep)
  }

  /** Every character of a join comes from one of the strings or from the separator. */
  lemma {:induction false} JoinChars(ws: seq<string>, sep: string, p: char -> bool)
    requires forall i, j :: 0 <= i < |ws| && 0 <= j < |ws[i]| ==> p(ws[i][j])
    requires forall j :: 0 <= j < |sep| ==> p(sep[j])
    ensures forall j :: 0 <= j < |Join(ws, sep)| ==> p(Join(ws, sep)[j])
  {
    if |ws| > 1 {
      JoinChars(ws[1..], sep, p);
      var rest := Join(ws[1..], sep);
      assert Join(ws, sep) == ws[0] + sep + rest;
      forall j | 0 <= j < |Join(ws, sep)| ensures p(Join(ws, sep)[j]) {
        if j < |ws[0]| {
        } else if j < |ws[0]| + |sep| {
          assert Join(ws, sep)[j] == sep[j - |ws[0]|];
        } else {
          assert Join(ws, sep)[j] == rest[j - |ws[0]| - |sep|];
        }
      }
    }
  }

  /** A whitespace character ends the leading word. */
  lemma {:induction false} LeadingWordAppend(a: string, c: char, b: string)
    requires IsWhitespace(c)
    ensures LeadingWord(a + [c] + b) == LeadingWord(a)
  {
    if a == [] {
      assert (a + [c] + b)[0] == c;
    } else if !IsWhitespace(a[0]) {
      assert (a + [c] + b)[1..] == a[1..] + [c] + b;
      LeadingWordAppend(a[1..], c, b);
    }
  }

  /** Splitting text joined at a whitespace character splits each part on its own. */
  lemma {:induction false} WordsAppend(a: string, c: char, b: string)
    requires IsWhitespace(c)
    ensures Words(a + [c] + b) == Words(a) + Words(b)
    decreases |a|
  {
    var s := a + [c] + b;
    if a == [] {
      assert s[0] == c && s[1..] == b;
    } else if IsWhitespace(a[0]) {
      assert s[0] == a[0] && s[1..] == a[1..] + [c] + b;
      WordsAppend(a[1..], c, b);
    } else {
      var w := LeadingWord(a);
      LeadingWordAppend(a, c, b);
      assert s[0] == a[0];
      assert Words(s) == [w] + Words(s[|w|..]);
      assert s[|w|..] == a[|w|..] + [c] + b;
      WordsAppend(a[|w|..], c, b);
    }
  }

  /** A non-empty word without whitespace splits into itself. */
  lemma {:induction false} WordsOfWord(w: string)
    requires |w| > 0 && NoWhitespace(w)
    ensures Words(w) == [w]
  {
    LeadingWordWhole(w);
    assert w[|w|..] == [];
  }

  lemma {:induction false} LeadingWordWhole(w: string)
    requires NoWhitespace(w)
    ensures LeadingWord(w) == w
  {
    if w != [] {
      LeadingWordWhole(w[1..]);
    }
  }

  /** Splitting undoes joining with a space: `split_whitespace` of non-empty whitespace-free
      words joined by " " gives the words back. */
  lemma {:induction false} WordsOfJoin(ws: seq<string>)
    requires forall i :: 0 <= i < |ws| ==> |ws[i]| > 0 && NoWhitespace(ws[i])
    ensures Words(Join(ws, " ")) == ws
  {
    if |ws| == 1 {
      WordsOfWord(ws[0]);
    } else if |ws| > 1 {
      WordsOfJoin(ws[1..]);
      WordsOfWord(ws[0]);
      assert Join(ws, " ") == ws[0] + [' '] + Join(ws[1..], " ");
      WordsAppend(ws[0], ' ', Join(ws[1..], " "));
    }
  }

  /** The first eight words of a text joined by single spaces (used for titles and link texts). */
  function FirstWords(text: string): string
  {
    Join(Take(Words(text), 8), " ")
  }

  /** The leading-words text holds exactly the first eight words of `text`. */
  lemma FirstWordsAreLeadingWords(text: string)
    ensures Words(FirstWords(text)) == Take(Words(text), 8)
  {
    WordsOfJoin(Take(Words(text), 8));
  }

  /** Text after the eighth word does not change the leading-words text. */
  lemma FirstWordsIgnoreTail(a: string, c: char, b: string)
    requires IsWhitespace(c) && |Words(a)| >= 8
    ensures FirstWords(a + [c] + b) == FirstWords(a)
  {
    WordsAppend(a, c, b);
    assert Take(Words(a) + Words(b), 8) == Take(Words(a), 8);
  }

  /** The number of occurrences of `c` in `s`. */
  function Count(s: string, c: char): nat
  {
    if s == [] then 0 else (if s[0] == c then 1 else 0) + Count(s[1..], c)
  }

  /** Decimal digits of a natural number, as `format!("{}", n)` prints it. */
  function NatToString(n: nat): (r: string)
    ensures |r| > 0
    ensures forall i :: 0 <= i < |r| ==> '0' <= r[i] <= '9'
    ensures r[0] == '0' <==> n == 0
    ensures n < 10 ==> |r| == 1
  {
    if n < 10 then [Digit(n)] else NatToString(n / 10) + [Digit(n % 10)]
  }

  function Digit(d: nat): (c: char)
    requires d < 10
    ensures '0' <= c <= '9' && c as int - '0' as int == d
  {
    "0123456789"[d]
  }

  /** The value the digits denote. */
  function DigitsValue(s: string): int
  {
    if s == [] then 0 else DigitsValue(s[..|s| - 1]) * 10 + (s[|s| - 1] as int - '0' as int)
  }

  /** Reading the printed digits back gives the number. */
  lemma {:induction false} NatToStringValue(n: nat)
    ensures DigitsValue(NatToString(n)) == n
  {
    if n >= 10 {
      NatToStringValue(n / 10);
      var s := NatToString(n);
      assert s[..|s| - 1] == NatToString(n / 10);
    }
    assert "0123456789"[n % 10] as int - '0' as int == n % 10;
  }
}
