/** The parts of Python's string built-ins that the language heuristic relies on:
    the whitespace class shared by `str.split()` and the regular-expression class
    `\s`, ASCII lower-casing, and splitting on runs of whitespace. */
module PythonText {

  /** A character Python treats as whitespace (`str.isspace()`, which is also what
      `\s` matches in a `str` pattern): the ASCII controls TAB to CR, the
      separators U+001C to U+001F, SPACE, NEL, NO-BREAK SPACE and the Unicode
      space separators. */
  predicate IsSpace(c: char) {
    var n := c as int;
    (0x09 <= n <= 0x0D) || (0x1C <= n <= 0x20) || n == 0x85 || n == 0xA0 ||
    n == 0x1680 || (0x2000 <= n <= 0x200A) || n == 0x2028 || n == 0x2029 ||
    n == 0x202F || n == 0x205F || n == 0x3000
  }

  predicate IsAsciiUpper(c: char) { 'A' <= c <= 'Z' }

  predicate IsAsciiLower(c: char) { 'a' <= c <= 'z' }

  /** `str.lower()` restricted to ASCII: A-Z become a-z, every other character
      stays as it is. */
  function LowerChar(c: char): (d: char)
    ensures !IsAsciiUpper(d)
    ensures IsSpace(d) == IsSpace(c)
    ensures IsAsciiUpper(c) ==> IsAsciiLower(d) && d as int == c as int + 32
    ensures !IsAsciiUpper(c) ==> d == c
  {
    if IsAsciiUpper(c) then (c as int + 32) as char else c
  }

  /** `str.lower()` under the ASCII assumption, character by character. */
  function Lower(s: string): (r: string)
    ensures |r| == |s|
    ensures forall i :: 0 <= i < |s| ==> r[i] == LowerChar(s[i])
  {
    seq(|s|, i requires 0 <= i < |s| => LowerChar(s[i]))
  }

  /** A token `split()` can produce: non-empty, without whitespace. */
  predicate IsWord(w: string) {
    |w| > 0 && NoSpace(w)
  }

  predicate NoSpace(s: string) {
    forall i :: 0 <= i < |s| ==> !IsSpace(s[i])
  }

  /** `s.split()` with no separator: the maximal runs of non-whitespace
      characters, in order; leading, trailing and repeated whitespace yield no
      empty tokens. */
  function Tokens(s: string): seq<string> {
    Scan(s, [])
  }

  /** Left-to-right scan of `s`, where `word` is the token read so far. */
  function Scan(s: string, word: string): seq<string>
    decreases |s|
  {
    if s == [] then
      Flush(word)
    else if IsSpace(s[0]) then
      Flush(word) + Scan(s[1..], [])
    else
      Scan(s[1..], word + [s[0]])
  }

  /** The pending token, if there is one. */
  function Flush(word: string): seq<string> {
    if word == [] then [] else [word]
  }

  /** All tokens glued back together. */
  function Concat(ws: seq<string>): string {
    if ws == [] then [] else ws[0] + Concat(ws[1..])
  }

  /** The tokens joined by single spaces (`" ".join(ws)`). */
  function Unwords(ws: seq<string>): string {
    if ws == [] then []
    else if |ws| == 1 then ws[0]
    else ws[0] + " " + Unwords(ws[1..])
  }

  /** `s` with every whitespace character deleted. */
  function RemoveSpaces(s: string): (r: string)
    ensures NoSpace(r)
  {
    if s == [] then []
    else (if IsSpace(s[0]) then [] else [s[0]]) + RemoveSpaces(s[1..])
  }

  lemma {:induction false} ScanWords(s: string, word: string)
    requires NoSpace(word)
    ensures forall i :: 0 <= i < |Scan(s, word)| ==> IsWord(Scan(s, word)[i])
    decreases |s|
  {
    if s == [] {
    } else if IsSpace(s[0]) {
      ScanWords(s[1..], []);
    } else {
      ScanWords(s[1..], word + [s[0]]);
    }
  }

  lemma {:induction false} ConcatAppend(a: seq<string>, b: seq<string>)
    ensures Concat(a + b) == Concat(a) + Concat(b)
  {
    if a == [] {
      assert a + b == b;
    } else {
      assert (a + b)[0] == a[0];
      assert (a + b)[1..] == a[1..] + b;
      ConcatAppend(a[1..], b);
    }
  }

  lemma {:induction false} ScanConcat(s: string, word: string)
    ensures Concat(Scan(s, word)) == word + RemoveSpaces(s)
    decreases |s|
  {
    if s == [] {
    } else if IsSpace(s[0]) {
      ScanConcat(s[1..], []);
      ConcatAppend(Flush(word), Scan(s[1..], []));
    } else {
      ScanConcat(s[1..], word + [s[0]]);
    }
  }

  /** Every token of `split()` is a non-empty run without whitespace. */
  lemma TokensAreWords(s: string)
    ensures forall i :: 0 <= i < |Tokens(s)| ==> IsWord(Tokens(s)[i])
  {
    ScanWords(s, []);
  }

  /** Splitting loses exactly the whitespace: the tokens, glued together, are
      the input with its whitespace deleted, in order. */
  lemma TokensConcat(s: string)
    ensures Concat(Tokens(s)) == RemoveSpaces(s)
  {
    ScanConcat(s, []);
  }

  lemma {:induction false} ConcatEmpty(ws: seq<string>)
    requires forall i :: 0 <= i < |ws| ==> IsWord(ws[i])
    ensures Concat(ws) == [] <==> ws == []
  {
    if ws != [] {
      assert |Concat(ws)| >= |ws[0]| > 0;
    }
  }

  lemma {:induction false} RemoveSpacesEmpty(s: string)
    ensures RemoveSpaces(s) == [] <==> forall i :: 0 <= i < |s| ==> IsSpace(s[i])
  {
    if s != [] {
      RemoveSpacesEmpty(s[1..]);
      assert forall i :: 1 <= i < |s| ==> s[i] == s[1..][i - 1];
    }
  }

  /** `split()` yields no token exactly when the text is all whitespace
      (in particular for the empty string). */
  lemma TokensEmpty(s: string)
    ensures Tokens(s) == [] <==> forall i :: 0 <= i < |s| ==> IsSpace(s[i])
  {
    TokensAreWords(s);
    TokensConcat(s);
    ConcatEmpty(Tokens(s));
    RemoveSpacesEmpty(s);
  }

  lemma {:induction false} ScanNoSpacePrefix(w: string, rest: string, word: string)
    requires NoSpace(w)
    ensures Scan(w + rest, word) == Scan(rest, word + w)
    decreases |w|
  {
    if w == [] {
      assert w + rest == rest;
      assert word + w == word;
    } else {
      assert (w + rest)[0] == w[0];
      assert (w + rest)[1..] == w[1..] + rest;
      assert word + [w[0]] + w[1..] == word + w;
      ScanNoSpacePrefix(w[1..], rest, word + [w[0]]);
    }
  }

  /** Splitting undoes joining with single spaces: `" ".join(ws).split() == ws`
      for every list of proper tokens. */
  lemma {:induction false} TokensUnwords(ws: seq<string>)
    requires forall i :: 0 <= i < |ws| ==> IsWord(ws[i])
    ensures Tokens(Unwords(ws)) == ws
  {
    if ws == [] {
    } else if |ws| == 1 {
      ScanNoSpacePrefix(ws[0], [], []);
      assert ws[0] + [] == ws[0];
      assert [] + ws[0] == ws[0];
      assert ws == [ws[0]];
    } else {
      var rest := Unwords(ws[1..]);
      assert Unwords(ws) == ws[0] + (" " + rest);
      ScanNoSpacePrefix(ws[0], " " + rest, []);
      assert [] + ws[0] == ws[0];
      assert (" " + rest)[0] == ' ';
      assert (" " + rest)[1..] == rest;
      TokensUnwords(ws[1..]);
      assert ws == [ws[0]] + ws[1..];
    }
  }

  lemma {:induction false} ScanSplitAtSpace(a: string, c: char, b: string, word: string)
    requires IsSpace(c)
    ensures Scan(a + [c] + b, word) == Scan(a + [c], word) + Scan(b, [])
    decreases |a|
  {
    if a == [] {
      assert a + [c] + b == [c] + b;
      assert ([c] + b)[1..] == b;
      assert a + [c] == [c];
    } else {
      assert (a + [c] + b)[0] == a[0] && (a + [c])[0] == a[0];
      assert (a + [c] + b)[1..] == a[1..] + [c] + b;
      assert (a + [c])[1..] == a[1..] + [c];
      if IsSpace(a[0]) {
        ScanSplitAtSpace(a[1..], c, b, []);
      } else {
        ScanSplitAtSpace(a[1..], c, b, word + [a[0]]);
      }
    }
  }

  lemma {:induction false} ScanTrailingSpace(a: string, c: char, word: string)
    requires IsSpace(c)
    ensures Scan(a + [c], word) == Scan(a, word)
    decreases |a|
  {
    if a == [] {
      assert [c][1..] == [];
    } else {
      assert (a + [c])[0] == a[0];
      assert (a + [c])[1..] == a[1..] + [c];
      if IsSpace(a[0]) {
        ScanTrailingSpace(a[1..], c, []);
      } else {
        ScanTrailingSpace(a[1..], c, word + [a[0]]);
      }
    }
  }

  /** A whitespace character separates tokens: the tokens of `a`, the space and
      `b` are those of `a` followed by those of `b`. */
  lemma TokensSplitAtSpace(a: string, c: char, b: string)
    requires IsSpace(c)
    ensures Tokens(a + [c] + b) == Tokens(a) + Tokens(b)
  {
    ScanSplitAtSpace(a, c, b, []);
    ScanTrailingSpace(a, c, []);
  }

  /** Lower-casing distributes over concatenation. */
  lemma LowerConcat(a: string, b: string)
    ensures Lower(a + b) == Lower(a) + Lower(b)
  {
  }
}
