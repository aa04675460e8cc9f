/** The summary-text tokenizer `re.findall(r'[一-鿿]+|[a-zA-Z0-9]+', text)`:
    the maximal runs of CJK unified ideographs and the maximal runs of ASCII
    letters and digits, in text order; every other character separates. */
module Tokens {
  import Strings

  datatype CharClass = Ideograph | Alphanumeric | Delimiter

  function ClassOf(c: char): CharClass
  {
    if '一' <= c <= '鿿' then Ideograph
    else if 'a' <= c <= 'z' || 'A' <= c <= 'Z' || '0' <= c <= '9' then Alphanumeric
    else Delimiter
  }

  /** A token: non-empty, and all of one word class. */
  predicate IsToken(w: string)
  {
    && w != []
    && ClassOf(w[0]) != Delimiter
    && forall i :: 0 <= i < |w| ==> ClassOf(w[i]) == ClassOf(w[0])
  }

  /** How many leading characters of `s` are of class `cls`. */
  function RunLength(s: string, cls: CharClass): (n: nat)
    ensures n <= |s|
    ensures forall i :: 0 <= i < n ==> ClassOf(s[i]) == cls
    ensures n == |s| || ClassOf(s[n]) != cls
  {
    if s == [] || ClassOf(s[0]) != cls then 0 else 1 + RunLength(s[1..], cls)
  }

  /** The tokens of `s`: skip a separator, or take the maximal run of the
      first character's class. */
  function Tokenize(s: string): (ws: seq<string>)
    ensures forall k :: 0 <= k < |ws| ==> IsToken(ws[k])
    decreases |s|
  {
    if s == [] then []
    else if ClassOf(s[0]) == Delimiter then Tokenize(s[1..])
    else
      var n := RunLength(s, ClassOf(s[0]));
      [s[..n]] + Tokenize(s[n..])
  }

  /** A token has no whitespace, so stripping it changes nothing. */
  lemma TokenSpaceFree(w: string)
    requires IsToken(w)
    ensures Strings.SpaceFree(w)
    ensures Strings.Strip(w) == w
  {
    assert forall i :: 0 <= i < |w| ==> ClassOf(w[i]) != Delimiter;
    assert Strings.SpaceFree(w);
    Strings.StripUnchanged(w);
  }

  /** A separator ends every run. */
  lemma {:induction false} RunStopsAtDelimiter(a: string, d: char, b: string, cls: CharClass)
    requires ClassOf(d) == Delimiter && cls != Delimiter
    ensures RunLength(a + [d] + b, cls) == RunLength(a, cls)
  {
    if a == [] {
      assert (a + [d] + b)[0] == d;
    } else if ClassOf(a[0]) == cls {
      assert (a + [d] + b)[1..] == a[1..] + [d] + b;
      RunStopsAtDelimiter(a[1..], d, b, cls);
    }
  }

  /** No token spans a separator: the text on either side tokenizes apart. */
  lemma {:induction false} TokenizeAcrossDelimiter(a: string, d: char, b: string)
    requires ClassOf(d) == Delimiter
    ensures Tokenize(a + [d] + b) == Tokenize(a) + Tokenize(b)
    decreases |a|
  {
    var s := a + [d] + b;
    if a == [] {
      assert s[1..] == b;
    } else if ClassOf(a[0]) == Delimiter {
      assert s[1..] == a[1..] + [d] + b;
      TokenizeAcrossDelimiter(a[1..], d, b);
    } else {
      var cls := ClassOf(a[0]);
      var n := RunLength(a, cls);
      RunStopsAtDelimiter(a, d, b, cls);
      assert s[..n] == a[..n];
      assert s[n..] == a[n..] + [d] + b;
      TokenizeAcrossDelimiter(a[n..], d, b);
    }
  }

  /** A run of one word class, on its own, is one token. */
  lemma TokenizeToken(w: string)
    requires IsToken(w)
    ensures Tokenize(w) == [w]
  {
    var n := RunLength(w, ClassOf(w[0]));
    assert n == |w|;
    assert w[..n] == w;
    assert w[n..] == [];
  }

  /** A run of `cls` followed by a character of another class has the run's length. */
  lemma {:induction false} RunThenOther(w: string, b: string, cls: CharClass)
    requires forall i :: 0 <= i < |w| ==> ClassOf(w[i]) == cls
    requires b == [] || ClassOf(b[0]) != cls
    ensures RunLength(w + b, cls) == |w|
  {
    if w == [] {
      assert w + b == b;
    } else {
      assert (w + b)[0] == w[0] && (w + b)[1..] == w[1..] + b;
      RunThenOther(w[1..], b, cls);
    }
  }

  /** Tokens are maximal: a token followed by text that does not continue
      its class is one token, and the rest tokenizes on its own. */
  lemma TokenizeAcrossClassChange(w: string, b: string)
    requires IsToken(w)
    requires b == [] || ClassOf(b[0]) != ClassOf(w[0])
    ensures Tokenize(w + b) == [w] + Tokenize(b)
  {
    var s := w + b;
    RunThenOther(w, b, ClassOf(w[0]));
    assert s[0] == w[0];
    assert s[..|w|] == w && s[|w|..] == b;
  }

  /** The word characters of `s`, in order; separators left out. */
  function WordChars(s: string): string
  {
    if s == [] then [] else (if ClassOf(s[0]) != Delimiter then [s[0]] else []) + WordChars(s[1..])
  }

  /** The tokens written one after another. */
  function Concat(ws: seq<string>): string
  {
    if ws == [] then [] else ws[0] + Concat(ws[1..])
  }

  lemma {:induction false} WordCharsOfRun(s: string, n: nat)
    requires n <= |s|
    requires forall i :: 0 <= i < n ==> ClassOf(s[i]) != Delimiter
    ensures WordChars(s) == s[..n] + WordChars(s[n..])
  {
    if n > 0 {
      WordCharsOfRun(s[1..], n - 1);
      assert s[1..][..n - 1] == s[1..n] && s[1..][n - 1..] == s[n..];
      assert s[..n] == [s[0]] + s[1..n];
    }
  }

  /** No word character is lost or added: the tokens, written one after
      another, are the text with its separators removed. */
  lemma {:induction false} TokenizeKeepsWordChars(s: string)
    ensures Concat(Tokenize(s)) == WordChars(s)
    decreases |s|
  {
    if s != [] {
      if ClassOf(s[0]) == Delimiter {
        TokenizeKeepsWordChars(s[1..]);
      } else {
        var n := RunLength(s, ClassOf(s[0]));
        var ws := Tokenize(s[n..]);
        TokenizeKeepsWordChars(s[n..]);
        WordCharsOfRun(s, n);
        assert ([s[..n]] + ws)[1..] == ws;
      }
    }
  }

  /** The tokens of each text, one after another. */
  function TokensOfEach(texts: seq<string>): seq<string>
  {
    if texts == [] then [] else Tokenize(texts[0]) + TokensOfEach(texts[1..])
  }

  /** `' '.join(texts)` tokenizes into the tokens of each text in turn: no
      token joins the end of one summary to the start of the next. */
  lemma {:induction false} TokenizeJoin(texts: seq<string>)
    ensures Tokenize(Strings.Join(texts, ' ')) == TokensOfEach(texts)
  {
    if |texts| == 1 {
      assert TokensOfEach(texts[1..]) == [];
    } else if |texts| > 1 {
      TokenizeJoin(texts[1..]);
      TokenizeAcrossDelimiter(texts[0], ' ', Strings.Join(texts[1..], ' '));
    }
  }
}
