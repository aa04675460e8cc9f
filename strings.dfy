/** The Python string primitives the analyzer relies on: `str.strip()`,
    `str.split(sep)` and `sep.join(parts)` for a one-character separator. */
module Strings {

  /** The characters Python's `str.isspace()` accepts; `str.strip()` with no
      argument removes exactly these from both ends. */
  predicate IsSpace(c: char)
  {
    || c == ' '
    || '\t' <= c <= '\r'
    || '\U{1C}' <= c <= '\U{1F}'
    || c == '\U{85}' || c == '\U{A0}' || c == '\U{1680}'
    || '\U{2000}' <= c <= '\U{200A}'
    || c == '\U{2028}' || c == '\U{2029}' || c == '\U{202F}' || c == '\U{205F}'
    || c == '\U{3000}'
  }

  /** All characters are whitespace: `not s or not s.strip()` holds. */
  predicate Blank(s: string)
  {
    forall i :: 0 <= i < |s| ==> IsSpace(s[i])
  }

  /** No character is whitespace. */
  predicate SpaceFree(s: string)
  {
    forall i :: 0 <= i < |s| ==> !IsSpace(s[i])
  }

  /** How many characters `s.lstrip()` removes. */
  function LeadingSpace(s: string): (n: nat)
    ensures n <= |s|
    ensures forall i :: 0 <= i < n ==> IsSpace(s[i])
    ensures n == |s| || !IsSpace(s[n])
  {
    if s == [] || !IsSpace(s[0]) then 0 else 1 + LeadingSpace(s[1..])
  }

  /** Where the text that `s.rstrip()` keeps ends. */
  function TrailingSpaceStart(s: string): (n: nat)
    ensures n <= |s|
    ensures forall i :: n <= i < |s| ==> IsSpace(s[i])
    ensures n == 0 || !IsSpace(s[n - 1])
  {
    if s == [] || !IsSpace(s[|s| - 1]) then |s| else TrailingSpaceStart(s[..|s| - 1])
  }

  /** `s.strip()`: the text between the leading and the trailing whitespace. */
  function Strip(s: string): string
  {
    var lo := LeadingSpace(s);
    if lo == |s| then [] else s[lo..TrailingSpaceStart(s)]
  }

  /** What `s.strip()` returns: `s` is the result with only whitespace
      around it, the result neither starts nor ends with whitespace, it is
      empty exactly when `s` is blank, and it holds no character `s` lacks. */
  lemma StripMeaning(s: string)
    ensures var r := Strip(s);
      && (exists lo :: 0 <= lo <= |s| - |r| && r == s[lo..lo + |r|] && Blank(s[..lo]) && Blank(s[lo + |r|..]))
      && (r == [] || (!IsSpace(r[0]) && !IsSpace(r[|r| - 1])))
      && (r == [] <==> Blank(s))
      && (forall c :: c in r ==> c in s)
  {
    var lo := LeadingSpace(s);
    var hi := TrailingSpaceStart(s);
    if lo == |s| {
      assert s[..lo] == s && s[lo..] == [];
    } else {
      Trimmed(s, lo, hi);
    }
  }

  /** What is left between a leading whitespace run ending at `lo` and a
      trailing one starting at `hi`, when the leading run is not everything. */
  lemma Trimmed(s: string, lo: nat, hi: nat)
    requires lo < |s| && hi <= |s|
    requires forall i :: 0 <= i < lo ==> IsSpace(s[i])
    requires !IsSpace(s[lo])
    requires forall i :: hi <= i < |s| ==> IsSpace(s[i])
    requires hi == 0 || !IsSpace(s[hi - 1])
    ensures lo < hi
    ensures var r := s[lo..hi]; r == s[lo..lo + |r|] && Blank(s[..lo]) && Blank(s[lo + |r|..])
    ensures !IsSpace(s[lo..hi][0]) && !IsSpace(s[lo..hi][hi - lo - 1])
    ensures !Blank(s)
    ensures forall c :: c in s[lo..hi] ==> c in s
  {
    assert forall i :: 0 <= i < lo ==> s[..lo][i] == s[i];
    assert forall i :: 0 <= i < |s| - hi ==> s[hi..][i] == s[hi + i];
    forall c | c in s[lo..hi] ensures c in s {
      var k :| 0 <= k < hi - lo && s[lo..hi][k] == c;
      assert s[lo + k] == c;
    }
  }

  /** Neither starts nor ends with whitespace. */
  predicate Unpadded(s: string)
  {
    s == [] || (!IsSpace(s[0]) && !IsSpace(s[|s| - 1]))
  }

  /** `s.strip() == s` exactly when `s` neither starts nor ends with whitespace. */
  lemma StripUnchanged(s: string)
    ensures Strip(s) == s <==> Unpadded(s)
  {
    StripMeaning(s);
    if Unpadded(s) && s != [] {
      assert LeadingSpace(s) == 0 && TrailingSpaceStart(s) == |s|;
      assert s[0..|s|] == s;
    }
  }

  /** A string holding the separator splits into at least two pieces. */
  lemma SplitAtSeparator(s: string, sep: char)
    requires sep in s
    ensures |Split(s, sep)| >= 2
  {
  }

  /** Python's `sep.join(parts)`. */
  function Join(parts: seq<string>, sep: char): string
  {
    if |parts| == 0 then []
    else if |parts| == 1 then parts[0]
    else parts[0] + [sep] + Join(parts[1..], sep)
  }

  /** Python's `s.split(sep)`: the pieces between separators, empty ones
      included. There is always at least one piece, no piece holds the
      separator, and joining the pieces back gives `s`. */
  function Split(s: string, sep: char): (parts: seq<string>)
    ensures |parts| >= 1
    ensures forall k :: 0 <= k < |parts| ==> sep !in parts[k]
    ensures Join(parts, sep) == s
  {
    if s == [] then [[]]
    else
      var rest := Split(s[1..], sep);
      if s[0] == sep then
        assert Join([[]] + rest, sep) == [sep] + Join(rest, sep);
        [[]] + rest
      else
        var parts := [[s[0]] + rest[0]] + rest[1..];
        assert parts[1..] == rest[1..];
        assert |rest| > 1 ==> Join(rest, sep) == rest[0] + [sep] + Join(rest[1..], sep);
        parts
  }

  /** Splitting a separator-free piece followed by a separator peels that piece off. */
  lemma {:induction false} SplitAfterPiece(a: string, b: string, sep: char)
    requires sep !in a
    ensures Split(a + [sep] + b, sep) == [a] + Split(b, sep)
  {
    if a == [] {
      assert a + [sep] + b == [sep] + b;
      assert ([sep] + b)[1..] == b;
    } else {
      assert (a + [sep] + b)[1..] == a[1..] + [sep] + b;
      SplitAfterPiece(a[1..], b, sep);
      assert [a[0]] + a[1..] == a;
    }
  }

  /** A separator-free string splits into itself alone. */
  lemma {:induction false} SplitSeparatorFree(a: string, sep: char)
    requires sep !in a
    ensures Split(a, sep) == [a]
  {
    if a != [] {
      SplitSeparatorFree(a[1..], sep);
      assert [a[0]] + a[1..] == a;
    }
  }

  /** The other half of the round trip: splitting a join of separator-free
      pieces gives the pieces back. */
  lemma {:induction false} SplitJoin(parts: seq<string>, sep: char)
    requires |parts| >= 1
    requires forall k :: 0 <= k < |parts| ==> sep !in parts[k]
    ensures Split(Join(parts, sep), sep) == parts
  {
    if |parts| == 1 {
      SplitSeparatorFree(parts[0], sep);
    } else {
      SplitJoin(parts[1..], sep);
      SplitAfterPiece(parts[0], Join(parts[1..], sep), sep);
      assert [parts[0]] + parts[1..] == parts;
    }
  }

  /** `[p.strip() for p in parts]`: one piece per part, each neither
      starting nor ending with whitespace, empty exactly when its part is
      blank, and unchanged when its part was already so. */
  function StripEach(parts: seq<string>): (r: seq<string>)
    ensures |r| == |parts|
    ensures forall k :: 0 <= k < |r| ==> r[k] == Strip(parts[k])
    ensures forall k :: 0 <= k < |r| ==> Unpadded(r[k]) && (r[k] == [] <==> Blank(parts[k]))
    ensures forall k :: 0 <= k < |r| && Unpadded(parts[k]) ==> r[k] == parts[k]
  {
    var r := seq(|parts|, k requires 0 <= k < |parts| => Strip(parts[k]));
    assert forall k :: 0 <= k < |r| ==> Unpadded(r[k]) && (r[k] == [] <==> Blank(parts[k])) by {
      forall k | 0 <= k < |r| ensures Unpadded(r[k]) && (r[k] == [] <==> Blank(parts[k])) {
        StripMeaning(parts[k]);
      }
    }
    assert forall k :: 0 <= k < |r| && Unpadded(parts[k]) ==> r[k] == parts[k] by {
      forall k | 0 <= k < |r| && Unpadded(parts[k]) ensures r[k] == parts[k] {
        StripUnchanged(parts[k]);
      }
    }
    r
  }
}
