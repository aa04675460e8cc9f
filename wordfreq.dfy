/** `analyze_summary_word_frequency` and `simple_word_frequency`: count the
    tokens of the summary column that are longer than one character and not
    stop words, and list the most frequent, ties in order of first use. */
module WordFrequency {
  import opened Tables
  import Strings
  import Tokens

  /** The fixed stop-word list: particles, pronouns and common business terms. */
  const STOP_WORDS: set<string> := {
    "的", "了", "在", "是", "我", "有", "和", "就", "不", "人", "都", "一", "个", "上", "也", "很", "到",
    "说", "要", "去", "你", "会", "着", "没有", "看", "好", "自己", "这", "那", "现在", "可以", "但是",
    "还是", "因为", "什么", "如果", "所以", "对于", "关于", "根据", "通过", "进行", "实现", "完成", "工作",
    "项目", "技术", "开发", "设计", "系统", "管理", "服务", "产品", "业务", "市场", "客户", "用户", "公司",
    "企业", "部门", "团队", "人员", "时间", "费用", "成本", "价格", "收入", "支出", "资金", "银行", "转账",
    "收款", "付款"}

  /** A word and how often it occurs. */
  type Entry = (string, nat)

  /** The summary cell as text, with a null cell read as the empty string
      (`fillna('')`). */
  function SummaryText(r: Row): string
  {
    match Cell(r, SUMMARY)
    case Some(Text(s)) => s
    case _ => ""
  }

  /** `df['摘要'].fillna('')`: one text per row, the summary's own text,
      or the empty string for a null summary. */
  function SummaryTexts(rows: seq<Row>): (texts: seq<string>)
    ensures |texts| == |rows|
    ensures forall k :: 0 <= k < |rows| ==> texts[k] == SummaryText(rows[k])
    ensures forall k :: 0 <= k < |rows| && Cell(rows[k], SUMMARY).Some? && Cell(rows[k], SUMMARY).value.Text? ==>
      texts[k] == Cell(rows[k], SUMMARY).value.text
    ensures forall k :: 0 <= k < |rows| && Cell(rows[k], SUMMARY).None? ==> texts[k] == ""
  {
    seq(|rows|, k requires 0 <= k < |rows| => SummaryText(rows[k]))
  }

  /** The tokens of all summaries joined by single spaces: the tokens of
      each summary in turn, each a maximal run of one word class. */
  function Words(rows: seq<Row>): (ws: seq<string>)
    ensures forall k :: 0 <= k < |ws| ==> Tokens.IsToken(ws[k])
    ensures ws == Tokens.TokensOfEach(SummaryTexts(rows))
  {
    Tokens.TokenizeJoin(SummaryTexts(rows));
    Tokens.Tokenize(Strings.Join(SummaryTexts(rows), ' '))
  }

  /** `len(word.strip()) > 1 and word.strip() not in stop_words`. */
  predicate Keepable(w: string)
  {
    |Strings.Strip(w)| > 1 && Strings.Strip(w) !in STOP_WORDS
  }

  /** How many of `ws` equal `w`. */
  function Occurrences(ws: seq<string>, w: string): (n: nat)
    ensures n <= |ws|
    ensures n > 0 <==> w in ws
  {
    if ws == [] then 0
    else Occurrences(ws[..|ws| - 1], w) + (if ws[|ws| - 1] == w then 1 else 0)
  }

  /** Where `w` first occurs in `ws`; `|ws|` when it does not. */
  function First(ws: seq<string>, w: string): (i: nat)
    ensures w in ws ==> i < |ws| && ws[i] == w && w !in ws[..i]
    ensures w !in ws ==> i == |ws|
  {
    if ws == [] then 0
    else
      var init := ws[..|ws| - 1];
      assert ws == init + [ws[|ws| - 1]];
      if w in init then
        var i := First(init, w);
        assert ws[..i] == init[..i];
        i
      else if ws[|ws| - 1] == w then |ws| - 1
      else |ws|
  }

  /** The words of `ws` that pass `keep`, each once, in order of first
      occurrence: with `Keepable`, the key order of the `word_freq` dict. */
  function Vocabulary(ws: seq<string>, keep: string -> bool): (v: seq<string>)
    ensures forall w :: w in v <==> w in ws && keep(w)
    ensures forall i, j :: 0 <= i < j < |v| ==> First(ws, v[i]) < First(ws, v[j])
    ensures forall i, j :: 0 <= i < j < |v| ==> v[i] != v[j]
  {
    if ws == [] then []
    else
      var init := ws[..|ws| - 1];
      var last := ws[|ws| - 1];
      var v := Vocabulary(init, keep);
      FirstInPrefix(ws, init, last);
      if keep(last) && last !in v then
        assert forall i :: 0 <= i < |v| ==> First(ws, v[i]) < |init| == First(ws, last);
        v + [last]
      else v
  }

  /** Appending a word leaves the first occurrences of earlier words alone. */
  lemma FirstInPrefix(ws: seq<string>, init: seq<string>, last: string)
    requires ws == init + [last]
    ensures forall w :: w in init ==> First(ws, w) == First(init, w) < |init|
    ensures last !in init ==> First(ws, last) == |init|
    ensures forall w :: w in ws <==> w in init || w == last
  {
    assert ws[..|ws| - 1] == init;
  }

  /** `word_freq.items()` for the tokens `ws`: every kept word of `ws` once,
      in order of first occurrence, with its number of occurrences. */
  function Tally(ws: seq<string>): (items: seq<Entry>)
    ensures forall w :: w in ws && Keepable(w) <==> exists k :: 0 <= k < |items| && items[k].0 == w
    ensures forall k :: 0 <= k < |items| ==> Keepable(items[k].0) && items[k].1 == Occurrences(ws, items[k].0) >= 1
    ensures forall i, j :: 0 <= i < j < |items| ==>
      items[i].0 != items[j].0 && First(ws, items[i].0) < First(ws, items[j].0)
    ensures |items| == |Vocabulary(ws, Keepable)|
    ensures forall k :: 0 <= k < |items| ==>
      items[k] == (Vocabulary(ws, Keepable)[k], Occurrences(ws, Vocabulary(ws, Keepable)[k]))
  {
    var v := Vocabulary(ws, Keepable);
    var items := seq(|v|, k requires 0 <= k < |v| => (v[k], Occurrences(ws, v[k])));
    EntriesOfVocabulary(ws, v, items);
    items
  }

  /** The entries built from a vocabulary of `ws`, a word and its count each. */
  lemma EntriesOfVocabulary(ws: seq<string>, v: seq<string>, items: seq<Entry>)
    requires forall w :: w in v <==> w in ws && Keepable(w)
    requires forall i, j :: 0 <= i < j < |v| ==> First(ws, v[i]) < First(ws, v[j]) && v[i] != v[j]
    requires |items| == |v| && forall k :: 0 <= k < |v| ==> items[k] == (v[k], Occurrences(ws, v[k]))
    ensures forall w :: w in ws && Keepable(w) <==> exists k :: 0 <= k < |items| && items[k].0 == w
    ensures forall k :: 0 <= k < |items| ==> Keepable(items[k].0) && items[k].1 == Occurrences(ws, items[k].0) >= 1
    ensures forall i, j :: 0 <= i < j < |items| ==>
      items[i].0 != items[j].0 && First(ws, items[i].0) < First(ws, items[j].0)
  {
    forall w ensures w in ws && Keepable(w) <==> exists k :: 0 <= k < |items| && items[k].0 == w {
      if w in v {
        var k :| 0 <= k < |v| && v[k] == w;
        assert items[k].0 == w;
      }
    }
    forall k | 0 <= k < |items| ensures Keepable(items[k].0) && items[k].1 == Occurrences(ws, items[k].0) >= 1 {
      assert v[k] in v;
    }
  }

  predicate ByCountDescending(s: seq<Entry>)
  {
    forall i, j :: 0 <= i < j < |s| ==> s[i].1 >= s[j].1
  }

  /** Put `x` into a list sorted by descending count, ahead of the entries
      with the same count. */
  function InsertByCount(x: Entry, s: seq<Entry>): (r: seq<Entry>)
    ensures |r| == |s| + 1
    ensures r[0] == x || (s != [] && r[0] == s[0])
    ensures multiset(r) == multiset(s) + multiset{x}
  {
    if s == [] || x.1 >= s[0].1 then [x] + s
    else
      assert s == [s[0]] + s[1..];
      [s[0]] + InsertByCount(x, s[1..])
  }

  /** Inserting into a list sorted by descending count keeps it sorted. */
  lemma {:induction false} InsertKeepsCountOrder(x: Entry, s: seq<Entry>)
    requires ByCountDescending(s)
    ensures ByCountDescending(InsertByCount(x, s))
  {
    if s != [] && x.1 < s[0].1 {
      var rest := InsertByCount(x, s[1..]);
      InsertKeepsCountOrder(x, s[1..]);
      assert s[0].1 >= rest[0].1;
      PrependByCount(s[0], rest);
    } else {
      PrependByCount(x, s);
    }
  }

  /** An entry counted at least as often as the head of a sorted list may go
      in front of it. */
  lemma PrependByCount(x: Entry, s: seq<Entry>)
    requires ByCountDescending(s)
    requires s == [] || x.1 >= s[0].1
    ensures ByCountDescending([x] + s)
  {
    var r := [x] + s;
    forall i, j | 0 <= i < j < |r| ensures r[i].1 >= r[j].1 {
      if i == 0 && j > 1 {
        assert s[0].1 >= s[j - 1].1;
      }
    }
  }

  /** `sorted(items, key=lambda x: x[1], reverse=True)`. */
  function SortByCount(items: seq<Entry>): (s: seq<Entry>)
    ensures |s| == |items|
    ensures multiset(s) == multiset(items)
    ensures ByCountDescending(s)
  {
    if items == [] then []
    else
      assert items == [items[0]] + items[1..];
      InsertKeepsCountOrder(items[0], SortByCount(items[1..]));
      InsertByCount(items[0], SortByCount(items[1..]))
  }

  function Max(a: int, b: int): int
  {
    if a >= b then a else b
  }

  /** Python's `s[:n]`: a negative `n` counts from the end. */
  function PrefixTo<T>(s: seq<T>, n: int): (r: seq<T>)
    ensures |r| == if n >= 0 then (if n <= |s| then n else |s|) else Max(0, |s| + n)
    ensures r == s[..|r|]
  {
    if n >= 0 then (if n <= |s| then s[..n] else s)
    else if |s| + n > 0 then s[..|s| + n]
    else []
  }

  /** The word-frequency list of the tokens `ws`, cut to `topN` entries. */
  function Ranked(ws: seq<string>, topN: int): seq<Entry>
  {
    PrefixTo(SortByCount(Tally(ws)), topN)
  }

  /** The counting loop of `simple_word_frequency`: `order` is the key order
      of the `word_freq` dict and `freq` its contents. Afterwards the keys are
      the kept words in order of first occurrence, each mapped to its number
      of occurrences. */
  method CountWords(words: seq<string>) returns (order: seq<string>, freq: map<string, nat>)
    ensures order == Vocabulary(words, Keepable)
    ensures forall w :: w in freq <==> w in order
    ensures forall w :: w in freq ==> freq[w] == Occurrences(words, w)
  {
    order := [];
    freq := map[];
    for i := 0 to |words|
      invariant order == Vocabulary(words[..i], Keepable)
      invariant forall w :: w in freq <==> w in order
      invariant forall w :: w in freq ==> freq[w] == Occurrences(words[..i], w)
    {
      var word := words[i];
      var kept := |Strings.Strip(word)| > 1 && Strings.Strip(word) !in STOP_WORDS;
      VocabularyStep(words, i, Keepable);
      if kept {
        var count := if word in freq then freq[word] else 0;
        if word !in freq {
          order := order + [word];
        }
        freq := freq[word := count + 1];
      }
    }
    assert words[..|words|] == words;
  }

  /** One more word: the vocabulary grows by it when it passes `keep` and is
      new, and only its own count moves. */
  lemma VocabularyStep(words: seq<string>, i: nat, keep: string -> bool)
    requires i < |words|
    ensures var v := Vocabulary(words[..i], keep);
      Vocabulary(words[..i + 1], keep) == v + (if keep(words[i]) && words[i] !in v then [words[i]] else [])
    ensures forall w :: Occurrences(words[..i + 1], w) == Occurrences(words[..i], w) + (if words[i] == w then 1 else 0)
  {
    var seen := words[..i + 1];
    assert seen[..|seen| - 1] == words[..i] && seen[|seen| - 1] == words[i];
  }

  /** `simple_word_frequency(df, top_n)`: count, sort, cut. The column must
      exist (je_analyzer indexes it directly). Each listed word is kept by the
      length and stop-word test and carries its number of occurrences; no
      word is listed twice; the counts descend. */
  method SimpleWordFrequency(t: Table, topN: int := 10) returns (r: seq<Entry>)
    requires SUMMARY in t.columns
    ensures r == Ranked(Words(t.rows), topN)
    ensures forall k :: 0 <= k < |r| ==>
      Keepable(r[k].0) && r[k].1 == Occurrences(Words(t.rows), r[k].0) >= 1
    ensures forall i, j :: 0 <= i < j < |r| ==> r[i].0 != r[j].0 && r[i].1 >= r[j].1
  {
    var words := Tokens.Tokenize(Strings.Join(SummaryTexts(t.rows), ' '));
    var order, freq := CountWords(words);
    var items := seq(|order|, k requires 0 <= k < |order| => (order[k], freq[order[k]]));
    assert items == Tally(words);
    r := PrefixTo(SortByCount(items), topN);
    RankedWordsMeaning(words, topN);
  }

  /** `analyze_summary_word_frequency(df, top_n)`: nothing without a summary
      column, otherwise the list of `simple_word_frequency`. */
  method AnalyzeSummaryWordFrequency(t: Table, topN: int := 10) returns (r: seq<Entry>)
    ensures SUMMARY !in t.columns ==> r == []
    ensures SUMMARY in t.columns ==> r == Ranked(Words(t.rows), topN)
  {
    if SUMMARY !in t.columns {
      return [];
    }
    r := SimpleWordFrequency(t, topN);
  }

  /** Every entry of the sorted list comes from the tally. */
  lemma SortedEntryFromTally(ws: seq<string>, e: Entry)
    requires e in SortByCount(Tally(ws))
    ensures Keepable(e.0) && e.1 == Occurrences(ws, e.0) >= 1
  {
    var items := Tally(ws);
    assert e in multiset(SortByCount(items));
    var k :| 0 <= k < |items| && items[k] == e;
  }

  /** What the list says: kept words only, each with its number of
      occurrences, each once, counts descending. */
  lemma RankedWordsMeaning(ws: seq<string>, topN: int)
    ensures var r := Ranked(ws, topN);
      && (forall k :: 0 <= k < |r| ==> Keepable(r[k].0) && r[k].1 == Occurrences(ws, r[k].0) >= 1)
      && (forall i, j :: 0 <= i < j < |r| ==> r[i].0 != r[j].0 && r[i].1 >= r[j].1)
  {
    var s := SortByCount(Tally(ws));
    forall k | 0 <= k < |s| ensures Keepable(s[k].0) && s[k].1 == Occurrences(ws, s[k].0) >= 1 {
      SortedEntryFromTally(ws, s[k]);
    }
    SortDistinct(Tally(ws));
    PrefixOfSorted(ws, s, Ranked(ws, topN));
  }

  /** A prefix of a sorted tally keeps its entries' meaning and order. */
  lemma PrefixOfSorted(ws: seq<string>, s: seq<Entry>, r: seq<Entry>)
    requires |r| <= |s| && r == s[..|r|]
    requires forall k :: 0 <= k < |s| ==> Keepable(s[k].0) && s[k].1 == Occurrences(ws, s[k].0) >= 1
    requires DistinctWords(s) && ByCountDescending(s)
    ensures forall k :: 0 <= k < |r| ==> Keepable(r[k].0) && r[k].1 == Occurrences(ws, r[k].0) >= 1
    ensures forall i, j :: 0 <= i < j < |r| ==> r[i].0 != r[j].0 && r[i].1 >= r[j].1
  {
    assert forall k :: 0 <= k < |r| ==> r[k] == s[k];
  }

  predicate DistinctWords(s: seq<Entry>)
  {
    forall i, j :: 0 <= i < j < |s| ==> s[i].0 != s[j].0
  }

  function WordsOf(s: seq<Entry>): set<string>
  {
    set k | 0 <= k < |s| :: s[k].0
  }

  /** The words of a list with one more entry in front. */
  lemma WordsOfPrepend(e: Entry, s: seq<Entry>)
    ensures WordsOf([e] + s) == {e.0} + WordsOf(s)
  {
    var r := [e] + s;
    assert r[0] == e;
    forall w | w in WordsOf(s) ensures w in WordsOf(r) {
      var k :| 0 <= k < |s| && s[k].0 == w;
      assert r[k + 1] == s[k];
    }
    forall w | w in WordsOf(r) ensures w in {e.0} + WordsOf(s) {
      var k :| 0 <= k < |r| && r[k].0 == w;
      if k > 0 {
        assert s[k - 1] == r[k];
      }
    }
  }

  /** A list with an entry in front lists each word once exactly when the
      rest does and does not list the front word. */
  lemma DistinctPrepend(e: Entry, s: seq<Entry>)
    ensures DistinctWords([e] + s) <==> DistinctWords(s) && e.0 !in WordsOf(s)
  {
    var r := [e] + s;
    assert r[0] == e;
    if DistinctWords(r) {
      forall i, j | 0 <= i < j < |s| ensures s[i].0 != s[j].0 {
        assert r[i + 1] == s[i] && r[j + 1] == s[j];
      }
      forall k | 0 <= k < |s| ensures s[k].0 != e.0 {
        assert r[k + 1] == s[k];
      }
    }
    if DistinctWords(s) && e.0 !in WordsOf(s) {
      forall i, j | 0 <= i < j < |r| ensures r[i].0 != r[j].0 {
        if i == 0 {
          assert r[j] == s[j - 1];
          assert s[j - 1].0 in WordsOf(s);
        } else {
          assert r[i] == s[i - 1] && r[j] == s[j - 1];
        }
      }
    }
  }

  /** Inserting an entry for a new word keeps every word listed once. */
  lemma {:induction false} InsertDistinct(x: Entry, s: seq<Entry>)
    requires DistinctWords(s) && x.0 !in WordsOf(s)
    ensures DistinctWords(InsertByCount(x, s))
    ensures WordsOf(InsertByCount(x, s)) == WordsOf(s) + {x.0}
  {
    if s == [] || x.1 >= s[0].1 {
      WordsOfPrepend(x, s);
      DistinctPrepend(x, s);
    } else {
      var tail := InsertByCount(x, s[1..]);
      assert s == [s[0]] + s[1..];
      WordsOfPrepend(s[0], s[1..]);
      DistinctPrepend(s[0], s[1..]);
      InsertDistinct(x, s[1..]);
      WordsOfPrepend(s[0], tail);
      DistinctPrepend(s[0], tail);
    }
  }

  /** Sorting lists the same words, each once. */
  lemma {:induction false} SortDistinct(items: seq<Entry>)
    requires DistinctWords(items)
    ensures DistinctWords(SortByCount(items))
    ensures WordsOf(SortByCount(items)) == WordsOf(items)
  {
    if items != [] {
      var rest := items[1..];
      assert items == [items[0]] + rest;
      WordsOfPrepend(items[0], rest);
      DistinctPrepend(items[0], rest);
      SortDistinct(rest);
      InsertDistinct(items[0], SortByCount(rest));
    }
  }

  /** `a` is listed before `b`: counted more often, or as often and first
      used earlier in `ws`. */
  predicate Before(ws: seq<string>, a: Entry, b: Entry)
  {
    a.1 > b.1 || (a.1 == b.1 && First(ws, a.0) < First(ws, b.0))
  }

  /** Descending by count, and among equal counts in order of first
      occurrence in `ws`. */
  predicate CountThenFirst(ws: seq<string>, s: seq<Entry>)
  {
    forall i, j :: 0 <= i < j < |s| ==> Before(ws, s[i], s[j])
  }

  /** An entry listed before the head of a list so ordered may go in front of it. */
  lemma PrependCountThenFirst(ws: seq<string>, x: Entry, s: seq<Entry>)
    requires CountThenFirst(ws, s)
    requires s == [] || Before(ws, x, s[0])
    ensures CountThenFirst(ws, [x] + s)
  {
    var r := [x] + s;
    forall i, j | 0 <= i < j < |r| ensures Before(ws, r[i], r[j]) {
      if i == 0 && j > 1 {
        assert Before(ws, s[0], s[j - 1]);
      }
    }
  }

  /** An entry whose word occurs before every word of a list so ordered
      lands ahead of the entries with its count. */
  lemma {:induction false} InsertCountThenFirst(ws: seq<string>, x: Entry, s: seq<Entry>)
    requires CountThenFirst(ws, s)
    requires forall k :: 0 <= k < |s| ==> First(ws, x.0) < First(ws, s[k].0)
    ensures CountThenFirst(ws, InsertByCount(x, s))
  {
    if s != [] && x.1 < s[0].1 {
      var tail := InsertByCount(x, s[1..]);
      assert CountThenFirst(ws, s[1..]);
      InsertCountThenFirst(ws, x, s[1..]);
      assert Before(ws, s[0], tail[0]);
      PrependCountThenFirst(ws, s[0], tail);
    } else {
      PrependCountThenFirst(ws, x, s);
    }
  }

  /** Sorting a list whose words occur in increasing order of first
      occurrence keeps that order among equal counts: the sort is stable. */
  lemma {:induction false} SortCountThenFirst(ws: seq<string>, items: seq<Entry>)
    requires forall i, j :: 0 <= i < j < |items| ==> First(ws, items[i].0) < First(ws, items[j].0)
    ensures CountThenFirst(ws, SortByCount(items))
  {
    if items != [] {
      var rest := items[1..];
      var sorted := SortByCount(rest);
      SortCountThenFirst(ws, rest);
      forall k | 0 <= k < |sorted| ensures First(ws, items[0].0) < First(ws, sorted[k].0) {
        assert sorted[k] in multiset(rest);
        var m :| 0 <= m < |rest| && rest[m] == sorted[k];
        assert items[m + 1] == sorted[k];
      }
      InsertCountThenFirst(ws, items[0], sorted);
    }
  }

  /** Ties in the list are in order of first use in the token stream. */
  lemma RankedTiesInFirstUseOrder(ws: seq<string>, topN: int)
    ensures CountThenFirst(ws, Ranked(ws, topN))
  {
    SortCountThenFirst(ws, Tally(ws));
  }

  /** No word left off the list occurs more often than a listed word, and
      with room for every word the list holds every kept word. */
  lemma RankedHoldsMostFrequent(ws: seq<string>, topN: int, w: string)
    requires w in ws && Keepable(w)
    ensures var r := Ranked(ws, topN);
      || (exists k :: 0 <= k < |r| && r[k].0 == w)
      || (forall k :: 0 <= k < |r| ==> Occurrences(ws, w) <= r[k].1)
    ensures topN >= |Vocabulary(ws, Keepable)| ==> exists k :: 0 <= k < |Ranked(ws, topN)| && Ranked(ws, topN)[k].0 == w
  {
    var s := SortByCount(Tally(ws));
    var j := SortedPosition(ws, w);
    var r := Ranked(ws, topN);
    if j < |r| {
      assert r[j] == s[j];
    } else {
      forall k | 0 <= k < |r| ensures Occurrences(ws, w) <= r[k].1 {
        assert r[k] == s[k];
      }
    }
  }

  /** Where a kept word stands in the sorted list. */
  lemma SortedPosition(ws: seq<string>, w: string) returns (j: nat)
    requires w in ws && Keepable(w)
    ensures var s := SortByCount(Tally(ws));
      j < |s| && s[j] == (w, Occurrences(ws, w))
  {
    var items := Tally(ws);
    var s := SortByCount(items);
    var v := Vocabulary(ws, Keepable);
    var p :| 0 <= p < |v| && v[p] == w;
    assert items[p] in multiset(s);
    j :| 0 <= j < |s| && s[j] == items[p];
  }

  /** For a token the stripped-length and stop-word test reads plainly:
      longer than one character and not a stop word. */
  lemma KeepableToken(w: string)
    requires Tokens.IsToken(w)
    ensures Keepable(w) <==> |w| > 1 && w !in STOP_WORDS
  {
    Tokens.TokenSpaceFree(w);
  }

  /** The summaries are joined by spaces, so the token stream is the tokens
      of each summary in turn, and every listed word is a token longer than
      one character that is not a stop word. */
  lemma ListedWordsAreTokens(rows: seq<Row>, topN: int)
    ensures Words(rows) == Tokens.TokensOfEach(SummaryTexts(rows))
    ensures var r := Ranked(Words(rows), topN);
      forall k :: 0 <= k < |r| ==> Tokens.IsToken(r[k].0) && |r[k].0| > 1 && r[k].0 !in STOP_WORDS
  {
    var ws := Words(rows);
    var r := Ranked(ws, topN);
    Tokens.TokenizeJoin(SummaryTexts(rows));
    RankedWordsMeaning(ws, topN);
    forall k | 0 <= k < |r| ensures Tokens.IsToken(r[k].0) && |r[k].0| > 1 && r[k].0 !in STOP_WORDS {
      var i :| 0 <= i < |ws| && ws[i] == r[k].0;
      KeepableToken(r[k].0);
    }
  }
}
