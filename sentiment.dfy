/**
 * The polarity path: the analyser's raw tab/comma dump is parsed into token
 * records, a colon-separated lexicon gives each base form a score, every
 * record is tagged with its score or 'notfound', the numeric tags form the
 * sample, and a "mean" is reported.
 */
module Sentiment {
  import opened PyText

  datatype Option<T> = None | Some(value: T)

  /** A Python float as this page uses it: a number, or NaN from a failed conversion. */
  datatype Float = Num(value: real) | NaN

  /** The 'PN' entry of a token record: not yet set, the string 'notfound', or a float. */
  datatype Pn = Unset | NotFound | Score(score: Float)

  /**
   * One token record, the dict `{'Surface', 'POS', 'BaseForm'}` built by
   * `mecab_parse`; `add_pnvalue` later stores 'PN' into the same dict.
   */
  class Word {
    const surface: string
    const pos: string
    const baseForm: string
    var pn: Pn

    constructor (surface: string, pos: string, baseForm: string)
      ensures this.surface == surface && this.pos == pos && this.baseForm == baseForm
      ensures pn == Unset
    {
      this.surface := surface;
      this.pos := pos;
      this.baseForm := baseForm;
      pn := Unset;
    }
  }

  // ---------------------------------------------------------------------------
  // mecab_parse

  /** `re.split('\t|,', line)`: the fields of one line of the raw dump. */
  function Fields(line: string): (f: seq<string>)
    ensures |f| >= 1
  {
    Split(line, {'\t', ','})
  }

  /** `node.split("\n")`: the lines of the raw dump. */
  function Lines(output: string): (lines: seq<string>)
    ensures |lines| >= 1
  {
    Split(output, {'\n'})
  }

  /** A line `mecab_parse` keeps: it has more than 8 fields. */
  predicate LongEnough(line: string) {
    |Fields(line)| > 8
  }

  /** The lines that are kept, in their original order. */
  function KeptLines(lines: seq<string>): (kept: seq<string>)
    ensures |kept| <= |lines|
  {
    if lines == [] then []
    else
      var last := lines[|lines| - 1];
      KeptLines(lines[..|lines| - 1]) + (if LongEnough(last) then [last] else [])
  }

  /** Every kept line is long enough, and a line is kept iff it occurs and is long enough. */
  lemma {:induction false} KeptLinesMembers(lines: seq<string>, line: string)
    ensures line in KeptLines(lines) <==> line in lines && LongEnough(line)
  {
    if lines != [] {
      var init := lines[..|lines| - 1];
      KeptLinesMembers(init, line);
      assert lines == init + [lines[|lines| - 1]];
    }
  }

  /** `w` is the record built from `line`: fields 0, 1 and 8, and no 'PN' yet. */
  ghost predicate RecordOf(w: Word, line: string)
    reads w
  {
    var f := Fields(line);
    |f| > 8 && w.surface == f[0] && w.pos == f[1] && w.baseForm == f[8] && w.pn == Unset
  }

  /**
   * `mecab_parse`: one record per line of the dump with more than 8 fields,
   * in line order, with Surface = field 0, POS = field 1, BaseForm = field 8;
   * every other line is dropped.
   */
  method MecabParse(output: string) returns (words: seq<Word>)
    ensures |words| == |KeptLines(Lines(output))|
    ensures forall i :: 0 <= i < |words| ==> RecordOf(words[i], KeptLines(Lines(output))[i])
    ensures forall i :: 0 <= i < |words| ==> fresh(words[i])
  {
    var lines := Lines(output);
    words := [];
    for k := 0 to |lines|
      invariant |words| == |KeptLines(lines[..k])|
      invariant forall i :: 0 <= i < |words| ==> RecordOf(words[i], KeptLines(lines[..k])[i])
      invariant forall i :: 0 <= i < |words| ==> fresh(words[i])
    {
      var line := lines[k];
      assert lines[..k + 1][..k] == lines[..k];
      var l := Fields(line);
      if |l| > 8 {
        var d := new Word(l[0], l[1], l[8]);
        words := words + [d];
      }
    }
    assert lines[..|lines|] == lines;
  }

  // ---------------------------------------------------------------------------
  // The lexicon

  /** `row.split(":")[0]`: the word of a lexicon row (`RowSegments` locates it). */
  function WordOf(row: string): (w: string)
    ensures |w| <= |row| && ':' !in w
  {
    FirstField(row, {':'});
    Split(row, {':'})[0]
  }

  /** `row.split(":")[-1]`: the score text of a lexicon row (`RowSegments` locates it). */
  function ScoreTextOf(row: string): (s: string)
    ensures |s| <= |row| && ':' !in s
  {
    LastField(row, {':'});
    var segments := Split(row, {':'});
    segments[|segments| - 1]
  }

  /**
   * `set_index("word")["score"].to_dict()` after `pd.to_numeric(..., errors="coerce")`:
   * each row maps its word to its converted score; a later row overwrites an
   * earlier one with the same word. `toNumeric` stands for the conversion and
   * yields NaN for text that is not a number; such rows stay in the mapping.
   */
  function Lexicon(rows: seq<string>, toNumeric: string -> Float): (lex: map<string, Float>)
    ensures |lex| <= |rows|
  {
    if rows == [] then map[]
    else
      var last := rows[|rows| - 1];
      var lex := Lexicon(rows[..|rows| - 1], toNumeric);
      assert (lex.Keys + {WordOf(last)}) == lex[WordOf(last) := toNumeric(ScoreTextOf(last))].Keys;
      lex[WordOf(last) := toNumeric(ScoreTextOf(last))]
  }

  /** The lexicon has an entry for exactly the words of its rows. */
  lemma LexiconKeys(rows: seq<string>, toNumeric: string -> Float, w: string)
    ensures w in Lexicon(rows, toNumeric) <==> exists i :: 0 <= i < |rows| && WordOf(rows[i]) == w
  {
    if w in Lexicon(rows, toNumeric) {
      KeyHasRow(rows, toNumeric, w);
    }
    if exists i :: 0 <= i < |rows| && WordOf(rows[i]) == w {
      var i :| 0 <= i < |rows| && WordOf(rows[i]) == w;
      RowWordIsKey(rows, toNumeric, i);
    }
  }

  /** Every row's word is a key. */
  lemma {:induction false} RowWordIsKey(rows: seq<string>, toNumeric: string -> Float, i: nat)
    requires i < |rows|
    ensures WordOf(rows[i]) in Lexicon(rows, toNumeric)
  {
    var n := |rows| - 1;
    LexiconSnocKeys(rows, toNumeric);
    if i < n {
      var init := rows[..n];
      RowWordIsKey(init, toNumeric, i);
      assert init[i] == rows[i];
    }
  }

  /** Every key is the word of some row. */
  lemma {:induction false} KeyHasRow(rows: seq<string>, toNumeric: string -> Float, w: string)
    requires w in Lexicon(rows, toNumeric)
    ensures exists i :: 0 <= i < |rows| && WordOf(rows[i]) == w
  {
    var n := |rows| - 1;
    var init := rows[..n];
    LexiconSnocKeys(rows, toNumeric);
    if w == WordOf(rows[n]) {
      assert 0 <= n < |rows| && WordOf(rows[n]) == w;
    } else {
      assert w in Lexicon(init, toNumeric);
      KeyHasRow(init, toNumeric, w);
      var i :| 0 <= i < n && WordOf(init[i]) == w;
      assert init[i] == rows[i];
      assert 0 <= i < |rows| && WordOf(rows[i]) == w;
    }
  }

  /** The last row adds its word to the keys of the earlier rows. */
  lemma LexiconSnocKeys(rows: seq<string>, toNumeric: string -> Float)
    requires rows != []
    ensures Lexicon(rows, toNumeric).Keys ==
      Lexicon(rows[..|rows| - 1], toNumeric).Keys + {WordOf(rows[|rows| - 1])}
  {
  }

  /** Last write wins: a word's entry is the converted score of the last row with that word. */
  lemma {:induction false} LastRowWins(rows: seq<string>, toNumeric: string -> Float, i: nat)
    requires i < |rows|
    requires forall j :: i < j < |rows| ==> WordOf(rows[j]) != WordOf(rows[i])
    ensures WordOf(rows[i]) in Lexicon(rows, toNumeric)
    ensures Lexicon(rows, toNumeric)[WordOf(rows[i])] == toNumeric(ScoreTextOf(rows[i]))
  {
    var n := |rows| - 1;
    if i < n {
      var init := rows[..n];
      forall j | i < j < |init| ensures WordOf(init[j]) != WordOf(init[i]) {
        assert init[j] == rows[j];
      }
      LastRowWins(init, toNumeric, i);
      assert init[i] == rows[i];
    }
  }

  /** A row's word is the text before its first ':' and its score text the text after its last ':'. */
  lemma RowSegments(row: string)
    ensures var w := WordOf(row);
      w == row[..|w|] && (|w| == |row| || row[|w|] == ':')
    ensures var s := ScoreTextOf(row);
      s == row[|row| - |s|..] && (|s| == |row| || row[|row| - |s| - 1] == ':')
  {
    FirstField(row, {':'});
    LastField(row, {':'});
  }

  /**
   * A row of the lexicon file, 良い:adj:1:0.999999 (word, part of speech, sign,
   * score): its word is 良い and its score text 0.999999.
   */
  lemma LexiconRowScenario()
    ensures WordOf("良い" + ":" + "adj" + ":" + "1" + ":" + "0.999999") == "良い"
    ensures ScoreTextOf("良い" + ":" + "adj" + ":" + "1" + ":" + "0.999999") == "0.999999"
  {
    var segments := ["良い", "adj", "1", "0.999999"];
    assert Join(segments, ':') == "良い" + ":" + "adj" + ":" + "1" + ":" + "0.999999";
    SplitJoin(segments, ':', {':'});
  }

  // ---------------------------------------------------------------------------
  // add_pnvalue, pn_values, get_mean

  /** The tag `add_pnvalue` gives a base form: its lexicon score, or 'notfound'. */
  function PnFor(baseForm: string, lex: map<string, Float>): (pn: Pn)
    ensures pn != Unset
    ensures pn.Score? <==> baseForm in lex
    ensures pn.Score? ==> pn.score == lex[baseForm]
  {
    if baseForm in lex then Score(lex[baseForm]) else NotFound
  }

  /**
   * `add_pnvalue`: stores the tag into each record in place and returns the
   * same records in the same order. Only the 'PN' entry changes.
   */
  method AddPnValue(words: seq<Word>, lex: map<string, Float>) returns (tagged: seq<Word>)
    modifies set w | w in words
    ensures tagged == words
    ensures forall i :: 0 <= i < |words| ==> words[i].pn == PnFor(words[i].baseForm, lex)
  {
    tagged := [];
    for k := 0 to |words|
      invariant tagged == words[..k]
      invariant forall i :: 0 <= i < k ==> words[i].pn == PnFor(words[i].baseForm, lex)
    {
      var word := words[k];
      var base := word.baseForm;
      var pn: Pn;
      if base in lex {
        pn := Score(lex[base]);
      } else {
        pn := NotFound;
      }
      word.pn := pn;
      tagged := tagged + [word];
    }
  }

  /**
   * The page's `mecab_parse` then `add_pnvalue`: fresh records, one per kept
   * line of the dump, each carrying its fields and the tag of its base form.
   */
  method ParseAndTag(output: string, lex: map<string, Float>) returns (words: seq<Word>)
    ensures |words| == |KeptLines(Lines(output))|
    ensures forall i :: 0 <= i < |words| ==> fresh(words[i])
    ensures forall i :: 0 <= i < |words| ==>
      var f := Fields(KeptLines(Lines(output))[i]);
      |f| > 8 && words[i].surface == f[0] && words[i].pos == f[1] && words[i].baseForm == f[8] &&
      words[i].pn == PnFor(f[8], lex)
  {
    var parsed := MecabParse(output);
    words := AddPnValue(parsed, lex);
  }

  /**
   * `pn_values`: the float tags, in record order. Records with no tag or
   * tagged 'notfound' are skipped; a NaN score is a float and is kept.
   */
  function PnValues(words: seq<Word>): (values: seq<Float>)
    reads set w | w in words
    ensures |values| <= |words|
  {
    if words == [] then []
    else
      var last := words[|words| - 1];
      PnValues(words[..|words| - 1]) + (if last.pn.Score? then [last.pn.score] else [])
  }

  /** A value is in the sample iff some record carries it as its score. */
  lemma {:induction false} PnValuesMembers(words: seq<Word>, x: Float)
    ensures x in PnValues(words) <==> exists i :: 0 <= i < |words| && words[i].pn == Score(x)
  {
    if words != [] {
      var n := |words| - 1;
      var init := words[..n];
      PnValuesMembers(init, x);
      if exists i :: 0 <= i < n && init[i].pn == Score(x) {
        var i :| 0 <= i < n && init[i].pn == Score(x);
        assert words[i] == init[i];
      }
      if exists i :: 0 <= i < |words| && words[i].pn == Score(x) {
        var i :| 0 <= i < |words| && words[i].pn == Score(x);
        if i < n {
          assert init[i] == words[i];
        }
      }
    }
  }

  /** The sample of a concatenation is the concatenation of the samples. */
  lemma {:induction false} PnValuesAppend(a: seq<Word>, b: seq<Word>)
    ensures PnValues(a + b) == PnValues(a) + PnValues(b)
    decreases |b|
  {
    if b != [] {
      var n := |b| - 1;
      assert (a + b)[..|a + b| - 1] == a + b[..n];
      PnValuesAppend(a, b[..n]);
    } else {
      assert a + b == a;
    }
  }

  /** The sum of a sample of numbers. */
  function Sum(values: seq<Float>): real
    requires forall i :: 0 <= i < |values| ==> values[i].Num?
  {
    if values == [] then 0.0 else Sum(values[..|values| - 1]) + values[|values| - 1].value
  }

  /**
   * The intended mean of the sample: `None` for an empty sample (what `get_mean`
   * yields when its loop runs off the end), NaN as soon as one value is NaN
   * (as `np.mean` gives), the arithmetic mean otherwise.
   */
  function Mean(values: seq<Float>): (m: Option<Float>)
    ensures m.None? <==> values == []
    ensures NaN in values ==> m == Some(NaN)
  {
    if values == [] then None
    else if NaN in values then Some(NaN)
    else Some(Num(Sum(values) / |values| as real))
  }

  /** Bounds on every value bound the sum. */
  lemma {:induction false} SumBounds(values: seq<Float>, lo: real, hi: real)
    requires forall i :: 0 <= i < |values| ==> values[i].Num? && lo <= values[i].value <= hi
    ensures |values| as real * lo <= Sum(values) <= |values| as real * hi
  {
    if values != [] {
      var init := values[..|values| - 1];
      var v := values[|values| - 1].value;
      var n := |init| as real;
      SumBounds(init, lo, hi);
      assert (n + 1.0) * lo == n * lo + lo;
      assert (n + 1.0) * hi == n * hi + hi;
    }
  }

  /** The mean of numbers lies between any common lower and upper bound of them. */
  lemma MeanWithinBounds(values: seq<Float>, lo: real, hi: real)
    requires values != []
    requires forall i :: 0 <= i < |values| ==> values[i].Num? && lo <= values[i].value <= hi
    ensures Mean(values).value.Num?
    ensures lo <= Mean(values).value.value <= hi
  {
    SumBounds(values, lo, hi);
    var n := |values| as real;
    var s := Sum(values);
    assert NaN !in values;
    assert n * lo <= s <= n * hi;
    DivBounds(s, n, lo, hi);
  }

  /** Dividing by a positive count keeps a quotient between the bounds. */
  lemma DivBounds(s: real, n: real, lo: real, hi: real)
    requires n > 0.0 && n * lo <= s <= n * hi
    ensures lo <= s / n <= hi
  {
    var q := s / n;
    assert q * n == s;
    assert (q - lo) * n >= 0.0;
    assert (hi - q) * n >= 0.0;
  }

  /** The mean of a single value is that value. */
  lemma MeanOfOne(x: Float)
    ensures Mean([x]) == Some(x)
  {
    if x.Num? {
      assert [x][..0] == [];
      assert NaN !in [x];
      assert Sum([x]) == x.value;
    }
  }

  /**
   * `get_mean` as written: the `return` sits inside the loop, right after the
   * first score is appended, so the result is the mean of that one score,
   * i.e. the first value of the sample; with no score the loop falls through
   * and the result is `None`. The `else: pnmean = 0` branch is dead.
   */
  method GetMean(words: seq<Word>) returns (mean: Option<Float>)
    requires forall i :: 0 <= i < |words| ==> words[i].pn != Unset
    ensures PnValues(words) == [] ==> mean == None
    ensures PnValues(words) != [] ==> mean == Some(PnValues(words)[0])
  {
    var pnList: seq<Float> := [];
    var i := 0;
    while i < |words|
      invariant 0 <= i <= |words|
      invariant pnList == [] && PnValues(words[..i]) == []
    {
      var pn := words[i].pn;
      if pn != NotFound {
        pnList := pnList + [pn.score];
        if |pnList| > 0 {
          MeanOfOne(pn.score);
          mean := Mean(pnList);
        } else {
          assert false;
          mean := Some(Num(0.0));
        }
        assert words[..i + 1][..i] == words[..i];
        assert words == words[..i + 1] + words[i + 1..];
        PnValuesAppend(words[..i + 1], words[i + 1..]);
        return;
      }
      assert words[..i + 1][..i] == words[..i];
      i := i + 1;
    }
    assert words[..i] == words;
    mean := None;
  }

  /**
   * `get_mean` as evidently intended: every score is appended to the list and
   * the mean is taken once, after the loop.
   */
  method AverageScore(words: seq<Word>) returns (mean: Option<Float>)
    requires forall i :: 0 <= i < |words| ==> words[i].pn != Unset
    ensures mean == Mean(PnValues(words))
  {
    var pnList: seq<Float> := [];
    for i := 0 to |words|
      invariant pnList == PnValues(words[..i])
    {
      var pn := words[i].pn;
      if pn != NotFound {
        pnList := pnList + [pn.score];
      }
      assert words[..i + 1][..i] == words[..i];
    }
    assert words[..|words|] == words;
    mean := Mean(pnList);
  }

  /**
   * With scores 1.0 then 3.0, `GetMean` reports the first score, 1.0, while
   * the mean of the sample is 2.0.
   */
  lemma FirstScoreIsNotTheMean()
    ensures Mean([Num(1.0), Num(3.0)]) == Some(Num(2.0))
    ensures [Num(1.0), Num(3.0)][0] != Num(2.0)
  {
    assert [Num(1.0), Num(3.0)][..1] == [Num(1.0)];
    assert [Num(1.0)][..0] == [];
  }
}
