# Lyrics analysis: a verified model of the text pipeline

The application is a Streamlit page that reads an uploaded Japanese text and
offers three views. The first is a word cloud of the words whose part of
speech the user selected. The second is one frequency table per selected part
of speech. The third is a sentiment view: a histogram of the lexicon scores of
the tokens, and an average score. This project models the computation behind
those three views, from the analyser's output onwards, and proves what it
produces:

- `PyText` models the Python string operations the page depends on:
  - `str.isspace` and `str.strip()`;
  - `str.split(d)` and `re.split('\t|,', s)`, both as splitting on a set of
    single-character delimiters.
  It proves both round trips between splitting and joining, and which text
  ends up in the first and the last field.
- `Tokens` models a node of the analyser (surface and feature string), its
  top-level part of speech, and when a surface counts as blank.
- `WordCloud` models the node walk that collects the surfaces of the
  non-blank nodes with a selected part of speech, and the `Counter` over those
  surfaces.
- `FrequencyTable` models the single scan that fills the nested
  part-of-speech → surface → count dictionary. It also models turning each
  present part of speech into a table sorted by count, largest first, in the
  order of the selection.
- `Sentiment` covers the rest of the sentiment view:
  - the raw-dump parser `mecab_parse`;
  - the word/score extraction from the colon-separated lexicon;
  - `add_pnvalue`, which tags each token record in place;
  - the `pn_values` sample, the page's `get_mean`, and the arithmetic mean it
    was evidently meant to compute.

The analyser's node chain is a finite sequence of `Node(surface, feature)`.
Its raw text dump is a string. A Python float is `Num(r)` for a real `r`, or
`NaN`. `pd.to_numeric(..., errors="coerce")` is a function parameter
`toNumeric` that yields `NaN` for text that is not a number. The token records
that `add_pnvalue` mutates are objects of class `Word`. Their `pn` field is
`Unset` until they are tagged.

Where the code and its description disagree, the model follows the code:

- A lexicon row whose score text is not a number stays in the dictionary,
  mapped to NaN. It is not dropped.
- `add_pnvalue` therefore tags a word with NaN when its base form has such a
  row. Since `isinstance(nan, float)` holds, NaN scores belong to
  `pn_values`.
- In the frequency-table scan, a selected part of speech that only blank
  nodes carry still gets an entry. That entry is an empty dictionary, so the
  page shows an empty table for it.

## Model

| member | source | states |
|---|---|---|
| PyText.StripEmptyIffAllSpace | src/streamlit_app.py:50 | `s.strip() == ""` holds exactly when every character of `s` is Python whitespace, so the blank test on node surfaces is "all whitespace" |
| PyText.Strip | src/streamlit_app.py:50 | `strip()` leaves a string that is empty or neither starts nor ends with whitespace |
| PyText.Split | src/streamlit_app.py:138 | splitting gives one more field than there are delimiter characters, and no field contains a delimiter |
| PyText.SplitJoin | src/streamlit_app.py:119 | splitting a join of delimiter-free fields gives back those fields |
| PyText.JoinSplit | src/streamlit_app.py:135 | joining the fields of a split on one delimiter gives back the original string |
| PyText.FirstField | src/streamlit_app.py:51 | field 0 of a split is the longest delimiter-free prefix: the text before the first delimiter, or all of the string |
| PyText.LastField | src/streamlit_app.py:121 | the last field of a split is the longest delimiter-free suffix: the text after the last delimiter, or all of the string |
| Tokens.TopPos | src/streamlit_app.py:51 | the part of speech (also taken at line 83) is a comma-free prefix of the feature string that runs up to its first comma, or to its end when it has none |
| Tokens.TopPosOf | src/streamlit_app.py:83 | the part of speech of a feature string `pos,rest` is `pos` when `pos` has no comma |
| WordCloud.KeptSurfaces | src/streamlit_app.py:48-54 | the word list has at most one surface per node of the chain |
| WordCloud.KeptSurfacesMembers | src/streamlit_app.py:48-54 | a surface is in the word list iff some non-blank node with a selected part of speech carries it; no listed surface is blank |
| WordCloud.CollectWords | src/streamlit_app.py:48-54 | the walk appends, in node order, exactly the surfaces of the non-blank nodes whose part of speech is selected |
| WordCloud.Bump | src/streamlit_app.py:89-92 | one more occurrence: the word becomes a key, its count rises by one or starts at one, every other count is unchanged |
| WordCloud.Counter | src/streamlit_app.py:55 | `Counter(words)` has a key for exactly the listed words, and each count is that word's number of occurrences |
| WordCloud.CounterTotal | src/streamlit_app.py:55 | the counts of `Counter(words)` add up to the number of words |
| WordCloud.WordFrequencies | src/streamlit_app.py:48-55 | the word-cloud frequencies: a word has one iff a kept node carries it, its frequency is its occurrence count among the kept surfaces, no word is blank, and the frequencies sum to the number of kept nodes, at most the number of nodes |
| FrequencyTable.ScanStep | src/streamlit_app.py:83-92 | one visit adds an entry only for the node's own part of speech, and only when it is selected; it changes no other part of speech's counts |
| FrequencyTable.ScanCounts | src/streamlit_app.py:81-93 | the scan never creates an entry for a part of speech that is not selected |
| FrequencyTable.ScanCountsKeys | src/streamlit_app.py:82-86 | after scanning, a part of speech has an entry iff it is selected and some node, blank or not, carries it |
| FrequencyTable.CarriesSnoc | src/streamlit_app.py:82-86 | a chain extended by one node carries a part of speech iff the old chain did or the new node does |
| FrequencyTable.ScanStepMatch | src/streamlit_app.py:83-92 | one visit keeps each entry equal to the `Counter` of that part of speech's kept surfaces so far |
| FrequencyTable.ScanCountsMatch | src/streamlit_app.py:81-93 | after the whole scan, each entry is the `Counter` of the non-blank surfaces of that part of speech |
| FrequencyTable.CountsFacts | src/streamlit_app.py:87-92 | every stored count is at least 1, no stored surface is blank, and the counts of a part of speech add up to its number of kept nodes |
| FrequencyTable.Visit | src/streamlit_app.py:83-92 | the loop body (create the entry if missing, then count the surface unless it is blank) is exactly one scan step |
| FrequencyTable.ScanCountsFacts | src/streamlit_app.py:81-93 | the finished scan has an entry for exactly the selected, carried parts of speech, each the `Counter` of its non-blank surfaces, with positive counts summing to its number of kept nodes |
| FrequencyTable.CountByPos | src/streamlit_app.py:81-93 | the nested dictionary has an entry for exactly the selected parts of speech that some node carries; each entry counts that part of speech's non-blank surfaces by occurrence; counts are positive and sum to the number of kept nodes |
| FrequencyTable.InsertByCount | src/streamlit_app.py:101 | inserting a row into a table sorted by count keeps it sorted, makes it one row longer, and the rows afterwards are the old ones and the new one |
| FrequencyTable.InsertPermutes | src/streamlit_app.py:101 | the inserted table is a permutation of the old rows plus the new one: no row is lost or duplicated |
| FrequencyTable.InsertKeepsDistinct | src/streamlit_app.py:99-101 | inserting a row for a surface not yet in the table keeps one row per surface |
| FrequencyTable.InsertEntry | src/streamlit_app.py:99-101 | inserting the entry of a surface not yet listed gives a sorted listing of the old surfaces plus that one |
| FrequencyTable.SortTable | src/streamlit_app.py:99-101 | the table lists every (surface, count) entry exactly once, with no other rows, sorted by count, largest first |
| FrequencyTable.PresentPos | src/streamlit_app.py:97-98 | the parts of speech that get a table are those selected and present in the dictionary |
| FrequencyTable.Carried | src/streamlit_app.py:96-98 | the parts of speech of the selection, in selection order, that some node of the chain carries |
| FrequencyTable.PresentIsCarried | src/streamlit_app.py:81-98 | when a selected part of speech has an entry exactly when a node carries it, the present parts of speech are the carried ones, in the same order |
| FrequencyTable.BuildTables | src/streamlit_app.py:96-102 | one table per present part of speech, in selection order, each a sorted listing of that part of speech's counts |
| FrequencyTable.RowTotalIsTotal | src/streamlit_app.py:99-101 | the counts in a table add up to the total of the dictionary it lists |
| FrequencyTable.FrequencyTables | src/streamlit_app.py:78-102 | the whole frequency view: exactly one table per selected part of speech that some node carries, in selection order, and no other; each table lists the occurrence counts of its non-blank surfaces, sorted by count, and its counts sum to the number of those nodes |
| FrequencyTable.TableOfOne | src/streamlit_app.py:99-101 | a count dictionary with a single entry yields exactly one row, that entry |
| FrequencyTable.NounOnlyScenario | src/streamlit_app.py:81-93 | for 猫が好きです with only nouns selected, the noun count is {猫: 1}: the particle, adjective and auxiliary are left out and the blank BOS/EOS nodes are skipped |
| FrequencyTable.NounOnlyOneTable | src/streamlit_app.py:96-102 | for 猫が好きです with only nouns selected, the page shows exactly one table, the noun table |
| Sentiment.Lines | src/streamlit_app.py:135 | splitting the dump on newlines gives at least one line |
| Sentiment.Fields | src/streamlit_app.py:138 | splitting a line on tabs and commas gives at least one field |
| Sentiment.KeptLines | src/streamlit_app.py:137-141 | the kept lines are no more than the lines |
| Sentiment.KeptLinesMembers | src/streamlit_app.py:137-141 | a line is kept iff it is a line of the dump with more than 8 tab/comma fields |
| Sentiment.MecabParse | src/streamlit_app.py:132-142 | one freshly allocated record per kept line, in line order, with Surface = field 0, POS = field 1, BaseForm = field 8 and no score yet |
| Sentiment.Lexicon | src/streamlit_app.py:119-127 | the word → score dictionary has at most one entry per lexicon row |
| Sentiment.LexiconKeys | src/streamlit_app.py:119-127 | the dictionary has an entry for exactly the words of the rows, including rows whose score is not a number |
| Sentiment.RowWordIsKey | src/streamlit_app.py:119-127 | the word of every lexicon row is a key of the dictionary |
| Sentiment.KeyHasRow | src/streamlit_app.py:119-127 | every key of the dictionary is the word of some lexicon row |
| Sentiment.LastRowWins | src/streamlit_app.py:124-127 | a word's entry is the converted score of the last row with that word |
| Sentiment.WordOf | src/streamlit_app.py:119-120 | a row's word is no longer than the row and holds no ':' |
| Sentiment.ScoreTextOf | src/streamlit_app.py:119-121 | a row's score text is no longer than the row and holds no ':' |
| Sentiment.RowSegments | src/streamlit_app.py:119-121 | a row's word is the text before its first ':' and its score text the text after its last ':' |
| Sentiment.LexiconRowScenario | src/streamlit_app.py:119-121 | the row 良い:adj:1:0.999999 yields the word 良い and the score text 0.999999 |
| Sentiment.PnFor | src/streamlit_app.py:149-153 | a base form's tag is a score iff it is a lexicon key, and that score is the lexicon's value; otherwise it is 'notfound' |
| Sentiment.AddPnValue | src/streamlit_app.py:146-156 | the same records in the same order are returned, and each now carries the tag of its base form |
| Sentiment.ParseAndTag | src/streamlit_app.py:144-171 | parsing then tagging gives fresh records, one per kept line in line order, each with fields 0, 1 and 8 of its line and the tag of field 8 |
| Sentiment.PnValues | src/streamlit_app.py:175 | the sample has at most one value per record |
| Sentiment.PnValuesMembers | src/streamlit_app.py:175 | a float is in the sample iff some record is tagged with it, NaN included |
| Sentiment.PnValuesAppend | src/streamlit_app.py:175 | the sample of a concatenation is the concatenation of the samples, so token order is kept |
| Sentiment.Mean | src/streamlit_app.py:158-169 | the intended average: none for an empty sample, NaN when NaN is in the sample, the arithmetic mean otherwise |
| Sentiment.MeanWithinBounds | src/streamlit_app.py:158-169 | the mean of a non-empty numeric sample lies between any lower and upper bound of its values |
| Sentiment.DivBounds | src/streamlit_app.py:165 | dividing a sum that lies between n·lo and n·hi by the count n gives a value between lo and hi |
| Sentiment.MeanOfOne | src/streamlit_app.py:165 | the mean of a single value is that value |
| Sentiment.AverageScore | src/streamlit_app.py:158-169 | the corrected `get_mean`: the mean of the whole sample of scores, none when no record is scored |
| Sentiment.GetMean | src/streamlit_app.py:158-169 | as written: None when no record is scored, otherwise the first score in token order |
| Sentiment.FirstScoreIsNotTheMean | src/streamlit_app.py:158-169 | for the scores 1.0 then 3.0 the mean is 2.0, while the page reports the first score, 1.0 |

## Left out

- The Streamlit page itself is not modelled: the sidebar, buttons, spinner, `st.write`/`st.dataframe`/`st.image`/`st.pyplot`, and the text shown when no file is uploaded.
- The morphological analyser is not modelled. Its node chain and its raw text dump are inputs. Which field holds the base form depends on the analyser's dictionary, and the model takes field 8 as the code does.
- Reading and decoding the uploaded file is not modelled, and neither is reading the Shift-JIS CSV lexicon. The lexicon is a sequence of row strings.
- The missing-lexicon handler is not modelled. It is file I/O, and after the error message the code goes on to use an undefined table.
- Sentiment.Lexicon: `pd.to_numeric` is the parameter `toNumeric`. Its parsing of number text is not modelled.
- Sentiment.Mean: floats are reals, so rounding in `np.mean` is not modelled. Infinities are left out.
- Drawing the word cloud, its size, font and colours, is not modelled. Neither is the histogram of `pn_values` (20 bins).
- FrequencyTable.SortTable: the order of rows with equal counts is left open. pandas' `sort_values` default is not a stable sort, so the code fixes no order among equal counts either.
- `float(pn_dict[base])` in `add_pnvalue` is the identity on the model's floats. The model's scores are already floats.

## Findings

| source | as written | input that shows it | evidently intended | confidence | as-written member | corrected member |
|---|---|---|---|---|---|---|
| src/streamlit_app.py:158-169 | `return pnmean` sits inside the loop body, so `get_mean` returns when it meets the first scored token. The "average" is that token's score, and `None` when no token is scored | tokens scored 1.0 then 3.0: reports 1.0, not 2.0 | the mean of all scores (`np.mean(pn_list)` after the loop) | not executed | Sentiment.GetMean, Sentiment.FirstScoreIsNotTheMean | Sentiment.AverageScore, Sentiment.Mean, Sentiment.MeanWithinBounds |
