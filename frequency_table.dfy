/**
 * The frequency-table path: one scan of the node chain fills a nested count
 * dictionary (part of speech -> surface -> count); then, in the order of the
 * selected parts of speech, each part of speech that was seen gets a table of
 * (surface, count) rows sorted by count, largest first.
 */
module FrequencyTable {
  import opened PyText
  import opened Tokens
  import opened WordCloud

  /** The nested `pos_word_count_dict`. */
  type PosCounts = map<string, map<string, nat>>

  /** One displayed table: rows of (surface, count). */
  type Table = seq<(string, nat)>

  /** Some node, blank or not, has part of speech `p`. */
  predicate Carries(nodes: seq<Node>, p: string) {
    exists j :: 0 <= j < |nodes| && TopPos(nodes[j].feature) == p
  }

  /** Appending a node extends the kept surfaces by that node's surface, if it is kept. */
  lemma KeptSurfacesSnoc(nodes: seq<Node>, n: Node, selected: seq<string>)
    ensures KeptSurfaces(nodes + [n], selected) ==
      KeptSurfaces(nodes, selected) + (if Kept(n, selected) then [n.surface] else [])
  {
    assert (nodes + [n])[..|nodes|] == nodes;
  }

  /** Appending a word bumps its count by one, or starts it at one. */
  lemma CounterSnoc(words: seq<string>, w: string)
    ensures Counter(words + [w]) == Bump(Counter(words), w)
  {
    assert (words + [w])[..|words|] == words;
  }

  /** A part of speech carried by no node keeps no surface. */
  lemma UnseenPosKeepsNothing(nodes: seq<Node>, pos: string)
    requires forall j :: 0 <= j < |nodes| ==> TopPos(nodes[j].feature) != pos
    ensures KeptSurfaces(nodes, [pos]) == []
  {
    var ks := KeptSurfaces(nodes, [pos]);
    if ks != [] {
      KeptSurfacesMembers(nodes, [pos], ks[0]);
      assert false;
    }
  }

  /** Each part of speech's counts are `Counter` over the surfaces its nodes keep. */
  ghost predicate CountsMatch(counts: PosCounts, nodes: seq<Node>) {
    forall p :: p in counts ==> counts[p] == Counter(KeptSurfaces(nodes, [p]))
  }

  /**
   * One visit of the scan: a selected part of speech gets its (possibly
   * empty) entry first, then a non-blank surface is counted under it.
   */
  function ScanStep(counts: PosCounts, node: Node, selected: seq<string>): (r: PosCounts)
    ensures forall p :: p in r <==> p in counts || (p == TopPos(node.feature) && p in selected)
    ensures forall p :: p in counts && p != TopPos(node.feature) ==> r[p] == counts[p]
  {
    var pos := TopPos(node.feature);
    if pos !in selected then counts
    else
      var withKey := if pos in counts then counts else counts[pos := map[]];
      if IsBlank(node.surface) then withKey
      else withKey[pos := Bump(withKey[pos], node.surface)]
  }

  /** The nested dictionary after the scan has visited `nodes`. */
  ghost function ScanCounts(nodes: seq<Node>, selected: seq<string>): (r: PosCounts)
    ensures forall p :: p in r ==> p in selected
  {
    if nodes == [] then map[]
    else ScanStep(ScanCounts(nodes[..|nodes| - 1], selected), nodes[|nodes| - 1], selected)
  }

  /** The scan has a key for exactly the selected parts of speech some node carries. */
  lemma {:induction false} ScanCountsKeys(nodes: seq<Node>, selected: seq<string>, p: string)
    ensures p in ScanCounts(nodes, selected) <==> p in selected && Carries(nodes, p)
  {
    if nodes != [] {
      var n := |nodes| - 1;
      var init := nodes[..n];
      ScanCountsKeys(init, selected, p);
      CarriesSnoc(init, nodes[n], p);
      assert nodes == init + [nodes[n]];
    }
  }

  /** A part of speech is carried by a longer chain iff by the shorter one or by the new node. */
  lemma CarriesSnoc(nodes: seq<Node>, node: Node, p: string)
    ensures Carries(nodes + [node], p) <==> Carries(nodes, p) || TopPos(node.feature) == p
  {
    var all := nodes + [node];
    if Carries(nodes, p) {
      var j :| 0 <= j < |nodes| && TopPos(nodes[j].feature) == p;
      assert all[j] == nodes[j];
    }
    if TopPos(node.feature) == p {
      assert all[|nodes|] == node;
    }
    if Carries(all, p) {
      var j :| 0 <= j < |all| && TopPos(all[j].feature) == p;
      if j < |nodes| {
        assert all[j] == nodes[j];
      }
    }
  }

  /** A node that is not kept for `p` leaves `p`'s kept surfaces as they were. */
  lemma OtherPosUnaffected(prefix: seq<Node>, node: Node, p: string)
    requires TopPos(node.feature) != p || IsBlank(node.surface)
    ensures KeptSurfaces(prefix + [node], [p]) == KeptSurfaces(prefix, [p])
  {
    KeptSurfacesSnoc(prefix, node, [p]);
    assert !Kept(node, [p]);
  }

  /** A non-blank node bumps its own part of speech's count for its surface. */
  lemma OwnPosBumped(prefix: seq<Node>, node: Node)
    requires !IsBlank(node.surface)
    ensures var p := TopPos(node.feature);
      Bump(Counter(KeptSurfaces(prefix, [p])), node.surface) == Counter(KeptSurfaces(prefix + [node], [p]))
  {
    var p := TopPos(node.feature);
    KeptSurfacesSnoc(prefix, node, [p]);
    assert Kept(node, [p]);
    CounterSnoc(KeptSurfaces(prefix, [p]), node.surface);
  }

  /**
   * One visit keeps `CountsMatch`, provided the visited node's part of speech
   * has an entry only if selected, and kept nothing so far if it has none.
   */
  lemma ScanStepMatch(prefix: seq<Node>, node: Node, selected: seq<string>, counts: PosCounts)
    requires CountsMatch(counts, prefix)
    requires TopPos(node.feature) in counts ==> TopPos(node.feature) in selected
    requires var pos := TopPos(node.feature);
      pos in selected && pos !in counts ==> KeptSurfaces(prefix, [pos]) == []
    ensures CountsMatch(ScanStep(counts, node, selected), prefix + [node])
  {
    var pos := TopPos(node.feature);
    var after := ScanStep(counts, node, selected);
    forall p | p in after ensures after[p] == Counter(KeptSurfaces(prefix + [node], [p])) {
      if p == pos && pos in selected && !IsBlank(node.surface) {
        assert Counter(KeptSurfaces(prefix, [p])) == (if pos in counts then counts[pos] else map[]);
        OwnPosBumped(prefix, node);
      } else {
        OtherPosUnaffected(prefix, node, p);
        if p !in counts {
          assert after[p] == map[];
        }
      }
    }
  }

  /**
   * Each part of speech's entry in the scan is `Counter` over the surfaces of
   * the non-blank nodes that carry it.
   */
  lemma {:induction false} ScanCountsMatch(nodes: seq<Node>, selected: seq<string>)
    ensures CountsMatch(ScanCounts(nodes, selected), nodes)
  {
    if nodes != [] {
      var init := nodes[..|nodes| - 1];
      var node := nodes[|nodes| - 1];
      var pos := TopPos(node.feature);
      assert nodes == init + [node];
      ScanCountsMatch(init, selected);
      ScanCountsKeys(init, selected, pos);
      if pos in selected && pos !in ScanCounts(init, selected) {
        UnseenPosKeepsNothing(init, pos);
      }
      ScanStepMatch(init, node, selected, ScanCounts(init, selected));
    }
  }

  /** Consequences of `CountsMatch`: positive counts, no blank key, totals. */
  lemma CountsFacts(counts: PosCounts, nodes: seq<Node>)
    requires CountsMatch(counts, nodes)
    ensures forall p, w :: p in counts && w in counts[p] ==> counts[p][w] >= 1 && !IsBlank(w)
    ensures forall p :: p in counts ==> Total(counts[p]) == |KeptSurfaces(nodes, [p])|
  {
    forall p, w | p in counts && w in counts[p] ensures counts[p][w] >= 1 && !IsBlank(w) {
      KeptSurfacesMembers(nodes, [p], w);
    }
    forall p | p in counts ensures Total(counts[p]) == |KeptSurfaces(nodes, [p])| {
      CounterTotal(KeptSurfaces(nodes, [p]));
    }
  }

  /**
   * One pass of the `while node:` body: a selected part of speech gets its
   * entry if it has none, then a non-blank surface is counted under it.
   */
  method Visit(counts: PosCounts, node: Node, selected: seq<string>) returns (next: PosCounts)
    ensures next == ScanStep(counts, node, selected)
  {
    next := counts;
    var pos := TopPos(node.feature);
    if pos in selected {
      if pos !in next {
        next := next[pos := map[]];
      }
      if !IsBlank(node.surface) {
        var word := node.surface;
        var entry := next[pos];
        if word !in entry {
          entry := entry[word := 1];
        } else {
          entry := entry[word := entry[word] + 1];
        }
        assert entry == Bump(next[pos], word);
        next := next[pos := entry];
      }
    }
  }

  /**
   * The scan at the heart of the frequency table. The key for a selected part
   * of speech is created as soon as a node carries it, before the blank-surface
   * test, so a part of speech seen only on blank nodes gets an empty count map.
   * Each part of speech's counts are exactly `Counter` over the surfaces of the
   * non-blank nodes that carry it: a word's count is its number of occurrences
   * there, every count is at least one, no blank surface is a key, and the
   * counts add up to the number of those nodes.
   */
  method CountByPos(nodes: seq<Node>, selected: seq<string>) returns (counts: PosCounts)
    ensures forall p :: p in counts <==> p in selected && Carries(nodes, p)
    ensures forall p :: p in counts ==> counts[p] == Counter(KeptSurfaces(nodes, [p]))
    ensures forall p, w :: p in counts && w in counts[p] ==> counts[p][w] >= 1 && !IsBlank(w)
    ensures forall p :: p in counts ==> Total(counts[p]) == |KeptSurfaces(nodes, [p])|
  {
    counts := map[];
    var i := 0;
    while i < |nodes|
      invariant 0 <= i <= |nodes|
      invariant counts == ScanCounts(nodes[..i], selected)
    {
      counts := Visit(counts, nodes[i], selected);
      assert nodes[..i + 1][..i] == nodes[..i];
      i := i + 1;
    }
    assert nodes[..i] == nodes;
    ScanCountsFacts(counts, nodes, selected);
  }

  /** What the finished scan holds, gathered from the lemmas above. */
  lemma ScanCountsFacts(counts: PosCounts, nodes: seq<Node>, selected: seq<string>)
    requires counts == ScanCounts(nodes, selected)
    ensures forall p :: p in counts <==> p in selected && Carries(nodes, p)
    ensures forall p :: p in counts ==> counts[p] == Counter(KeptSurfaces(nodes, [p]))
    ensures forall p, w :: p in counts && w in counts[p] ==> counts[p][w] >= 1 && !IsBlank(w)
    ensures forall p :: p in counts ==> Total(counts[p]) == |KeptSurfaces(nodes, [p])|
  {
    forall p ensures p in counts <==> p in selected && Carries(nodes, p) {
      ScanCountsKeys(nodes, selected, p);
    }
    ScanCountsMatch(nodes, selected);
    CountsFacts(counts, nodes);
  }

  /** Rows are in non-increasing order of count. */
  predicate SortedByCount(t: Table) {
    forall i, j :: 0 <= i < j < |t| ==> t[i].1 >= t[j].1
  }

  /** No surface has two rows. */
  predicate DistinctWords(t: Table) {
    forall i, j :: 0 <= i < j < |t| ==> t[i].0 != t[j].0
  }

  /**
   * `t` lists the (word, count) entries of `m` for the words in `keys`, each
   * exactly once and nothing else, largest count first.
   */
  predicate ListsEntries(t: Table, m: map<string, nat>, keys: set<string>) {
    && SortedByCount(t)
    && DistinctWords(t)
    && (forall i :: 0 <= i < |t| ==> t[i].0 in keys && t[i].0 in m && m[t[i].0] == t[i].1)
    && (forall w :: w in keys ==> exists i :: 0 <= i < |t| && t[i].0 == w)
  }

  /**
   * `t` lists every (word, count) entry of `m` exactly once, largest count first:
   * a permutation of the entries, sorted by count (ties in any order).
   */
  predicate IsTableOf(t: Table, m: map<string, nat>) {
    ListsEntries(t, m, m.Keys)
  }

  /** Places a row after every row with a count at least as large. */
  function InsertByCount(t: Table, e: (string, nat)): (r: Table)
    requires SortedByCount(t)
    ensures SortedByCount(r)
    ensures |r| == |t| + 1
    ensures forall x :: x in r <==> x == e || x in t
  {
    if t == [] || t[0].1 < e.1 then [e] + t
    else
      var rest := InsertByCount(t[1..], e);
      assert forall x :: x in t[1..] ==> x.1 <= t[0].1 && x in t;
      assert forall j :: 0 <= j < |rest| ==> rest[j] in rest;
      [t[0]] + rest
  }

  /** Insertion adds exactly the one row: the rows are the old ones plus `e`, with multiplicity. */
  lemma {:induction false} InsertPermutes(t: Table, e: (string, nat))
    requires SortedByCount(t)
    ensures multiset(InsertByCount(t, e)) == multiset(t) + multiset{e}
  {
    if t != [] && t[0].1 >= e.1 {
      InsertPermutes(t[1..], e);
      assert t == [t[0]] + t[1..];
    }
  }

  /** Inserting a row whose surface is new keeps the surfaces distinct. */
  lemma {:induction false} InsertKeepsDistinct(t: Table, e: (string, nat))
    requires SortedByCount(t) && DistinctWords(t)
    requires forall i :: 0 <= i < |t| ==> t[i].0 != e.0
    ensures DistinctWords(InsertByCount(t, e))
  {
    if t != [] && t[0].1 >= e.1 {
      var rest := InsertByCount(t[1..], e);
      InsertKeepsDistinct(t[1..], e);
      forall j | 0 <= j < |rest| ensures t[0].0 != rest[j].0 {
        assert rest[j] in rest;
        if rest[j] != e {
          var k :| 0 <= k < |t[1..]| && t[1..][k] == rest[j];
          assert t[k + 1] == rest[j];
        }
      }
    }
  }

  /** Inserting the entry of a word not yet listed lists it too. */
  lemma InsertEntry(t: Table, m: map<string, nat>, keys: set<string>, w: string)
    requires ListsEntries(t, m, keys) && w in m && w !in keys
    ensures ListsEntries(InsertByCount(t, (w, m[w])), m, keys + {w})
  {
    var e := (w, m[w]);
    var r := InsertByCount(t, e);
    InsertKeepsDistinct(t, e);
    forall i | 0 <= i < |r| ensures r[i].0 in keys + {w} && r[i].0 in m && m[r[i].0] == r[i].1 {
      assert r[i] in r;
      if r[i] != e {
        var k :| 0 <= k < |t| && t[k] == r[i];
      }
    }
    forall v | v in keys + {w} ensures exists i :: 0 <= i < |r| && r[i].0 == v {
      var x := e;
      if v != w {
        var k :| 0 <= k < |t| && t[k].0 == v;
        x := t[k];
        assert x in t;
      }
      assert x in r;
      var i :| 0 <= i < |r| && r[i] == x;
    }
  }

  /**
   * `pd.DataFrame.from_dict(m).sort_values(..., ascending=False)`: the entries
   * of one part of speech's count map, as a table sorted by count.
   */
  method SortTable(m: map<string, nat>) returns (t: Table)
    ensures IsTableOf(t, m)
    ensures |t| == |m|
  {
    t := [];
    var rest := m.Keys;
    while rest != {}
      invariant rest <= m.Keys
      invariant ListsEntries(t, m, m.Keys - rest)
      invariant |t| + |rest| == |m.Keys|
      decreases rest
    {
      var w :| w in rest;
      InsertEntry(t, m, m.Keys - rest, w);
      assert (m.Keys - rest) + {w} == m.Keys - (rest - {w});
      t := InsertByCount(t, (w, m[w]));
      rest := rest - {w};
    }
    assert m.Keys - rest == m.Keys;
  }

  /** The selected parts of speech that have a count map, in selection order. */
  function PresentPos(selected: seq<string>, counts: PosCounts): (ps: seq<string>)
    ensures |ps| <= |selected|
    ensures forall p :: p in ps <==> p in selected && p in counts
  {
    if selected == [] then []
    else
      var init := selected[..|selected| - 1];
      var p := selected[|selected| - 1];
      assert selected == init + [p];
      PresentPos(init, counts) + (if p in counts then [p] else [])
  }

  /** The selected parts of speech that some node carries, in selection order. */
  function Carried(selected: seq<string>, nodes: seq<Node>): (ps: seq<string>)
    ensures |ps| <= |selected|
    ensures forall p :: p in ps <==> p in selected && Carries(nodes, p)
  {
    if selected == [] then []
    else
      var init := selected[..|selected| - 1];
      var p := selected[|selected| - 1];
      assert selected == init + [p];
      Carried(init, nodes) + (if Carries(nodes, p) then [p] else [])
  }

  /**
   * When the count map has an entry for exactly the selected parts of speech
   * some node carries, the parts of speech that get a table are `Carried`.
   */
  lemma {:induction false} PresentIsCarried(selected: seq<string>, counts: PosCounts, nodes: seq<Node>)
    requires forall p :: p in selected ==> (p in counts <==> Carries(nodes, p))
    ensures PresentPos(selected, counts) == Carried(selected, nodes)
  {
    if selected != [] {
      var init := selected[..|selected| - 1];
      var p := selected[|selected| - 1];
      assert forall q :: q in init ==> q in selected;
      PresentIsCarried(init, counts, nodes);
      assert p in counts <==> Carries(nodes, p);
    }
  }

  /**
   * The `for pos in selected_pos` loop: one (part of speech, table) pair per
   * selected part of speech that has a count map, in selection order.
   */
  method BuildTables(selected: seq<string>, counts: PosCounts) returns (tables: seq<(string, Table)>)
    ensures |tables| == |PresentPos(selected, counts)|
    ensures forall i :: 0 <= i < |tables| ==>
      tables[i].0 == PresentPos(selected, counts)[i] && tables[i].0 in counts &&
      IsTableOf(tables[i].1, counts[tables[i].0])
  {
    tables := [];
    for k := 0 to |selected|
      invariant |tables| == |PresentPos(selected[..k], counts)|
      invariant forall i :: 0 <= i < |tables| ==>
        tables[i].0 == PresentPos(selected[..k], counts)[i] && tables[i].0 in counts &&
        IsTableOf(tables[i].1, counts[tables[i].0])
    {
      var pos := selected[k];
      assert selected[..k + 1][..k] == selected[..k];
      if pos in counts {
        var table := SortTable(counts[pos]);
        tables := tables + [(pos, table)];
      }
    }
    assert selected[..|selected|] == selected;
  }

  /** The sum of the counts in a table's rows. */
  function RowTotal(t: Table): nat {
    if t == [] then 0 else t[0].1 + RowTotal(t[1..])
  }

  /** A table's rows add up to the total of the count map it lists. */
  lemma {:induction false} RowTotalIsTotal(t: Table, m: map<string, nat>)
    requires IsTableOf(t, m)
    ensures RowTotal(t) == Total(m)
    decreases |t|
  {
    if t == [] {
      assert forall w :: w !in m;
      assert m == map[];
    } else {
      var k := t[0].0;
      var m' := m - {k};
      TotalRemove(m, k);
      forall w | w in m' ensures exists i :: 0 <= i < |t[1..]| && t[1..][i].0 == w {
        var i :| 0 <= i < |t| && t[i].0 == w;
        assert i != 0;
        assert t[1..][i - 1].0 == w;
      }
      assert IsTableOf(t[1..], m');
      RowTotalIsTotal(t[1..], m');
    }
  }

  /**
   * The whole frequency-table path. Tables come in selection order, one for
   * each selected part of speech that some node carries (blank surface or
   * not); each lists the counts of that part of speech's non-blank surfaces,
   * sorted by count, and its rows add up to the number of those nodes.
   */
  method FrequencyTables(nodes: seq<Node>, selected: seq<string>) returns (tables: seq<(string, Table)>)
    ensures |tables| == |Carried(selected, nodes)|
    ensures forall i :: 0 <= i < |tables| ==> tables[i].0 == Carried(selected, nodes)[i]
    ensures forall p :: p in selected && Carries(nodes, p) ==> exists i :: 0 <= i < |tables| && tables[i].0 == p
    ensures forall i :: 0 <= i < |tables| ==>
      IsTableOf(tables[i].1, Counter(KeptSurfaces(nodes, [tables[i].0]))) &&
      RowTotal(tables[i].1) == |KeptSurfaces(nodes, [tables[i].0])|
  {
    var counts := CountByPos(nodes, selected);
    tables := BuildTables(selected, counts);
    var ps := PresentPos(selected, counts);
    PresentIsCarried(selected, counts, nodes);
    forall p | p in selected && Carries(nodes, p)
      ensures exists i :: 0 <= i < |tables| && tables[i].0 == p
    {
      assert p in ps;
      var i :| 0 <= i < |ps| && ps[i] == p;
      assert tables[i].0 == p;
    }
    forall i | 0 <= i < |tables|
      ensures RowTotal(tables[i].1) == |KeptSurfaces(nodes, [tables[i].0])|
    {
      RowTotalIsTotal(tables[i].1, counts[tables[i].0]);
    }
  }

  /** Two rows with distinct words cannot both carry `w`. */
  lemma RowsNotAllSame(t: Table, w: string)
    requires DistinctWords(t) && |t| > 1
    ensures exists i :: 0 <= i < |t| && t[i].0 != w
  {
    if t[0].0 == w {
      assert t[1].0 != w;
    }
  }

  /** A count table with one entry has exactly one row, that entry. */
  lemma TableOfOne(t: Table, w: string, c: nat)
    requires IsTableOf(t, map[w := c])
    ensures t == [(w, c)]
  {
    assert w in map[w := c];
    assert exists i :: 0 <= i < |t| && t[i].0 == w;
    assert forall i :: 0 <= i < |t| ==> t[i].0 == w;
    if |t| > 1 {
      RowsNotAllSame(t, w);
      assert false;
    }
  }

  /** The nodes of 猫が好きです with the analyser's blank BOS/EOS nodes around them. */
  const Sentence: seq<Node> := [
    Node("", "BOS/EOS" + "," + "*"), Node("猫", "名詞" + "," + "一般"),
    Node("が", "助詞" + "," + "格助詞"), Node("好き", "形容詞" + "," + "自立"),
    Node("です", "助動詞" + "," + "*"), Node("", "BOS/EOS" + "," + "*")]

  /** A node is kept iff its surface is not blank and the text before its first comma is selected. */
  lemma KeptByPos(n: Node, pos: string, rest: string, selected: seq<string>)
    requires NoDelim(pos, {','}) && n.feature == pos + [','] + rest
    ensures Kept(n, selected) <==> !IsBlank(n.surface) && pos in selected
  {
    TopPosOf(pos, rest);
  }

  /** Of the nodes of `Sentence`, only 猫 is a non-blank noun. */
  lemma SentenceKept()
    ensures !Kept(Sentence[0], ["名詞"]) && Kept(Sentence[1], ["名詞"])
    ensures !Kept(Sentence[2], ["名詞"]) && !Kept(Sentence[3], ["名詞"])
    ensures !Kept(Sentence[4], ["名詞"]) && !Kept(Sentence[5], ["名詞"])
  {
    assert !IsBlank("猫") by { assert !IsSpace("猫"[0]); }
    KeptByPos(Sentence[1], "名詞", "一般", ["名詞"]);
    KeptByPos(Sentence[2], "助詞", "格助詞", ["名詞"]);
    KeptByPos(Sentence[3], "形容詞", "自立", ["名詞"]);
    KeptByPos(Sentence[4], "助動詞", "*", ["名詞"]);
  }

  /**
   * With only nouns selected, 猫 is counted once and nothing else is: the
   * particle, adjective and auxiliary are not nouns and the BOS/EOS nodes
   * are blank.
   */
  lemma NounOnlyScenario()
    ensures KeptSurfaces(Sentence, ["名詞"]) == ["猫"]
    ensures Counter(KeptSurfaces(Sentence, ["名詞"])) == map["猫" := 1]
  {
    SentenceKept();
    var sel := ["名詞"];
    var s := Sentence;
    assert s[..1] == [] + [s[0]];
    KeptSurfacesSnoc([], s[0], sel);
    assert s[..2] == s[..1] + [s[1]];
    KeptSurfacesSnoc(s[..1], s[1], sel);
    assert s[..3] == s[..2] + [s[2]];
    KeptSurfacesSnoc(s[..2], s[2], sel);
    assert s[..4] == s[..3] + [s[3]];
    KeptSurfacesSnoc(s[..3], s[3], sel);
    assert s[..5] == s[..4] + [s[4]];
    KeptSurfacesSnoc(s[..4], s[4], sel);
    assert s == s[..5] + [s[5]];
    KeptSurfacesSnoc(s[..5], s[5], sel);
    assert Counter(["猫"]) == map["猫" := 1];
  }

  /** With only nouns selected, `Sentence` gets exactly one table, the noun table. */
  lemma NounOnlyOneTable()
    ensures Carried(["名詞"], Sentence) == ["名詞"]
  {
    SentenceKept();
    assert TopPos(Sentence[1].feature) == "名詞";
    assert Carries(Sentence, "名詞");
    assert [] + ["名詞"] == ["名詞"];
  }
}
