/**
 * The word-cloud path: walk the node chain, keep the surfaces of non-blank
 * nodes whose top-level part of speech is selected, and count them the way
 * `collections.Counter` does. The image itself is drawn by a foreign renderer.
 */
module WordCloud {
  import opened Tokens

  /** A node contributes its surface to the word list. */
  predicate Kept(n: Node, selected: seq<string>) {
    !IsBlank(n.surface) && TopPos(n.feature) in selected
  }

  /** The surfaces of the kept nodes, in node order. */
  function KeptSurfaces(nodes: seq<Node>, selected: seq<string>): (words: seq<string>)
    ensures |words| <= |nodes|
  {
    if nodes == [] then []
    else
      var last := nodes[|nodes| - 1];
      KeptSurfaces(nodes[..|nodes| - 1], selected) + (if Kept(last, selected) then [last.surface] else [])
  }

  /** A surface is listed iff some kept node carries it; no listed surface is blank. */
  lemma {:induction false} KeptSurfacesMembers(nodes: seq<Node>, selected: seq<string>, w: string)
    ensures w in KeptSurfaces(nodes, selected) <==>
      exists i :: 0 <= i < |nodes| && Kept(nodes[i], selected) && nodes[i].surface == w
    ensures w in KeptSurfaces(nodes, selected) ==> !IsBlank(w)
  {
    if nodes != [] {
      var n := |nodes| - 1;
      var init := nodes[..n];
      KeptSurfacesMembers(init, selected, w);
      if w in KeptSurfaces(init, selected) {
        var i :| 0 <= i < |init| && Kept(init[i], selected) && init[i].surface == w;
        assert nodes[i] == init[i];
      }
      if exists i :: 0 <= i < |nodes| && Kept(nodes[i], selected) && nodes[i].surface == w {
        var i :| 0 <= i < |nodes| && Kept(nodes[i], selected) && nodes[i].surface == w;
        if i < n {
          assert init[i] == nodes[i];
        }
      }
    }
  }

  /** The `while node:` walk that appends each kept surface to `words`. */
  method CollectWords(nodes: seq<Node>, selected: seq<string>) returns (words: seq<string>)
    ensures words == KeptSurfaces(nodes, selected)
  {
    words := [];
    var i := 0;
    while i < |nodes|
      invariant 0 <= i <= |nodes|
      invariant words == KeptSurfaces(nodes[..i], selected)
    {
      var node := nodes[i];
      if !IsBlank(node.surface) {
        var wordType := TopPos(node.feature);
        if wordType in selected {
          words := words + [node.surface];
        }
      }
      assert nodes[..i + 1][..i] == nodes[..i];
      i := i + 1;
    }
    assert nodes[..i] == nodes;
  }

  /** One more occurrence of `w`: its count goes up by one, or starts at one. */
  function Bump(counts: map<string, nat>, w: string): (r: map<string, nat>)
    ensures r.Keys == counts.Keys + {w}
    ensures r[w] == (if w in counts then counts[w] else 0) + 1
    ensures forall v :: v in counts && v != w ==> r[v] == counts[v]
  {
    counts[w := if w in counts then counts[w] + 1 else 1]
  }

  /**
   * `Counter(words)`: each distinct word mapped to its number of occurrences.
   * Built by the same left-to-right update `Counter` performs.
   */
  function Counter(words: seq<string>): (counts: map<string, nat>)
    ensures forall w :: w in counts <==> w in words
    ensures forall w :: w in counts ==> counts[w] == multiset(words)[w]
  {
    if words == [] then map[]
    else
      var init := words[..|words| - 1];
      var w := words[|words| - 1];
      assert words == init + [w];
      Bump(Counter(init), w)
  }

  /** The sum of all counts in a count table. */
  ghost function Total(counts: map<string, nat>): nat
    decreases |counts|
  {
    if counts == map[] then 0
    else
      var w :| w in counts;
      assert |counts - {w}| < |counts| by {
        assert (counts - {w}).Keys == counts.Keys - {w};
      }
      counts[w] + Total(counts - {w})
  }

  /** Any key can be taken out first when summing a count table. */
  lemma {:induction false} TotalRemove(counts: map<string, nat>, k: string)
    requires k in counts
    ensures Total(counts) == counts[k] + Total(counts - {k})
    decreases |counts|
  {
    var w :| w in counts && Total(counts) == counts[w] + Total(counts - {w});
    if w != k {
      var rest := counts - {w};
      assert (rest.Keys == counts.Keys - {w}) && |rest| < |counts|;
      TotalRemove(rest, k);
      var other := counts - {k};
      assert (other.Keys == counts.Keys - {k}) && |other| < |counts|;
      TotalRemove(other, w);
      assert rest - {k} == other - {w};
    }
  }

  /** One more occurrence adds one to the total. */
  lemma TotalBump(counts: map<string, nat>, w: string)
    ensures Total(Bump(counts, w)) == Total(counts) + 1
  {
    var b := Bump(counts, w);
    TotalRemove(b, w);
    assert b - {w} == counts - {w};
    if w in counts {
      TotalRemove(counts, w);
    } else {
      assert counts - {w} == counts;
    }
  }

  /** The counts of `Counter(words)` add up to the number of words. */
  lemma {:induction false} CounterTotal(words: seq<string>)
    ensures Total(Counter(words)) == |words|
  {
    if words != [] {
      var init := words[..|words| - 1];
      CounterTotal(init);
      TotalBump(Counter(init), words[|words| - 1]);
    }
  }

  /**
   * The whole word-cloud count: the kept surfaces, then `Counter` over them.
   * A word has a frequency iff a kept node carries it, its frequency is its
   * number of occurrences among the kept surfaces, and the frequencies add up
   * to the number of kept nodes.
   */
  method WordFrequencies(nodes: seq<Node>, selected: seq<string>) returns (counts: map<string, nat>)
    ensures forall w :: w in counts <==>
      exists i :: 0 <= i < |nodes| && Kept(nodes[i], selected) && nodes[i].surface == w
    ensures forall w :: w in counts ==> !IsBlank(w) && counts[w] == multiset(KeptSurfaces(nodes, selected))[w]
    ensures Total(counts) == |KeptSurfaces(nodes, selected)| <= |nodes|
  {
    var words := CollectWords(nodes, selected);
    counts := Counter(words);
    forall w ensures (w in counts <==>
      exists i :: 0 <= i < |nodes| && Kept(nodes[i], selected) && nodes[i].surface == w) &&
      (w in counts ==> !IsBlank(w))
    {
      KeptSurfacesMembers(nodes, selected, w);
    }
    CounterTotal(words);
  }
}
