/**
 * The morphological analyser's node chain, seen as a finite sequence of nodes.
 * Each node carries its surface text and its comma-separated feature string,
 * whose first field is the top-level part of speech.
 */
module Tokens {
  import opened PyText

  /** One node of the analyser's output (`node.surface`, `node.feature`). */
  datatype Node = Node(surface: string, feature: string)

  /**
   * `feature.split(",")[0]`: the text before the first comma, or all of the
   * feature string when it has none.
   */
  function TopPos(feature: string): (pos: string)
    ensures |pos| <= |feature| && pos == feature[..|pos|] && ',' !in pos
    ensures |pos| == |feature| || feature[|pos|] == ','
  {
    FirstField(feature, {','});
    Split(feature, {','})[0]
  }

  /** The part of speech is the text before the first comma. */
  lemma TopPosOf(pos: string, rest: string)
    requires NoDelim(pos, {','})
    ensures TopPos(pos + [','] + rest) == pos
  {
    assert pos + [','] + rest == pos + ([','] + rest);
    SplitPrefix(pos, [','] + rest, {','});
    assert ([','] + rest)[1..] == rest;
    assert pos + [] == pos;
  }

  /**
   * `s.strip() == ""`, stated as "every character is whitespace", which
   * `PyText.StripEmptyIffAllSpace` proves to be the same. A blank node is
   * skipped by both counting loops.
   */
  predicate IsBlank(s: string) {
    AllSpace(s)
  }
}
