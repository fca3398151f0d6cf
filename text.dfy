/**
 * The few Python string operations the app relies on: `str.isspace`,
 * `str.strip()`, and splitting on a set of single-character delimiters
 * (`str.split(",")`, `str.split("\n")`, `re.split('\t|,', ...)`).
 */
module PyText {

  /** Python's `str.isspace` for one character: the Unicode whitespace set. */
  predicate IsSpace(c: char) {
    || ('\t' <= c <= '\r')
    || ('\U{1C}' <= c <= '\U{1F}')
    || c == ' '
    || c == '\U{85}'
    || c == '\U{A0}'
    || c == '\U{1680}'
    || ('\U{2000}' <= c <= '\U{200A}')
    || c == '\U{2028}'
    || c == '\U{2029}'
    || c == '\U{202F}'
    || c == '\U{205F}'
    || c == '\U{3000}'
  }

  /** Every character of `s` is whitespace (vacuously true of ""). */
  predicate AllSpace(s: string) {
    forall i :: 0 <= i < |s| ==> IsSpace(s[i])
  }

  /** Drops leading whitespace: the result is the suffix that starts at the first non-space. */
  function TrimStart(s: string): (r: string)
    ensures |r| <= |s| && r == s[|s| - |r|..]
    ensures AllSpace(s[..|s| - |r|])
    ensures r != [] ==> !IsSpace(r[0])
  {
    if s != [] && IsSpace(s[0]) then TrimStart(s[1..]) else s
  }

  /** Drops trailing whitespace: the result is the prefix that ends at the last non-space. */
  function TrimEnd(s: string): (r: string)
    ensures |r| <= |s| && r == s[..|r|]
    ensures AllSpace(s[|r|..])
    ensures r != [] ==> !IsSpace(r[|r| - 1])
  {
    if s != [] && IsSpace(s[|s| - 1]) then
      var r := TrimEnd(s[..|s| - 1]);
      assert s[|r|..] == s[..|s| - 1][|r|..] + [s[|s| - 1]];
      r
    else s
  }

  /** Python's `s.strip()` with no argument. */
  function Strip(s: string): (r: string)
    ensures r == [] || (!IsSpace(r[0]) && !IsSpace(r[|r| - 1]))
  {
    TrimEnd(TrimStart(s))
  }

  /** `s.strip() == ""` holds exactly when `s` consists of whitespace only. */
  lemma StripEmptyIffAllSpace(s: string)
    ensures Strip(s) == [] <==> AllSpace(s)
  {
    var t := TrimStart(s);
    if Strip(s) == [] {
      assert t[0..] == t;
      assert t == [];
      assert s[..|s|] == s;
    } else {
      assert t != [];
      assert t[0] == s[|s| - |t|];
    }
  }

  /** No character of `s` is one of `delims`. */
  predicate NoDelim(s: string, delims: set<char>) {
    forall i :: 0 <= i < |s| ==> s[i] !in delims
  }

  /** How many characters of `s` are delimiters. */
  function DelimCount(s: string, delims: set<char>): nat {
    if s == [] then 0 else (if s[0] in delims then 1 else 0) + DelimCount(s[1..], delims)
  }

  /** A string has no delimiter exactly when it counts none. */
  lemma {:induction false} NoDelimIffZeroCount(s: string, delims: set<char>)
    ensures NoDelim(s, delims) <==> DelimCount(s, delims) == 0
  {
    if s != [] {
      NoDelimIffZeroCount(s[1..], delims);
      assert NoDelim(s, delims) <==> s[0] !in delims && NoDelim(s[1..], delims);
    }
  }

  /**
   * Splits `s` at every character in `delims`, keeping empty fields, as Python's
   * `str.split(d)` (one delimiter) and `re.split('\t|,', s)` (an alternation of single
   * characters) do: "" gives [""], "a,,b" gives ["a", "", "b"].
   */
  function Split(s: string, delims: set<char>): (fields: seq<string>)
    ensures |fields| == DelimCount(s, delims) + 1
    ensures forall i :: 0 <= i < |fields| ==> NoDelim(fields[i], delims)
  {
    if s == [] then [[]]
    else
      var rest := Split(s[1..], delims);
      if s[0] in delims then [[]] + rest
      else [[s[0]] + rest[0]] + rest[1..]
  }

  /** Joins non-empty `fields` with the separator `d` (Python's `d.join(fields)`). */
  function Join(fields: seq<string>, d: char): string
    requires |fields| > 0
  {
    if |fields| == 1 then fields[0] else fields[0] + [d] + Join(fields[1..], d)
  }

  /** Splitting a delimiter-free prefix glues it to the first field of the rest. */
  lemma {:induction false} SplitPrefix(x: string, y: string, delims: set<char>)
    requires NoDelim(x, delims)
    ensures Split(x + y, delims) == [x + Split(y, delims)[0]] + Split(y, delims)[1..]
  {
    if x != [] {
      assert (x + y)[1..] == x[1..] + y;
      SplitPrefix(x[1..], y, delims);
      assert [x[0]] + (x[1..] + Split(y, delims)[0]) == x + Split(y, delims)[0];
    } else {
      var fs := Split(y, delims);
      assert x + y == y;
      assert fs == [fs[0]] + fs[1..];
      assert x + fs[0] == fs[0];
    }
  }

  /** Round trip: splitting a join recovers the fields when none contains a delimiter. */
  lemma {:induction false} SplitJoin(fields: seq<string>, d: char, delims: set<char>)
    requires |fields| > 0 && d in delims
    requires forall i :: 0 <= i < |fields| ==> NoDelim(fields[i], delims)
    ensures Split(Join(fields, d), delims) == fields
  {
    if |fields| == 1 {
      SplitPrefix(fields[0], [], delims);
      assert fields[0] + [] == fields[0];
    } else {
      var rest := Join(fields[1..], d);
      SplitJoin(fields[1..], d, delims);
      assert fields[0] + [d] + rest == fields[0] + ([d] + rest);
      SplitPrefix(fields[0], [d] + rest, delims);
      assert ([d] + rest)[1..] == rest;
      assert Split([d] + rest, delims) == [[]] + fields[1..];
      assert fields[0] + [] == fields[0];
    }
  }

  /** Round trip the other way: with one delimiter, joining the split fields gives back `s`. */
  lemma {:induction false} JoinSplit(s: string, d: char)
    ensures Join(Split(s, {d}), d) == s
  {
    if s != [] {
      var rest := Split(s[1..], {d});
      JoinSplit(s[1..], d);
      if s[0] == d {
        assert Split(s, {d}) == [[]] + rest;
        assert ([[]] + rest)[1..] == rest;
        assert s == [d] + s[1..];
      } else {
        var fields := Split(s, {d});
        assert fields == [[s[0]] + rest[0]] + rest[1..];
        if |rest| == 1 {
          assert s == [s[0]] + rest[0];
        } else {
          assert fields[1..] == rest[1..];
          assert Join(rest, d) == rest[0] + [d] + Join(rest[1..], d);
          assert s == [s[0]] + s[1..];
        }
      }
    }
  }

  /** The first field is the longest delimiter-free prefix of `s`. */
  lemma {:induction false} FirstField(s: string, delims: set<char>)
    ensures var f := Split(s, delims)[0];
      |f| <= |s| && f == s[..|f|] && (|f| == |s| || s[|f|] in delims)
  {
    if s != [] && s[0] !in delims {
      FirstField(s[1..], delims);
    }
  }

  /** The last field is the longest delimiter-free suffix of `s`. */
  lemma {:induction false} LastField(s: string, delims: set<char>)
    ensures var fs := Split(s, delims); var f := fs[|fs| - 1];
      |f| <= |s| && f == s[|s| - |f|..] && (|f| == |s| || s[|s| - |f| - 1] in delims)
  {
    if s != [] {
      var rest := Split(s[1..], delims);
      LastField(s[1..], delims);
      var fs := Split(s, delims);
      var g := rest[|rest| - 1];
      NoDelimIffZeroCount(s[1..], delims);
      if s[0] in delims || |rest| > 1 {
        assert fs[|fs| - 1] == g;
        assert s[1..][|s| - 1 - |g|..] == s[|s| - |g|..];
        if |g| < |s| - 1 {
          assert s[1..][|s| - 1 - |g| - 1] == s[|s| - |g| - 1];
        }
      } else {
        assert fs == [[s[0]] + rest[0]];
        assert s == [s[0]] + s[1..];
      }
    }
  }
}
