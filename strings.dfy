/** The functions of Go's `strings` package that the exporter calls, on Go
    strings modelled as sequences of characters. */
module GoStrings {

  /** `unicode.IsSpace`: the separator test of `strings.Fields`. */
  predicate IsSpace(c: char) {
    || c == ' ' || c == '\t' || c == '\n' || c == '\r'
    || c == '\U{000B}' || c == '\U{000C}'
    || c == '\U{0085}' || c == '\U{00A0}' || c == '\U{1680}'
    || ('\U{2000}' <= c <= '\U{200A}')
    || c == '\U{2028}' || c == '\U{2029}' || c == '\U{202F}' || c == '\U{205F}' || c == '\U{3000}'
  }

  predicate NoSpace(w: string) {
    forall k :: 0 <= k < |w| ==> !IsSpace(w[k])
  }

  /** `strings.HasPrefix`. */
  predicate HasPrefix(s: string, prefix: string) {
    |prefix| <= |s| && s[..|prefix|] == prefix
  }

  /** `strings.Contains`: `sub` occurs somewhere in `s`. */
  predicate Contains(s: string, sub: string)
    decreases |s|
  {
    HasPrefix(s, sub) || (|s| > 0 && Contains(s[1..], sub))
  }

  /** A one-character needle is found exactly when the character occurs. */
  lemma {:induction false} ContainsChar(s: string, c: char)
    ensures Contains(s, [c]) <==> c in s
  {
    if |s| > 0 {
      ContainsChar(s[1..], c);
      assert s == [s[0]] + s[1..];
    }
  }

  /** Index of the first `c` in `s` at or after `from`; `|s|` when there is none. */
  function IndexFrom(s: string, c: char, from: nat): (i: nat)
    requires from <= |s|
    ensures from <= i <= |s|
    ensures i < |s| ==> s[i] == c
    ensures forall k :: from <= k < i ==> s[k] != c
    decreases |s| - from
  {
    if from == |s| || s[from] == c then from else IndexFrom(s, c, from + 1)
  }

  /** `strings.Split` around a one-character separator: the pieces between
      consecutive separators, one more piece than there are separators. */
  function Split(s: string, sep: char): (parts: seq<string>)
    ensures |parts| >= 1
    ensures (|parts| == 1) == (sep !in s)
    ensures forall i :: 0 <= i < |parts| ==> sep !in parts[i]
    decreases |s|
  {
    var i := IndexFrom(s, sep, 0);
    if i == |s| then [s]
    else
      assert sep in s;
      [s[..i]] + Split(s[i + 1..], sep)
  }

  /** `strings.Join`. */
  function Join(parts: seq<string>, sep: string): string
    decreases |parts|
  {
    if |parts| == 0 then []
    else if |parts| == 1 then parts[0]
    else parts[0] + sep + Join(parts[1..], sep)
  }

  lemma JoinCons(x: string, tail: seq<string>, sep: string)
    requires |tail| >= 1
    ensures Join([x] + tail, sep) == x + sep + Join(tail, sep)
  {
    assert ([x] + tail)[1..] == tail;
  }

  /** Where the first separator sits at `i`, the split is the piece before
      it followed by the split of the rest. */
  lemma SplitAtFirst(s: string, sep: char)
    requires IndexFrom(s, sep, 0) < |s|
    ensures var i := IndexFrom(s, sep, 0);
            Split(s, sep) == [s[..i]] + Split(s[i + 1..], sep)
  {
  }

  lemma AroundIndex(s: string, i: nat)
    requires i < |s|
    ensures s == s[..i] + [s[i]] + s[i + 1..]
  {
    assert s[i..] == [s[i]] + s[i + 1..];
    assert s == s[..i] + s[i..];
  }

  /** Joining the pieces of a split gives back the string. */
  lemma {:induction false} JoinSplit(s: string, sep: char)
    ensures Join(Split(s, sep), [sep]) == s
    decreases |s|
  {
    var i := IndexFrom(s, sep, 0);
    if i < |s| {
      var head, rest := s[..i], s[i + 1..];
      SplitAtFirst(s, sep);
      AroundIndex(s, i);
      JoinSplit(rest, sep);
      JoinCons(head, Split(rest, sep), [sep]);
    }
  }

  /** Splitting a join of separator-free pieces gives back the pieces. */
  lemma {:induction false} SplitJoin(parts: seq<string>, sep: char)
    requires |parts| >= 1
    requires forall i :: 0 <= i < |parts| ==> sep !in parts[i]
    ensures Split(Join(parts, [sep]), sep) == parts
    decreases |parts|
  {
    if |parts| > 1 {
      var a := parts[0];
      var rest := Join(parts[1..], [sep]);
      var s := a + [sep] + rest;
      assert Join(parts, [sep]) == s;
      var i := IndexFrom(s, sep, 0);
      assert s[|a|] == sep;
      assert forall k :: 0 <= k < |a| ==> s[k] == a[k] && a[k] != sep;
      assert i == |a|;
      assert s[..i] == a && s[i + 1..] == rest;
      SplitJoin(parts[1..], sep);
      assert parts == [a] + parts[1..];
    }
  }

  /** Index of the first `IsSpace` character at or after `from`; `|s|` when none. */
  function NextSpace(s: string, from: nat): (i: nat)
    requires from <= |s|
    ensures from <= i <= |s|
    ensures i < |s| ==> IsSpace(s[i])
    ensures forall k :: from <= k < i ==> !IsSpace(s[k])
    decreases |s| - from
  {
    if from == |s| || IsSpace(s[from]) then from else NextSpace(s, from + 1)
  }

  /** `strings.Fields`: the maximal runs of non-space characters, in order. */
  function Fields(s: string): (fields: seq<string>)
    ensures forall i :: 0 <= i < |fields| ==> fields[i] != [] && NoSpace(fields[i])
    decreases |s|
  {
    if s == [] then []
    else if IsSpace(s[0]) then Fields(s[1..])
    else
      var n := NextSpace(s, 0);
      [s[..n]] + Fields(s[n..])
  }

  /** `s` with every space character removed. */
  function Unspaced(s: string): string
    decreases |s|
  {
    if s == [] then [] else (if IsSpace(s[0]) then [] else [s[0]]) + Unspaced(s[1..])
  }

  function Concat(parts: seq<string>): string
    decreases |parts|
  {
    if parts == [] then [] else parts[0] + Concat(parts[1..])
  }

  lemma {:induction false} UnspacedWordPrefix(s: string, n: nat)
    requires n <= |s|
    requires forall k :: 0 <= k < n ==> !IsSpace(s[k])
    ensures Unspaced(s) == s[..n] + Unspaced(s[n..])
    decreases n
  {
    if n > 0 {
      UnspacedWordPrefix(s[1..], n - 1);
      assert s[1..][n - 1..] == s[n..];
      assert s[..n] == [s[0]] + s[1..][..n - 1];
    }
  }

  /** The fields hold exactly the non-space characters of the line, in order:
      Fields drops the separators and nothing else. */
  lemma {:induction false} FieldsKeepAllText(s: string)
    ensures Concat(Fields(s)) == Unspaced(s)
    decreases |s|
  {
    if s != [] {
      if IsSpace(s[0]) {
        FieldsKeepAllText(s[1..]);
      } else {
        var n := NextSpace(s, 0);
        FieldsKeepAllText(s[n..]);
        UnspacedWordPrefix(s, n);
        assert Fields(s) == [s[..n]] + Fields(s[n..]);
      }
    }
  }

  /** A text starting with a word of `n` characters that runs up to a white
      space or the end has that word as its first field. */
  lemma FieldsSplitWord(s: string, n: nat)
    requires 0 < n <= |s| && NoSpace(s[..n])
    requires n == |s| || IsSpace(s[n])
    ensures Fields(s) == [s[..n]] + Fields(s[n..])
  {
    assert forall k :: 0 <= k < n ==> s[k] == s[..n][k];
    assert NextSpace(s, 0) == n;
  }

  /** A non-empty word without white space is a single field. */
  lemma FieldsOfWord(w: string)
    requires w != [] && NoSpace(w)
    ensures Fields(w) == [w]
  {
    assert w[..|w|] == w;
    FieldsSplitWord(w, |w|);
  }

  /** Leading white space yields no field. */
  lemma FieldsLeadingSpace(c: char, b: string)
    requires IsSpace(c)
    ensures Fields([c] + b) == Fields(b)
  {
    assert ([c] + b)[1..] == b;
  }

  /** How `a + [c] + b` slices at a position `m` inside or at the end of `a`. */
  lemma SliceAround(a: string, c: char, b: string, m: nat)
    requires m <= |a|
    ensures (a + [c] + b)[..m] == a[..m]
    ensures m < |a| ==> (a + [c] + b)[m] == a[m] && (a + [c] + b)[m..] == a[m..] + [c] + b
    ensures m == |a| ==> (a + [c] + b)[m] == c && (a + [c] + b)[m..] == [c] + b
  {
  }

  /** A white space character separates fields: the fields of the text
      around it are those before it followed by those after it. With
      `FieldsOfWord` and `Fields([]) == []` this fixes `Fields` on every
      text: each field is a maximal run of non-space characters. */
  lemma {:induction false} FieldsAtSpace(a: string, c: char, b: string)
    requires IsSpace(c)
    ensures Fields(a + [c] + b) == Fields(a) + Fields(b)
    decreases |a|
  {
    var s := a + [c] + b;
    if a == [] {
      SliceAround(a, c, b, 0);
      FieldsLeadingSpace(c, b);
    } else if IsSpace(a[0]) {
      SliceAround(a, c, b, 1);
      FieldsAtSpace(a[1..], c, b);
    } else {
      var m := NextSpace(a, 0);
      SliceAround(a, c, b, m);
      if m < |a| {
        FieldsSplitWord(s, m);
        FieldsSplitWord(a, m);
        FieldsAtSpace(a[m..], c, b);
      } else {
        FieldsSplitWord(s, m);
        FieldsSplitWord(a, m);
        FieldsLeadingSpace(c, b);
      }
    }
  }

  /** `strings.TrimLeft`: drop the leading characters that are in `cutset`. */
  function TrimLeft(s: string, cutset: string): (r: string)
    ensures |r| <= |s| && r == s[|s| - |r|..]
    ensures r == [] || r[0] !in cutset
    ensures forall k :: 0 <= k < |s| - |r| ==> s[k] in cutset
    decreases |s|
  {
    if s != [] && s[0] in cutset then TrimLeft(s[1..], cutset) else s
  }

  /** `strings.TrimRight`: drop the trailing characters that are in `cutset`. */
  function TrimRight(s: string, cutset: string): (r: string)
    ensures |r| <= |s| && r == s[..|r|]
    ensures r == [] || r[|r| - 1] !in cutset
    ensures forall k :: |r| <= k < |s| ==> s[k] in cutset
    decreases |s|
  {
    if s != [] && s[|s| - 1] in cutset then TrimRight(s[..|s| - 1], cutset) else s
  }

  /** How many leading characters of `s` are in `cutset`. */
  function LeadingCut(s: string, cutset: string): nat {
    |s| - |TrimLeft(s, cutset)|
  }

  /** A prefix of a suffix of `s` is a slice of `s`, and what the prefix
      leaves of the suffix is the tail of `s`. */
  lemma PrefixOfSuffix(s: string, left: string, r: string, cutset: string)
    requires |left| <= |s| && left == s[|s| - |left|..]
    requires |r| <= |left| && r == left[..|r|]
    requires forall k :: |r| <= k < |left| ==> left[k] in cutset
    ensures var a := |s| - |left|;
            && r == s[a..a + |r|]
            && (forall k :: a + |r| <= k < |s| ==> s[k] in cutset)
  {
    var a := |s| - |left|;
    assert forall k :: a <= k < |s| ==> s[k] == left[k - a];
  }

  /** `strings.Trim`: the slice of `s` that starts after its leading
      `cutset` characters and stops before its trailing ones; it neither
      starts nor ends with a `cutset` character. */
  function Trim(s: string, cutset: string): (r: string)
    ensures var a := LeadingCut(s, cutset);
            && a + |r| <= |s| && r == s[a..a + |r|]
            && (forall k :: 0 <= k < a ==> s[k] in cutset)
            && (forall k :: a + |r| <= k < |s| ==> s[k] in cutset)
    ensures r == [] || (r[0] !in cutset && r[|r| - 1] !in cutset)
  {
    var left := TrimLeft(s, cutset);
    var r := TrimRight(left, cutset);
    PrefixOfSuffix(s, left, r, cutset);
    r
  }

  /** `strings.ReplaceAll` for a non-empty pattern: every occurrence of `pat`,
      found left to right without overlapping, becomes `rep`. */
  function ReplaceAll(s: string, pat: string, rep: string): string
    requires pat != []
    decreases |s|
  {
    if HasPrefix(s, pat) then rep + ReplaceAll(s[|pat|..], pat, rep)
    else if s == [] then []
    else [s[0]] + ReplaceAll(s[1..], pat, rep)
  }

  /** Text in which the pattern does not occur is returned unchanged. */
  lemma {:induction false} ReplaceAllAbsent(s: string, pat: string, rep: string)
    requires pat != [] && !Contains(s, pat)
    ensures ReplaceAll(s, pat, rep) == s
    decreases |s|
  {
    if s != [] {
      ReplaceAllAbsent(s[1..], pat, rep);
      assert s == [s[0]] + s[1..];
    }
  }
}
