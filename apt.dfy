/** The apt side of the exporter (exporter.go): the parser of
    `apt-get --just-print dist-upgrade`, the counter of
    `apt-get --just-print autoremove` and the reboot-marker rule. The
    commands are not run here: each getter receives what `cmd.Output()`
    returned, and the reboot rule whether stat-ing the marker succeeded. */
module Apt {
  import opened Wrappers
  import opened GoStrings
  import opened Grouping

  /** `aptOriginArchKey`: the group a pending package is counted in. */
  datatype OriginArchKey = OriginArchKey(origin: string, arch: string)

  /** `getOriginArch`: the key's two labels, from which the key is rebuilt. */
  function GetOriginArch(k: OriginArchKey): (labels: (string, string))
    ensures OriginArchKey(labels.0, labels.1) == k
  {
    (k.origin, k.arch)
  }

  /** The simulator's marker of a package it would install or upgrade. */
  const InstMarker := "Inst"

  /** The simulator's marker of a package it would remove. */
  const RemvMarker := "Remv"

  /** The cutset trimmed off the architecture token. */
  const Brackets := "[]"

  /** The `^Inst` pattern. */
  predicate IsInst(line: string) {
    HasPrefix(line, InstMarker)
  }

  // ---------------------------------------------------------------- the name pattern `\s([\S\s]+?)\s`

  /** `\s` in Go's regexp syntax: space, tab, newline, form feed, carriage
      return (narrower than the space test of `strings.Fields`). */
  predicate IsRegexSpace(c: char) {
    c == ' ' || c == '\t' || c == '\n' || c == '\U{000C}' || c == '\r'
  }

  /** Index of the first regexp space at or after `from`; `|s|` when none. */
  function NextRegexSpace(s: string, from: nat): (i: nat)
    requires from <= |s|
    ensures from <= i <= |s|
    ensures i < |s| ==> IsRegexSpace(s[i])
    ensures forall k :: from <= k < i ==> !IsRegexSpace(s[k])
    decreases |s| - from
  {
    if from == |s| || IsRegexSpace(s[from]) then from else NextRegexSpace(s, from + 1)
  }

  /** `\s([\S\s]+?)\s` can match `s[i..j + 1]`, capturing `s[i + 1..j]`. */
  predicate NameMatchAt(s: string, i: int, j: int) {
    0 <= i && i + 2 <= j < |s| && IsRegexSpace(s[i]) && IsRegexSpace(s[j])
  }

  /** The match `FindStringSubmatch` reports: the leftmost start, and there
      the shortest capture, as the lazy `+?` asks; None when nothing matches. */
  function FindName(s: string): (m: Option<(nat, nat)>)
    ensures m.Some? ==> NameMatchAt(s, m.value.0, m.value.1)
  {
    var i := NextRegexSpace(s, 0);
    if i + 2 > |s| then None
    else
      var j := NextRegexSpace(s, i + 2);
      if j == |s| then None else Some((i, j))
  }

  /** `FindName` finds the match the regexp engine reports: every other match
      starts later, or starts there and captures more; and it finds nothing
      only when nothing matches. */
  lemma FindNameLeftmost(s: string)
    ensures var m := FindName(s);
            && (m.Some? ==> forall i, j :: NameMatchAt(s, i, j) ==>
                              m.value.0 < i || (m.value.0 == i && m.value.1 <= j))
            && (m.None? ==> forall i, j :: !NameMatchAt(s, i, j))
  {
  }

  // ---------------------------------------------------------------- the group pattern `\(([^)]+)\)`

  /** `\(([^)]+)\)` can match `s[p..q + 1]`, capturing `s[p + 1..q]`. */
  predicate ParenMatchAt(s: string, p: int, q: int) {
    0 <= p && p + 1 < q < |s| && s[p] == '(' && s[q] == ')'
    && forall k :: p < k < q ==> s[k] != ')'
  }

  /** The leftmost match at or after `from`; None when there is none. */
  function FindParen(s: string, from: nat): (m: Option<(nat, nat)>)
    requires from <= |s|
    ensures m.Some? ==> from <= m.value.0 && ParenMatchAt(s, m.value.0, m.value.1)
    decreases |s| - from
  {
    var p := IndexFrom(s, '(', from);
    if p == |s| then None
    else
      var q := IndexFrom(s, ')', p + 1);
      if q == |s| then None
      else if q == p + 1 then FindParen(s, p + 1)
      else Some((p, q))
  }

  /** `FindParen` finds the leftmost match at or after `from`, and finds
      nothing only when no match starts there or later. */
  lemma {:induction false} FindParenLeftmost(s: string, from: nat)
    requires from <= |s|
    ensures var m := FindParen(s, from);
            && (m.Some? ==> forall p, q :: from <= p < m.value.0 ==> !ParenMatchAt(s, p, q))
            && (m.None? ==> forall p, q :: from <= p ==> !ParenMatchAt(s, p, q))
    decreases |s| - from
  {
    var p := IndexFrom(s, '(', from);
    if p < |s| {
      var q := IndexFrom(s, ')', p + 1);
      if q == p + 1 {
        FindParenLeftmost(s, p + 1);
      }
    }
  }

  // ---------------------------------------------------------------- the key of an Inst line

  predicate EndsWithComma(t: string) {
    |t| > 0 && t[|t| - 1] == ','
  }

  /** Tokens glued the way the origin string ends up: a token ending in a
      comma runs straight into the next one, any other token is followed by
      a single space. */
  function CommaJoin(tokens: seq<string>): string
    decreases |tokens|
  {
    if |tokens| == 0 then []
    else if |tokens| == 1 then tokens[0]
    else tokens[0] + (if EndsWithComma(tokens[0]) then [] else " ") + CommaJoin(tokens[1..])
  }

  lemma {:induction false} NoPairWithoutSpace(t: string)
    requires ' ' !in t
    ensures !Contains(t, ", ")
    decreases |t|
  {
    if |t| > 0 {
      assert !HasPrefix(t, ", ") by {
        if |t| >= 2 { assert t[..2][1] == t[1] && t[1] in t; }
      }
      assert ' ' !in t[1..];
      NoPairWithoutSpace(t[1..]);
    }
  }

  /** Where the pattern does not start, `ReplaceAll` keeps the character. */
  lemma ReplaceAllCons(c: char, t: string, pat: string, rep: string)
    requires pat != [] && !HasPrefix([c] + t, pat)
    ensures ReplaceAll([c] + t, pat, rep) == [c] + ReplaceAll(t, pat, rep)
  {
    assert ([c] + t)[1..] == t;
  }

  /** A space-free token other than "," does not start a ", " when a space
      follows it. */
  lemma NoPairAtStart(a: string, b: string)
    requires ' ' !in a && a != [] && a != ","
    ensures !HasPrefix(a + " " + b, ", ")
  {
    var s := a + " " + b;
    assert s[0] == a[0];
    if |a| == 1 {
      assert a == [a[0]];
    } else {
      assert s[1] == a[1] && a[1] in a;
    }
  }

  /** Dropping the first character of a token keeps it space-free and keeps
      how it ends. */
  lemma TokenTail(a: string)
    requires ' ' !in a && |a| >= 2
    ensures ' ' !in a[1..]
    ensures EndsWithComma(a[1..]) == EndsWithComma(a)
  {
    assert forall k :: 0 <= k < |a| - 1 ==> a[1..][k] == a[k + 1];
  }

  /** `ReplaceAll` keeps the first character of `a + rest` when no pattern
      starts there. */
  lemma ReplaceAllKeepsHead(a: string, rest: string, pat: string, rep: string)
    requires a != [] && pat != [] && !HasPrefix(a + rest, pat)
    ensures ReplaceAll(a + rest, pat, rep) == [a[0]] + ReplaceAll(a[1..] + rest, pat, rep)
  {
    assert a + rest == [a[0]] + (a[1..] + rest);
    ReplaceAllCons(a[0], a[1..] + rest, pat, rep);
  }

  /** The space after an empty token survives. */
  lemma CollapseAfterEmpty(b: string)
    ensures ReplaceAll(" " + b, ", ", ",") == " " + ReplaceAll(b, ", ", ",")
  {
    assert (" " + b)[0] == ' ';
    ReplaceAllKeepsHead(" ", b, ", ", ",");
  }

  /** The space after a lone comma is collapsed. */
  lemma CollapseAfterComma(b: string)
    ensures ReplaceAll("," + " " + b, ", ", ",") == "," + ReplaceAll(b, ", ", ",")
  {
    var s := "," + " " + b;
    assert HasPrefix(s, ", ") && s[2..] == b;
  }

  lemma Regroup(c: char, x: string, y: string, z: string)
    ensures [c] + (x + y + z) == [c] + x + y + z
    ensures x + (y + z) == x + y + z
  {
  }

  /** Collapsing ", " across the space after a space-free token. */
  lemma {:induction false} CollapseAfterToken(a: string, b: string)
    requires ' ' !in a
    ensures ReplaceAll(a + " " + b, ", ", ",")
         == a + (if EndsWithComma(a) then [] else " ") + ReplaceAll(b, ", ", ",")
    decreases |a|
  {
    if a == [] {
      assert a + " " + b == " " + b;
      CollapseAfterEmpty(b);
    } else if a == "," {
      CollapseAfterComma(b);
    } else {
      var a' := a[1..];
      var gap := if EndsWithComma(a) then [] else " ";
      var r := ReplaceAll(b, ", ", ",");
      if |a| == 1 {
        assert a' == [];
      } else {
        TokenTail(a);
      }
      CollapseAfterToken(a', b);
      NoPairAtStart(a, b);
      Regroup(a[0], a, " ", b);
      ReplaceAllKeepsHead(a, " " + b, ", ", ",");
      Regroup(a[0], a', " ", b);
      Regroup(a[0], a', gap, r);
      assert a == [a[0]] + a';
    }
  }

  /** Joining space-free tokens with " " and collapsing every ", " to ","
      is the same as gluing them with `CommaJoin`. */
  lemma {:induction false} CollapseJoin(tokens: seq<string>)
    requires forall i :: 0 <= i < |tokens| ==> ' ' !in tokens[i]
    ensures ReplaceAll(Join(tokens, " "), ", ", ",") == CommaJoin(tokens)
    decreases |tokens|
  {
    if |tokens| == 1 {
      NoPairWithoutSpace(tokens[0]);
      ReplaceAllAbsent(tokens[0], ", ", ",");
    } else if |tokens| > 1 {
      CollapseJoin(tokens[1..]);
      CollapseAfterToken(tokens[0], Join(tokens[1..], " "));
    }
  }

  /** The origin read from the tokens after the version: all but the last,
      joined by " ", with every ", " collapsed to ",". */
  function OriginOf(origins: seq<string>): string
    requires |origins| >= 1
  {
    ReplaceAll(Join(origins[..|origins| - 1], " "), ", ", ",")
  }

  /** The architecture read from the tokens after the version: the last one,
      with brackets trimmed from both ends. */
  function ArchOf(origins: seq<string>): string
    requires |origins| >= 1
  {
    Trim(origins[|origins| - 1], Brackets)
  }

  /** The key built from the contents of the first parenthesized group: the
      first token (the version) is dropped, and the origin and architecture
      are read from the tokens that follow. */
  function KeyOfGroup(group: string): OriginArchKey
    requires ' ' in group
  {
    var origins := Split(group, ' ')[1..];
    OriginArchKey(OriginOf(origins), ArchOf(origins))
  }

  /** The architecture neither starts nor ends with a bracket. */
  predicate Bracketless(arch: string) {
    arch == [] || (arch[0] !in Brackets && arch[|arch| - 1] !in Brackets)
  }

  /** The tokens `Split` yields hold no space, so the origin of a group's
      key is the tokens after the version, all but the last, glued by
      `CommaJoin`. */
  lemma OriginOfTokens(origins: seq<string>)
    requires |origins| >= 1
    requires forall i :: 0 <= i < |origins| ==> ' ' !in origins[i]
    ensures OriginOf(origins) == CommaJoin(origins[..|origins| - 1])
  {
    var mid := origins[..|origins| - 1];
    assert forall i :: 0 <= i < |mid| ==> mid[i] == origins[i];
    CollapseJoin(mid);
  }

  /** The architecture of a group's key: the last token with brackets
      trimmed off both ends, so it neither starts nor ends with a bracket. */
  lemma KeyOfGroupArch(group: string)
    requires ' ' in group
    ensures var origins := Split(group, ' ')[1..];
            && KeyOfGroup(group).arch == Trim(origins[|origins| - 1], Brackets)
            && Bracketless(KeyOfGroup(group).arch)
  {
  }

  /** A single origin token passes through unchanged. */
  lemma SingleOrigin(group: string, version: string, origin: string, archToken: string)
    requires Split(group, ' ') == [version, origin, archToken]
    ensures KeyOfGroup(group).origin == origin
  {
    var tokens := Split(group, ' ');
    assert ' ' in group;
    assert tokens[1..][..1] == [origin];
    assert ' ' !in origin by { assert origin == tokens[1]; }
    NoPairWithoutSpace(origin);
    ReplaceAllAbsent(origin, ", ", ",");
  }

  /** Several origin tokens, each but the last ending in a comma (as apt
      prints "a, b"), give their concatenation: the origins separated by
      "," with no space. */
  lemma {:induction false} MultiOrigin(tokens: seq<string>)
    requires forall i :: 0 <= i < |tokens| - 1 ==> EndsWithComma(tokens[i])
    ensures CommaJoin(tokens) == Concat(tokens)
    decreases |tokens|
  {
    if |tokens| > 1 {
      MultiOrigin(tokens[1..]);
      if |tokens| == 2 { assert Concat(tokens[1..]) == tokens[1] + Concat([]); }
    } else if |tokens| == 1 {
      assert Concat(tokens) == tokens[0] + Concat([]);
    }
  }

  /** An architecture token written in brackets, as apt prints it, trims to
      the bare architecture. */
  lemma TrimBracketed(arch: string)
    requires Bracketless(arch)
    ensures Trim("[" + arch + "]", Brackets) == arch
  {
    if arch == [] {
      var s := "[" + arch + "]";
      assert s[0] in Brackets && s[1..] == "]";
      assert "]"[0] in Brackets && "]"[1..] == [];
      assert TrimLeft(s, Brackets) == [];
    } else {
      OpenBracketTrimmed(arch);
      CloseBracketTrimmed(arch);
    }
  }

  lemma OpenBracketTrimmed(arch: string)
    requires arch != [] && arch[0] !in Brackets
    ensures TrimLeft("[" + arch + "]", Brackets) == arch + "]"
  {
    var s := "[" + arch + "]";
    assert s[0] in Brackets && s[1..] == arch + "]";
    assert (arch + "]")[0] == arch[0];
  }

  lemma CloseBracketTrimmed(arch: string)
    requires arch == [] || arch[|arch| - 1] !in Brackets
    ensures TrimRight(arch + "]", Brackets) == arch
  {
    var s := arch + "]";
    assert s[|s| - 1] in Brackets && s[..|s| - 1] == arch;
  }

  lemma JoinThree(a: string, b: string, c: string)
    ensures Join([a, b, c], " ") == a + " " + b + " " + c
  {
    var tokens := [a, b, c];
    assert tokens[1..][1..] == [c];
    assert Join(tokens[1..], " ") == b + " " + c;
  }

  /** The common shape of a group, "version origin [arch]", yields the key
      (origin, arch). */
  lemma KeyOfPlainGroup(version: string, origin: string, arch: string)
    requires ' ' !in version && ' ' !in origin && ' ' !in arch
    requires Bracketless(arch)
    ensures KeyOfGroup(version + " " + origin + " [" + arch + "]") == OriginArchKey(origin, arch)
  {
    var archToken := "[" + arch + "]";
    var group := version + " " + origin + " " + archToken;
    assert version + " " + origin + " [" + arch + "]" == group;
    JoinThree(version, origin, archToken);
    assert ' ' !in archToken;
    SplitJoin([version, origin, archToken], ' ');
    SingleOrigin(group, version, origin, archToken);
    TrimBracketed(arch);
  }

  // ---------------------------------------------------------------- dist-upgrade

  /** The dist-upgrade loop reads this Inst line without panicking: both
      patterns match and the group holds at least two tokens. */
  predicate InstLineOk(line: string) {
    FindName(line).Some? && FindParen(line, 0).Some? && ' ' in ParenGroup(line)
  }

  /** The first capture of `\(([^)]+)\)`. */
  function ParenGroup(line: string): string
    requires FindParen(line, 0).Some?
  {
    var pq := FindParen(line, 0).value;
    line[pq.0 + 1..pq.1]
  }

  /** The first capture of `\s([\S\s]+?)\s`: the text after the first white
      space up to the next white space at least one character later (the
      token after `Inst` when one space follows it). */
  function PackageName(line: string): string
    requires FindName(line).Some?
  {
    var ij := FindName(line).value;
    line[ij.0 + 1..ij.1]
  }

  predicate LineOk(line: string) {
    IsInst(line) ==> InstLineOk(line)
  }

  /** Every Inst line can be read without panicking. */
  predicate Parsable(lines: seq<string>) {
    forall i :: 0 <= i < |lines| ==> LineOk(lines[i])
  }

  function LineEntry(line: string): Entry<OriginArchKey>
    requires InstLineOk(line)
  {
    Entry(KeyOfGroup(ParenGroup(line)), PackageName(line))
  }

  /** The entries the dist-upgrade loop appends: one per Inst line, in order. */
  function PendingEntries(lines: seq<string>): seq<Entry<OriginArchKey>>
    requires Parsable(lines)
  {
    Entries(lines, IsInst, LineEntry)
  }

  /** dist-upgrade grouping: only Inst lines contribute, one name each; the
      list under a key holds the names of the Inst lines with that key, in
      order and with repeats kept, and a key is present exactly when some
      Inst line yields it; the list lengths add up to the number of Inst
      lines. */
  lemma PendingGrouping(lines: seq<string>, key: OriginArchKey)
    requires Parsable(lines)
    ensures Lookup(Group(PendingEntries(lines)), key) == NamesFor(lines, IsInst, LineEntry, key)
    ensures key in Group(PendingEntries(lines)) <==> NamesFor(lines, IsInst, LineEntry, key) != []
    ensures Total(Group(PendingEntries(lines))) == |Kept(lines, IsInst)|
  {
    ParsedGrouping(lines, IsInst, LineEntry, key);
  }

  /** No key of the grouped map has an architecture that starts or ends with
      a bracket. */
  lemma PendingArchTrimmed(lines: seq<string>, key: OriginArchKey)
    requires Parsable(lines)
    requires key in Group(PendingEntries(lines))
    ensures Bracketless(key.arch)
  {
    var es := PendingEntries(lines);
    GroupContents(es, key);
    forall line | IsInst(line) && InstLineOk(line) ensures Bracketless(LineEntry(line).key.arch) {
      KeyOfGroupArch(ParenGroup(line));
    }
    EntriesSatisfy(lines, IsInst, LineEntry, (e: Entry<OriginArchKey>) => Bracketless(e.key.arch));
    var i :| 0 <= i < |es| && es[i].key == key;
  }

  /** getAptPendingPackages with the command's result given: any error is
      returned as is; otherwise an empty output gives the empty (nil) map
      and a non-empty one the grouping of its Inst lines. */
  function PendingPackages(run: CommandRun): (r: Result<map<OriginArchKey, seq<string>>>)
    requires run.err.None? ==> Parsable(Split(run.output, '\n'))
    ensures r.Err? <==> run.err.Some?
    ensures r.Err? ==> r.error == run.err.value
    ensures r.Ok? && run.output == [] ==> r.value == map[]
  {
    if run.err.Some? then Err(run.err.value)
    else if |run.output| > 0 then Ok(Group(PendingEntries(Split(run.output, '\n'))))
    else Ok(map[])
  }

  /** The loop of getAptPendingPackages, appending into `packagesPerOrigin`. */
  method GetPendingPackages(run: CommandRun) returns (r: Result<map<OriginArchKey, seq<string>>>)
    requires run.err.None? ==> Parsable(Split(run.output, '\n'))
    ensures r == PendingPackages(run)
  {
    if run.err.Some? {
      return Err(run.err.value);
    }
    if |run.output| > 0 {
      var lines := Split(run.output, '\n');
      var packagesPerOrigin: map<OriginArchKey, seq<string>> := map[];
      for i := 0 to |lines|
        invariant Readable(lines[..i], IsInst, LineEntry)
        invariant packagesPerOrigin == Group(Entries(lines[..i], IsInst, LineEntry))
      {
        var line := lines[i];
        EntriesStep(lines, IsInst, LineEntry, i);
        if HasPrefix(line, InstMarker) {
          var packageName := PackageName(line);
          var group := ParenGroup(line);
          var origins := Split(group, ' ')[1..];
          var key := OriginArchKey(OriginOf(origins), ArchOf(origins));
          packagesPerOrigin := Append(packagesPerOrigin, key, packageName);
        }
      }
      assert lines[..|lines|] == lines;
      return Ok(packagesPerOrigin);
    }
    return Ok(map[]);
  }

  // ---------------------------------------------------------------- autoremove

  /** A line of the autoremove listing that removes a package. */
  predicate IsRemoval(line: string) {
    HasPrefix(line, RemvMarker)
  }

  /** The lines starting with "Remv", in order. */
  function RemovalLines(lines: seq<string>): seq<string> {
    Kept(lines, IsRemoval)
  }

  /** The counting loop guarded in getAptAutoremovePackages. */
  method CountRemovals(lines: seq<string>) returns (count: nat)
    ensures count == |RemovalLines(lines)|
    ensures count == |KeptAt(lines, IsRemoval)|
  {
    count := 0;
    for i := 0 to |lines|
      invariant count == |RemovalLines(lines[..i])|
    {
      assert lines[..i + 1][..i] == lines[..i];
      if HasPrefix(lines[i], RemvMarker) {
        count := count + 1;
      }
    }
    assert lines[..|lines|] == lines;
    KeptCount(lines, IsRemoval);
  }

  /** getAptAutoremovePackages as written: its guard `len(output) < 0` can
      never hold, so a successful run always yields 0. */
  function AutoremoveAsWritten(run: CommandRun): (r: Result<int>)
    ensures r.Err? <==> run.err.Some?
    ensures r.Err? ==> r.error == run.err.value
    ensures r.Ok? ==> r.value == 0
  {
    if run.err.Some? then Err(run.err.value)
    else if |run.output| < 0 then Ok(|RemovalLines(Split(run.output, '\n'))|)
    else Ok(0)
  }

  /** A dry run that would remove one package is reported as removing none. */
  lemma AutoremoveAsWrittenMissesRemovals()
    ensures var run := CommandRun("Remv foo [1.0]\n", None);
            && |RemovalLines(Split(run.output, '\n'))| == 1
            && AutoremoveAsWritten(run) == Ok(0)
  {
    var lines := ["Remv foo [1.0]", ""];
    assert Join(lines, "\n") == "Remv foo [1.0]\n";
    SplitJoin(lines, '\n');
    assert lines[..1] == ["Remv foo [1.0]"];
    assert HasPrefix(lines[0], RemvMarker);
  }

  /** getAptAutoremovePackages with the guard the other getters use
      (`len(output) > 0`): any error is returned as is; otherwise the count is
      the number of "Remv" lines, 0 for an empty output. */
  function Autoremove(run: CommandRun): (r: Result<int>)
    ensures r.Err? <==> run.err.Some?
    ensures r.Err? ==> r.error == run.err.value
    ensures r.Ok? ==> r.value == |RemovalLines(Split(run.output, '\n'))|
    ensures r.Ok? ==> r.value == |KeptAt(Split(run.output, '\n'), IsRemoval)|
    ensures r.Ok? && run.output == [] ==> r.value == 0
  {
    if run.err.Some? then Err(run.err.value)
    else if |run.output| > 0 then
      KeptCount(Split(run.output, '\n'), IsRemoval);
      Ok(|RemovalLines(Split(run.output, '\n'))|)
    else
      assert Split(run.output, '\n') == [[]];
      KeptCount([[]], IsRemoval);
      Ok(0)
  }

  /** getAptAutoremovePackages with the corrected guard. */
  method GetAutoremovePackages(run: CommandRun) returns (r: Result<int>)
    ensures r == Autoremove(run)
  {
    if run.err.Some? {
      return Err(run.err.value);
    }
    if |run.output| > 0 {
      var count := CountRemovals(Split(run.output, '\n'));
      return Ok(count);
    }
    return Ok(0);
  }

  // ---------------------------------------------------------------- reboot marker

  /** getAptRebootRequired given whether stat-ing `/run/reboot-required`
      succeeded: 1 exactly then, 0 otherwise (a missing file and any other
      stat error alike), never an error. */
  function RebootRequired(markerStatSucceeded: bool): (r: Result<int>)
    ensures r.Ok? && 0 <= r.value <= 1
    ensures r.value == 1 <==> markerStatSucceeded
  {
    if markerStatSucceeded then Ok(1) else Ok(0)
  }
}
