/** The yum side of the exporter (exporter.go): the parsers of
    `yum check-update --quiet` and `yum list obsoletes --quiet`, and the
    reading of `needs-restarting -r`. The commands themselves are not run
    here: each getter receives what `cmd.Output()` returned. */
module Yum {
  import opened Wrappers
  import opened GoStrings
  import opened Grouping

  /** The error text of check-update's exit code 100, "updates are available". */
  const UpdatesAvailable := "exit status 100"

  /** The indentation that marks a continuation line of the obsoletes listing. */
  const ContinuationIndent := "    "

  /** A line either parser reads as a package record: it contains a dot. */
  predicate IsRecordLine(line: string) {
    Contains(line, ".")
  }

  /** An indented continuation line of the obsoletes listing. */
  predicate IsContinuation(line: string) {
    HasPrefix(line, ContinuationIndent)
  }

  /** Reading `parts[2]` of the line's fields does not panic. */
  predicate HasOrigin(line: string) {
    |Fields(line)| >= 3
  }

  /** Field 0, the package name, filed under field 2, the origin. */
  function LineEntry(line: string): Entry<string>
    requires HasOrigin(line)
  {
    var parts := Fields(line);
    Entry(parts[2], parts[0])
  }

  // ---------------------------------------------------------------- check-update

  /** check-update's loop reads this line without panicking. */
  predicate PendingLineOk(line: string) {
    IsRecordLine(line) ==> HasOrigin(line)
  }

  /** Every record line has the three fields check-update's loop reads. */
  predicate PendingParsable(lines: seq<string>) {
    forall i :: 0 <= i < |lines| ==> PendingLineOk(lines[i])
  }

  /** The entries check-update's loop appends, in line order: one per record
      line, none for any other line. */
  function PendingEntries(lines: seq<string>): seq<Entry<string>>
    requires PendingParsable(lines)
  {
    Entries(lines, IsRecordLine, LineEntry)
  }

  /** Field 0 of every record line whose field 2 is `origin`, in line order. */
  function NamesFrom(lines: seq<string>, origin: string): seq<string>
    requires PendingParsable(lines)
    decreases |lines|
  {
    if lines == [] then []
    else
      var init, line := lines[..|lines| - 1], lines[|lines| - 1];
      assert forall i :: 0 <= i < |init| ==> init[i] == lines[i];
      NamesFrom(init, origin)
        + (if IsRecordLine(line) && Fields(line)[2] == origin then [Fields(line)[0]] else [])
  }

  /** Reading the lines through `LineEntry` files field 0 under field 2. */
  lemma {:induction false} NamesFromFields(lines: seq<string>, origin: string)
    requires PendingParsable(lines)
    ensures NamesFor(lines, IsRecordLine, LineEntry, origin) == NamesFrom(lines, origin)
    decreases |lines|
  {
    if lines != [] {
      var init := lines[..|lines| - 1];
      assert forall i :: 0 <= i < |init| ==> init[i] == lines[i];
      NamesFromFields(init, origin);
    }
  }

  /** check-update grouping: the list under an origin holds the name of every
      record line naming that origin, in line order and with repeats kept, and
      nothing from any other line; an origin is a key exactly when some record
      line names it. */
  lemma PendingGrouping(lines: seq<string>, origin: string)
    requires PendingParsable(lines)
    ensures Lookup(Group(PendingEntries(lines)), origin) == NamesFrom(lines, origin)
    ensures origin in Group(PendingEntries(lines)) <==> NamesFrom(lines, origin) != []
  {
    ParsedGrouping(lines, IsRecordLine, LineEntry, origin);
    NamesFromFields(lines, origin);
  }

  /** check-update counts raw lines: the list lengths add up to the number of
      record lines, with no de-duplication of names. */
  lemma PendingTally(lines: seq<string>)
    requires PendingParsable(lines)
    ensures Total(Group(PendingEntries(lines))) == |Kept(lines, IsRecordLine)|
  {
    ParsedGrouping(lines, IsRecordLine, LineEntry, []);
  }

  /** getYumPendingPackages with the command's result given: an error other
      than exit status 100 is returned as is; otherwise an empty output gives
      the empty (nil) map and a non-empty one the grouping of its lines. */
  function PendingPackages(run: CommandRun): (r: Result<map<string, seq<string>>>)
    requires run.err.None? || run.err.value == UpdatesAvailable ==> PendingParsable(Split(run.output, '\n'))
    ensures r.Err? <==> run.err.Some? && run.err.value != UpdatesAvailable
    ensures r.Err? ==> r.error == run.err.value
    ensures r.Ok? && run.output == [] ==> r.value == map[]
  {
    if run.err.Some? && run.err.value != UpdatesAvailable then Err(run.err.value)
    else if |run.output| > 0 then Ok(Group(PendingEntries(Split(run.output, '\n'))))
    else Ok(map[])
  }

  /** The loop of getYumPendingPackages, appending into `packagesPerOrigin`. */
  method GetPendingPackages(run: CommandRun) returns (r: Result<map<string, seq<string>>>)
    requires run.err.None? || run.err.value == UpdatesAvailable ==> PendingParsable(Split(run.output, '\n'))
    ensures r == PendingPackages(run)
  {
    if run.err.Some? && run.err.value != UpdatesAvailable {
      return Err(run.err.value);
    }
    if |run.output| > 0 {
      var lines := Split(run.output, '\n');
      var packagesPerOrigin: map<string, seq<string>> := map[];
      for i := 0 to |lines|
        invariant Readable(lines[..i], IsRecordLine, LineEntry)
        invariant packagesPerOrigin == Group(Entries(lines[..i], IsRecordLine, LineEntry))
      {
        var line := lines[i];
        EntriesStep(lines, IsRecordLine, LineEntry, i);
        if Contains(line, ".") {
          var parts := Fields(line);
          var packageName := parts[0];
          var origin := parts[2];
          packagesPerOrigin := Append(packagesPerOrigin, origin, packageName);
        }
      }
      assert lines[..|lines|] == lines;
      return Ok(packagesPerOrigin);
    }
    return Ok(map[]);
  }

  // ---------------------------------------------------------------- list obsoletes

  /** A line the obsoletes loop reads: a record line that is not indented. */
  predicate IsObsoleteRecord(line: string) {
    IsRecordLine(line) && !IsContinuation(line)
  }

  /** The obsoletes loop reads this line without panicking. */
  predicate ObsoleteLineOk(line: string) {
    IsObsoleteRecord(line) ==> HasOrigin(line)
  }

  /** Every unindented record line has the three fields the loop reads. */
  predicate ObsoleteParsable(lines: seq<string>) {
    forall i :: 0 <= i < |lines| ==> ObsoleteLineOk(lines[i])
  }

  /** The entries the obsoletes loop appends: one per unindented record line. */
  function ObsoleteEntries(lines: seq<string>): seq<Entry<string>>
    requires ObsoleteParsable(lines)
  {
    Entries(lines, IsObsoleteRecord, LineEntry)
  }

  /** A line that is not a continuation line. */
  predicate IsUnindented(line: string) {
    !IsContinuation(line)
  }

  /** The lines that are not continuation lines, in order. */
  function Unindented(lines: seq<string>): seq<string> {
    Kept(lines, IsUnindented)
  }

  /** The obsoletes listing is read by check-update's rule applied to the
      unindented lines only: a continuation line contributes nothing, dot or
      no dot. So every grouping and tally fact of check-update carries over. */
  lemma {:induction false} ObsoleteIsPendingOfUnindented(lines: seq<string>)
    requires ObsoleteParsable(lines)
    ensures PendingParsable(Unindented(lines))
    ensures ObsoleteEntries(lines) == PendingEntries(Unindented(lines))
    decreases |lines|
  {
    UnindentedParsable(lines);
    if lines != [] {
      var init, line := lines[..|lines| - 1], lines[|lines| - 1];
      assert ObsoleteParsable(init) by {
        assert forall i :: 0 <= i < |init| ==> init[i] == lines[i];
      }
      ObsoleteIsPendingOfUnindented(init);
      var u, v := Unindented(lines), Unindented(init);
      assert Entries(lines, IsObsoleteRecord, LineEntry)
          == Entries(init, IsObsoleteRecord, LineEntry) + (if IsObsoleteRecord(line) then [LineEntry(line)] else []);
      if IsContinuation(line) {
        assert u == v;
      } else {
        assert u == v + [line];
        assert u[..|u| - 1] == v;
        assert Entries(u, IsRecordLine, LineEntry)
            == Entries(v, IsRecordLine, LineEntry) + (if IsRecordLine(line) then [LineEntry(line)] else []);
      }
    }
  }

  lemma UnindentedParsable(lines: seq<string>)
    requires ObsoleteParsable(lines)
    ensures PendingParsable(Unindented(lines))
  {
    var u := Unindented(lines);
    KeptSound(lines, IsUnindented);
    forall i | 0 <= i < |u| ensures PendingLineOk(u[i]) {
      var j :| 0 <= j < |lines| && lines[j] == u[i];
      assert ObsoleteLineOk(lines[j]);
    }
  }

  /** getYumObsoletePackages with the command's result given: any error is
      returned as is; otherwise an empty output gives the empty map and a
      non-empty one the grouping of its unindented record lines. */
  function ObsoletePackages(run: CommandRun): (r: Result<map<string, seq<string>>>)
    requires run.err.None? ==> ObsoleteParsable(Split(run.output, '\n'))
    ensures r.Err? <==> run.err.Some?
    ensures r.Err? ==> r.error == run.err.value
    ensures r.Ok? && run.output == [] ==> r.value == map[]
  {
    if run.err.Some? then Err(run.err.value)
    else if |run.output| > 0 then Ok(Group(ObsoleteEntries(Split(run.output, '\n'))))
    else Ok(map[])
  }

  /** The loop of getYumObsoletePackages. */
  method GetObsoletePackages(run: CommandRun) returns (r: Result<map<string, seq<string>>>)
    requires run.err.None? ==> ObsoleteParsable(Split(run.output, '\n'))
    ensures r == ObsoletePackages(run)
  {
    if run.err.Some? {
      return Err(run.err.value);
    }
    if |run.output| > 0 {
      var lines := Split(run.output, '\n');
      var packagesPerOrigin: map<string, seq<string>> := map[];
      for i := 0 to |lines|
        invariant Readable(lines[..i], IsObsoleteRecord, LineEntry)
        invariant packagesPerOrigin == Group(Entries(lines[..i], IsObsoleteRecord, LineEntry))
      {
        var line := lines[i];
        EntriesStep(lines, IsObsoleteRecord, LineEntry, i);
        if Contains(line, ".") {
          if !HasPrefix(line, ContinuationIndent) {
            var parts := Fields(line);
            var packageName := parts[0];
            var origin := parts[2];
            packagesPerOrigin := Append(packagesPerOrigin, origin, packageName);
          }
        }
      }
      assert lines[..|lines|] == lines;
      return Ok(packagesPerOrigin);
    }
    return Ok(map[]);
  }

  // ---------------------------------------------------------------- reboot probe

  /** getYumRebootRequired given the exit code of `needs-restarting -r`:
      0 exactly when the probe exited 0, 1 for every other code (Go reports
      -1 when the probe could not start or was killed), never an error. */
  function RebootRequired(exitCode: int): (r: Result<int>)
    ensures r.Ok? && 0 <= r.value <= 1
    ensures r.value == 0 <==> exitCode == 0
  {
    if exitCode == 0 then Ok(0) else Ok(1)
  }
}
