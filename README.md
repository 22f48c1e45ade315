# package_exporter, modelled in Dafny

`package_exporter` is a Prometheus exporter (`exporter.go`). It runs the host's
package manager in read-only or dry-run mode, reads the plain text it prints,
and reports per-origin counts of pending packages and a 0/1 "reboot required"
flag. This project models the text-to-counts part of that file:

- `yum check-update --quiet` becomes a map from origin to package names. A
  line counts when it contains a dot. Field 0 of the line is the name and
  field 2 is the origin. Exit status 100 ("updates available") is success.
- `yum list obsoletes --quiet` is read by the same rule, except that
  continuation lines indented by four spaces are skipped.
- `apt-get --just-print dist-upgrade` becomes a map from an (origin, arch)
  key to package names. Only lines starting with `Inst` count. The name is
  the text between the first white space and the next white space at least
  one character later: the token after `Inst` when a single space follows
  it, but with a leading space when two do. The key is read from the first
  parenthesized group.
- `apt-get --just-print autoremove` is counted by its `Remv` lines. As
  written, the function never reaches that count (see Findings).
- The two reboot rules: yum's `needs-restarting -r` exit code, and the
  presence of `/run/reboot-required` for apt.
- Each collector's scrape: the first getter error is logged and nothing is
  emitted. Otherwise there is one gauge per map key, valued by its list's
  length, plus the scalar gauges.
- The choice between the apt and yum collectors, made from the results of
  the two `--version` probes.

Commands, the stat of the marker file and their results are not performed
here. Each getter receives what `cmd.Output()` returned (a `CommandRun`: the
output text and the error text, if any), the exit code, or whether the stat
succeeded. The package-manager choice receives the two probes'
`cmd.CombinedOutput()` results in the same form; their output text holds
standard output and standard error together.

Files, one module each:

- `wrappers.dfy` (`Wrappers`): `Option`, `Result` and `CommandRun`.
- `strings.dfy` (`GoStrings`): the `strings` functions the exporter calls.
- `grouping.dfy` (`Grouping`): the `m[k] = append(m[k], v)` maps every
  parser builds, as a fold over the entries the lines yield.
- `yum.dfy` (`Yum`) and `apt.dfy` (`Apt`): the getters. Each parser is a
  specification function over the split lines and a method with the source's
  loop, proved equal to it.
- `collect.dfy` (`Collectors`): the two `Collect` methods and the
  package-manager choice.

A Go panic (an index out of range, or a nil regexp match) is a precondition
of the member that would panic. For example, `Yum.PendingParsable` requires
every dotted line to have at least three fields.

## Model

| member | source | states |
|---|---|---|
| GoStrings.ContainsChar | exporter.go:162 | `strings.Contains(line, ".")` holds exactly when the line has a dot character |
| GoStrings.Split | exporter.go:158 | splitting on `\n` gives at least one piece; exactly one when the text has no newline; no piece contains a newline |
| GoStrings.JoinSplit | exporter.go:158 | re-joining the pieces of a split with the separator gives back the text: nothing is lost or reordered |
| GoStrings.SplitJoin | exporter.go:192 | splitting a join of separator-free pieces gives back the pieces |
| GoStrings.Fields | exporter.go:163 | every field of a line is non-empty and contains no white space |
| GoStrings.FieldsOfWord | exporter.go:163 | a non-empty word without white space is exactly one field |
| GoStrings.FieldsAtSpace | exporter.go:163 | a white space character splits the fields: the fields of the text around it are those before it followed by those after it; with `FieldsOfWord` this fixes every field as a maximal run of non-space characters |
| GoStrings.FieldsKeepAllText | exporter.go:163 | the fields, concatenated, are exactly the line's non-space characters in order |
| GoStrings.TrimLeft | exporter.go:195 | the result is a suffix of the input; every dropped character is in the cutset; the result does not start with one |
| GoStrings.TrimRight | exporter.go:195 | the result is a prefix of the input; every dropped character is in the cutset; the result does not end with one |
| GoStrings.Trim | exporter.go:195 | the result is one contiguous slice of the input; everything before and after it is in the cutset, and it neither starts nor ends with a cutset character |
| GoStrings.ReplaceAllAbsent | exporter.go:194 | text without an occurrence of the pattern is returned unchanged |
| Grouping.Append | exporter.go:166 | `m[k] = append(m[k], name)`: `k` becomes a key, its list gains `name` at the end, every other key keeps its list |
| Grouping.GroupSnoc | exporter.go:161-167 | one more line's entry is one more `Append` to the map built so far |
| Grouping.GroupContents | exporter.go:161-167 | each key's list is exactly the names filed under it in input order with repeats kept; the keys are exactly the keys mentioned; no key has an empty list |
| Grouping.AppendTotal | exporter.go:166 | one append adds one name to the map's total |
| Grouping.GroupTotal | exporter.go:161-167 | the list lengths add up to the number of entries: counts are raw tallies |
| Grouping.Kept | exporter.go:162 | the lines a parser keeps are at most as many as the input's, and each passes the parser's test |
| Grouping.KeptSound | exporter.go:162 | every kept line is a line of the input |
| Grouping.KeptComplete | exporter.go:162 | every input line that passes the test is kept |
| Grouping.KeptCount | exporter.go:162 | there is one kept line per input position that passes the test, so repeated lines count as often as they occur |
| Grouping.KeptConcat | exporter.go:161-162 | filtering the concatenation of two inputs is filtering each and concatenating: the kept lines keep the input's order |
| Grouping.KeptSingle | exporter.go:162 | a single line is kept exactly when it passes the test |
| Grouping.EntriesOfKept | exporter.go:161-167 | a parser's loop yields one entry per kept line, and the names under a key are those of the kept lines whose entry has that key |
| Grouping.EntriesStep | exporter.go:161-167 | one turn of a parser's loop: a kept line appends its entry's name under its entry's key, any other line changes nothing |
| Grouping.EntriesSatisfy | exporter.go:188-198 | a property of every entry read from a kept line holds of every entry the loop yields |
| Grouping.ParsedGrouping | exporter.go:161-167 | the list under a key is the names of the kept lines with that key, in order; a key is present exactly when some kept line yields it; the lengths add up to the number of kept lines |
| Yum.NamesFromFields | exporter.go:161-167 | the names the loop files under an origin are field 0 of the dotted lines whose field 2 is that origin |
| Yum.PendingGrouping | exporter.go:157-172 | check-update: the list under an origin is field 0 of every dotted line naming that origin, in order; an origin is a key exactly when some dotted line names it |
| Yum.PendingTally | exporter.go:161-167 | check-update: the list lengths add up to the number of dotted lines, with no de-duplication |
| Yum.PendingPackages | exporter.go:148-173 | an error other than `exit status 100` is returned unchanged; `exit status 100` and success both parse; empty output gives the empty (nil) map |
| Yum.GetPendingPackages | exporter.go:157-172 | the appending loop over the lines computes `PendingPackages` |
| Yum.ObsoleteIsPendingOfUnindented | exporter.go:216-225 | the obsoletes listing is read by check-update's rule applied to its unindented lines; an indented dotted line contributes nothing |
| Yum.UnindentedParsable | exporter.go:219-221 | when every unindented dotted line has three fields, check-update's precondition holds for the unindented lines |
| Yum.ObsoletePackages | exporter.go:206-230 | any error is returned unchanged; empty output gives the empty (nil) map |
| Yum.GetObsoletePackages | exporter.go:212-229 | the obsoletes loop computes `ObsoletePackages` |
| Yum.RebootRequired | exporter.go:252-262 | always 0 or 1 and never an error; 0 exactly when `needs-restarting -r` exited 0 |
| Apt.GetOriginArch | exporter.go:26-28 | the two labels rebuild the key they came from |
| Apt.NextRegexSpace | exporter.go:186 | the first regexp white space at or after a position, or the end |
| Apt.FindName | exporter.go:186-190 | a match found for `\s([\S\s]+?)\s` is a white space, a non-empty capture and a white space |
| Apt.FindNameLeftmost | exporter.go:186-190 | the match is at the leftmost start and there with the shortest capture; no match means no position can match |
| Apt.FindParen | exporter.go:185-191 | a match found for `\(([^)]+)\)` is a `(`, a non-empty run without `)` and a `)` |
| Apt.FindParenLeftmost | exporter.go:185-191 | the match is the leftmost one; no match means none exists |
| Apt.NoPairWithoutSpace | exporter.go:194 | a token without spaces contains no ", " to collapse |
| Apt.CollapseAfterToken | exporter.go:193-194 | collapsing ", " across the space after a token removes that space exactly when the token ends with a comma |
| Apt.CollapseJoin | exporter.go:193-194 | joining the origin tokens with " " and collapsing ", " gives the tokens glued by `CommaJoin` |
| Apt.OriginOfTokens | exporter.go:192-194 | with the space-free tokens `Split` yields, the origin is the tokens between the version and the last token, glued by `CommaJoin` |
| Apt.KeyOfGroupArch | exporter.go:192-195 | the arch is the last token with brackets trimmed, and it has no bracket at either end |
| Apt.SingleOrigin | exporter.go:192-194 | a single origin token passes through unchanged |
| Apt.MultiOrigin | exporter.go:193-194 | origin tokens printed as "a, b" become their concatenation "a,b" |
| Apt.TrimBracketed | exporter.go:195 | "[arch]" trims to the bare architecture |
| Apt.OpenBracketTrimmed | exporter.go:195 | trimming the left of "[arch]" removes only the opening bracket |
| Apt.CloseBracketTrimmed | exporter.go:195 | trimming the right of "arch]" removes only the closing bracket |
| Apt.KeyOfPlainGroup | exporter.go:192-196 | the group "version origin [arch]" yields the key (origin, arch) |
| Apt.PendingGrouping | exporter.go:181-203 | dist-upgrade: the list under a key is the names of the `Inst` lines with that key, in order; a key is present exactly when some `Inst` line yields it; the list lengths add up to the number of `Inst` lines |
| Apt.PendingArchTrimmed | exporter.go:195-197 | no key of the map has an arch starting or ending with a bracket |
| Apt.PendingPackages | exporter.go:175-204 | any error is returned unchanged; empty output gives the empty (nil) map |
| Apt.GetPendingPackages | exporter.go:181-203 | the dist-upgrade loop computes `PendingPackages` |
| Apt.CountRemovals | exporter.go:239-246 | the counting loop returns the number of input lines that start with `Remv`, one per such line, repeats included |
| Apt.AutoremoveAsWritten | exporter.go:232-250 | any error is returned unchanged; a successful run always yields 0, since `len(output) < 0` never holds |
| Apt.AutoremoveAsWrittenMissesRemovals | exporter.go:238 | a dry run listing one removal is reported as 0 |
| Apt.Autoremove | exporter.go:232-250 | with the guard `len(output) > 0`: any error is returned unchanged; otherwise the count is the number of lines starting with `Remv` (0 for empty output) |
| Apt.GetAutoremovePackages | exporter.go:232-250 | the corrected getter computes `Autoremove` |
| Apt.RebootRequired | exporter.go:264-270 | always 0 or 1 and never an error; 1 exactly when stat-ing `/run/reboot-required` succeeded |
| Collectors.FullNameInjective | exporter.go:49 | a metric's full name is `package_exporter`, an underscore and the short name, so different short names give different full names |
| Collectors.OriginLabelInjective | exporter.go:112 | a yum gauge's one label value is the origin, so different origins get different label values |
| Collectors.OriginArchLabelsInjective | exporter.go:141-142 | an apt pending gauge's label values are the key's origin and arch, so different keys get different label values |
| Collectors.GaugesOf | exporter.go:109-113 | the gauge sent for each visited key is labelled by the key and valued by its list's length |
| Collectors.EmitPerKey | exporter.go:109-118 | the `range` loop over a map sends one gauge per key, valued by its list's length and labelled by the key, each exactly once, and nothing else |
| Collectors.AllKeysVisited | exporter.go:109-118 | having visited every key once, the gauges sent are exactly the keys' gauges, none twice |
| Collectors.DistinctConcat | exporter.go:109-119 | gauges of different metrics never coincide, so the whole scrape sends no gauge twice |
| Collectors.YumEmitted | exporter.go:109-119 | the yum gauges sent are the pending gauges per origin, the obsolete gauges per origin and the reboot gauge, none twice |
| Collectors.AptEmitted | exporter.go:138-145 | the apt gauges sent are the pending gauges per key, the autoremove gauge and the reboot gauge, none twice |
| Collectors.CollectYum | exporter.go:93-120 | a fatal check-update error or an obsoletes error is logged and nothing is emitted; otherwise one pending gauge per origin, one obsolete gauge per origin and the reboot gauge, valued from the getters |
| Collectors.CollectApt | exporter.go:122-146 | a dist-upgrade or autoremove error is logged and nothing is emitted; otherwise one pending gauge per (origin, arch) key, the autoremove gauge and the reboot gauge |
| Collectors.DetectPackageManager | exporter.go:272-289 | apt is chosen exactly when its probe succeeds; yum exactly when apt's fails and yum's succeeds; otherwise an error carrying yum's output |

## Left out

- Running commands and stat-ing files (`exec.Command`, `cmd.Output`, `cmd.Run`, `os.Stat`) is not modelled. Their results are inputs: a `CommandRun` (output text and optional error text), an exit code, a stat-succeeded flag.
- Yum.RebootRequired: takes the exit code as given. When `needs-restarting` cannot start, Go reports -1, which the rule maps to 1 like any other non-zero code.
- The conversion of command output bytes to a Go string is not modelled; output is a sequence of characters.
- Prometheus descriptors, `Describe`, help texts, `MustNewConstMetric` and channel sends are not modelled. A sent metric is a `Gauge` (name, label values, value) in a sequence. The `float64` conversion of values is left out; values stay integers.
- Go map iteration order is unspecified. `EmitPerKey` picks keys in an arbitrary order, and its contract fixes which gauges are sent, not their order.
- Collectors.CollectYum and Collectors.CollectApt: the logged message is the text `log.Println` would print, without the timestamp and trailing newline.
- The HTTP server, flag parsing, `main` and collector registration are I/O plumbing and are not part of this model.
- Regular expressions are not modelled as a general engine. The anchored pattern `^Inst` is the prefix test `IsInst` (`HasPrefix`). The other two, `\(([^)]+)\)` and `\s([\S\s]+?)\s`, are the string functions `FindParen` and `FindName`, each specified by its leftmost-match rule.
- GoStrings.ReplaceAll: defined only for a non-empty pattern. The exporter only replaces ", ", and Go's special case for an empty pattern is not modelled.
- GoStrings.Split: modelled for a one-character separator, the only kind the exporter uses.
- A panic in the source (`parts[2]` on a dotted line with fewer than three fields, a nil regexp match, `origins[:len(origins)-1]` on a group without a space, a slice bound of -1 at exporter.go:193) is a precondition. The model does not describe what a panicking scrape does.
- A nil map and an empty map are both `map[]`. Go treats them alike for reading, length and `range`.
- Collectors.CollectApt: uses the corrected autoremove count (`Apt.Autoremove`) rather than the as-written getter, whose gauge would always be 0.

## Findings

| source | as written | input that shows it | evidently intended | confidence | as-written member | corrected member |
|---|---|---|---|---|---|---|
| exporter.go:238 | the counting branch is guarded by `len(output) < 0`, which never holds, so a successful dry run always reports 0 pending removals | a successful `apt-get --just-print autoremove` whose output is `Remv foo [1.0]` plus a newline: one `Remv` line, reported as 0 | `len(output) > 0`, as in the other getters: the count of `Remv` lines | not executed; high, since the comparison of a length with 0 is decidable | Apt.AutoremoveAsWritten, Apt.AutoremoveAsWrittenMissesRemovals | Apt.Autoremove, Apt.GetAutoremovePackages |
