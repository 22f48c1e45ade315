/** The `packagesPerOrigin` maps every parser builds: package names filed
    under a key by appending, one parsed line at a time. */
module Grouping {

  /** One parsed line: the package `name`, to be filed under `key`. */
  datatype Entry<K> = Entry(key: K, name: string)

  /** What `m[k]` reads in Go: the list under `k`, or the nil list when `k`
      is absent. */
  function Lookup<K(==)>(m: map<K, seq<string>>, k: K): seq<string> {
    if k in m then m[k] else []
  }

  /** `m[k] = append(m[k], name)`: `k` gains `name` at the end of its list
      and every other key keeps its list. */
  function Append<K(==)>(m: map<K, seq<string>>, k: K, name: string): (m': map<K, seq<string>>)
    ensures m'.Keys == m.Keys + {k}
    ensures Lookup(m', k) == Lookup(m, k) + [name]
    ensures forall k' :: k' in m && k' != k ==> m'[k'] == m[k']
  {
    m[k := Lookup(m, k) + [name]]
  }

  /** The map that appending `entries` in order to an empty map yields. */
  function Group<K(==)>(entries: seq<Entry<K>>): map<K, seq<string>>
    decreases |entries|
  {
    if entries == [] then map[]
    else
      var last := entries[|entries| - 1];
      Append(Group(entries[..|entries| - 1]), last.key, last.name)
  }

  /** The names of the entries filed under `k`, in input order. */
  function NamesUnder<K(==)>(entries: seq<Entry<K>>, k: K): seq<string>
    decreases |entries|
  {
    if entries == [] then []
    else
      var last := entries[|entries| - 1];
      NamesUnder(entries[..|entries| - 1], k) + (if last.key == k then [last.name] else [])
  }

  /** Appending one more entry is one more `Append`. */
  lemma GroupSnoc<K>(entries: seq<Entry<K>>, e: Entry<K>)
    ensures Group(entries + [e]) == Append(Group(entries), e.key, e.name)
  {
    assert (entries + [e])[..|entries|] == entries;
  }

  /** The keys the entries mention. */
  function KeysOf<K(==)>(entries: seq<Entry<K>>): set<K> {
    set i | 0 <= i < |entries| :: entries[i].key
  }

  /** Each key's list holds exactly the names of the entries filed under it,
      in input order and with repeats kept; a key is present exactly when
      some entry mentions it, and then its list is not empty. */
  lemma {:induction false} GroupContents<K>(entries: seq<Entry<K>>, k: K)
    ensures Lookup(Group(entries), k) == NamesUnder(entries, k)
    ensures Group(entries).Keys == KeysOf(entries)
    ensures k in Group(entries) ==> Group(entries)[k] != []
    decreases |entries|
  {
    if entries != [] {
      var init := entries[..|entries| - 1];
      var last := entries[|entries| - 1];
      GroupContents(init, k);
      GroupContents(init, last.key);
      assert KeysOf(entries) == KeysOf(init) + {last.key} by {
        forall x | x in KeysOf(entries) ensures x in KeysOf(init) + {last.key} {
          var i :| 0 <= i < |entries| && entries[i].key == x;
          if i < |entries| - 1 { assert init[i] == entries[i]; }
        }
        forall x | x in KeysOf(init) ensures x in KeysOf(entries) {
          var i :| 0 <= i < |init| && init[i].key == x;
          assert entries[i] == init[i];
        }
      }
    }
  }

  /** The number of names the map holds over all its keys. */
  ghost function Total<K>(m: map<K, seq<string>>): nat
    decreases |m|
  {
    if m == map[] then 0
    else
      var k :| k in m;
      |m[k]| + Total(m - {k})
  }

  /** The total may be counted starting from any key. */
  lemma {:induction false} TotalWithout<K>(m: map<K, seq<string>>, k: K)
    requires k in m
    ensures Total(m) == |m[k]| + Total(m - {k})
    decreases |m|
  {
    var j :| j in m && Total(m) == |m[j]| + Total(m - {j});
    if j != k {
      assert (m - {j}).Keys == m.Keys - {j};
      assert (m - {k}).Keys == m.Keys - {k};
      TotalWithout(m - {j}, k);
      TotalWithout(m - {k}, j);
      assert m - {j} - {k} == m - {k} - {j};
    }
  }

  /** Appending one name adds one to the total. */
  lemma AppendTotal<K>(m: map<K, seq<string>>, k: K, name: string)
    ensures Total(Append(m, k, name)) == Total(m) + 1
  {
    var m' := Append(m, k, name);
    TotalWithout(m', k);
    if k in m {
      TotalWithout(m, k);
      assert m' - {k} == m - {k};
    } else {
      assert m' - {k} == m;
    }
  }

  /** Counts are raw tallies: the map holds exactly one name per entry, so
      the per-key list lengths add up to the number of entries. */
  lemma {:induction false} GroupTotal<K>(entries: seq<Entry<K>>)
    ensures Total(Group(entries)) == |entries|
    decreases |entries|
  {
    if entries != [] {
      var init := entries[..|entries| - 1];
      var last := entries[|entries| - 1];
      GroupTotal(init);
      AppendTotal(Group(init), last.key, last.name);
    }
  }

  // ---------------------------------------------------------------- the parsers' loops

  /** A parser's loop can read every line it keeps: `entry` is defined on
      each of them (elsewhere Go would panic). */
  ghost predicate Readable<K>(lines: seq<string>, keep: string -> bool, entry: string --> Entry<K>) {
    forall i :: 0 <= i < |lines| && keep(lines[i]) ==> entry.requires(lines[i])
  }

  lemma ReadablePrefix<K>(lines: seq<string>, keep: string -> bool, entry: string --> Entry<K>, n: nat)
    requires n <= |lines| && Readable(lines, keep, entry)
    ensures Readable(lines[..n], keep, entry)
  {
    assert forall i :: 0 <= i < n ==> lines[..n][i] == lines[i];
  }

  /** The entries a parser's loop appends: for each line it keeps, in order,
      the entry read from that line. */
  function Entries<K>(lines: seq<string>, keep: string -> bool, entry: string --> Entry<K>): seq<Entry<K>>
    requires Readable(lines, keep, entry)
    decreases |lines|
  {
    if lines == [] then []
    else
      var init, line := lines[..|lines| - 1], lines[|lines| - 1];
      ReadablePrefix(lines, keep, entry, |lines| - 1);
      Entries(init, keep, entry) + (if keep(line) then [entry(line)] else [])
  }

  /** The lines a parser keeps, in order. */
  function Kept(lines: seq<string>, keep: string -> bool): (r: seq<string>)
    ensures |r| <= |lines|
    ensures forall i :: 0 <= i < |r| ==> keep(r[i])
    decreases |lines|
  {
    if lines == [] then []
    else
      var init, line := lines[..|lines| - 1], lines[|lines| - 1];
      Kept(init, keep) + (if keep(line) then [line] else [])
  }

  /** The positions of the lines a parser keeps. */
  ghost function KeptAt(lines: seq<string>, keep: string -> bool): set<int> {
    set i | 0 <= i < |lines| && keep(lines[i])
  }

  /** Nothing the parser keeps is lost: every kept line is in the list. */
  lemma {:induction false} KeptComplete(lines: seq<string>, keep: string -> bool)
    ensures forall i :: 0 <= i < |lines| && keep(lines[i]) ==> lines[i] in Kept(lines, keep)
    decreases |lines|
  {
    if lines != [] {
      var n := |lines| - 1;
      var init := lines[..n];
      KeptComplete(init, keep);
      forall i | 0 <= i < n && keep(lines[i]) ensures lines[i] in Kept(lines, keep) {
        assert lines[i] == init[i];
      }
    }
  }

  /** The list has one element per kept position, so repeated lines are
      counted as often as they occur. */
  lemma {:induction false} KeptCount(lines: seq<string>, keep: string -> bool)
    ensures |Kept(lines, keep)| == |KeptAt(lines, keep)|
    decreases |lines|
  {
    if lines != [] {
      var n := |lines| - 1;
      var init := lines[..n];
      KeptCount(init, keep);
      assert KeptAt(lines, keep) == KeptAt(init, keep) + (if keep(lines[n]) then {n} else {}) by {
        assert forall i :: 0 <= i < n ==> init[i] == lines[i];
      }
    }
  }

  /** Every kept line is a line of the input. */
  lemma {:induction false} KeptSound(lines: seq<string>, keep: string -> bool)
    ensures forall i :: 0 <= i < |Kept(lines, keep)| ==> Kept(lines, keep)[i] in lines
    decreases |lines|
  {
    if lines != [] {
      var n := |lines| - 1;
      var init := lines[..n];
      KeptSound(init, keep);
      assert forall x :: x in init ==> x in lines;
    }
  }

  /** Filtering distributes over concatenation; with `KeptSingle`, the kept
      lines are those of the input, in input order. */
  lemma {:induction false} KeptConcat(a: seq<string>, b: seq<string>, keep: string -> bool)
    ensures Kept(a + b, keep) == Kept(a, keep) + Kept(b, keep)
    decreases |b|
  {
    if b == [] {
      assert a + b == a;
    } else {
      var init, last := b[..|b| - 1], b[|b| - 1];
      KeptConcat(a, init, keep);
      assert (a + b)[..|a + b| - 1] == a + init;
      var tail := if keep(last) then [last] else [];
      assert Kept(a + b, keep) == Kept(a + init, keep) + tail;
      assert Kept(a, keep) + Kept(init, keep) + tail == Kept(a, keep) + (Kept(init, keep) + tail);
    }
  }

  /** A single line is kept exactly when it passes the test. */
  lemma KeptSingle(line: string, keep: string -> bool)
    ensures Kept([line], keep) == if keep(line) then [line] else []
  {
    assert [line][..0] == [];
  }

  /** The names of the kept lines whose entry has key `k`, in order. */
  function NamesFor<K(==)>(lines: seq<string>, keep: string -> bool, entry: string --> Entry<K>, k: K): seq<string>
    requires Readable(lines, keep, entry)
    decreases |lines|
  {
    if lines == [] then []
    else
      var init, line := lines[..|lines| - 1], lines[|lines| - 1];
      ReadablePrefix(lines, keep, entry, |lines| - 1);
      NamesFor(init, keep, entry, k) + (if keep(line) && entry(line).key == k then [entry(line).name] else [])
  }

  /** One entry per kept line, and the names under a key are those of the
      kept lines with that key. */
  lemma {:induction false} EntriesOfKept<K>(lines: seq<string>, keep: string -> bool, entry: string --> Entry<K>, k: K)
    requires Readable(lines, keep, entry)
    ensures |Entries(lines, keep, entry)| == |Kept(lines, keep)|
    ensures NamesUnder(Entries(lines, keep, entry), k) == NamesFor(lines, keep, entry, k)
    decreases |lines|
  {
    if lines != [] {
      var init, line := lines[..|lines| - 1], lines[|lines| - 1];
      ReadablePrefix(lines, keep, entry, |lines| - 1);
      EntriesOfKept(init, keep, entry, k);
      var es := Entries(lines, keep, entry);
      assert lines[..|lines| - 1] == init;
      if keep(line) {
        assert es == Entries(init, keep, entry) + [entry(line)];
        assert es[..|es| - 1] == Entries(init, keep, entry);
      } else {
        assert es == Entries(init, keep, entry);
      }
    }
  }

  /** One turn of a parser's loop: a kept line appends its entry's name
      under its entry's key, any other line changes nothing. */
  lemma EntriesStep<K>(lines: seq<string>, keep: string -> bool, entry: string --> Entry<K>, i: nat)
    requires i < |lines| && Readable(lines, keep, entry)
    ensures Readable(lines[..i], keep, entry) && Readable(lines[..i + 1], keep, entry)
    ensures keep(lines[i]) ==> entry.requires(lines[i])
    ensures Group(Entries(lines[..i + 1], keep, entry))
         == if keep(lines[i])
            then Append(Group(Entries(lines[..i], keep, entry)), entry(lines[i]).key, entry(lines[i]).name)
            else Group(Entries(lines[..i], keep, entry))
  {
    ReadablePrefix(lines, keep, entry, i);
    ReadablePrefix(lines, keep, entry, i + 1);
    assert lines[..i + 1][..i] == lines[..i];
    var es := Entries(lines[..i], keep, entry);
    if keep(lines[i]) {
      assert Entries(lines[..i + 1], keep, entry) == es + [entry(lines[i])];
      GroupSnoc(es, entry(lines[i]));
    } else {
      assert Entries(lines[..i + 1], keep, entry) == es;
    }
  }

  /** A property every entry read from a kept line has, every entry of the
      loop has. */
  lemma {:induction false} EntriesSatisfy<K>(lines: seq<string>, keep: string -> bool, entry: string --> Entry<K>,
                                             P: Entry<K> -> bool)
    requires Readable(lines, keep, entry)
    requires forall line :: keep(line) && entry.requires(line) ==> P(entry(line))
    ensures forall i :: 0 <= i < |Entries(lines, keep, entry)| ==> P(Entries(lines, keep, entry)[i])
    decreases |lines|
  {
    if lines != [] {
      ReadablePrefix(lines, keep, entry, |lines| - 1);
      EntriesSatisfy(lines[..|lines| - 1], keep, entry, P);
    }
  }

  /** What a parser's map holds: under each key, the names of the kept lines
      with that key, in order and with repeats kept; a key is present exactly
      when some kept line yields it; the list lengths add up to the number of
      kept lines. */
  lemma ParsedGrouping<K>(lines: seq<string>, keep: string -> bool, entry: string --> Entry<K>, k: K)
    requires Readable(lines, keep, entry)
    ensures Lookup(Group(Entries(lines, keep, entry)), k) == NamesFor(lines, keep, entry, k)
    ensures k in Group(Entries(lines, keep, entry)) <==> NamesFor(lines, keep, entry, k) != []
    ensures Total(Group(Entries(lines, keep, entry))) == |Kept(lines, keep)|
  {
    var es := Entries(lines, keep, entry);
    GroupContents(es, k);
    GroupTotal(es);
    EntriesOfKept(lines, keep, entry, k);
  }
}
