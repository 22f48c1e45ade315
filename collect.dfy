/** The two collectors of the exporter (exporter.go): each scrape runs its
    three getters in turn, gives up on the first error (logging it and
    emitting nothing), and otherwise emits one gauge per map key, valued by
    the length of that key's list, plus the scalar gauges. Also the choice of
    collector from the two `--version` probes. */
module Collectors {
  import opened Wrappers
  import GoStrings
  import Yum
  import Apt

  const Namespace := "package_exporter"

  /** `prometheus.BuildFQName(namespace, "", name)`: the namespace and the
      name joined by an underscore. */
  function FullName(name: string): string {
    Namespace + "_" + name
  }

  /** Metrics with different short names have different full names: the
      namespace prefix never makes two descriptors clash. */
  lemma FullNameInjective(a: string, b: string)
    ensures FullName(a) == FullName(b) <==> a == b
  {
    if FullName(a) == FullName(b) {
      assert FullName(a)[|Namespace| + 1..] == a;
      assert FullName(b)[|Namespace| + 1..] == b;
    }
  }

  const YumPendingName := FullName("yum_packages_pending")
  const YumObsoleteName := FullName("yum_packages_obsolete")
  const YumRebootName := FullName("yum_reboot_required")
  const AptPendingName := FullName("apt_packages_pending")
  const AptAutoremoveName := FullName("apt_autoremove_pending")
  const AptRebootName := FullName("apt_reboot_required")

  /** One `MustNewConstMetric(desc, GaugeValue, value, labels...)` sent on
      the channel: the descriptor's name, the label values, the value. */
  datatype Gauge = Gauge(name: string, labels: seq<string>, value: int)

  /** No element occurs twice. */
  predicate NoRepeats<T(==)>(xs: seq<T>) {
    forall i, j :: 0 <= i < j < |xs| ==> xs[i] != xs[j]
  }

  /** No gauge is sent twice. */
  predicate Distinct(gs: seq<Gauge>) {
    NoRepeats(gs)
  }

  /** `labels` tells keys apart. */
  ghost predicate Injective<K(!new)>(labels: K -> seq<string>) {
    forall a, b :: labels(a) == labels(b) ==> a == b
  }

  /** The gauge a `range` over a packages map sends for key `k`. */
  function KeyGauge<K(==)>(name: string, m: map<K, seq<string>>, labels: K -> seq<string>, k: K): Gauge
    requires k in m
  {
    Gauge(name, labels(k), |m[k]|)
  }

  /** `out` holds the gauge of every key of `m` and nothing else. */
  ghost predicate PerKey<K(!new)>(out: seq<Gauge>, name: string, m: map<K, seq<string>>, labels: K -> seq<string>) {
    && (forall k :: k in m ==> KeyGauge(name, m, labels, k) in out)
    && (forall i :: 0 <= i < |out| ==> exists k :: k in m && out[i] == KeyGauge(name, m, labels, k))
  }

  /** The gauges sent for `keys`, in that order. */
  function GaugesOf<K(==)>(name: string, m: map<K, seq<string>>, labels: K -> seq<string>, keys: seq<K>): (gs: seq<Gauge>)
    requires forall i :: 0 <= i < |keys| ==> keys[i] in m
    ensures |gs| == |keys|
    ensures forall i :: 0 <= i < |keys| ==> gs[i] == KeyGauge(name, m, labels, keys[i])
    decreases |keys|
  {
    if keys == [] then []
    else GaugesOf(name, m, labels, keys[..|keys| - 1]) + [KeyGauge(name, m, labels, keys[|keys| - 1])]
  }

  /** The `for key, packages := range m` loop of a Collect: one gauge per key,
      valued by the length of its list, labelled by the key, each sent once,
      in an order the model leaves open. */
  method EmitPerKey<K(!new)>(name: string, m: map<K, seq<string>>, labels: K -> seq<string>) returns (out: seq<Gauge>)
    requires Injective(labels)
    ensures |out| == |m| && Distinct(out)
    ensures PerKey(out, name, m, labels)
    ensures forall i :: 0 <= i < |out| ==> out[i].name == name
  {
    out := [];
    var rest := m.Keys;
    ghost var keys: seq<K> := [];
    while rest != {}
      invariant rest <= m.Keys
      invariant forall i :: 0 <= i < |keys| ==> keys[i] in m && keys[i] !in rest
      invariant forall k :: k in m && k !in rest ==> k in keys
      invariant NoRepeats(keys) && |keys| + |rest| == |m|
      invariant out == GaugesOf(name, m, labels, keys)
      decreases |rest|
    {
      var k :| k in rest;
      assert (keys + [k])[..|keys|] == keys;
      out := out + [KeyGauge(name, m, labels, k)];
      rest := rest - {k};
      keys := keys + [k];
    }
    AllKeysVisited(name, m, labels, keys);
  }

  /** Every key visited exactly once: the gauges are the keys' gauges, each
      sent once. */
  lemma AllKeysVisited<K(!new)>(name: string, m: map<K, seq<string>>, labels: K -> seq<string>, keys: seq<K>)
    requires Injective(labels)
    requires forall i :: 0 <= i < |keys| ==> keys[i] in m
    requires forall k :: k in m ==> k in keys
    requires NoRepeats(keys) && |keys| == |m|
    ensures var out := GaugesOf(name, m, labels, keys);
            && |out| == |m| && Distinct(out)
            && PerKey(out, name, m, labels)
            && forall i :: 0 <= i < |out| ==> out[i].name == name
  {
    var out := GaugesOf(name, m, labels, keys);
    forall i, j | 0 <= i < j < |out| ensures out[i] != out[j] {
      assert keys[i] != keys[j];
    }
    forall k | k in m ensures KeyGauge(name, m, labels, k) in out {
      var i :| 0 <= i < |keys| && keys[i] == k;
      assert out[i] == KeyGauge(name, m, labels, k);
    }
    forall i | 0 <= i < |out| ensures exists k :: k in m && out[i] == KeyGauge(name, m, labels, k) {
      assert out[i] == KeyGauge(name, m, labels, keys[i]);
    }
  }

  // ---------------------------------------------------------------- yum

  const YumErrorPrefix := "Error collecting YUM metrics: "

  /** A successful yum scrape's gauges: the pending gauges, then the
      obsolete gauges, then the reboot gauge, each sent once. */
  ghost predicate YumEmission(emitted: seq<Gauge>, pending: map<string, seq<string>>,
                        obsoletes: map<string, seq<string>>, reboot: int) {
    var p, o := |pending|, |obsoletes|;
    && |emitted| == p + o + 1
    && Distinct(emitted)
    && PerKey(emitted[..p], YumPendingName, pending, OriginLabel)
    && PerKey(emitted[p..p + o], YumObsoleteName, obsoletes, OriginLabel)
    && emitted[p + o] == Gauge(YumRebootName, [], reboot)
  }

  /** The yum gauges carry the origin as their one label. */
  function OriginLabel(origin: string): seq<string> {
    [origin]
  }

  /** Different origins are sent with different label values, so the per-key
      gauges of a yum map never coincide. */
  lemma OriginLabelInjective()
    ensures forall a, b :: OriginLabel(a) == OriginLabel(b) ==> a == b
  {
    forall a, b | OriginLabel(a) == OriginLabel(b) ensures a == b {
      assert OriginLabel(a)[0] == a && OriginLabel(b)[0] == b;
    }
  }

  /** yumCollector.Collect, given what the two commands returned and the
      exit code of the reboot probe. A fatal check-update error is logged and
      nothing is emitted (the later getters are not run); likewise an error
      of the obsoletes listing; otherwise there is one pending gauge per
      origin, one obsolete gauge per origin and the reboot gauge. */
  method CollectYum(checkUpdate: CommandRun, listObsoletes: CommandRun, rebootExitCode: int)
    returns (emitted: seq<Gauge>, logged: Option<string>)
    requires checkUpdate.err.None? || checkUpdate.err.value == Yum.UpdatesAvailable ==>
               Yum.PendingParsable(GoStrings.Split(checkUpdate.output, '\n'))
               && (listObsoletes.err.None? ==> Yum.ObsoleteParsable(GoStrings.Split(listObsoletes.output, '\n')))
    ensures checkUpdate.err.Some? && checkUpdate.err.value != Yum.UpdatesAvailable ==>
              emitted == [] && logged == Some(YumErrorPrefix + checkUpdate.err.value)
    ensures (checkUpdate.err.None? || checkUpdate.err.value == Yum.UpdatesAvailable) && listObsoletes.err.Some? ==>
              emitted == [] && logged == Some(YumErrorPrefix + listObsoletes.err.value)
    ensures (checkUpdate.err.None? || checkUpdate.err.value == Yum.UpdatesAvailable) && listObsoletes.err.None? ==>
              logged == None
              && YumEmission(emitted, Yum.PendingPackages(checkUpdate).value,
                             Yum.ObsoletePackages(listObsoletes).value,
                             Yum.RebootRequired(rebootExitCode).value)
  {
    var pending := Yum.GetPendingPackages(checkUpdate);
    if pending.Err? {
      return [], Some(YumErrorPrefix + pending.error);
    }
    var obsoletes := Yum.GetObsoletePackages(listObsoletes);
    if obsoletes.Err? {
      return [], Some(YumErrorPrefix + obsoletes.error);
    }
    match Yum.RebootRequired(rebootExitCode)
    case Err(e) =>
      return [], Some(YumErrorPrefix + e);
    case Ok(reboot) =>
      OriginLabelInjective();
      var pendingGauges := EmitPerKey(YumPendingName, pending.value, OriginLabel);
      var obsoleteGauges := EmitPerKey(YumObsoleteName, obsoletes.value, OriginLabel);
      emitted := pendingGauges + obsoleteGauges + [Gauge(YumRebootName, [], reboot)];
      logged := None;
      YumEmitted(pendingGauges, obsoleteGauges, pending.value, obsoletes.value, reboot);
  }

  /** The yum gauges in the order they are sent make a `YumEmission`. */
  lemma YumEmitted(pendingGauges: seq<Gauge>, obsoleteGauges: seq<Gauge>, pending: map<string, seq<string>>,
                   obsoletes: map<string, seq<string>>, reboot: int)
    requires |pendingGauges| == |pending| && Distinct(pendingGauges)
    requires PerKey(pendingGauges, YumPendingName, pending, OriginLabel)
    requires forall i :: 0 <= i < |pendingGauges| ==> pendingGauges[i].name == YumPendingName
    requires |obsoleteGauges| == |obsoletes| && Distinct(obsoleteGauges)
    requires PerKey(obsoleteGauges, YumObsoleteName, obsoletes, OriginLabel)
    requires forall i :: 0 <= i < |obsoleteGauges| ==> obsoleteGauges[i].name == YumObsoleteName
    ensures YumEmission(pendingGauges + obsoleteGauges + [Gauge(YumRebootName, [], reboot)], pending, obsoletes, reboot)
  {
    var last := Gauge(YumRebootName, [], reboot);
    FullNameInjective("yum_packages_pending", "yum_packages_obsolete");
    FullNameInjective("yum_reboot_required", "yum_packages_pending");
    FullNameInjective("yum_reboot_required", "yum_packages_obsolete");
    DistinctConcat(pendingGauges, YumPendingName, obsoleteGauges, YumObsoleteName, last);
    ConcatSlices(pendingGauges, obsoleteGauges, last);
  }

  /** The two runs and the last gauge can be read back from the whole. */
  lemma ConcatSlices(xs: seq<Gauge>, ys: seq<Gauge>, last: Gauge)
    ensures var all := xs + ys + [last];
            && all[..|xs|] == xs && all[|xs|..|xs| + |ys|] == ys && all[|xs| + |ys|] == last
  {
  }

  /** Gauges of different metrics never clash, so sending two per-key runs of
      distinct names and a last gauge of a third name sends nothing twice. */
  lemma DistinctConcat(xs: seq<Gauge>, x: string, ys: seq<Gauge>, y: string, last: Gauge)
    requires Distinct(xs) && Distinct(ys)
    requires forall i :: 0 <= i < |xs| ==> xs[i].name == x
    requires forall i :: 0 <= i < |ys| ==> ys[i].name == y
    requires x != y && last.name != x && last.name != y
    ensures Distinct(xs + ys + [last])
  {
    var all := xs + ys + [last];
    forall i, j | 0 <= i < j < |all| ensures all[i] != all[j] {
      if j < |xs| {
        assert all[i] == xs[i] && all[j] == xs[j];
      } else if i >= |xs| && j < |xs| + |ys| {
        assert all[i] == ys[i - |xs|] && all[j] == ys[j - |xs|];
      }
    }
  }

  // ---------------------------------------------------------------- apt

  const AptErrorPrefix := "Error collecting APT metrics: "

  /** The apt pending gauges carry the key's origin and architecture. */
  function OriginArchLabels(k: Apt.OriginArchKey): seq<string> {
    var (origin, arch) := Apt.GetOriginArch(k);
    [origin, arch]
  }

  /** Different (origin, arch) keys are sent with different label values:
      the two labels rebuild the key. */
  lemma OriginArchLabelsInjective()
    ensures forall a, b :: OriginArchLabels(a) == OriginArchLabels(b) ==> a == b
  {
    forall a, b | OriginArchLabels(a) == OriginArchLabels(b) ensures a == b {
      assert OriginArchLabels(a)[0] == a.origin && OriginArchLabels(a)[1] == a.arch;
      assert OriginArchLabels(b)[0] == b.origin && OriginArchLabels(b)[1] == b.arch;
    }
  }

  /** A successful apt scrape's gauges: the pending gauges, then the
      autoremove gauge, then the reboot gauge, each sent once. */
  ghost predicate AptEmission(emitted: seq<Gauge>, pending: map<Apt.OriginArchKey, seq<string>>,
                        autoremove: int, reboot: int) {
    var p := |pending|;
    && |emitted| == p + 2
    && Distinct(emitted)
    && PerKey(emitted[..p], AptPendingName, pending, OriginArchLabels)
    && emitted[p] == Gauge(AptAutoremoveName, [], autoremove)
    && emitted[p + 1] == Gauge(AptRebootName, [], reboot)
  }

  /** aptCollector.Collect, given what the two dry runs returned and whether
      stat-ing the reboot marker succeeded. The first error is logged and
      nothing is emitted; otherwise there is one pending gauge per
      (origin, arch) key, the autoremove gauge and the reboot gauge. */
  method CollectApt(distUpgrade: CommandRun, autoremove: CommandRun, markerStatSucceeded: bool)
    returns (emitted: seq<Gauge>, logged: Option<string>)
    requires distUpgrade.err.None? ==> Apt.Parsable(GoStrings.Split(distUpgrade.output, '\n'))
    ensures distUpgrade.err.Some? ==> emitted == [] && logged == Some(AptErrorPrefix + distUpgrade.err.value)
    ensures distUpgrade.err.None? && autoremove.err.Some? ==>
              emitted == [] && logged == Some(AptErrorPrefix + autoremove.err.value)
    ensures distUpgrade.err.None? && autoremove.err.None? ==>
              logged == None
              && AptEmission(emitted, Apt.PendingPackages(distUpgrade).value,
                             Apt.Autoremove(autoremove).value,
                             Apt.RebootRequired(markerStatSucceeded).value)
  {
    var pending := Apt.GetPendingPackages(distUpgrade);
    if pending.Err? {
      return [], Some(AptErrorPrefix + pending.error);
    }
    var removals := Apt.GetAutoremovePackages(autoremove);
    if removals.Err? {
      return [], Some(AptErrorPrefix + removals.error);
    }
    match Apt.RebootRequired(markerStatSucceeded)
    case Err(e) =>
      return [], Some(AptErrorPrefix + e);
    case Ok(reboot) =>
      OriginArchLabelsInjective();
      var pendingGauges := EmitPerKey(AptPendingName, pending.value, OriginArchLabels);
      var autoremoveGauge := Gauge(AptAutoremoveName, [], removals.value);
      var rebootGauge := Gauge(AptRebootName, [], reboot);
      emitted := pendingGauges + [autoremoveGauge] + [rebootGauge];
      logged := None;
      AptEmitted(pendingGauges, pending.value, removals.value, reboot);
  }

  /** The apt gauges in the order they are sent make an `AptEmission`. */
  lemma AptEmitted(pendingGauges: seq<Gauge>, pending: map<Apt.OriginArchKey, seq<string>>, autoremove: int, reboot: int)
    requires |pendingGauges| == |pending| && Distinct(pendingGauges)
    requires PerKey(pendingGauges, AptPendingName, pending, OriginArchLabels)
    requires forall i :: 0 <= i < |pendingGauges| ==> pendingGauges[i].name == AptPendingName
    ensures AptEmission(pendingGauges + [Gauge(AptAutoremoveName, [], autoremove)] + [Gauge(AptRebootName, [], reboot)],
                        pending, autoremove, reboot)
  {
    var autoremoveGauge := Gauge(AptAutoremoveName, [], autoremove);
    var rebootGauge := Gauge(AptRebootName, [], reboot);
    var emitted := pendingGauges + [autoremoveGauge] + [rebootGauge];
    FullNameInjective("apt_packages_pending", "apt_autoremove_pending");
    FullNameInjective("apt_reboot_required", "apt_packages_pending");
    FullNameInjective("apt_reboot_required", "apt_autoremove_pending");
    DistinctConcat(pendingGauges, AptPendingName, [autoremoveGauge], AptAutoremoveName, rebootGauge);
    assert emitted[..|pendingGauges|] == pendingGauges;
  }

  // ---------------------------------------------------------------- package manager detection

  datatype PackageManager = AptManager | YumManager

  const NeitherFound := "neither apt nor yum package manager found: "

  /** getPackageManager, given what `apt-get --version` and `yum --version`
      returned: apt wins whenever its probe succeeds, yum is chosen only when
      apt's probe failed and yum's succeeded, and when both fail the error
      carries yum's combined output. */
  function DetectPackageManager(aptProbe: CommandRun, yumProbe: CommandRun): (r: Result<PackageManager>)
    ensures r == Ok(AptManager) <==> aptProbe.err.None?
    ensures r == Ok(YumManager) <==> aptProbe.err.Some? && yumProbe.err.None?
    ensures r.Err? <==> aptProbe.err.Some? && yumProbe.err.Some?
    ensures r.Err? ==> r.error == NeitherFound + yumProbe.output
  {
    if aptProbe.err.None? then Ok(AptManager)
    else if yumProbe.err.None? then Ok(YumManager)
    else Err(NeitherFound + yumProbe.output)
  }
}
