/*
 * Threshold evaluation and alert dispatch of a single-host resource monitor.
 *
 * One check takes a CPU reading, a memory reading and one reading per mounted
 * partition, compares each against a fixed threshold with a strict `>`, and
 * raises one alert per breach: CPU first, then memory, then the partitions in
 * the order they were enumerated, skipping partitions without a filesystem
 * type. Each alert goes to a notifier that either reports it locally (no mail
 * password configured) or attempts delivery and absorbs any failure.
 *
 * The readings are inputs (`real` stands for the sampled floating-point
 * percentage); the mail transport is an attempt whose outcome is unknown.
 */
module SystemMonitor {

  // ---------------------------------------------------------------------------
  // Configuration
  // ---------------------------------------------------------------------------

  const CpuThreshold: int := 80
  const MemoryThreshold: int := 80
  const DiskThreshold: int := 90

  const CpuName: string := "CPU"
  const MemoryName: string := "Memory"

  datatype Option<+T> = None | Some(value: T)

  /** A password is configured when it is present and non-empty (the source tests its truthiness). */
  predicate Configured(password: Option<string>)
    ensures !Configured(password) <==> password == None || password == Some("")
  {
    password.Some? && password.value != ""
  }

  // ---------------------------------------------------------------------------
  // Samples and alerts
  // ---------------------------------------------------------------------------

  /** One mounted partition as enumerated, with the usage percentage of its mount point. */
  datatype Partition = Partition(mountpoint: string, fstype: string, usage: real)

  /** The readings one check works on, in the order the check takes them. */
  datatype Sample = Sample(cpu: real, memory: real, partitions: seq<Partition>)

  /** An alert as handed to the notifier: the resource name and the sampled usage. */
  datatype Alert = Alert(resource: string, usage: real)

  /**
   * A reading breaches its threshold only when it is strictly greater: no
   * reading at or below the threshold breaches, and the threshold itself is
   * the largest reading that does not breach.
   */
  predicate Exceeds(usage: real, threshold: int)
    ensures usage <= threshold as real ==> !Exceeds(usage, threshold)
    ensures !Exceeds(usage, threshold) ==> usage <= threshold as real
  {
    usage > threshold as real
  }

  /** The resource name under which a partition's alert is raised. */
  function DiskName(mountpoint: string): (r: string)
    ensures r != CpuName && r != MemoryName
  {
    "Disk (" + mountpoint + ")"
  }

  /** A partition raises an alert when it has a filesystem type and its usage exceeds the disk threshold. */
  predicate DiskBreach(p: Partition)
    ensures p.fstype == "" ==> !DiskBreach(p)
    ensures p.fstype != "" ==> (DiskBreach(p) <==> p.usage > 90.0)
  {
    p.fstype != "" && Exceeds(p.usage, DiskThreshold)
  }

  /** The alert a breaching partition raises: named "Disk (<mountpoint>)", its usage unchanged. */
  function DiskAlert(p: Partition): (r: Alert)
    ensures r.usage == p.usage
    ensures r.resource != CpuName && r.resource != MemoryName
    ensures r.resource == "Disk (" + p.mountpoint + ")"
  {
    Alert(DiskName(p.mountpoint), p.usage)
  }

  /** The alerts raised by the partition loop, in enumeration order. */
  function DiskAlerts(parts: seq<Partition>): (r: seq<Alert>)
    ensures |r| <= |parts|
    ensures forall a :: a in r ==> Exceeds(a.usage, DiskThreshold)
  {
    if parts == [] then []
    else
      var last := parts[|parts| - 1];
      DiskAlerts(parts[..|parts| - 1]) + (if DiskBreach(last) then [DiskAlert(last)] else [])
  }

  /** The alerts raised before the partition loop: CPU, then memory. */
  function ReadingAlerts(cpu: real, memory: real): (r: seq<Alert>)
    ensures Alert(CpuName, cpu) in r <==> cpu > 80.0
    ensures Alert(MemoryName, memory) in r <==> memory > 80.0
    ensures r == [] || r == [Alert(CpuName, cpu)] || r == [Alert(MemoryName, memory)]
         || r == [Alert(CpuName, cpu), Alert(MemoryName, memory)]
  {
    var cpuAlert, memoryAlert := Alert(CpuName, cpu), Alert(MemoryName, memory);
    if Exceeds(cpu, CpuThreshold) then
      (if Exceeds(memory, MemoryThreshold) then [cpuAlert, memoryAlert] else [cpuAlert])
    else
      (if Exceeds(memory, MemoryThreshold) then [memoryAlert] else [])
  }

  /** The alerts one check raises, in the order it raises them. */
  function Alerts(s: Sample): (r: seq<Alert>)
    ensures |r| <= 2 + |s.partitions|
  {
    ReadingAlerts(s.cpu, s.memory) + DiskAlerts(s.partitions)
  }

  // ---------------------------------------------------------------------------
  // Resource names
  // ---------------------------------------------------------------------------

  /** The mount point can be read back from a disk alert's resource name. */
  lemma DiskNameMountpoint(mountpoint: string)
    ensures var n := DiskName(mountpoint);
      |n| == |mountpoint| + 7 && n[..6] == "Disk (" && n[|n| - 1] == ')'
      && n[6..|n| - 1] == mountpoint
  {
  }

  /** Different mount points give different resource names. */
  lemma DiskNameInjective(m1: string, m2: string)
    ensures DiskName(m1) == DiskName(m2) ==> m1 == m2
  {
    DiskNameMountpoint(m1);
    DiskNameMountpoint(m2);
  }

  // ---------------------------------------------------------------------------
  // The partition loop
  // ---------------------------------------------------------------------------

  /** The indices of the partitions that breach, in increasing order. */
  function BreachIndices(parts: seq<Partition>): seq<nat> {
    if parts == [] then []
    else
      var n := |parts| - 1;
      BreachIndices(parts[..n]) + (if DiskBreach(parts[n]) then [n] else [])
  }

  /**
   * The partition loop raises exactly one alert per breaching partition, in
   * enumeration order: the k-th alert belongs to the k-th breaching partition,
   * carries its mount point and its usage unchanged, and no breaching
   * partition is left without one.
   */
  lemma {:induction false} DiskAlertsExactly(parts: seq<Partition>)
    ensures var r, idx := DiskAlerts(parts), BreachIndices(parts);
      |idx| == |r|
      && (forall k :: 0 <= k < |idx| ==>
            idx[k] < |parts| && DiskBreach(parts[idx[k]]) && r[k] == DiskAlert(parts[idx[k]]))
      && (forall k, l :: 0 <= k < l < |idx| ==> idx[k] < idx[l])
      && (forall i :: 0 <= i < |parts| && DiskBreach(parts[i]) ==> i in idx)
  {
    if parts != [] {
      var n := |parts| - 1;
      var pre := parts[..n];
      DiskAlertsExactly(pre);
      var r0, idx0 := DiskAlerts(pre), BreachIndices(pre);
      var tail, itail := if DiskBreach(parts[n]) then [DiskAlert(parts[n])] else [],
                         if DiskBreach(parts[n]) then [n] else [];
      var r, idx := r0 + tail, idx0 + itail;
      assert DiskAlerts(parts) == r && BreachIndices(parts) == idx;
      forall k | 0 <= k < |idx|
        ensures idx[k] < |parts| && DiskBreach(parts[idx[k]]) && r[k] == DiskAlert(parts[idx[k]])
      {
        if k < |idx0| {
          assert idx[k] == idx0[k] && r[k] == r0[k] && pre[idx0[k]] == parts[idx0[k]];
        } else {
          assert idx[k] == n && r[k] == DiskAlert(parts[n]);
        }
      }
      forall k, l | 0 <= k < l < |idx|
        ensures idx[k] < idx[l]
      {
        if l < |idx0| {
          assert idx[k] == idx0[k] && idx[l] == idx0[l];
        } else {
          assert idx[k] == idx0[k] && idx0[k] < n;
        }
      }
      forall i | 0 <= i < |parts| && DiskBreach(parts[i])
        ensures i in idx
      {
        if i < n {
          assert pre[i] == parts[i];
          assert i in idx0;
        }
      }
    }
  }

  /** An alert comes out of the partition loop iff some enumerated partition breaches with exactly that alert. */
  lemma {:induction false} DiskAlertsMembership(parts: seq<Partition>, a: Alert)
    ensures a in DiskAlerts(parts) <==> exists p :: p in parts && DiskBreach(p) && a == DiskAlert(p)
  {
    if parts != [] {
      var n := |parts| - 1;
      var pre := parts[..n];
      DiskAlertsMembership(pre, a);
      assert parts == pre + [parts[n]];
      if exists p :: p in parts && DiskBreach(p) && a == DiskAlert(p) {
        var p :| p in parts && DiskBreach(p) && a == DiskAlert(p);
        if p != parts[n] {
          assert p in pre;
        }
      }
    }
  }

  /** One more partition of the loop adds its alert, if it breaches, after those of the partitions before it. */
  lemma DiskAlertsStep(parts: seq<Partition>, i: int)
    requires 0 <= i < |parts|
    ensures DiskAlerts(parts[..i + 1])
         == DiskAlerts(parts[..i]) + (if DiskBreach(parts[i]) then [DiskAlert(parts[i])] else [])
  {
    assert parts[..i + 1][..i] == parts[..i];
  }

  /** A partition that does not breach adds nothing to the alerts of the partitions before it. */
  lemma DiskAlertsSkip(parts: seq<Partition>, i: int)
    requires 0 <= i < |parts| && !DiskBreach(parts[i])
    ensures DiskAlerts(parts[..i + 1]) == DiskAlerts(parts[..i])
  {
    DiskAlertsStep(parts, i);
  }

  /** The partition loop over two consecutive runs of partitions is the loop over each in turn. */
  lemma {:induction false} DiskAlertsAppend(xs: seq<Partition>, ys: seq<Partition>)
    ensures DiskAlerts(xs + ys) == DiskAlerts(xs) + DiskAlerts(ys)
  {
    if ys == [] {
      assert xs + ys == xs;
    } else {
      var n := |ys| - 1;
      DiskAlertsAppend(xs, ys[..n]);
      assert (xs + ys)[..|xs + ys| - 1] == xs + ys[..n];
      assert (xs + ys)[|xs + ys| - 1] == ys[n];
    }
  }

  /** A partition without a filesystem type is skipped: taking it out changes no alert. */
  lemma PseudoFilesystemSkipped(s: Sample, i: int)
    requires 0 <= i < |s.partitions| && s.partitions[i].fstype == ""
    ensures Alerts(s.(partitions := s.partitions[..i] + s.partitions[i + 1..])) == Alerts(s)
  {
    var parts, xs, ys := s.partitions, s.partitions[..i], s.partitions[i + 1..];
    assert parts == xs + [parts[i]] + ys;
    assert DiskAlerts([parts[i]]) == [] by {
      assert [parts[i]][..0] == [];
    }
    DiskAlertsAppend(xs, [parts[i]]);
    assert DiskAlerts(xs + [parts[i]]) == DiskAlerts(xs);
    DiskAlertsAppend(xs + [parts[i]], ys);
    DiskAlertsAppend(xs, ys);
    assert DiskAlerts(parts) == DiskAlerts(xs + ys);
  }

  /** Whatever usage a partition without a filesystem type reports, the alerts are the same. */
  lemma PseudoFilesystemUsageIgnored(s: Sample, i: int, usage: real)
    requires 0 <= i < |s.partitions| && s.partitions[i].fstype == ""
    ensures Alerts(s.(partitions := s.partitions[i := s.partitions[i].(usage := usage)])) == Alerts(s)
  {
    var s' := s.(partitions := s.partitions[i := s.partitions[i].(usage := usage)]);
    PseudoFilesystemSkipped(s, i);
    PseudoFilesystemSkipped(s', i);
    assert s'.partitions[..i] + s'.partitions[i + 1..] == s.partitions[..i] + s.partitions[i + 1..];
  }

  // ---------------------------------------------------------------------------
  // One check
  // ---------------------------------------------------------------------------

  /** An alert is raised iff it is the CPU alert of a breaching CPU reading, the memory alert of a breaching memory reading, or the alert of a breaching partition. */
  lemma AlertsMembership(s: Sample, a: Alert)
    ensures a in Alerts(s) <==>
      (Exceeds(s.cpu, CpuThreshold) && a == Alert(CpuName, s.cpu))
      || (Exceeds(s.memory, MemoryThreshold) && a == Alert(MemoryName, s.memory))
      || (exists p :: p in s.partitions && DiskBreach(p) && a == DiskAlert(p))
  {
    DiskAlertsMembership(s.partitions, a);
  }

  /** Every raised disk alert is named after a partition, never "CPU" or "Memory". */
  lemma DiskAlertsNamed(parts: seq<Partition>)
    ensures forall a :: a in DiskAlerts(parts) ==> a.resource != CpuName && a.resource != MemoryName
  {
  }

  /**
   * A CPU alert is raised iff the CPU reading is strictly above 80 (a reading
   * of exactly 80 raises none); it is then the first alert and carries the
   * reading unchanged.
   */
  lemma CpuAlert(s: Sample)
    ensures var r := Alerts(s);
      ((exists a :: a in r && a.resource == CpuName) <==> s.cpu > 80.0)
      && (forall a :: a in r && a.resource == CpuName ==> a == Alert(CpuName, s.cpu) && r[0] == a)
  {
    DiskAlertsNamed(s.partitions);
    var r := Alerts(s);
    if s.cpu > 80.0 {
      assert r[0] == Alert(CpuName, s.cpu);
    }
  }

  /**
   * A memory alert is raised iff the memory reading is strictly above 80; it
   * then follows the CPU alert, if any, and carries the reading unchanged.
   */
  lemma MemoryAlert(s: Sample)
    ensures var r := Alerts(s);
      ((exists a :: a in r && a.resource == MemoryName) <==> s.memory > 80.0)
      && (forall a :: a in r && a.resource == MemoryName ==>
            a == Alert(MemoryName, s.memory) && r[if s.cpu > 80.0 then 1 else 0] == a)
  {
    DiskAlertsNamed(s.partitions);
    var r := Alerts(s);
    var c := if s.cpu > 80.0 then 1 else 0;
    if s.memory > 80.0 {
      assert r[c] == Alert(MemoryName, s.memory);
    }
  }

  /** Where an alert stands in the order of a check: CPU, then memory, then disks. */
  function Rank(a: Alert): nat {
    if a.resource == CpuName then 0 else if a.resource == MemoryName then 1 else 2
  }

  /**
   * Alerts come out CPU first, then memory, then disks; the disk alerts form
   * the tail of the sequence, in the partition loop's order, and there is at
   * most one CPU and one memory alert.
   */
  lemma AlertsOrdered(s: Sample)
    ensures var r := Alerts(s);
      (forall i, j :: 0 <= i < j < |r| ==> Rank(r[i]) <= Rank(r[j]) && (Rank(r[i]) < 2 ==> Rank(r[i]) < Rank(r[j])))
      && |r| >= |DiskAlerts(s.partitions)|
      && r[|r| - |DiskAlerts(s.partitions)|..] == DiskAlerts(s.partitions)
  {
    var r, head, d := Alerts(s), ReadingAlerts(s.cpu, s.memory), DiskAlerts(s.partitions);
    assert r == head + d;
    DiskAlertsNamed(s.partitions);
    forall k | 0 <= k < |d| ensures Rank(d[k]) == 2 {
      assert d[k] in d;
    }
    var first := if s.cpu > 80.0 then 0 else 1;
    assert forall k :: 0 <= k < |head| ==> Rank(head[k]) == k + first;
    forall i, j | 0 <= i < j < |r|
      ensures Rank(r[i]) <= Rank(r[j]) && (Rank(r[i]) < 2 ==> Rank(r[i]) < Rank(r[j]))
    {
      if j < |head| {
        assert r[i] == head[i] && r[j] == head[j];
      } else if i < |head| {
        assert r[i] == head[i] && r[j] == d[j - |head|];
      } else {
        assert r[i] == d[i - |head|] && r[j] == d[j - |head|];
      }
    }
  }

  /** Readings at or below every threshold raise nothing. */
  lemma AtThresholdsNoAlert(s: Sample)
    requires s.cpu <= 80.0 && s.memory <= 80.0
    requires forall p :: p in s.partitions ==> p.usage <= 90.0
    ensures Alerts(s) == []
  {
    if DiskAlerts(s.partitions) != [] {
      var a := DiskAlerts(s.partitions)[0];
      DiskAlertsMembership(s.partitions, a);
    }
  }

  // ---------------------------------------------------------------------------
  // Dispatch
  // ---------------------------------------------------------------------------

  /** What became of one alert handed to the notifier. */
  datatype Dispatch =
    | ReportedLocally(alert: Alert)  // no password: reported locally, no delivery attempted
    | Delivered(alert: Alert)        // delivery attempted and succeeded
    | DeliveryFailed(alert: Alert)   // delivery attempted, failure caught and reported

  function AlertsOf(ds: seq<Dispatch>): (r: seq<Alert>)
    ensures |r| == |ds|
  {
    seq(|ds|, k requires 0 <= k < |ds| => ds[k].alert)
  }

  /** Handing over one more alert extends the handed-over alerts by exactly that alert. */
  lemma AlertsOfAppend(ds: seq<Dispatch>, d: Dispatch)
    ensures AlertsOf(ds + [d]) == AlertsOf(ds) + [d.alert]
  {
  }

  /** Handing over the alert of one more breaching partition keeps what was handed over in step with the partition loop. */
  lemma DiskAlertsExtend(before: seq<Alert>, head: seq<Alert>, parts: seq<Partition>, i: int)
    requires 0 <= i < |parts| && DiskBreach(parts[i])
    ensures before + (head + DiskAlerts(parts[..i])) + [DiskAlert(parts[i])]
         == before + (head + DiskAlerts(parts[..i + 1]))
  {
    DiskAlertsStep(parts, i);
  }

  /**
   * The notifier with its mail password, fixed once at start-up, and the
   * record of every alert handed to it so far.
   */
  class Notifier {
    const password: Option<string>
    var outbox: seq<Dispatch>
    // The alerts handed over so far, in order: the alerts of `outbox`.
    ghost var handed: seq<Alert>

    /**
     * Every record carries the alert handed over at that position, and every
     * record was routed by the one password: reported locally iff it is not
     * configured.
     */
    ghost predicate Valid()
      reads this
    {
      handed == AlertsOf(outbox)
      && forall k :: 0 <= k < |outbox| ==> (outbox[k].ReportedLocally? <==> !Configured(password))
    }

    constructor (password: Option<string>)
      ensures Valid() && this.password == password && outbox == [] && handed == []
    {
      this.password := password;
      outbox := [];
      handed := [];
    }

    /**
     * Hands one alert to the notifier. Without a configured password it is
     * only reported locally; otherwise delivery is attempted, and a failed
     * attempt is recorded rather than raised to the caller.
     */
    method SendAlert(resource: string, usage: real)
      requires Valid()
      modifies this`outbox, this`handed
      ensures Valid() && old(outbox) < outbox && |outbox| == |old(outbox)| + 1
      ensures handed == old(handed) + [Alert(resource, usage)]
      ensures outbox[|outbox| - 1].ReportedLocally? <==> !Configured(password)
    {
      var alert := Alert(resource, usage);
      var d: Dispatch;
      if !Configured(password) {
        d := ReportedLocally(alert);
      } else {
        // The outcome of the mail transport is not known to the model.
        var delivered: bool := *;
        d := if delivered then Delivered(alert) else DeliveryFailed(alert);
      }
      AlertsOfAppend(outbox, d);
      outbox := outbox + [d];
      handed := handed + [alert];
    }

    /**
     * One check: hands the notifier exactly the alerts `Alerts(s)` raises, in
     * that order, whatever was handed to it before (no alert is suppressed
     * because an earlier check raised it too). A failed delivery does not stop
     * the check: every later breach is still handed over.
     */
    method CheckThresholds(s: Sample)
      requires Valid()
      modifies this`outbox, this`handed
      ensures Valid() && old(outbox) <= outbox
      ensures handed == old(handed) + Alerts(s)
    {
      if Exceeds(s.cpu, CpuThreshold) {
        SendAlert(CpuName, s.cpu);
      }
      if Exceeds(s.memory, MemoryThreshold) {
        SendAlert(MemoryName, s.memory);
      }
      ghost var head := ReadingAlerts(s.cpu, s.memory);
      assert handed == old(handed) + head;
      var parts := s.partitions;
      for i := 0 to |parts|
        invariant Valid() && old(outbox) <= outbox
        invariant handed == old(handed) + (head + DiskAlerts(parts[..i]))
      {
        var p := parts[i];
        if p.fstype != "" {
          if Exceeds(p.usage, DiskThreshold) {
            SendAlert(DiskName(p.mountpoint), p.usage);
            DiskAlertsExtend(old(handed), head, parts, i);
          } else {
            DiskAlertsSkip(parts, i);
          }
        } else {
          DiskAlertsSkip(parts, i);
        }
      }
      assert parts[..|parts|] == parts;
    }
  }
}
