# System monitor: threshold evaluation and alert dispatch

A Dafny model of the alerting core of a single-host Python resource monitor
(`system_monitor.py`). One check compares a CPU reading, a memory reading and
one usage reading per mounted partition against three fixed thresholds (CPU 80,
memory 80, disk 90, all percentages), each with a strict `>`. It raises one
alert `(resource name, usage)` per breach, in a fixed order: `"CPU"`, then
`"Memory"`, then `"Disk (<mountpoint>)"` for each partition in enumeration
order. Partitions whose filesystem type is empty are skipped. Each alert is
handed to a notifier. If no mail password is configured (absent or empty), the
notifier reports the alert locally and attempts nothing. Otherwise it attempts
delivery, and a failed attempt is caught, so the check goes on with the
remaining resources.

The model, in `system_monitor.dfy` (module `SystemMonitor`):

- `Alerts(s)` is the pure specification of one check. It is built from
  `ReadingAlerts` (CPU and memory) and `DiskAlerts` (the partition loop).
- The class `Notifier` holds the password, fixed at start-up, and `outbox`.
  `outbox` records every alert handed over, together with what became of it
  (`ReportedLocally`, `Delivered`, `DeliveryFailed`). The ghost field `handed`
  lists the alerts of `outbox` in order. The invariant `Valid()` says that, and
  that every record was routed by the one password.
- `Notifier.CheckThresholds` is the imperative check. It is proved to keep the
  earlier records and to hand over exactly `Alerts(s)` in order, whatever was
  handed over before. So nothing is remembered between checks, and a breach
  that persists is alerted again on every check.

Readings are inputs of type `real`. They only meet the integer thresholds
through `>`. The outcome of the mail transport is left unknown to the model
(a nondeterministic choice).

A check keeps no state between calls. There is no per-resource alert state,
no suppression of repeated alerts, no re-arming and no pruning of vanished
volumes. The thresholds are constants (system_monitor.py:14-16), and nothing
schedules repeated checks.

## Model

| member | source | states |
|---|---|---|
| `SystemMonitor.Configured` | system_monitor.py:29 | a password counts as not configured exactly when it is absent (`None`) or the empty string `""`, the two falsy values the source's `not SMTP_PASSWORD` test can meet |
| `SystemMonitor.Exceeds` | system_monitor.py:51 | a reading breaches only when strictly above its threshold: no reading at or below the threshold breaches, and every reading that does not breach is at most the threshold (the same `>` is used at lines 55 and 61) |
| `SystemMonitor.DiskBreach` | system_monitor.py:59-61 | a partition with empty fstype never breaches, whatever its usage; one with a non-empty fstype breaches iff its usage is strictly above 90 |
| `SystemMonitor.DiskAlert` | system_monitor.py:62 | a breaching partition's alert carries its usage unchanged, is never named `"CPU"` or `"Memory"`, and its name is exactly `"Disk ("`, then the mount point, then `")"` — nothing before, between or after |
| `SystemMonitor.ReadingAlerts` | system_monitor.py:50-56 | the alerts before the partition loop contain the CPU alert iff the CPU reading is above 80, and the memory alert iff the memory reading is above 80. They are one of `[]`, `[CPU]`, `[Memory]` or `[CPU, Memory]`, so CPU always comes first |
| `SystemMonitor.Alerts` | system_monitor.py:49-62 | one check raises at most 2 + (number of partitions) alerts |
| `SystemMonitor.DiskAlerts` | system_monitor.py:58-62 | the partition loop raises at most one alert per partition, and every alert it raises has usage strictly above 90 |
| `SystemMonitor.DiskName` | system_monitor.py:62 | a disk resource name is never `"CPU"` or `"Memory"` |
| `SystemMonitor.DiskNameMountpoint` | system_monitor.py:62 | a disk resource name is `"Disk ("`, the mount point, then `")"`; the mount point can be read back from it |
| `SystemMonitor.DiskNameInjective` | system_monitor.py:62 | different mount points give different resource names |
| `SystemMonitor.DiskAlertsExactly` | system_monitor.py:58-62 | the k-th disk alert belongs to the k-th breaching partition (non-empty fstype and usage > 90), in enumeration order, and carries its mount point and usage unchanged; every breaching partition gets one |
| `SystemMonitor.DiskAlertsMembership` | system_monitor.py:58-62 | an alert comes out of the partition loop iff some partition breaches and has exactly that alert |
| `SystemMonitor.DiskAlertsAppend` | system_monitor.py:58-62 | the partition loop over two consecutive runs of partitions gives the alerts of the first run followed by those of the second |
| `SystemMonitor.DiskAlertsNamed` | system_monitor.py:62 | no disk alert is named `"CPU"` or `"Memory"` |
| `SystemMonitor.PseudoFilesystemSkipped` | system_monitor.py:59 | removing a partition with empty fstype leaves the alerts of the check unchanged |
| `SystemMonitor.PseudoFilesystemUsageIgnored` | system_monitor.py:59-61 | a partition with empty fstype never alerts: changing its usage, to any value, leaves the alerts unchanged |
| `SystemMonitor.AlertsMembership` | system_monitor.py:49-62 | an alert is raised iff it is the CPU alert of a CPU reading above 80, the memory alert of a memory reading above 80, or the alert of a breaching partition |
| `SystemMonitor.CpuAlert` | system_monitor.py:50-52 | a `"CPU"` alert is raised iff the reading is strictly above 80 (exactly 80 raises none); it is then the first alert and carries the reading unchanged |
| `SystemMonitor.MemoryAlert` | system_monitor.py:53-56 | a `"Memory"` alert is raised iff the reading is strictly above 80; it comes right after the CPU alert, if any, and carries the reading unchanged |
| `SystemMonitor.AlertsOrdered` | system_monitor.py:49-62 | alerts come CPU first, then memory, then disks, with at most one CPU and one memory alert; the disk alerts form the tail in partition-loop order |
| `SystemMonitor.AtThresholdsNoAlert` | system_monitor.py:49-62 | readings at or below every threshold (CPU 80, memory 80, disk 90) raise no alert |
| `SystemMonitor.Notifier.constructor` | system_monitor.py:21-24 | the notifier starts valid, with the configured password, an empty outbox and nothing handed over |
| `SystemMonitor.Notifier.SendAlert` | system_monitor.py:28-47 | keeps `Valid()` and the earlier records, and appends exactly one record. `(resource, usage)` is appended to the alerts handed over. The record is a local report, with no delivery attempt, iff the password is absent or empty. A failed delivery is recorded and not raised |
| `SystemMonitor.Notifier.CheckThresholds` | system_monitor.py:49-62 | keeps `Valid()` and the earlier records, and extends the alerts handed over by exactly `Alerts(s)`, in order, whatever was handed over before (no suppression of repeats). Every record is routed by the password as in `SendAlert`, so a failed delivery does not stop later resources |

## Left out

- Sampling through `psutil` (`cpu_percent(interval=1)`, `virtual_memory`, `disk_partitions`, `disk_usage`): foreign calls. The readings are parameters of `CheckThresholds`.
- An exception raised by `disk_usage` for an unreadable mount point escapes `check_thresholds` in the source and ends the check. The model takes each usage as given, so it has no such failure.
- The SMTP transport (connection, STARTTLS, login, `sendmail`) and the building of the MIME message: network I/O. Delivery is an attempt whose outcome the model leaves open.
- The subject and body text, with `datetime.now()` and float formatting, and every `print`: clock and stdout I/O. The record kinds `ReportedLocally`, `Delivered` and `DeliveryFailed` stand for the three messages printed.
- Reading `.env` and the environment variables, and the start-up warning when the password is missing: configuration I/O. The notifier receives the resulting optional password.
- `main()`'s report (hostname, uptime, per-volume usage) and the call of `check_thresholds` when the module is loaded: stdout I/O and entry-point glue.
- Floating point: readings are `real`. The source only compares them with integer thresholds through `>`, which behaves the same on the reals.
