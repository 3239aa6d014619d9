/** The database backup manager: when the next scheduled backup is due, which backup log rows the
    retention setting removes, and the `running` flag that keeps the scheduler going until a
    shutdown signal arrives.  Datetimes are naive local ones, to the microsecond. */
module Backup {
  import opened PyRuntime

  /** Microseconds in a day. */
  const Day: nat := 86_400_000_000

  /** The schedule used when `BACKUP_SCHEDULE` is not set: daily at 02:00. */
  const DefaultSchedule := "0 2 * * *"

  /** A naive local datetime: the ordinal of its date and its wall-clock fields. */
  datatype Moment = Moment(day: int, hour: int, minute: int, second: int, microsecond: int)

  predicate Valid(m: Moment) {
    0 <= m.hour < 24 && 0 <= m.minute < 60 && 0 <= m.second < 60 && 0 <= m.microsecond < 1_000_000
  }

  /** Microseconds since the start of day 0: datetimes compare as their ticks do. */
  function Ticks(m: Moment): int {
    m.day * 86_400_000_000 + m.hour * 3_600_000_000 + m.minute * 60_000_000 + m.second * 1_000_000 + m.microsecond
  }

  /** `m + timedelta(days=n)` */
  function AddDays(m: Moment, n: int): (r: Moment)
    ensures Valid(m) ==> Valid(r)
  {
    m.(day := m.day + n)
  }

  /** `m.replace(hour=hour, minute=minute, second=0, microsecond=0)`, or nothing (a ValueError)
      when the hour is outside 0..23 or the minute outside 0..59. */
  function Replace(m: Moment, hour: int, minute: int): (r: Option<Moment>)
    ensures r.Some? <==> 0 <= hour < 24 && 0 <= minute < 60
    ensures r.Some? ==> Valid(r.value) && r.value.day == m.day
  {
    if 0 <= hour < 24 && 0 <= minute < 60 then Some(Moment(m.day, hour, minute, 0, 0)) else None
  }

  /** The moment shows exactly `hour:minute:00.000000`. */
  predicate At(m: Moment, hour: int, minute: int) {
    m.hour == hour && m.minute == minute && m.second == 0 && m.microsecond == 0
  }

  /** The minute and the hour fields of a schedule. */
  datatype Fields = Fields(minute: int, hour: int)

  /** The first two whitespace-separated fields of a schedule, when there are at least two and
      both read as integers. */
  function ScheduledFields(schedule: string): (r: Option<Fields>)
    ensures r.Some? ==> |Words(schedule)| >= 2
  {
    var parts := Words(schedule);
    if |parts| < 2 then None
    else match (ParseInt(parts[0]), ParseInt(parts[1]))
      case (Some(minute), Some(hour)) => Some(Fields(minute, hour))
      case _ => None
  }

  /** `get_next_backup_time`: today at the scheduled minute and hour, or tomorrow once that time
      has come; a day from now when the schedule has no such fields or they are out of range. */
  function NextBackupTime(schedule: string, now: Moment): Moment {
    NextRun(now, ScheduledFields(schedule))
  }

  /** The next backup time after `now` for the given schedule fields. */
  function NextRun(now: Moment, fields: Option<Fields>): Moment {
    if fields.None? then AddDays(now, 1)
    else match Replace(now, fields.value.hour, fields.value.minute)
      case Some(next) => if Ticks(next) <= Ticks(now) then AddDays(next, 1) else next
      case None => AddDays(now, 1)
  }

  /** The next backup is always a valid moment strictly after now and at most a day away. */
  lemma NextRunBounds(now: Moment, fields: Option<Fields>)
    requires Valid(now)
    ensures Valid(NextRun(now, fields))
    ensures Ticks(now) < Ticks(NextRun(now, fields)) <= Ticks(now) + Day
  {
  }

  /** With a minute and an hour in range, the next backup falls exactly on that hour and minute,
      at zero seconds, and it is the first such moment after now. */
  lemma NextRunExact(now: Moment, minute: int, hour: int)
    requires Valid(now)
    requires 0 <= hour < 24 && 0 <= minute < 60
    ensures At(NextRun(now, Some(Fields(minute, hour))), hour, minute)
    ensures forall t: Moment ::
      Valid(t) && Ticks(now) < Ticks(t) < Ticks(NextRun(now, Some(Fields(minute, hour)))) ==> !At(t, hour, minute)
  {
    var r := NextRun(now, Some(Fields(minute, hour)));
    NextRunBounds(now, Some(Fields(minute, hour)));
    assert At(r, hour, minute);
    forall t: Moment | Valid(t) && Ticks(now) < Ticks(t) < Ticks(r) ensures !At(t, hour, minute) {
      if At(t, hour, minute) {
        SameClockDayApart(t, r, hour, minute);
      }
    }
  }

  /** Two moments at the same time of day are whole days apart. */
  lemma SameClockDayApart(t: Moment, r: Moment, hour: int, minute: int)
    requires At(t, hour, minute) && At(r, hour, minute) && Ticks(t) < Ticks(r)
    ensures Ticks(t) + Day <= Ticks(r)
  {
    assert Ticks(r) - Ticks(t) == (r.day - t.day) * 86_400_000_000;
  }

  /** Without usable fields, or with a minute or an hour out of range, the next backup is a day
      from now; otherwise it is a day from now only when now is exactly the scheduled time. */
  lemma NextRunFallback(now: Moment, fields: Option<Fields>)
    requires Valid(now)
    ensures fields.None? ==> NextRun(now, fields) == AddDays(now, 1)
    ensures fields.Some? && !(0 <= fields.value.hour < 24 && 0 <= fields.value.minute < 60) ==>
      NextRun(now, fields) == AddDays(now, 1)
    ensures fields.Some? && 0 <= fields.value.hour < 24 && 0 <= fields.value.minute < 60 ==>
      (NextRun(now, fields) == AddDays(now, 1) <==> At(now, fields.value.hour, fields.value.minute))
  {
  }

  /** A schedule has usable fields exactly when it has at least two whitespace-separated fields
      and the first two read as integers: the minute, then the hour. */
  lemma ScheduledFieldsRead(schedule: string, minute: int, hour: int)
    ensures ScheduledFields(schedule) == Some(Fields(minute, hour)) <==>
      var parts := Words(schedule);
      |parts| >= 2 && ParseInt(parts[0]) == Some(minute) && ParseInt(parts[1]) == Some(hour)
  {
  }

  /** The default schedule reads as minute 0 of hour 2, so without a setting the backup runs
      daily at 02:00. */
  lemma DefaultScheduleAtTwo(now: Moment)
    requires Valid(now)
    ensures ScheduledFields(DefaultSchedule) == Some(Fields(0, 2))
    ensures At(NextBackupTime(DefaultSchedule, now), 2, 0)
  {
    DefaultScheduleWords();
    IntRoundTrip(0);
    IntRoundTrip(2);
    assert IntToString(0) == "0" && IntToString(2) == "2";
    ScheduledFieldsRead(DefaultSchedule, 0, 2);
    NextRunExact(now, 0, 2);
  }

  /** The default schedule's first two fields are "0" and "2". */
  lemma DefaultScheduleWords()
    ensures |Words(DefaultSchedule)| >= 2 && Words(DefaultSchedule)[0] == "0" && Words(DefaultSchedule)[1] == "2"
  {
    DefaultScheduleMinute();
    DefaultScheduleHour();
    var rest := Words(" 2 * * *");
    assert Words(DefaultSchedule) == ["0"] + rest;
    assert rest == ["2"] + Words(" * * *");
  }

  lemma DefaultScheduleMinute()
    ensures Words(DefaultSchedule) == ["0"] + Words(" 2 * * *")
  {
    var s := DefaultSchedule;
    assert s[..1] == "0" && s[1..] == " 2 * * *";
    WordsOneLetter(s);
  }

  lemma DefaultScheduleHour()
    ensures Words(" 2 * * *") == ["2"] + Words(" * * *")
  {
    DefaultScheduleGap();
    DefaultScheduleHourWord();
  }

  lemma DefaultScheduleGap()
    ensures Words(" 2 * * *") == Words("2 * * *")
  {
    var s := " 2 * * *";
    assert s[1..] == "2 * * *";
    WordsSkipSpace(s);
  }

  lemma DefaultScheduleHourWord()
    ensures Words("2 * * *") == ["2"] + Words(" * * *")
  {
    var s := "2 * * *";
    assert s[..1] == "2" && s[1..] == " * * *";
    WordsOneLetter(s);
  }

  /** A text that starts with one non-blank character and then a blank splits first into that
      character. */
  lemma WordsOneLetter(s: string)
    requires |s| >= 2 && !IsSpace(s[0]) && IsSpace(s[1])
    ensures Words(s) == [s[..1]] + Words(s[1..])
  {
    assert StripLeft(s) == s;
    assert Token(s[1..]) == "";
    assert Token(s) == s[..1];
  }

  /** A leading blank does not change the split. */
  lemma WordsSkipSpace(s: string)
    requires |s| >= 1 && IsSpace(s[0])
    ensures Words(s) == Words(s[1..])
  {
    assert StripLeft(s) == StripLeft(s[1..]);
  }

  // ---------------------------------------------------------------------------------------
  // Retention

  /** A row of the backup log, with the moment its backup was taken. */
  datatype LogRow = LogRow(id: nat, backupTimestamp: Moment)

  /** The rows not taken before the cutoff, in their order. */
  function Kept(rows: seq<LogRow>, cutoff: Moment): (r: seq<LogRow>)
    ensures |r| <= |rows|
  {
    if rows == [] then []
    else (if Ticks(rows[0].backupTimestamp) < Ticks(cutoff) then [] else [rows[0]]) + Kept(rows[1..], cutoff)
  }

  /** `cleanup_old_backups`: with a positive retention, the rows taken before `now` less the
      retention are deleted; otherwise nothing is. */
  function CleanupOldBackups(retentionDays: int, now: Moment, rows: seq<LogRow>): seq<LogRow> {
    if retentionDays > 0 then Kept(rows, AddDays(now, -retentionDays)) else rows
  }

  /** `Kept` keeps exactly the rows not taken before the cutoff. */
  lemma {:induction false} KeptMembers(rows: seq<LogRow>, cutoff: Moment)
    ensures forall x :: x in Kept(rows, cutoff) <==> x in rows && Ticks(x.backupTimestamp) >= Ticks(cutoff)
  {
    if rows != [] {
      KeptMembers(rows[1..], cutoff);
      var head := if Ticks(rows[0].backupTimestamp) < Ticks(cutoff) then [] else [rows[0]];
      assert Kept(rows, cutoff) == head + Kept(rows[1..], cutoff);
      assert rows == [rows[0]] + rows[1..];
    }
  }

  /** A retention of zero or less deletes nothing; a positive one deletes exactly the rows taken
      more than that many days before now. */
  lemma RetentionGuard(retentionDays: int, now: Moment, rows: seq<LogRow>)
    ensures retentionDays <= 0 ==> CleanupOldBackups(retentionDays, now, rows) == rows
    ensures retentionDays > 0 ==> forall x ::
      x in CleanupOldBackups(retentionDays, now, rows) <==>
        x in rows && Ticks(x.backupTimestamp) >= Ticks(now) - retentionDays * Day
  {
    if retentionDays > 0 {
      KeptMembers(rows, AddDays(now, -retentionDays));
    }
  }

  /** A later cleanup with the same retention makes an earlier one redundant. */
  lemma LaterCleanupSubsumes(retentionDays: int, earlier: Moment, later: Moment, rows: seq<LogRow>)
    requires Ticks(earlier) <= Ticks(later)
    ensures CleanupOldBackups(retentionDays, later, CleanupOldBackups(retentionDays, earlier, rows))
         == CleanupOldBackups(retentionDays, later, rows)
  {
    if retentionDays > 0 {
      KeptTwice(rows, AddDays(earlier, -retentionDays), AddDays(later, -retentionDays));
    }
  }

  lemma {:induction false} KeptTwice(rows: seq<LogRow>, c1: Moment, c2: Moment)
    requires Ticks(c1) <= Ticks(c2)
    ensures Kept(Kept(rows, c1), c2) == Kept(rows, c2)
  {
    if rows != [] {
      KeptTwice(rows[1..], c1, c2);
      var rest := Kept(rows[1..], c1);
      if Ticks(rows[0].backupTimestamp) < Ticks(c1) {
        assert Kept(rows, c1) == rest;
      } else {
        assert Kept(rows, c1) == [rows[0]] + rest;
        assert ([rows[0]] + rest)[1..] == rest;
      }
    }
  }

  // ---------------------------------------------------------------------------------------
  // The scheduler

  /** When, in one round of the scheduler, a shutdown signal arrives: not at all, while waiting
      for the backup time, or while the backup runs. */
  datatype Signal = NoSignal | WhileWaiting | DuringBackup

  /** One round of the scheduler: the moment it asks for the next backup time, and the signal. */
  datatype Round = Round(start: Moment, signal: Signal)

  /** How many backups the scheduler starts over the given rounds: one per round, up to and
      including the round whose backup a signal interrupts, and none from the round whose wait
      a signal cuts short. */
  function BackupCount(rounds: seq<Round>): (n: nat)
    ensures n <= |rounds|
  {
    if rounds == [] then 0
    else match rounds[0].signal
      case WhileWaiting => 0
      case DuringBackup => 1
      case NoSignal => 1 + BackupCount(rounds[1..])
  }

  /** Some round brings a shutdown signal. */
  predicate Signalled(rounds: seq<Round>) {
    exists k :: 0 <= k < |rounds| && rounds[k].signal != NoSignal
  }

  /** Without a signal, every round starts its backup. */
  lemma {:induction false} UnsignalledBackups(rounds: seq<Round>)
    requires !Signalled(rounds)
    ensures BackupCount(rounds) == |rounds|
  {
    if rounds != [] {
      assert rounds[0].signal == NoSignal;
      assert !Signalled(rounds[1..]) by {
        forall k | 0 <= k < |rounds[1..]| ensures rounds[1..][k].signal == NoSignal {
          assert rounds[1..][k] == rounds[k + 1];
        }
      }
      UnsignalledBackups(rounds[1..]);
    }
  }

  /** The rounds before the first signal all start their backup; the round of the first signal
      starts its backup exactly when the signal comes during the backup, and no later round
      starts one. */
  lemma {:induction false} FirstSignalStops(rounds: seq<Round>, k: nat)
    requires k < |rounds| && rounds[k].signal != NoSignal
    requires forall j :: 0 <= j < k ==> rounds[j].signal == NoSignal
    ensures BackupCount(rounds) == if rounds[k].signal == DuringBackup then k + 1 else k
  {
    if k > 0 {
      assert rounds[1..][k - 1] == rounds[k];
      forall j | 0 <= j < k - 1 ensures rounds[1..][j].signal == NoSignal {
        assert rounds[1..][j] == rounds[j + 1];
      }
      FirstSignalStops(rounds[1..], k - 1);
    }
  }

  /** One round of the scheduler loop, counted. */
  lemma CountStep(rounds: seq<Round>, i: nat)
    requires i < |rounds|
    ensures BackupCount(rounds[i..]) == match rounds[i].signal
      case WhileWaiting => 0
      case DuringBackup => 1
      case NoSignal => 1 + BackupCount(rounds[i + 1..])
  {
    assert rounds[i..][0] == rounds[i] && rounds[i..][1..] == rounds[i + 1..];
  }

  /** Backups started at their rounds' next backup times, as the scheduler starts them, each
      fall strictly after their round began and at most a day later. */
  lemma BackupsWithinADay(schedule: string, rounds: seq<Round>, backups: seq<Moment>)
    requires |backups| <= |rounds|
    requires forall k :: 0 <= k < |rounds| ==> Valid(rounds[k].start)
    requires forall k :: 0 <= k < |backups| ==> backups[k] == NextBackupTime(schedule, rounds[k].start)
    ensures forall k :: 0 <= k < |backups| ==>
      Ticks(rounds[k].start) < Ticks(backups[k]) <= Ticks(rounds[k].start) + Day
  {
    forall k | 0 <= k < |backups| ensures Ticks(rounds[k].start) < Ticks(backups[k]) <= Ticks(rounds[k].start) + Day {
      NextRunBounds(rounds[k].start, ScheduledFields(schedule));
    }
  }

  /** The next backup time of a schedule, as a function of the moment it is asked for. */
  function NextTimeOf(schedule: string): Moment -> Moment {
    (m: Moment) => NextBackupTime(schedule, m)
  }

  /** The backup manager's run state: its schedule and whether the scheduler is to keep
      running. */
  class BackupManager {
    var schedule: string
    var running: bool

    /** A new manager is not running; its schedule is `BACKUP_SCHEDULE`, or the default. */
    constructor (scheduleSetting: Option<string>)
      ensures schedule == (if scheduleSetting.Some? then scheduleSetting.value else DefaultSchedule)
      ensures !running
    {
      schedule := if scheduleSetting.Some? then scheduleSetting.value else DefaultSchedule;
      running := false;
    }

    /** `signal_handler`: asks the scheduler to stop. */
    method SignalHandler()
      modifies this
      ensures !running && schedule == old(schedule)
    {
      running := false;
    }

    /** `run_scheduled_backup` over the given rounds: it sets `running`, gives up at once (leaving
        the flag set) when the health check fails, and otherwise starts the backup of each round,
        at that round's next backup time, until a signal clears the flag, stopping when the
        rounds run out. */
    method RunScheduledBackup(healthy: bool, rounds: seq<Round>) returns (ok: bool, backups: seq<Moment>)
      modifies this
      ensures schedule == old(schedule)
      ensures ok == healthy
      ensures !healthy ==> running && backups == []
      ensures healthy ==> |backups| == BackupCount(rounds) && (running <==> !Signalled(rounds))
      ensures forall k :: 0 <= k < |backups| ==> backups[k] == NextBackupTime(schedule, rounds[k].start)
    {
      running := true;
      if !healthy {
        return false, [];
      }
      backups := RunRounds(NextTimeOf(schedule), rounds);
      ok := true;
    }

    /** The `while self.running` loop of the scheduler, with `at` giving each round's next
        backup time. */
    method RunRounds(at: Moment -> Moment, rounds: seq<Round>) returns (backups: seq<Moment>)
      requires running
      modifies this
      ensures schedule == old(schedule)
      ensures |backups| == BackupCount(rounds) && (running <==> !Signalled(rounds))
      ensures forall k :: 0 <= k < |backups| ==> backups[k] == at(rounds[k].start)
    {
      backups := [];
      var i := 0;
      while running && i < |rounds|
        invariant 0 <= i <= |rounds| && schedule == old(schedule)
        invariant |backups| <= i
        invariant forall k :: 0 <= k < |backups| ==> backups[k] == at(rounds[k].start)
        invariant running ==> |backups| == i && BackupCount(rounds) == i + BackupCount(rounds[i..])
        invariant running ==> forall k :: 0 <= k < i ==> rounds[k].signal == NoSignal
        invariant !running ==> |backups| == BackupCount(rounds) && Signalled(rounds)
        decreases |rounds| - i, running
      {
        CountStep(rounds, i);
        if rounds[i].signal != NoSignal {
          assert Signalled(rounds);
        }
        var next := at(rounds[i].start);
        if rounds[i].signal == WhileWaiting {
          SignalHandler();
        }
        if !running {
          break;
        }
        backups := backups + [next];
        if rounds[i].signal == DuringBackup {
          SignalHandler();
        }
        i := i + 1;
      }
      if running {
        assert rounds[i..] == [];
      }
    }
  }
}
