/** The weekly backup rotation of the observation database: where backups
    live, how their file names are built and recognised, which one is the
    latest, whether a new one is due, and the create/check flow. The file
    system, the zip writer and the clock are inputs: a directory listing, a
    record of what the file system will answer, and today's date. */
module DatabaseBackup {
  import opened Wrappers
  import opened Text
  import opened Numbers
  import opened Dates

  const BackupDirName := "ObsLogBackup"
  const BackupPrefix := "observations_backup_"
  const BackupSuffix := ".zip"

  /** Position just after the last '/' of `p`, or 0 when there is none. */
  function NameStart(p: string): (k: nat)
    ensures k <= |p| && (k > 0 ==> p[k - 1] == '/')
  {
    if p == [] then 0 else if p[|p| - 1] == '/' then |p| else NameStart(p[..|p| - 1])
  }

  /** A slash-free tail does not move the start of the name. */
  lemma {:induction false} NameStartAppend(a: string, b: string)
    requires '/' !in b
    ensures NameStart(a + b) == NameStart(a)
    decreases |b|
  {
    if b == [] {
      assert a + b == a;
    } else {
      assert (a + b)[..|a + b| - 1] == a + b[..|b| - 1];
      assert b[|b| - 1] in b;
      NameStartAppend(a, b[..|b| - 1]);
    }
  }

  /** QFileInfo::fileName: the text after the last '/'. */
  function FileName(p: string): string {
    p[NameStart(p)..]
  }

  /** QFileInfo::dir().path(): the text before the last '/', "/" for a file
      in the root and "." for a bare file name. */
  function DirOf(p: string): string {
    var k := NameStart(p);
    if k == 0 then "." else if k == 1 then "/" else p[..k - 1]
  }

  /** QDir(dir).filePath(name): an absolute name stands alone; otherwise the
      name is appended after a '/' unless the directory is empty or already
      ends with one. */
  function JoinPath(dir: string, name: string): string {
    if |name| > 0 && name[0] == '/' then name
    else if dir == [] || dir[|dir| - 1] == '/' then dir + name
    else dir + "/" + name
  }

  /** A relative name without '/' is the file name of the joined path, and
      the directory is kept in front of it. */
  lemma FileNameOfJoin(dir: string, name: string)
    requires '/' !in name
    ensures FileName(JoinPath(dir, name)) == name
    ensures |dir| <= |JoinPath(dir, name)| && JoinPath(dir, name)[..|dir|] == dir
  {
    var head := if dir == [] || dir[|dir| - 1] == '/' then dir else dir + "/";
    assert JoinPath(dir, name) == head + name;
    NameStartAppend(head, name);
    if head == [] {
      assert head + name == name;
    } else {
      assert NameStart(head) == |head|;
    }
  }

  /** DatabaseBackup::getBackupDirectory: ObsLogBackup inside the directory
      of the database file. */
  function BackupDirectory(dbPath: string): (r: string)
    ensures FileName(r) == BackupDirName
    ensures |DirOf(dbPath)| <= |r| && r[..|DirOf(dbPath)|] == DirOf(dbPath)
  {
    FileNameOfJoin(DirOf(dbPath), BackupDirName);
    JoinPath(DirOf(dbPath), BackupDirName)
  }

  /** The backup file name for a date text. */
  function BackupFileName(dateText: string): string {
    BackupPrefix + dateText + BackupSuffix
  }

  /** The match of ^observations_backup_(\d{4}-\d{2}-\d{2})\.zip$ against a
      file name, with its captured date text. */
  function MatchBackupName(name: string): Option<string> {
    if |name| == 34 && name[..20] == BackupPrefix && name[30..] == BackupSuffix &&
       IsDatePattern(name[20..30])
    then Some(name[20..30])
    else None
  }

  /** The recognised names are exactly the names built from a date text of
      the right shape, and the capture gives that text back. */
  lemma MatchBackupNameIff(name: string, dateText: string)
    ensures MatchBackupName(name) == Some(dateText) <==>
            IsDatePattern(dateText) && name == BackupFileName(dateText)
  {
    if IsDatePattern(dateText) && name == BackupFileName(dateText) {
      assert name[..20] == BackupPrefix && name[20..30] == dateText && name[30..] == BackupSuffix;
    }
    if MatchBackupName(name) == Some(dateText) {
      assert name == name[..20] + name[20..30] + name[30..];
    }
  }

  /** The names a directory listing holds: plain file names, distinct and in
      descending name order (QDir::Name | QDir::Reversed). */
  predicate IsListing(names: seq<string>) {
    (forall i :: 0 <= i < |names| ==> '/' !in names[i]) &&
    (forall i, j :: 0 <= i < j < |names| ==> LexLess(names[j], names[i]))
  }

  /** The listed names the backup pattern recognises, in listing order. */
  function Matches(names: seq<string>): (r: seq<string>)
    ensures forall x :: x in r <==> x in names && MatchBackupName(x).Some?
  {
    if names == [] then []
    else
      var init := Matches(names[..|names| - 1]);
      assert names == names[..|names| - 1] + [names[|names| - 1]];
      if MatchBackupName(names[|names| - 1]).Some? then init + [names[|names| - 1]] else init
  }

  /** Keeping some of a descending list keeps it descending. */
  lemma {:induction false} MatchesDescending(names: seq<string>)
    requires IsListing(names)
    ensures IsListing(Matches(names))
  {
    if names != [] {
      var init := names[..|names| - 1];
      var last := names[|names| - 1];
      assert IsListing(init);
      MatchesDescending(init);
      forall x | x in Matches(init) ensures LexLess(last, x) {
        var i :| 0 <= i < |init| && init[i] == x;
        assert names[i] == x;
      }
    }
  }

  /** What DatabaseBackup::getLatestBackupPath returns, for a listing of the
      directory or None when it does not exist. */
  function LatestBackupPath(backupDir: string, listing: Option<seq<string>>): string {
    if listing.None? || Matches(listing.value) == [] then ""
    else JoinPath(backupDir, Matches(listing.value)[0])
  }

  /** DatabaseBackup::getLatestBackupPath: collect the full paths of the
      recognised names in listing order and return the first, or "". */
  method GetLatestBackupPath(backupDir: string, listing: Option<seq<string>>) returns (r: string)
    ensures r == LatestBackupPath(backupDir, listing)
  {
    if listing.None? {
      return "";
    }
    var files := listing.value;
    var backups: seq<string> := [];
    var i := 0;
    while i < |files|
      invariant 0 <= i <= |files|
      invariant |backups| == |Matches(files[..i])|
      invariant forall k :: 0 <= k < |backups| ==> backups[k] == JoinPath(backupDir, Matches(files[..i])[k])
    {
      assert files[..i + 1][..i] == files[..i];
      if MatchBackupName(files[i]).Some? {
        backups := backups + [JoinPath(backupDir, files[i])];
      }
      i := i + 1;
    }
    assert files[..|files|] == files;
    if backups == [] {
      return "";
    }
    return backups[0];
  }

  /** The latest backup path is empty exactly when the directory is missing
      or none of its files is recognised. */
  lemma LatestEmptyIff(backupDir: string, listing: Option<seq<string>>)
    ensures LatestBackupPath(backupDir, listing) == "" <==>
            listing.None? || forall x :: x in listing.value ==> MatchBackupName(x).None?
  {
    if listing.Some? && Matches(listing.value) != [] {
      var n := Matches(listing.value)[0];
      assert n in Matches(listing.value);
      assert |n| == 34;
      if |n| > 0 && n[0] == '/' {
      } else if backupDir == [] || backupDir[|backupDir| - 1] == '/' {
        assert |backupDir + n| >= 34;
      } else {
        assert |backupDir + "/" + n| >= 34;
      }
    }
  }

  /** The date fields a recognised backup name carries. */
  function CapturedDate(name: string): Date
    requires MatchBackupName(name).Some?
  {
    DateFields(MatchBackupName(name).value)
  }

  /** Two recognised names sort as text in calendar order of their dates. */
  lemma BackupNameOrder(a: string, b: string)
    requires MatchBackupName(a).Some? && MatchBackupName(b).Some?
    ensures LexLess(a, b) <==> Before(CapturedDate(a), CapturedDate(b))
  {
    var ta, tb := MatchBackupName(a).value, MatchBackupName(b).value;
    MatchBackupNameIff(a, ta);
    MatchBackupNameIff(b, tb);
    assert a == BackupPrefix + (ta + BackupSuffix);
    assert b == BackupPrefix + (tb + BackupSuffix);
    LexLessCommonPrefix(BackupPrefix, ta + BackupSuffix, tb + BackupSuffix);
    LexLessEqualLengthHeads(ta, tb, BackupSuffix, BackupSuffix);
    LexLessIrreflexive(BackupSuffix);
    DatePatternOrder(ta, tb);
  }

  /** The latest backup is a recognised file of the listing, and every other
      recognised file carries an earlier date: the first match in reverse
      name order is the newest. */
  lemma LatestIsNewest(backupDir: string, names: seq<string>)
    requires IsListing(names) && Matches(names) != []
    ensures var n := Matches(names)[0];
            n in names && MatchBackupName(n).Some? &&
            LatestBackupPath(backupDir, Some(names)) == JoinPath(backupDir, n) &&
            FileName(LatestBackupPath(backupDir, Some(names))) == n &&
            forall x :: x in names && MatchBackupName(x).Some? && x != n ==>
              Before(CapturedDate(x), CapturedDate(n))
  {
    var ms := Matches(names);
    var n := ms[0];
    assert n in ms;
    MatchesDescending(names);
    FileNameOfJoin(backupDir, n);
    forall x | x in names && MatchBackupName(x).Some? && x != n
      ensures Before(CapturedDate(x), CapturedDate(n))
    {
      assert x in ms;
      var j :| 0 <= j < |ms| && ms[j] == x;
      assert j != 0;
      assert LexLess(x, n);
      BackupNameOrder(x, n);
    }
  }

  /** The date of the latest backup, when its name is recognised and holds a
      valid date. */
  function BackupDate(latestBackupPath: string): Option<Date> {
    match MatchBackupName(FileName(latestBackupPath))
    case None => None
    case Some(t) => ParseIsoDate(t)
  }

  /** DatabaseBackup::isBackupNeeded on the day `today`. */
  function IsBackupNeeded(latestBackupPath: string, today: Date): bool
    requires IsValidDate(today)
  {
    if latestBackupPath == [] then true
    else
      match BackupDate(latestBackupPath)
      case None => true
      case Some(b) => DaysTo(b, today) >= 7
  }

  /** The day `n` days after `d`. */
  function AddDays(d: Date, n: nat): (r: Date)
    requires IsValidDate(d)
    ensures IsValidDate(r)
  {
    if n == 0 then d else NextDay(AddDays(d, n - 1))
  }

  lemma {:induction false} AddDaysNumber(d: Date, n: nat)
    requires IsValidDate(d)
    ensures DayNumber(AddDays(d, n)) == DayNumber(d) + n
  {
    if n > 0 {
      AddDaysNumber(d, n - 1);
      NextDayNumber(AddDays(d, n - 1));
    }
  }

  /** With no path, an unrecognised name or an invalid date a backup is
      due; otherwise it is due exactly when today is not before the day a
      week after the backup. */
  lemma BackupNeededIff(latestBackupPath: string, today: Date)
    requires IsValidDate(today)
    ensures IsBackupNeeded(latestBackupPath, today) <==>
            latestBackupPath == [] || BackupDate(latestBackupPath).None? ||
            !Before(today, AddDays(BackupDate(latestBackupPath).value, 7))
  {
    if latestBackupPath != [] && BackupDate(latestBackupPath).Some? {
      var b := BackupDate(latestBackupPath).value;
      AddDaysNumber(b, 7);
      DayNumberOrder(today, AddDays(b, 7));
    }
  }

  /** A backup dated today or later never makes another one due. */
  lemma RecentBackupNotNeeded(latestBackupPath: string, today: Date)
    requires IsValidDate(today) && latestBackupPath != []
    requires BackupDate(latestBackupPath).Some? && !Before(BackupDate(latestBackupPath).value, today)
    ensures !IsBackupNeeded(latestBackupPath, today)
  {
    DayNumberOrder(BackupDate(latestBackupPath).value, today);
  }

  /** The name written for today is recognised, captures today's date, and
      makes a backup not due again on the same day. */
  lemma TodaysBackupRoundTrip(backupDir: string, today: Date)
    requires IsValidDate(today) && today.year <= 9999
    ensures MatchBackupName(BackupFileName(FormatDate(today))) == Some(FormatDate(today))
    ensures BackupDate(JoinPath(backupDir, BackupFileName(FormatDate(today)))) == Some(today)
    ensures !IsBackupNeeded(JoinPath(backupDir, BackupFileName(FormatDate(today))), today)
  {
    var t := FormatDate(today);
    var name := BackupFileName(t);
    ParseFormatDate(today);
    MatchBackupNameIff(name, t);
    assert '/' !in name by {
      assert forall i :: 0 <= i < |name| ==> name[i] != '/' by {
        forall i | 0 <= i < |name| ensures name[i] != '/' {
          if 20 <= i < 30 {
            assert name[i] == t[i - 20];
            assert i - 20 < 4 || i - 20 == 4 || 5 <= i - 20 < 7 || i - 20 == 7 || 8 <= i - 20;
            if i - 20 < 4 { assert t[i - 20] == t[..4][i - 20]; }
            else if 5 <= i - 20 < 7 { assert t[i - 20] == t[5..7][i - 25]; }
            else if 8 <= i - 20 { assert t[i - 20] == t[8..][i - 28]; }
          }
        }
      }
    }
    FileNameOfJoin(backupDir, name);
    DayNumberOrder(today, today);
  }

  /** What the file system will answer while a backup is made. */
  datatype FileSystem = FileSystem(
    databaseExists: bool,
    backupDirExists: bool,
    mkpathSucceeds: bool,
    zipError: Option<string>)   // the message createZipBackup reports, None on success

  /** Observable effects, in order. */
  datatype Effect =
    | MakeDirectory(path: string)
    | WriteArchive(path: string)
    | BackupCreated(path: string)
    | BackupCheckCompleted(backupCreated: bool)

  /** The boolean result, the errorMessage out-parameter and the effects. */
  datatype Outcome = Outcome(ok: bool, errorMessage: string, effects: seq<Effect>)

  /** DatabaseBackup::createBackup on the day `today`; `errorMessage` is the
      out-parameter's value on entry. */
  function CreateBackup(dbPath: string, fs: FileSystem, today: Date, errorMessage: string): (o: Outcome)
    requires IsValidDate(today)
    ensures !fs.databaseExists ==>
              o == Outcome(false, "Database file does not exist", [])
    ensures o.ok <==> fs.databaseExists && (fs.backupDirExists || fs.mkpathSucceeds) && fs.zipError.None?
    ensures o.ok ==>
              o.errorMessage == errorMessage && |o.effects| > 0 &&
              o.effects[|o.effects| - 1] ==
                BackupCreated(JoinPath(BackupDirectory(dbPath), BackupFileName(FormatDate(today))))
    ensures !o.ok ==> forall e :: e in o.effects ==> !e.BackupCreated? && !e.WriteArchive?
  {
    if !fs.databaseExists then Outcome(false, "Database file does not exist", [])
    else
      var dir := BackupDirectory(dbPath);
      if !fs.backupDirExists && !fs.mkpathSucceeds then
        Outcome(false, "Failed to create backup directory: " + dir, [])
      else
        var made := if fs.backupDirExists then [] else [MakeDirectory(dir)];
        var path := JoinPath(dir, BackupFileName(FormatDate(today)));
        match fs.zipError
        case Some(e) => Outcome(false, e, made)
        case None => Outcome(true, errorMessage, made + [WriteArchive(path), BackupCreated(path)])
  }

  /** DatabaseBackup::checkAndBackupIfNeeded: look up the latest backup in
      the listing of the backup directory, and create one only when it is
      due. */
  method CheckAndBackupIfNeeded(dbPath: string, listing: Option<seq<string>>, fs: FileSystem,
                                today: Date, errorMessage: string) returns (o: Outcome)
    requires IsValidDate(today)
    ensures var latest := LatestBackupPath(BackupDirectory(dbPath), listing);
            if IsBackupNeeded(latest, today) then
              var c := CreateBackup(dbPath, fs, today, errorMessage);
              o == Outcome(c.ok, c.errorMessage, c.effects + [BackupCheckCompleted(c.ok)])
            else
              o == Outcome(true, errorMessage, [BackupCheckCompleted(false)])
  {
    var backupDir := BackupDirectory(dbPath);
    var latest := GetLatestBackupPath(backupDir, listing);
    if IsBackupNeeded(latest, today) {
      var c := CreateBackup(dbPath, fs, today, errorMessage);
      if !c.ok {
        return Outcome(false, c.errorMessage, c.effects + [BackupCheckCompleted(false)]);
      }
      return Outcome(true, c.errorMessage, c.effects + [BackupCheckCompleted(true)]);
    }
    return Outcome(true, errorMessage, [BackupCheckCompleted(false)]);
  }

  /** Once today's backup is in the directory, and every recognised name
      there holds a valid date, the check creates nothing more that day. */
  lemma NoSecondBackupSameDay(dbPath: string, names: seq<string>, today: Date)
    requires IsValidDate(today) && today.year <= 9999 && IsListing(names)
    requires BackupFileName(FormatDate(today)) in names
    requires forall x :: x in names && MatchBackupName(x).Some? ==> IsValidDate(CapturedDate(x))
    ensures !IsBackupNeeded(LatestBackupPath(BackupDirectory(dbPath), Some(names)), today)
  {
    var dir := BackupDirectory(dbPath);
    var mine := BackupFileName(FormatDate(today));
    TodaysBackupRoundTrip(dir, today);
    assert mine in Matches(names);
    LatestIsNewest(dir, names);
    var n := Matches(names)[0];
    var latest := LatestBackupPath(dir, Some(names));
    assert FileName(latest) == n;
    assert BackupDate(latest) == Some(CapturedDate(n));
    assert CapturedDate(mine) == today;
    assert !Before(CapturedDate(n), today) by {
      if n != mine {
        assert Before(today, CapturedDate(n));
      }
    }
    assert |latest| >= |n|;
    RecentBackupNotNeeded(latest, today);
  }
}
