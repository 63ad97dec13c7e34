/**
 * The web server's log handlers: the live log file `logs\context_menu.log`,
 * its timestamped backups in `logs\backups\*.bak`, and the get, list,
 * clear, restore and delete operations on them. The file system is a map
 * from resolved locations to file contents.
 */
module LogStore {
  import opened Results
  import opened Paths

  /** A resolved location on disk: the drive followed by the directory names. */
  type Location = seq<string>

  // ---------------------------------------------------------------- lines

  /** The characters at which Python's `str.splitlines` ends a line. */
  predicate IsLineBreak(c: char) {
    var n := c as int;
    n == 10 || n == 11 || n == 12 || n == 13 || n == 28 || n == 29 || n == 30
    || n == 0x85 || n == 0x2028 || n == 0x2029
  }

  predicate NoBreak(s: string) {
    forall i :: 0 <= i < |s| ==> !IsLineBreak(s[i])
  }

  /** The index of the first line break, or the length when there is none. */
  function BreakAt(s: string): (n: nat)
    ensures n <= |s|
    ensures NoBreak(s[..n])
    ensures n < |s| ==> IsLineBreak(s[n])
  {
    if s == [] then 0
    else if IsLineBreak(s[0]) then 0
    else
      var m := BreakAt(s[1..]);
      assert s[..1 + m] == [s[0]] + s[1..][..m];
      1 + m
  }

  /** `str.splitlines()`: "\r\n" ends one line, and a final line break adds no empty line. */
  function SplitLines(s: string): (lines: seq<string>)
    ensures forall i :: 0 <= i < |lines| ==> NoBreak(lines[i])
    ensures |lines| <= |s|
    ensures s != [] <==> lines != []
    decreases |s|
  {
    if s == [] then []
    else
      var n := BreakAt(s);
      if n == |s| then [s]
      else
        var width := if s[n] == '\r' && n + 1 < |s| && s[n + 1] == '\n' then 2 else 1;
        [s[..n]] + SplitLines(s[n + width..])
  }

  /** Text written line by line, each line ended by "\n", as the logger writes it. */
  function Joined(lines: seq<string>): string
    decreases |lines|
  {
    if lines == [] then "" else lines[0] + "\n" + Joined(lines[1..])
  }

  lemma {:induction false} BreakAtLine(a: string, rest: string)
    requires NoBreak(a)
    ensures BreakAt(a + "\n" + rest) == |a|
    decreases |a|
  {
    if a != [] {
      assert (a + "\n" + rest)[1..] == a[1..] + "\n" + rest;
      BreakAtLine(a[1..], rest);
    }
  }

  /** Splitting text written line by line gives the lines back. */
  lemma {:induction false} SplitJoined(lines: seq<string>)
    requires forall i :: 0 <= i < |lines| ==> NoBreak(lines[i])
    ensures SplitLines(Joined(lines)) == lines
    decreases |lines|
  {
    if lines != [] {
      var s := Joined(lines);
      BreakAtLine(lines[0], Joined(lines[1..]));
      assert s[..|lines[0]|] == lines[0];
      assert s[|lines[0]|] == '\n';
      assert s[|lines[0]| + 1..] == Joined(lines[1..]);
      SplitJoined(lines[1..]);
      assert lines == [lines[0]] + lines[1..];
    }
  }

  lemma {:induction false} JoinedConcat(a: seq<string>, b: seq<string>)
    ensures Joined(a + b) == Joined(a) + Joined(b)
    decreases |a|
  {
    if a != [] {
      assert (a + b)[0] == a[0] && (a + b)[1..] == a[1..] + b;
      JoinedConcat(a[1..], b);
      assert Joined(a + b) == a[0] + "\n" + Joined(a[1..] + b);
      assert Joined(a) + Joined(b) == a[0] + "\n" + (Joined(a[1..]) + Joined(b));
    } else {
      assert a + b == b;
    }
  }

  /** Appending one line-by-line text to another concatenates their lines. */
  lemma AppendedLines(a: seq<string>, b: seq<string>)
    requires forall i :: 0 <= i < |a| ==> NoBreak(a[i])
    requires forall i :: 0 <= i < |b| ==> NoBreak(b[i])
    ensures SplitLines(Joined(a) + Joined(b)) == a + b
  {
    JoinedConcat(a, b);
    SplitJoined(a + b);
  }

  /** `lines[-10:]` */
  function LastTen(lines: seq<string>): (r: seq<string>)
    ensures |r| == if |lines| < 10 then |lines| else 10
    ensures lines == lines[..|lines| - |r|] + r
  {
    if |lines| < 10 then lines else lines[|lines| - 10..]
  }

  // ---------------------------------------------------------------- names and order

  /** Python's `a < b` on strings: code point by code point, a proper prefix first. */
  predicate Below(a: string, b: string)
    decreases |a|
  {
    if a == [] then b != []
    else b != [] && (a[0] < b[0] || (a[0] == b[0] && Below(a[1..], b[1..])))
  }

  lemma {:induction false} BelowIrreflexive(a: string)
    ensures !Below(a, a)
    decreases |a|
  {
    if a != [] {
      BelowIrreflexive(a[1..]);
    }
  }

  lemma {:induction false} BelowTransitive(a: string, b: string, c: string)
    requires Below(a, b) && Below(b, c)
    ensures Below(a, c)
    decreases |a|
  {
    if a != [] && a[0] == b[0] && b[0] == c[0] {
      BelowTransitive(a[1..], b[1..], c[1..]);
    }
  }

  lemma {:induction false} BelowTotal(a: string, b: string)
    requires a != b
    ensures Below(a, b) || Below(b, a)
    decreases |a|
  {
    if a != [] && b != [] && a[0] == b[0] {
      assert a == [a[0]] + a[1..] && b == [b[0]] + b[1..];
      BelowTotal(a[1..], b[1..]);
    }
  }

  /** Strictly descending, as `sorted(..., reverse=True)` orders distinct names. */
  predicate Descending(s: seq<string>) {
    forall i, j :: 0 <= i < j < |s| ==> Below(s[j], s[i])
  }

  /** Insert a new name into a descending sequence. */
  function InsertDescending(s: seq<string>, x: string): (r: seq<string>)
    ensures |r| == |s| + 1
    decreases |s|
  {
    if s == [] || Below(s[0], x) then [x] + s
    else [s[0]] + InsertDescending(s[1..], x)
  }

  /** Inserting keeps the order and adds exactly the new name. */
  lemma {:induction false} InsertDescendingSorted(s: seq<string>, x: string)
    requires Descending(s) && x !in s
    ensures Descending(InsertDescending(s, x))
    ensures multiset(InsertDescending(s, x)) == multiset(s) + multiset{x}
    decreases |s|
  {
    var r := InsertDescending(s, x);
    if s == [] {
    } else if Below(s[0], x) {
      forall j | 0 < j < |s| ensures Below(s[j], x) {
        BelowTransitive(s[j], s[0], x);
      }
      assert forall j :: 0 < j < |r| ==> r[j] == s[j - 1];
    } else {
      BelowTotal(x, s[0]);
      var tail := InsertDescending(s[1..], x);
      InsertDescendingSorted(s[1..], x);
      assert s == [s[0]] + s[1..];
      forall j | 0 <= j < |tail| ensures Below(tail[j], s[0]) {
        assert tail[j] in multiset(tail);
        if tail[j] != x {
          assert tail[j] in multiset(s[1..]);
          var k :| 0 <= k < |s[1..]| && s[1..][k] == tail[j];
          assert s[k + 1] == tail[j];
        }
      }
      assert r == [s[0]] + tail;
    }
  }

  lemma InsertedElements(before: seq<string>, x: string, after: seq<string>)
    requires multiset(after) == multiset(before) + multiset{x}
    ensures (set n | n in after) == (set n | n in before) + {x}
  {
    assert forall y :: y in after <==> y in multiset(after);
    assert forall y :: y in before <==> y in multiset(before);
  }

  /** `glob("*.bak")` matches a name ending in ".bak". */
  predicate IsBackupName(name: string) {
    |name| >= 4 && name[|name| - 4..] == ".bak"
  }

  /** A name that stays one entry of the directory it is joined to: no separator, no drive or stream colon, not "." or "..". */
  predicate IsPlainName(name: string) {
    Kept(name) && name != ".." && NoSep(name) && forall i :: 0 <= i < |name| ==> name[i] != ':'
  }

  // ---------------------------------------------------------------- locations

  const LogName: string := "context_menu.log"
  const BackupsName: string := "backups"

  /** `_LOG_FILE = _APP_DIR / "logs" / "context_menu.log"` */
  function LogPath(logs: PurePath): PurePath {
    Child(logs, LogName)
  }

  /** `_LOG_BACKUP_DIR = _APP_DIR / "logs" / "backups"` */
  function BackupDir(logs: PurePath): PurePath {
    Child(logs, BackupsName)
  }

  function LogLocation(logs: PurePath): Location {
    Resolve(LogPath(logs))
  }

  function BackupsLocation(logs: PurePath): Location {
    Resolve(BackupDir(logs))
  }

  /** The name of the backup `clear_logs` makes at a time stamp "%Y-%m-%d_%H-%M-%S". */
  function StampedName(stamp: string): (name: string)
    ensures IsBackupName(name)
  {
    "context_menu_" + stamp + ".log.bak"
  }

  /** A time stamp as `strftime` prints it holds neither separators nor colons. */
  predicate IsStamp(stamp: string) {
    NoSep(stamp) && forall i :: 0 <= i < |stamp| ==> stamp[i] != ':'
  }

  lemma StampedNamePlain(stamp: string)
    requires IsStamp(stamp)
    ensures IsPlainName(StampedName(stamp))
  {
    var name := StampedName(stamp);
    forall i | 0 <= i < |name|
      ensures !IsSep(name[i]) && name[i] != ':'
    {
      if 13 <= i < 13 + |stamp| {
        assert name[i] == stamp[i - 13];
      }
    }
  }

  lemma ChildLocation(logs: PurePath, name: string)
    requires Plain(logs) && name != ".."
    ensures Resolve(Child(logs, name)) == [logs.drive] + logs.parts + [name]
  {
    CollapsePlain(logs.parts);
    CollapseSnoc(logs.parts, name);
  }

  lemma BackupLocation(logs: PurePath, name: string)
    requires Plain(logs) && name != ".."
    ensures Resolve(Child(BackupDir(logs), name)) == [logs.drive] + logs.parts + [BackupsName, name]
    ensures BackupsLocation(logs) == [logs.drive] + logs.parts + [BackupsName]
  {
    CollapsePlain(logs.parts + [BackupsName]);
    CollapseSnoc(logs.parts + [BackupsName], name);
    assert logs.parts + [BackupsName] + [name] == logs.parts + [BackupsName, name];
  }

  /** A backup never sits where the live log is. */
  lemma BackupIsNotLog(logs: PurePath, name: string)
    requires Plain(logs) && name != ".."
    ensures Resolve(Child(BackupDir(logs), name)) != LogLocation(logs)
  {
    BackupLocation(logs, name);
    ChildLocation(logs, LogName);
  }

  // ---------------------------------------------------------------- reading

  /** The live log's lines: none when the file does not exist. */
  function LogLines(logs: PurePath, files: map<Location, string>): seq<string> {
    var at := LogLocation(logs);
    if at in files then SplitLines(files[at]) else []
  }

  /** The names of the files `glob("*.bak")` finds in the backup directory. */
  function BackupNames(logs: PurePath, files: map<Location, string>): set<string> {
    var dir := BackupsLocation(logs);
    set k | k in files && |k| == |dir| + 1 && k[..|dir|] == dir && IsBackupName(k[|dir|]) :: k[|dir|]
  }

  lemma BackupNamesIff(logs: PurePath, files: map<Location, string>, n: string)
    ensures n in BackupNames(logs, files) <==> IsBackupName(n) && BackupsLocation(logs) + [n] in files
  {
    var dir := BackupsLocation(logs);
    var k := dir + [n];
    assert k[..|dir|] == dir && k[|dir|] == n;
    if n in BackupNames(logs, files) {
      var k' :| k' in files && |k'| == |dir| + 1 && k'[..|dir|] == dir && IsBackupName(k'[|dir|]) && k'[|dir|] == n;
      assert k' == k;
    }
  }

  /** The lines a backup holds. */
  function BackupLineCount(logs: PurePath, files: map<Location, string>, name: string): nat {
    var at := BackupsLocation(logs) + [name];
    if at in files then |SplitLines(files[at])| else 0
  }

  /** `GET /api/logs`: the last ten lines, the number of lines and the number of backups. */
  datatype LogsView = LogsView(lines: seq<string>, total: nat, backupCount: nat)

  function GetLogs(logs: PurePath, files: map<Location, string>): (v: LogsView)
    ensures v.total == |LogLines(logs, files)|
    ensures |v.lines| == if v.total < 10 then v.total else 10
    ensures v.lines == LogLines(logs, files)[v.total - |v.lines|..]
    ensures v.backupCount == |BackupNames(logs, files)|
  {
    var lines := LogLines(logs, files);
    LogsView(LastTen(lines), |lines|, |BackupNames(logs, files)|)
  }

  /** One row of `GET /api/logs/backups`. */
  datatype BackupInfo = BackupInfo(filename: string, lines: nat)

  // ---------------------------------------------------------------- changing

  /**
   * The error replies of the log handlers. `HeldOpen` is the `except` branch
   * taken when `unlink` fails because the file is the live log, which the
   * logger's file handler keeps open; Windows refuses to remove an open file.
   */
  datatype LogError = NoFilename | BackupNotFound | HeldOpen

  function StatusCode(e: LogError): int {
    match e
    case NoFilename => 400
    case BackupNotFound => 404
    case HeldOpen => 400
  }

  datatype Reply = Ok | Err(error: LogError)

  /** A handler's reply and the files afterwards. */
  datatype Change = Change(reply: Reply, files: map<Location, string>)

  /** `clear_logs`: a non-empty live log is copied to a stamped backup and then emptied. */
  function Cleared(logs: PurePath, files: map<Location, string>, stamp: string): map<Location, string> {
    var at := LogLocation(logs);
    if at in files && files[at] != [] then
      files[Resolve(Child(BackupDir(logs), StampedName(stamp))) := files[at]][at := ""]
    else files
  }

  /**
   * Which requested backup names the restore and delete handlers accept:
   * `Lexical` is the test the server applies (the joined path exists and its
   * text starts with the backup directory's text), `PlainName` accepts only
   * an existing file named directly inside the backup directory.
   */
  datatype Guard = Lexical | PlainName

  predicate StartsWith(s: string, prefix: string) {
    |prefix| <= |s| && s[..|prefix|] == prefix
  }

  /** `_LOG_BACKUP_DIR / filename`, where the handler reads or deletes. */
  function Target(logs: PurePath, filename: string): Location {
    Resolve(Join(BackupDir(logs), filename))
  }

  predicate Admitted(logs: PurePath, files: map<Location, string>, filename: string, guard: Guard) {
    match guard
    case Lexical =>
      Target(logs, filename) in files && StartsWith(Str(Join(BackupDir(logs), filename)), Str(BackupDir(logs)))
    case PlainName =>
      IsPlainName(filename) && Target(logs, filename) in files
  }

  /**
   * `restore_logs`: the backup's text is appended to the live log (created if
   * absent), then the backup is removed; removing the live log itself fails
   * after the append.
   */
  function Restored(logs: PurePath, files: map<Location, string>, filename: string, guard: Guard): Change {
    if filename == [] then Change(Err(NoFilename), files)
    else if !Admitted(logs, files, filename, guard) then Change(Err(BackupNotFound), files)
    else
      var from := Target(logs, filename);
      var at := LogLocation(logs);
      var appended := files[at := (if at in files then files[at] else "") + files[from]];
      if from == at then Change(Err(HeldOpen), appended)
      else Change(Ok, appended - {from})
  }

  /** `delete_backup`: the backup is removed; removing the live log itself fails. */
  function DeletedBackup(logs: PurePath, files: map<Location, string>, filename: string, guard: Guard): Change {
    if !Admitted(logs, files, filename, guard) then Change(Err(BackupNotFound), files)
    else if Target(logs, filename) == LogLocation(logs) then Change(Err(HeldOpen), files)
    else Change(Ok, files - {Target(logs, filename)})
  }

  // ---------------------------------------------------------------- properties

  /** The corrected guard accepts only files directly inside the backup directory, never the live log. */
  lemma PlainNameStaysInBackups(logs: PurePath, files: map<Location, string>, filename: string)
    requires Plain(logs) && Admitted(logs, files, filename, PlainName)
    ensures Target(logs, filename) == BackupsLocation(logs) + [filename]
    ensures Target(logs, filename) != LogLocation(logs)
  {
    ParsePlain(filename);
    assert Join(BackupDir(logs), filename) == Child(BackupDir(logs), filename);
    BackupLocation(logs, filename);
    BackupIsNotLog(logs, filename);
  }

  /** The corrected guard only rejects more: every name it accepts the server's test accepts too. */
  lemma PlainNameIsStricter(logs: PurePath, files: map<Location, string>, filename: string)
    requires Plain(logs) && Admitted(logs, files, filename, PlainName)
    ensures Admitted(logs, files, filename, Lexical)
  {
    ParsePlain(filename);
    JoinRelativeStr(BackupDir(logs), filename);
  }

  /** `backups\..\<name>` prints with the backup directory as its prefix. */
  lemma ClimbingNameText(logs: PurePath, name: string)
    requires Plain(logs) && IsPlainName(name)
    ensures StartsWith(Str(Join(BackupDir(logs), "..\\" + name)), Str(BackupDir(logs)))
    ensures Join(BackupDir(logs), "..\\" + name).parts == logs.parts + [BackupsName, "..", name]
  {
    var climb := "..\\" + name;
    assert climb == ".." + ['\\'] + name;
    ParseTwo("..", name, '\\');
    JoinRelativeStr(BackupDir(logs), climb);
  }

  /** `backups\..\<name>` resolves to `<name>` in the log directory, beside the backup directory. */
  lemma ClimbingNameTarget(logs: PurePath, name: string)
    requires Plain(logs) && IsPlainName(name)
    ensures Target(logs, "..\\" + name) == Resolve(Child(logs, name)) == [logs.drive] + logs.parts + [name]
  {
    ClimbingNameText(logs, name);
    var dir := logs.parts + [BackupsName];
    assert Join(BackupDir(logs), "..\\" + name).parts == dir + ["..", name];
    CollapsePlain(dir);
    CollapseSnoc(dir, "..");
    assert dir + [".."] + [name] == dir + ["..", name];
    CollapseSnoc(dir + [".."], name);
    assert Collapse(dir + ["..", name]) == logs.parts + [name];
    ChildLocation(logs, name);
  }

  /**
   * The server's test admits `..\context_menu.log`, which resolves to the
   * live log. Deleting it fails with 400 and changes nothing, as the log is
   * held open; restoring it first appends the log to itself and then fails
   * the same way.
   */
  lemma LexicalAdmitsLiveLog(logs: PurePath, files: map<Location, string>)
    requires Plain(logs) && LogLocation(logs) in files
    ensures Admitted(logs, files, "..\\" + LogName, Lexical)
    ensures Target(logs, "..\\" + LogName) == LogLocation(logs)
    ensures DeletedBackup(logs, files, "..\\" + LogName, Lexical) == Change(Err(HeldOpen), files)
    ensures Restored(logs, files, "..\\" + LogName, Lexical)
         == Change(Err(HeldOpen), files[LogLocation(logs) := files[LogLocation(logs)] + files[LogLocation(logs)]])
  {
    assert IsPlainName(LogName);
    ClimbingNameText(logs, LogName);
    ClimbingNameTarget(logs, LogName);
  }

  /**
   * The server's test also admits `..\<name>` for any other file in the log
   * directory, which is no backup and which nothing holds open. Deleting it
   * removes that file and leaves the backups as they were; restoring it
   * appends it to the live log and removes it.
   */
  lemma LexicalRemovesSibling(logs: PurePath, files: map<Location, string>, name: string)
    requires Plain(logs) && IsPlainName(name) && name != LogName && Resolve(Child(logs, name)) in files
    ensures Admitted(logs, files, "..\\" + name, Lexical)
    ensures Target(logs, "..\\" + name) == [logs.drive] + logs.parts + [name] != LogLocation(logs)
    ensures DeletedBackup(logs, files, "..\\" + name, Lexical) == Change(Ok, files - {Resolve(Child(logs, name))})
    ensures BackupNames(logs, DeletedBackup(logs, files, "..\\" + name, Lexical).files) == BackupNames(logs, files)
    ensures Restored(logs, files, "..\\" + name, Lexical)
         == Change(Ok, files[LogLocation(logs) := (if LogLocation(logs) in files then files[LogLocation(logs)] else "") + files[Resolve(Child(logs, name))]]
                        - {Resolve(Child(logs, name))})
  {
    var sibling := Resolve(Child(logs, name));
    ClimbingNameText(logs, name);
    ClimbingNameTarget(logs, name);
    ChildLocation(logs, LogName);
    assert sibling[|sibling| - 1] == name;
    BackupLocation(logs, name);
    var dir := BackupsLocation(logs);
    assert |sibling| < |dir| + 1;
    var after := DeletedBackup(logs, files, "..\\" + name, Lexical).files;
    assert after == files - {sibling};
    forall n ensures n in BackupNames(logs, after) <==> n in BackupNames(logs, files) {
      BackupNamesIff(logs, after, n);
      BackupNamesIff(logs, files, n);
    }
  }

  /** Restoring a line-by-line backup onto a line-by-line log keeps the log's lines and adds the backup's after them. */
  lemma RestoreAppendsLines(logs: PurePath, files: map<Location, string>, filename: string, log: seq<string>, backup: seq<string>)
    requires Plain(logs) && filename != [] && Admitted(logs, files, filename, PlainName)
    requires forall i :: 0 <= i < |log| ==> NoBreak(log[i])
    requires forall i :: 0 <= i < |backup| ==> NoBreak(backup[i])
    requires (LogLocation(logs) in files ==> files[LogLocation(logs)] == Joined(log)) && (LogLocation(logs) !in files ==> log == [])
    requires files[Target(logs, filename)] == Joined(backup)
    ensures Restored(logs, files, filename, PlainName).reply == Ok
    ensures LogLines(logs, Restored(logs, files, filename, PlainName).files) == log + backup
    ensures Target(logs, filename) !in Restored(logs, files, filename, PlainName).files
  {
    PlainNameStaysInBackups(logs, files, filename);
    var from, at := Target(logs, filename), LogLocation(logs);
    var before := if at in files then files[at] else "";
    assert before == Joined(log);
    var after := Restored(logs, files, filename, PlainName).files;
    assert after == files[at := before + files[from]] - {from};
    assert at in after && after[at] == Joined(log) + Joined(backup);
    AppendedLines(log, backup);
  }

  /** Restoring a backup leaves every other file alone. */
  lemma RestoreFrame(logs: PurePath, files: map<Location, string>, filename: string, guard: Guard, other: Location)
    requires other != LogLocation(logs) && other != Target(logs, filename)
    ensures other in Restored(logs, files, filename, guard).files <==> other in files
    ensures other in files ==> Restored(logs, files, filename, guard).files[other] == files[other]
  {
  }

  /** Clearing keeps the old lines in a new backup and leaves the live log empty. */
  lemma ClearKeepsLines(logs: PurePath, files: map<Location, string>, stamp: string)
    requires Plain(logs) && IsStamp(stamp)
    requires LogLocation(logs) in files && files[LogLocation(logs)] != []
    ensures LogLines(logs, Cleared(logs, files, stamp)) == []
    ensures StampedName(stamp) in BackupNames(logs, Cleared(logs, files, stamp))
    ensures BackupLineCount(logs, Cleared(logs, files, stamp), StampedName(stamp)) == |LogLines(logs, files)|
  {
    var name := StampedName(stamp);
    StampedNamePlain(stamp);
    BackupLocation(logs, name);
    BackupIsNotLog(logs, name);
    assert BackupsLocation(logs) + [name] == Resolve(Child(BackupDir(logs), name));
    BackupNamesIff(logs, Cleared(logs, files, stamp), name);
  }

  /** Restoring the backup a clear just made brings the log back; only an older backup of the same name is lost. */
  lemma ClearThenRestore(logs: PurePath, files: map<Location, string>, stamp: string)
    requires Plain(logs) && IsStamp(stamp)
    requires LogLocation(logs) in files && files[LogLocation(logs)] != []
    ensures Restored(logs, Cleared(logs, files, stamp), StampedName(stamp), PlainName)
         == Change(Ok, files - {Resolve(Child(BackupDir(logs), StampedName(stamp)))})
  {
    var name := StampedName(stamp);
    var at := LogLocation(logs);
    var bk := Resolve(Child(BackupDir(logs), name));
    StampedNamePlain(stamp);
    ParsePlain(name);
    assert Join(BackupDir(logs), name) == Child(BackupDir(logs), name);
    BackupIsNotLog(logs, name);
    var cleared := Cleared(logs, files, stamp);
    assert cleared == files[bk := files[at]][at := ""];
    var r := Restored(logs, cleared, name, PlainName);
    assert r.files == files[bk := files[at]][at := "" + files[at]] - {bk};
    assert "" + files[at] == files[at];
    assert r.files == files - {bk};
  }

  /** Clearing an empty or missing log changes nothing. */
  lemma ClearEmptyUnchanged(logs: PurePath, files: map<Location, string>, stamp: string)
    requires LogLocation(logs) !in files || files[LogLocation(logs)] == []
    ensures Cleared(logs, files, stamp) == files
  {
  }

  /** A rejected request changes nothing, and an accepted deletion removes exactly the requested backup. */
  lemma DeleteRemovesOnlyBackup(logs: PurePath, files: map<Location, string>, filename: string)
    requires Plain(logs)
    ensures DeletedBackup(logs, files, filename, PlainName).reply == Ok <==> Admitted(logs, files, filename, PlainName)
    ensures Admitted(logs, files, filename, PlainName) ==>
      && DeletedBackup(logs, files, filename, PlainName).files == files - {BackupsLocation(logs) + [filename]}
      && filename !in BackupNames(logs, DeletedBackup(logs, files, filename, PlainName).files)
      && LogLines(logs, DeletedBackup(logs, files, filename, PlainName).files) == LogLines(logs, files)
    ensures !Admitted(logs, files, filename, PlainName) ==> DeletedBackup(logs, files, filename, PlainName).files == files
  {
    if Admitted(logs, files, filename, PlainName) {
      PlainNameStaysInBackups(logs, files, filename);
      BackupNamesIff(logs, DeletedBackup(logs, files, filename, PlainName).files, filename);
    }
  }

  // ---------------------------------------------------------------- the handlers

  /**
   * The server's log directory and the files under it. `guard` is the test
   * the restore and delete handlers apply to a requested name: `Lexical` is
   * the server as written, `PlainName` the corrected one.
   */
  class LogFiles {
    /** `_APP_DIR / "logs"`, where `_APP_DIR` is `%TEMP%\ContextMenuCreator`. */
    const logs: PurePath
    const guard: Guard
    var files: map<Location, string>

    constructor (logs: PurePath, guard: Guard, files: map<Location, string>)
      requires Plain(logs)
      ensures this.logs == logs && this.guard == guard && this.files == files
    {
      this.logs := logs;
      this.guard := guard;
      this.files := files;
    }

    /** `GET /api/logs/backups`: every backup, newest name first, with its line count. */
    method ListBackups() returns (backups: seq<BackupInfo>)
      ensures forall i, j :: 0 <= i < j < |backups| ==> Below(backups[j].filename, backups[i].filename)
      ensures (set b | b in backups :: b.filename) == BackupNames(logs, files)
      ensures forall k :: 0 <= k < |backups| ==> backups[k].lines == BackupLineCount(logs, files, backups[k].filename)
    {
      var names := SortDescending(BackupNames(logs, files));
      backups := [];
      var i := 0;
      while i < |names|
        invariant 0 <= i <= |names|
        invariant |backups| == i
        invariant forall k :: 0 <= k < i ==> backups[k] == BackupInfo(names[k], BackupLineCount(logs, files, names[k]))
      {
        var at := BackupsLocation(logs) + [names[i]];
        var count := if at in files then |SplitLines(files[at])| else 0;
        backups := backups + [BackupInfo(names[i], count)];
        i := i + 1;
      }
      assert (set b | b in backups :: b.filename) == (set n | n in names);
    }

    /** `sorted(names, reverse=True)` for a set of distinct names. */
    static method SortDescending(all: set<string>) returns (names: seq<string>)
      ensures Descending(names)
      ensures (set n | n in names) == all
    {
      var pending := all;
      names := [];
      while pending != {}
        invariant Descending(names)
        invariant forall n :: n in names ==> n !in pending
        invariant (set n | n in names) + pending == all
        decreases |pending|
      {
        var n :| n in pending;
        InsertDescendingSorted(names, n);
        var next := InsertDescending(names, n);
        InsertedElements(names, n, next);
        names := next;
        pending := pending - {n};
      }
    }

    /** `POST /api/logs/clear` at the given time stamp. */
    method ClearLogs(stamp: string)
      requires IsStamp(stamp)
      modifies this
      ensures files == Cleared(logs, old(files), stamp)
    {
      var at := LogLocation(logs);
      if at in files && files[at] != [] {
        var content := files[at];
        files := files[Resolve(Child(BackupDir(logs), StampedName(stamp))) := content];
        files := files[at := ""];
      }
    }

    /** `POST /api/logs/restore` with the body's "filename" (absent means ""). */
    method RestoreLogs(filename: Option<string>) returns (reply: Reply)
      modifies this
      ensures Change(reply, files) == Restored(logs, old(files), filename.GetOr(""), guard)
    {
      var name := filename.GetOr("");
      if name == [] {
        return Err(NoFilename);
      }
      if !Admitted(logs, files, name, guard) {
        return Err(BackupNotFound);
      }
      var from := Target(logs, name);
      var content := files[from];
      var at := LogLocation(logs);
      var current := if at in files then files[at] else "";
      files := files[at := current + content];
      if from == at {
        return Err(HeldOpen);
      }
      files := files - {from};
      reply := Ok;
    }

    /** `DELETE /api/logs/backups/<filename>` */
    method DeleteBackup(filename: string) returns (reply: Reply)
      modifies this
      ensures Change(reply, files) == DeletedBackup(logs, old(files), filename, guard)
    {
      if !Admitted(logs, files, filename, guard) {
        return Err(BackupNotFound);
      }
      if Target(logs, filename) == LogLocation(logs) {
        return Err(HeldOpen);
      }
      files := files - {Target(logs, filename)};
      reply := Ok;
    }
  }
}
