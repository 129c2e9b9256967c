/**
 Log rotation over an abstract directory: the current log is renamed to the lowest free
 number, then the oldest rotated logs are removed.
 */
module LogRotation {

  // Size in bytes, last modification in seconds.
  datatype File = File(size: nat, modified: nat)

  type Directory = map<string, File>

  const LOG_FILE := "qudag.log"

  function Digit(d: nat): char
    requires d < 10
  {
    '0' + d as char
  }

  function Decimal(n: nat): string {
    if n < 10 then [Digit(n)] else Decimal(n / 10) + [Digit(n % 10)]
  }

  function Rotated(n: nat): string {
    LOG_FILE + "." + Decimal(n)
  }

  // Everything the cleanup takes for a rotated log: any other name with the log's prefix.
  predicate IsOldLog(name: string) {
    LOG_FILE <= name && name != LOG_FILE
  }

  ghost function OldLogs(d: Directory): set<string> {
    set f | f in d && IsOldLog(f)
  }

  // The rotated logs proper.
  ghost function Numbered(d: Directory): set<string> {
    set f | f in d && IsNumbered(f)
  }

  ghost predicate IsNumbered(name: string) {
    exists n: nat :: n >= 1 && name == Rotated(n)
  }

  // What the cleanup counts, in plain terms: the names that go on after "qudag.log".
  lemma OldLogsAre(d: Directory)
    ensures forall f :: f in OldLogs(d) <==> f in d && "qudag.log" < f
    ensures OldLogs(d) == set f | f in d && "qudag.log" < f
  {
  }

  // A rotated log's name is the log's name, a dot, and its number in decimal without leading zeros.
  lemma {:induction false} DecimalIs(n: nat)
    ensures forall i | 0 <= i < |Decimal(n)| :: '0' <= Decimal(n)[i] <= '9'
    ensures Decimal(n) != "" && (Decimal(n)[0] == '0' ==> n == 0)
  {
    if n >= 10 {
      DecimalIs(n / 10);
    }
  }

  lemma RotatedName(n: nat)
    ensures "qudag.log." <= Rotated(n) && Parse(Rotated(n)[10..]) == n
    ensures Rotated(n)[10..] != "" && (Rotated(n)[10] == '0' ==> n == 0)
    ensures forall i | 10 <= i < |Rotated(n)| :: '0' <= Rotated(n)[i] <= '9'
  {
    ParseDecimal(n);
    DecimalIs(n);
    assert Rotated(n) == "qudag.log." + Decimal(n);
  }

  // --- Names are distinct ---

  function Parse(s: string): int {
    if s == [] then 0 else Parse(s[..|s| - 1]) * 10 + (s[|s| - 1] as int - '0' as int)
  }

  lemma {:induction false} ParseDecimal(n: nat)
    ensures Parse(Decimal(n)) == n
  {
    if n < 10 {
      assert Decimal(n)[..0] == [];
    } else {
      ParseDecimal(n / 10);
      assert Decimal(n)[..|Decimal(n)| - 1] == Decimal(n / 10);
    }
  }

  lemma RotatedInjective(m: nat, n: nat)
    requires Rotated(m) == Rotated(n)
    ensures m == n
  {
    var prefix := LOG_FILE + ".";
    assert Decimal(m) == Rotated(m)[|prefix|..] == Rotated(n)[|prefix|..] == Decimal(n);
    ParseDecimal(m);
    ParseDecimal(n);
  }

  lemma RotatedIsOldLog(n: nat)
    ensures IsOldLog(Rotated(n))
  {
    assert Rotated(n)[..|LOG_FILE|] == LOG_FILE;
    assert |Rotated(n)| > |LOG_FILE|;
  }

  // --- Sorting by age ---

  datatype LogEntry = LogEntry(path: string, modified: nat)

  ghost predicate Sorted(s: seq<LogEntry>) {
    forall i, j | 0 <= i < j < |s| :: s[i].modified <= s[j].modified
  }

  // Insert after the entries that are not newer, as a stable sort does.
  function Insert(s: seq<LogEntry>, e: LogEntry): (r: seq<LogEntry>)
    ensures multiset(r) == multiset(s) + multiset{e}
  {
    if s == [] || s[|s| - 1].modified <= e.modified then s + [e]
    else
      assert s == s[..|s| - 1] + [s[|s| - 1]];
      Insert(s[..|s| - 1], e) + [s[|s| - 1]]
  }

  function Sort(s: seq<LogEntry>): (r: seq<LogEntry>)
    ensures multiset(r) == multiset(s)
  {
    if s == [] then []
    else
      assert s == s[..|s| - 1] + [s[|s| - 1]];
      Insert(Sort(s[..|s| - 1]), s[|s| - 1])
  }

  lemma SameMembers(r: seq<LogEntry>, s: seq<LogEntry>)
    requires multiset(r) == multiset(s)
    ensures forall x :: x in r <==> x in s
    ensures |r| == |s|
  {
    forall x ensures x in r <==> x in s {
      assert x in r <==> x in multiset(r);
      assert x in s <==> x in multiset(s);
    }
    assert |multiset(r)| == |multiset(s)|;
  }

  lemma {:induction false} InsertSorted(s: seq<LogEntry>, e: LogEntry)
    requires Sorted(s)
    ensures Sorted(Insert(s, e))
  {
    if s != [] && s[|s| - 1].modified > e.modified {
      var init, last := s[..|s| - 1], s[|s| - 1];
      InsertSorted(init, e);
      InsertBelow(init, e, last.modified);
      AppendSorted(Insert(init, e), last);
    }
  }

  lemma {:induction false} InsertBelow(s: seq<LogEntry>, e: LogEntry, bound: nat)
    requires AllUpTo(s, bound) && e.modified <= bound
    ensures AllUpTo(Insert(s, e), bound)
  {
    if s != [] && s[|s| - 1].modified > e.modified {
      InsertBelow(s[..|s| - 1], e, bound);
    }
  }

  ghost predicate AllUpTo(s: seq<LogEntry>, bound: nat) {
    forall i | 0 <= i < |s| :: s[i].modified <= bound
  }

  lemma AppendSorted(s: seq<LogEntry>, last: LogEntry)
    requires Sorted(s) && AllUpTo(s, last.modified)
    ensures Sorted(s + [last])
  {
  }

  lemma {:induction false} SortSorted(s: seq<LogEntry>)
    ensures Sorted(Sort(s))
  {
    if s != [] {
      SortSorted(s[..|s| - 1]);
      InsertSorted(Sort(s[..|s| - 1]), s[|s| - 1]);
    }
  }

  // --- What rotation and cleanup do to the directory ---

  ghost predicate IsLowestFree(d: Directory, n: nat) {
    n >= 1 && Rotated(n) !in d && forall m | 1 <= m < n :: Rotated(m) in d
  }

  function Renamed(d: Directory, n: nat): Directory
    requires LOG_FILE in d
  {
    (d - {LOG_FILE})[Rotated(n) := d[LOG_FILE]]
  }

  // Nothing but old logs goes, just enough of them, and none newer than one that stays.
  ghost predicate CleanedUp(before: Directory, after: Directory, maxLogFiles: nat) {
    && after.Keys <= before.Keys
    && (forall f | f in after :: after[f] == before[f])
    && (forall f | f in before && !IsOldLog(f) :: f in after)
    && |OldLogs(after)| == (if |OldLogs(before)| <= maxLogFiles then |OldLogs(before)| else maxLogFiles)
    && forall gone, kept | gone in before && gone !in after && kept in OldLogs(after) ::
         before[gone].modified <= before[kept].modified
  }

  // Every file whose name does not begin with the log's stays, with its contents.
  ghost predicate OthersKept(before: Directory, after: Directory) {
    forall f | f in before && !("qudag.log" <= f) :: f in after && after[f] == before[f]
  }

  lemma CleanedUpInWords(d: Directory, after: Directory, maxLogFiles: nat)
    requires CleanedUp(d, after, maxLogFiles)
    ensures OthersKept(d, after) && ("qudag.log" in after <==> "qudag.log" in d)
    ensures var count := |set f | f in d && "qudag.log" < f|;
            |set f | f in after && "qudag.log" < f| == if count <= maxLogFiles then count else maxLogFiles
  {
    OldLogsAre(d);
    OldLogsAre(after);
    assert !IsOldLog("qudag.log");
  }

  // The log is gone from its name; it is found under the new one, if it is still there at all;
  // whatever else is there was there before; and all files of other names are.
  ghost predicate Moved(before: Directory, name: string, after: Directory) {
    && "qudag.log" in before && "qudag.log" !in after
    && (name in after ==> after[name] == before["qudag.log"])
    && (forall f | f in after && f != name :: f in before && after[f] == before[f])
    && OthersKept(before, after)
  }

  lemma RotationMoves(before: Directory, n: nat, after: Directory, maxLogFiles: nat)
    requires LOG_FILE in before && Rotated(n) !in before && CleanedUp(Renamed(before, n), after, maxLogFiles)
    ensures Moved(before, Rotated(n), after)
  {
    var mid := Renamed(before, n);
    RotatedIsOldLog(n);
    CleanedUpInWords(mid, after, maxLogFiles);
    assert Rotated(n) != "qudag.log" && "qudag.log" !in mid;
    forall f | f in before && !("qudag.log" <= f) ensures f in after && after[f] == before[f] {
      assert f in mid && mid[f] == before[f];
    }
  }

  // The program's other files in the same directory are safe.
  lemma PidFileStays(d: Directory, after: Directory, maxLogFiles: nat)
    requires CleanedUp(d, after, maxLogFiles)
    ensures "qudag.pid" in d ==> "qudag.pid" in after && after["qudag.pid"] == d["qudag.pid"]
    ensures "config.toml" in d ==> "config.toml" in after && after["config.toml"] == d["config.toml"]
  {
    CleanedUpInWords(d, after, maxLogFiles);
    assert "qudag.pid"[6] == 'p' && "config.toml"[0] == 'c';
  }

  // The entries list each of the files once, in some order.
  ghost predicate ListsOnly(entries: seq<LogEntry>, d: Directory, files: set<string>)
    requires files <= d.Keys
  {
    && (forall i | 0 <= i < |entries| :: entries[i].path in files && d[entries[i].path].modified == entries[i].modified)
    && (forall i, j | 0 <= i < j < |entries| :: entries[i].path != entries[j].path)
    && (forall f | f in files :: IsListed(entries, f))
  }

  ghost predicate IsListed(entries: seq<LogEntry>, path: string) {
    exists i :: 0 <= i < |entries| && entries[i].path == path
  }

  ghost predicate Lists(entries: seq<LogEntry>, d: Directory) {
    ListsOnly(entries, d, OldLogs(d))
  }

  // Removing files from the front of the list until no more than the maximum are left.
  function Dropped(d: Directory, entries: seq<LogEntry>, maxLogFiles: nat): Directory
    decreases |entries|
  {
    if |entries| <= maxLogFiles then d else Dropped(d - {entries[0].path}, entries[1..], maxLogFiles)
  }

  // What the cleanup makes of a directory that the scan has listed in this order.
  ghost predicate CleansTo(d: Directory, after: Directory, maxLogFiles: nat) {
    exists listing :: Lists(listing, d) && after == Dropped(d, Sort(listing), maxLogFiles)
  }

  // Every directory the cleanup can leave after the log has been renamed.
  ghost predicate Outcome(d: Directory, n: nat, maxLogFiles: nat, after: Directory)
    requires LOG_FILE in d
  {
    CleansTo(Renamed(d, n), after, maxLogFiles)
  }

  class NodeManager {
    const rotationSizeMb: nat
    const maxLogFiles: nat
    var directory: Directory

    constructor (rotationSizeMb: nat, maxLogFiles: nat, directory: Directory)
      ensures this.rotationSizeMb == rotationSizeMb && this.maxLogFiles == maxLogFiles && this.directory == directory
    {
      this.rotationSizeMb, this.maxLogFiles, this.directory := rotationSizeMb, maxLogFiles, directory;
    }

    /** The log is left alone while it is absent or small. Otherwise it is renamed to the lowest
        free number, over no existing file, and the old logs are cleaned up. The search stops
        at a number no greater than the count of rotated logs plus one. */
    method RotateLogs() returns (ghost n: nat)
      modifies this
      ensures var before := old(directory);
              if LOG_FILE !in before || before[LOG_FILE].size / (1024 * 1024) < rotationSizeMb
              then directory == before
              else && IsLowestFree(before, n) && n <= |Numbered(before)| + 1
                   && Outcome(before, n, maxLogFiles, directory)
                   && CleanedUp(Renamed(before, n), directory, maxLogFiles)
      ensures var before := old(directory);
              "qudag.log" in before && before["qudag.log"].size / (1024 * 1024) >= rotationSizeMb ==>
                Moved(before, Rotated(n), directory)
    {
      n := 0;
      if LOG_FILE !in directory {
        return;
      }
      var sizeMb := directory[LOG_FILE].size / (1024 * 1024);
      if sizeMb >= rotationSizeMb {
        var rotationNum := NextRotation();
        n := rotationNum;
        directory := Renamed(directory, rotationNum);
        ghost var listing := CleanupOldLogs();
        RotationMoves(old(directory), rotationNum, directory, maxLogFiles);
      }
    }

    // The search for the next available number.
    method NextRotation() returns (rotationNum: nat)
      ensures IsLowestFree(directory, rotationNum) && rotationNum <= |Numbered(directory)| + 1
    {
      rotationNum := 1;
      ghost var seen: set<string> := {};
      while Rotated(rotationNum) in directory
        invariant rotationNum >= 1
        invariant forall m | 1 <= m < rotationNum :: Rotated(m) in directory
        invariant forall f | f in seen :: exists m :: 1 <= m < rotationNum && f == Rotated(m)
        invariant |seen| == rotationNum - 1 <= |Numbered(directory)|
        decreases |Numbered(directory)| - |seen|
      {
        MoreNumbered(directory, seen, rotationNum);
        seen := seen + {Rotated(rotationNum)};
        rotationNum := rotationNum + 1;
      }
    }

    // `listing` is the order in which the directory was read.
    method CleanupOldLogs() returns (ghost listing: seq<LogEntry>)
      modifies this
      ensures Lists(listing, old(directory)) && directory == Dropped(old(directory), Sort(listing), maxLogFiles)
      ensures CleanedUp(old(directory), directory, maxLogFiles)
      ensures OthersKept(old(directory), directory)
      ensures ("qudag.log" in directory <==> "qudag.log" in old(directory))
      ensures var count := |set f | f in old(directory) && "qudag.log" < f|;
              |set f | f in directory && "qudag.log" < f| == if count <= maxLogFiles then count else maxLogFiles
    {
      var logFiles := FindOldLogs();
      listing := logFiles;
      SortSorted(listing);
      SortLists(listing, directory, OldLogs(directory));
      DroppedIsCleanedUp(directory, Sort(listing), maxLogFiles);
      CleanedUpInWords(directory, Dropped(directory, Sort(listing), maxLogFiles), maxLogFiles);
      logFiles := Sort(logFiles);
      while |logFiles| > maxLogFiles
        invariant Dropped(directory, logFiles, maxLogFiles) == Dropped(old(directory), Sort(listing), maxLogFiles)
      {
        directory := directory - {logFiles[0].path};
        logFiles := logFiles[1..];
      }
    }

    // The scan of the directory, in whatever order it is read.
    method FindOldLogs() returns (logFiles: seq<LogEntry>)
      ensures Lists(logFiles, directory)
    {
      logFiles := [];
      var rest := directory.Keys;
      while rest != {}
        invariant rest <= directory.Keys
        invariant Lists(logFiles, map f | f in directory && f !in rest :: directory[f])
        decreases |rest|
      {
        var name :| name in rest;
        ghost var entries := logFiles;
        ghost var d0 := map f | f in directory && f !in rest :: directory[f];
        rest := rest - {name};
        if IsOldLog(name) {
          logFiles := logFiles + [LogEntry(name, directory[name].modified)];
        }
        ghost var d1 := map f | f in directory && f !in rest :: directory[f];
        ListsExtend(entries, d0, name, directory[name], d1);
      }
      assert (map f | f in directory && f !in rest :: directory[f]) == directory;
    }
  }

  lemma ListsExtend(entries: seq<LogEntry>, d: Directory, name: string, file: File, d': Directory)
    requires Lists(entries, d) && name !in d && d' == d[name := file]
    ensures Lists(if IsOldLog(name) then entries + [LogEntry(name, file.modified)] else entries, d')
  {
    var r := if IsOldLog(name) then entries + [LogEntry(name, file.modified)] else entries;
    forall f | f in OldLogs(d') ensures IsListed(r, f) {
      if f == name {
        assert r[|entries|].path == f;
      } else {
        assert f in OldLogs(d);
        var i :| 0 <= i < |entries| && entries[i].path == f;
        assert r[i].path == f;
      }
    }
  }

  // Removing the first listed file leaves the others listed, in the same order.
  lemma DropOldest(entries: seq<LogEntry>, d: Directory)
    requires Lists(entries, d) && Sorted(entries) && entries != []
    ensures Lists(entries[1..], d - {entries[0].path}) && Sorted(entries[1..])
    ensures OldLogs(d - {entries[0].path}) == OldLogs(d) - {entries[0].path}
    ensures forall f | f in OldLogs(d) :: entries[0].modified <= d[f].modified
    ensures entries[0].path in OldLogs(d)
  {
    var rest, d' := entries[1..], d - {entries[0].path};
    assert OldLogs(d') == OldLogs(d) - {entries[0].path};
    forall f | f in OldLogs(d')
      ensures IsListed(rest, f)
    {
      var i :| 0 <= i < |entries| && entries[i].path == f;
      assert rest[i - 1].path == f;
    }
    forall f | f in OldLogs(d) ensures entries[0].modified <= d[f].modified {
      var i :| 0 <= i < |entries| && entries[i].path == f;
    }
  }

  // Cleaning up after the oldest of too many old logs is gone cleans up the whole.
  lemma CleanedUpFirst(d: Directory, oldest: string, after: Directory, maxLogFiles: nat)
    requires oldest in OldLogs(d) && |OldLogs(d)| > maxLogFiles
    requires forall f | f in OldLogs(d) :: d[oldest].modified <= d[f].modified
    requires OldLogs(d - {oldest}) == OldLogs(d) - {oldest} && CleanedUp(d - {oldest}, after, maxLogFiles)
    ensures CleanedUp(d, after, maxLogFiles)
  {
    var d' := d - {oldest};
    assert |OldLogs(d')| == |OldLogs(d)| - 1;
    forall gone, kept | gone in d && gone !in after && kept in OldLogs(after)
      ensures d[gone].modified <= d[kept].modified
    {
      assert kept in d' && kept in OldLogs(d);
      if gone != oldest {
        assert gone in d';
      }
    }
  }

  lemma {:induction false} DroppedIsCleanedUp(d: Directory, entries: seq<LogEntry>, maxLogFiles: nat)
    requires Lists(entries, d) && Sorted(entries)
    ensures CleanedUp(d, Dropped(d, entries, maxLogFiles), maxLogFiles)
    decreases |entries|
  {
    ListsCount(entries, d, OldLogs(d));
    if |entries| > maxLogFiles {
      var oldest, rest := entries[0].path, entries[1..];
      DropOldest(entries, d);
      DroppedIsCleanedUp(d - {oldest}, rest, maxLogFiles);
      CleanedUpFirst(d, oldest, Dropped(d - {oldest}, rest, maxLogFiles), maxLogFiles);
    }
  }

  // One more rotated log beyond those already seen.
  lemma MoreNumbered(d: Directory, seen: set<string>, n: nat)
    requires n >= 1 && Rotated(n) in d
    requires forall f | f in seen :: exists m :: 1 <= m < n && f == Rotated(m)
    requires forall m | 1 <= m < n :: Rotated(m) in d
    ensures Rotated(n) !in seen && |seen| + 1 <= |Numbered(d)|
  {
    if Rotated(n) in seen {
      var m :| 1 <= m < n && Rotated(n) == Rotated(m);
      RotatedInjective(n, m);
    }
    var more := seen + {Rotated(n)};
    assert more <= Numbered(d);
    SubsetSize(more, Numbered(d));
  }

  lemma SubsetSize<T>(a: set<T>, b: set<T>)
    requires a <= b
    ensures |a| <= |b|
  {
    assert b == a + (b - a);
  }

  lemma {:induction false} ListsCount(entries: seq<LogEntry>, d: Directory, files: set<string>)
    requires files <= d.Keys && ListsOnly(entries, d, files)
    ensures |entries| == |files|
  {
    if entries == [] {
      assert files == {};
    } else {
      var n := |entries| - 1;
      var fewer := files - {entries[n].path};
      forall f | f in fewer ensures IsListed(entries[..n], f) {
        var i :| 0 <= i < |entries| && entries[i].path == f;
        assert entries[..n][i].path == f;
      }
      ListsCount(entries[..n], d, fewer);
    }
  }

  // Sorting lists the same files.
  lemma SortLists(entries: seq<LogEntry>, d: Directory, files: set<string>)
    requires files <= d.Keys && ListsOnly(entries, d, files)
    ensures ListsOnly(Sort(entries), d, files)
  {
    var r := Sort(entries);
    SameMembers(r, entries);
    forall i | 0 <= i < |r| ensures r[i].path in files && d[r[i].path].modified == r[i].modified {
      assert r[i] in entries;
    }
    forall i, j | 0 <= i < j < |r| ensures r[i].path != r[j].path {
      if r[i].path == r[j].path {
        assert r[i] in entries && r[j] in entries && r[i] == r[j];
        TwiceInMultiset(r, i, j);
        OnceInList(entries, r[i]);
      }
    }
    forall f | f in files ensures IsListed(r, f) {
      var i :| 0 <= i < |entries| && entries[i].path == f;
      assert entries[i] in r;
    }
  }

  lemma TwiceInMultiset(s: seq<LogEntry>, i: nat, j: nat)
    requires i < j < |s| && s[i] == s[j]
    ensures multiset(s)[s[i]] >= 2
  {
    assert s == s[..j] + s[j..];
    assert s[i] in s[..j] && s[i] in s[j..] by {
      assert s[..j][i] == s[i] && s[j..][0] == s[j];
    }
  }

  lemma {:induction false} OnceInList(s: seq<LogEntry>, e: LogEntry)
    requires forall i, j | 0 <= i < j < |s| :: s[i].path != s[j].path
    ensures multiset(s)[e] <= 1
  {
    if s != [] {
      var n := |s| - 1;
      OnceInList(s[..n], e);
      assert s == s[..n] + [s[n]];
      if e == s[n] {
        assert e !in s[..n];
      }
    }
  }

  // --- Consequences for the rotated log ---

  // The old logs at least as recent as the current log, and those strictly more recent.
  ghost function Rivals(d: Directory): set<string>
    requires LOG_FILE in d
  {
    set f | f in OldLogs(d) && d[f].modified >= d[LOG_FILE].modified
  }

  ghost function Newer(d: Directory): set<string>
    requires LOG_FILE in d
  {
    set f | f in OldLogs(d) && d[f].modified > d[LOG_FILE].modified
  }

  // One direction: fewer rivals than the maximum keep the log, that many newer logs push it out.
  lemma RotatedLogSurvives(d: Directory, n: nat, after: Directory, maxLogFiles: nat)
    requires LOG_FILE in d && Rotated(n) !in d
    requires CleanedUp(Renamed(d, n), after, maxLogFiles)
    ensures |Rivals(d)| < maxLogFiles ==> Rotated(n) in after && after[Rotated(n)] == d[LOG_FILE]
    ensures |Newer(d)| >= maxLogFiles ==> Rotated(n) !in after
  {
    var mid, r := Renamed(d, n), Rotated(n);
    RotatedIsOldLog(n);
    assert r != LOG_FILE && r in OldLogs(mid);
    if r !in after {
      forall f | f in OldLogs(after) ensures f in Rivals(d) {
        assert f in mid && f != r && f != LOG_FILE && mid[f] == d[f];
        assert mid[r].modified <= mid[f].modified;
      }
      SubsetSize(OldLogs(after), Rivals(d));
      // Something was removed, so exactly the maximum is left.
      assert OldLogs(after) <= OldLogs(mid) - {r};
      SubsetSize(OldLogs(after), OldLogs(mid) - {r});
    } else {
      assert r in OldLogs(after);
      forall f | f in Newer(d) ensures f in OldLogs(after) - {r} {
        assert f in mid && f != r && f != LOG_FILE && mid[f] == d[f];
      }
      SubsetSize(Newer(d), OldLogs(after) - {r});
    }
  }

  // --- What the code can leave ---

  lemma InsertLast(s: seq<LogEntry>, e: LogEntry)
    requires s == [] || s[|s| - 1].modified <= e.modified
    ensures Insert(s, e) == s + [e]
  {
  }

  lemma SortedPrefix(s: seq<LogEntry>)
    requires Sorted(s) && s != []
    ensures Sorted(s[..|s| - 1])
    ensures |s| > 1 ==> s[|s| - 2].modified <= s[|s| - 1].modified
  {
  }

  // A list that is in order already is left alone.
  lemma {:induction false} SortOfSorted(s: seq<LogEntry>)
    requires Sorted(s)
    ensures Sort(s) == s
  {
    if s != [] {
      var init, last := s[..|s| - 1], s[|s| - 1];
      SortedPrefix(s);
      SortOfSorted(init);
      InsertLast(init, last);
      assert s == init + [last];
    }
  }

  // Some sorted list of a set of files.
  lemma {:induction false} SortedList(d: Directory, files: set<string>) returns (entries: seq<LogEntry>)
    requires files <= d.Keys
    ensures ListsOnly(entries, d, files) && Sorted(entries)
  {
    entries := ListOf(d, files);
    SortLists(entries, d, files);
    SortSorted(entries);
    entries := Sort(entries);
  }

  lemma {:induction false} ListOf(d: Directory, files: set<string>) returns (entries: seq<LogEntry>)
    requires files <= d.Keys
    ensures ListsOnly(entries, d, files)
    decreases |files|
  {
    entries := [];
    if files != {} {
      var f :| f in files;
      var rest := ListOf(d, files - {f});
      entries := rest + [LogEntry(f, d[f].modified)];
      forall g | g in files ensures IsListed(entries, g) {
        if g == f {
          assert entries[|rest|].path == g;
        } else {
          assert g in files - {f} && IsListed(rest, g);
          var i :| 0 <= i < |rest| && rest[i].path == g;
          assert entries[i].path == g;
        }
      }
    }
  }

  // Two sorted lists of separate files, the first none newer than the second, make one.
  lemma JoinLists(older: seq<LogEntry>, newer: seq<LogEntry>, d: Directory, a: set<string>, b: set<string>)
    requires a <= d.Keys && b <= d.Keys && a !! b
    requires ListsOnly(older, d, a) && ListsOnly(newer, d, b) && Sorted(older) && Sorted(newer)
    requires forall f, g | f in a && g in b :: d[f].modified <= d[g].modified
    ensures ListsOnly(older + newer, d, a + b) && Sorted(older + newer)
  {
    var s := older + newer;
    forall f | f in a + b ensures IsListed(s, f) {
      if f in a {
        var i :| 0 <= i < |older| && older[i].path == f;
        assert s[i].path == f;
      } else {
        assert f in b;
        var i :| 0 <= i < |newer| && newer[i].path == f;
        assert s[|older| + i].path == f;
      }
    }
  }

  function Paths(entries: seq<LogEntry>): set<string> {
    set i | 0 <= i < |entries| :: entries[i].path
  }

  lemma {:induction false} DroppedPrefix(d: Directory, gone: seq<LogEntry>, kept: seq<LogEntry>, maxLogFiles: nat)
    requires if gone == [] then |kept| <= maxLogFiles else |kept| == maxLogFiles
    ensures Dropped(d, gone + kept, maxLogFiles) == d - Paths(gone)
    decreases |gone|
  {
    if gone == [] {
      assert gone + kept == kept && d - Paths(gone) == d;
    } else {
      var rest := gone[1..];
      assert (gone + kept)[1..] == rest + kept;
      assert Paths(gone) == {gone[0].path} + Paths(rest) by {
        assert forall i | 1 <= i < |gone| :: gone[i] == rest[i - 1];
        assert forall i | 0 <= i < |rest| :: rest[i] == gone[i + 1];
      }
      if rest == [] {
        assert rest + kept == kept;
      } else {
        DroppedPrefix(d - {gone[0].path}, rest, kept, maxLogFiles);
      }
      assert d - {gone[0].path} - Paths(rest) == d - Paths(gone);
    }
  }

  lemma PathsAre(entries: seq<LogEntry>, d: Directory, files: set<string>)
    requires files <= d.Keys && ListsOnly(entries, d, files)
    ensures Paths(entries) == files
  {
    forall f | f in files ensures f in Paths(entries) {
      var i :| 0 <= i < |entries| && entries[i].path == f;
    }
  }

  // The old logs of a cleaned-up directory, and those it has lost.
  lemma CleanedUpLoses(d: Directory, after: Directory, maxLogFiles: nat, kept: set<string>, gone: set<string>)
    requires CleanedUp(d, after, maxLogFiles) && kept == OldLogs(after) && gone == OldLogs(d) - kept
    ensures kept <= OldLogs(d) && gone + kept == OldLogs(d) && after == d - gone
    ensures if gone == {} then |kept| <= maxLogFiles else |kept| == maxLogFiles
  {
    var all := OldLogs(d);
    OldLogsAfter(d, after, maxLogFiles);
    Difference(all, kept, gone);
    assert |kept| == if |all| <= maxLogFiles then |all| else maxLogFiles;
    KeysAfter(d, after, maxLogFiles, kept, gone);
  }

  lemma Difference(all: set<string>, kept: set<string>, gone: set<string>)
    requires kept <= all && gone == all - kept
    ensures gone + kept == all && |all| == |gone| + |kept|
  {
    assert gone + kept == all;
  }

  lemma OldLogsAfter(d: Directory, after: Directory, maxLogFiles: nat)
    requires CleanedUp(d, after, maxLogFiles)
    ensures OldLogs(after) <= OldLogs(d)
  {
    forall f | f in OldLogs(after) ensures f in OldLogs(d) {
      assert f in after && f in d;
    }
  }

  lemma KeysAfter(d: Directory, after: Directory, maxLogFiles: nat, kept: set<string>, gone: set<string>)
    requires CleanedUp(d, after, maxLogFiles) && kept == OldLogs(after) && gone == OldLogs(d) - kept
    ensures after == d - gone
  {
    forall f ensures f in after <==> f in d - gone {
      if f in d && IsOldLog(f) {
        assert f in OldLogs(d);
        assert f in after <==> f in kept;
      }
    }
  }

  // The files that went, then those that stayed, is an order of reading that leads there.
  lemma ListingFor(d: Directory, after: Directory, maxLogFiles: nat) returns (listing: seq<LogEntry>)
    requires CleanedUp(d, after, maxLogFiles)
    ensures Lists(listing, d) && after == Dropped(d, Sort(listing), maxLogFiles)
  {
    var kept := OldLogs(after);
    var gone := OldLogs(d) - kept;
    CleanedUpLoses(d, after, maxLogFiles, kept, gone);
    NoneNewerIsGone(d, after, maxLogFiles, kept, gone);
    listing := ListingOf(d, gone, kept, maxLogFiles);
  }

  lemma NoneNewerIsGone(d: Directory, after: Directory, maxLogFiles: nat, kept: set<string>, gone: set<string>)
    requires CleanedUp(d, after, maxLogFiles) && kept == OldLogs(after) && gone == OldLogs(d) - kept
    requires kept <= OldLogs(d)
    ensures forall f, g | f in gone && g in kept :: d[f].modified <= d[g].modified
  {
    forall f, g | f in gone && g in kept ensures d[f].modified <= d[g].modified {
      assert f in d && f !in after;
    }
  }

  lemma ListingOf(d: Directory, gone: set<string>, kept: set<string>, maxLogFiles: nat) returns (listing: seq<LogEntry>)
    requires gone + kept == OldLogs(d) && gone !! kept
    requires forall f, g | f in gone && g in kept :: d[f].modified <= d[g].modified
    requires if gone == {} then |kept| <= maxLogFiles else |kept| == maxLogFiles
    ensures Lists(listing, d) && Dropped(d, Sort(listing), maxLogFiles) == d - gone
  {
    var older := SortedList(d, gone);
    var newer := SortedList(d, kept);
    JoinLists(older, newer, d, gone, kept);
    listing := older + newer;
    SortOfSorted(listing);
    ListsCount(older, d, gone);
    ListsCount(newer, d, kept);
    DroppedPrefix(d, older, newer, maxLogFiles);
    PathsAre(older, d, gone);
  }

  /** The cleanup can leave exactly the directories that meet its specification: each comes from some
      order of reading, and every order leads to one of them. */
  lemma CleansToIff(d: Directory, after: Directory, maxLogFiles: nat)
    ensures CleansTo(d, after, maxLogFiles) <==> CleanedUp(d, after, maxLogFiles)
  {
    if CleansTo(d, after, maxLogFiles) {
      var listing :| Lists(listing, d) && after == Dropped(d, Sort(listing), maxLogFiles);
      SortLists(listing, d, OldLogs(d));
      SortSorted(listing);
      DroppedIsCleanedUp(d, Sort(listing), maxLogFiles);
    }
    if CleanedUp(d, after, maxLogFiles) {
      var listing := ListingFor(d, after, maxLogFiles);
    }
  }

  // The k most recent of a set of files: none left out is more recent than one chosen.
  ghost predicate IsNewest(d: Directory, all: set<string>, chosen: set<string>, k: nat)
    requires all <= d.Keys
  {
    && chosen <= all && |chosen| == k
    && forall a, b | a in all - chosen && b in chosen :: d[a].modified <= d[b].modified
  }

  lemma {:induction false} OldestOf(d: Directory, s: set<string>) returns (f: string)
    requires s <= d.Keys && s != {}
    ensures f in s && forall g | g in s :: d[f].modified <= d[g].modified
    decreases |s|
  {
    f :| f in s;
    if s != {f} {
      var g := OldestOf(d, s - {f});
      if d[g].modified < d[f].modified {
        f := g;
      }
    }
  }

  lemma {:induction false} ChooseNewest(d: Directory, all: set<string>, k: nat) returns (chosen: set<string>)
    requires all <= d.Keys && k <= |all|
    ensures IsNewest(d, all, chosen, k)
    decreases |all| - k
  {
    chosen := all;
    if k < |all| {
      var more := ChooseNewest(d, all, k + 1);
      var f := OldestOf(d, more);
      chosen := more - {f};
    }
  }

  // The directory in which exactly the old logs of `kept` remain.
  ghost function KeepOnly(d: Directory, kept: set<string>): Directory {
    map f | f in d && (!IsOldLog(f) || f in kept) :: d[f]
  }

  lemma KeepOnlyCleans(d: Directory, kept: set<string>, maxLogFiles: nat)
    requires kept <= OldLogs(d)
    requires |kept| == if |OldLogs(d)| <= maxLogFiles then |OldLogs(d)| else maxLogFiles
    requires forall gone, f | gone in OldLogs(d) - kept && f in kept :: d[gone].modified <= d[f].modified
    ensures CleanedUp(d, KeepOnly(d, kept), maxLogFiles)
    ensures OldLogs(KeepOnly(d, kept)) == kept
  {
    assert OldLogs(KeepOnly(d, kept)) == kept;
  }

  // What the rename does to the old logs.
  lemma RenamedLogs(d: Directory, n: nat)
    requires LOG_FILE in d && Rotated(n) !in d
    ensures OldLogs(Renamed(d, n)) == OldLogs(d) + {Rotated(n)} && Rotated(n) !in OldLogs(d)
    ensures Renamed(d, n)[Rotated(n)] == d[LOG_FILE]
    ensures forall f | f in OldLogs(d) :: Renamed(d, n)[f] == d[f]
  {
    RotatedIsOldLog(n);
    assert LOG_FILE !in OldLogs(d);
  }

  // With too many rivals the log just rotated may be the one that goes.
  lemma RotatedMayGo(d: Directory, n: nat, maxLogFiles: nat) returns (after: Directory)
    requires LOG_FILE in d && Rotated(n) !in d && |Rivals(d)| >= maxLogFiles
    ensures Outcome(d, n, maxLogFiles, after) && Rotated(n) !in after
  {
    var mid, all := Renamed(d, n), OldLogs(d);
    RenamedLogs(d, n);
    SubsetSize(Rivals(d), all);
    var kept := ChooseNewest(d, all, maxLogFiles);
    forall f | f in kept ensures mid[Rotated(n)].modified <= mid[f].modified {
      if f !in Rivals(d) {
        MissesOne(Rivals(d), kept, f);
      }
    }
    after := KeepOnly(mid, kept);
    KeepOnlyCleans(mid, kept, maxLogFiles);
    CleansToIff(mid, after, maxLogFiles);
    assert Rotated(n) in OldLogs(after) ==> Rotated(n) in kept;
    RotatedIsOldLog(n);
  }

  // A set no larger than another, with a member outside it, misses one of its members.
  lemma MissesOne(big: set<string>, small: set<string>, f: string)
    requires |small| <= |big| && f in small && f !in big
    ensures exists g :: g in big && g !in small
  {
    if forall g | g in big :: g in small {
      SubsetSize(big, small - {f});
    }
  }

  lemma SameSize<T>(a: set<T>, b: set<T>)
    requires a <= b && |a| == |b|
    ensures a == b
  {
    SubsetSize(b - a, b);
    assert |b - a| == |b| - |a|;
  }

  // When one of the newer logs is not among the k newest, there are more than k of them.
  lemma NewestAreNewer(d: Directory, all: set<string>, newest: set<string>, k: nat, gone: string)
    requires LOG_FILE in d && all == OldLogs(d) && IsNewest(d, all, newest, k)
    requires gone in Newer(d) && gone !in newest
    ensures |Newer(d)| > k
  {
    assert newest + {gone} <= Newer(d);
    SubsetSize(newest + {gone}, Newer(d));
  }

  // Nothing that goes is newer than the log just rotated.
  lemma NoneNewerGoes(d: Directory, newest: set<string>, maxLogFiles: nat, gone: string)
    requires LOG_FILE in d && |Newer(d)| < maxLogFiles
    requires var all := OldLogs(d);
             IsNewest(d, all, newest, if |all| < maxLogFiles then |all| else maxLogFiles - 1)
    requires gone in OldLogs(d) - newest
    ensures d[gone].modified <= d[LOG_FILE].modified
  {
    var all := OldLogs(d);
    if |all| < maxLogFiles {
      SameSize(newest, all);
      assert false;
    } else if gone in Newer(d) {
      NewestAreNewer(d, all, newest, maxLogFiles - 1, gone);
    }
  }

  // With few enough newer logs it may stay.
  lemma RotatedMayStay(d: Directory, n: nat, maxLogFiles: nat) returns (after: Directory)
    requires LOG_FILE in d && Rotated(n) !in d && |Newer(d)| < maxLogFiles
    ensures Outcome(d, n, maxLogFiles, after) && Rotated(n) in after
  {
    var mid, all, r := Renamed(d, n), OldLogs(d), Rotated(n);
    RenamedLogs(d, n);
    var newest := ChooseNewest(d, all, if |all| < maxLogFiles then |all| else maxLogFiles - 1);
    var kept := newest + {r};
    forall gone, f | gone in OldLogs(mid) - kept && f in kept ensures mid[gone].modified <= mid[f].modified {
      if f == r {
        NoneNewerGoes(d, newest, maxLogFiles, gone);
      }
    }
    assert |kept| == |newest| + 1;
    after := KeepOnly(mid, kept);
    KeepOnlyCleans(mid, kept, maxLogFiles);
    CleansToIff(mid, after, maxLogFiles);
  }

  /** The log just rotated is certain to be kept, with its contents, if and only if fewer than
      `max_log_files` old logs are as recent as it is; and certain to be lost if and only if that
      many are strictly more recent. In between, the order in which the directory is read decides. */
  lemma RotatedLogSurvivesIff(d: Directory, n: nat, maxLogFiles: nat)
    requires LOG_FILE in d && Rotated(n) !in d
    ensures (forall after | Outcome(d, n, maxLogFiles, after) ::
               Rotated(n) in after && after[Rotated(n)] == d[LOG_FILE])
       <==> |Rivals(d)| < maxLogFiles
    ensures (forall after | Outcome(d, n, maxLogFiles, after) :: Rotated(n) !in after) <==> |Newer(d)| >= maxLogFiles
  {
    forall after | Outcome(d, n, maxLogFiles, after)
      ensures |Rivals(d)| < maxLogFiles ==> Rotated(n) in after && after[Rotated(n)] == d[LOG_FILE]
      ensures |Newer(d)| >= maxLogFiles ==> Rotated(n) !in after
    {
      CleansToIff(Renamed(d, n), after, maxLogFiles);
      RotatedLogSurvives(d, n, after, maxLogFiles);
    }
    if |Rivals(d)| >= maxLogFiles {
      var after := RotatedMayGo(d, n, maxLogFiles);
    }
    if |Newer(d)| < maxLogFiles {
      var after := RotatedMayStay(d, n, maxLogFiles);
    }
  }

  lemma ListsTwo(d: Directory, a: string, b: string, time: nat)
    requires OldLogs(d) == {a, b} && a != b && d[a].modified == time && d[b].modified == time
    ensures Lists([LogEntry(a, time), LogEntry(b, time)], d)
  {
    var listing := [LogEntry(a, time), LogEntry(b, time)];
    assert listing[0].path == a && listing[1].path == b;
    assert IsListed(listing, a) && IsListed(listing, b);
  }

  // Two old logs of the same second, and room for one: the one read first goes.
  lemma FirstOfTwoGoes(d: Directory, a: string, b: string, time: nat)
    ensures Dropped(d, Sort([LogEntry(a, time), LogEntry(b, time)]), 1) == d - {a}
  {
    var listing := [LogEntry(a, time), LogEntry(b, time)];
    SortOfSorted(listing);
    DroppedOne(d, listing);
  }

  lemma DroppedOne(d: Directory, entries: seq<LogEntry>)
    requires |entries| == 2
    ensures Dropped(d, entries, 1) == d - {entries[0].path}
  {
    assert Dropped(d, entries, 1) == Dropped(d - {entries[0].path}, entries[1..], 1);
  }

  // One rotated log of the same second and room for one. When the scan yields the log just rotated
  // first, it is the one removed.
  lemma RotatedLogRemoved() returns (d: Directory, listing: seq<LogEntry>, after: Directory)
    ensures d == map[LOG_FILE := File(0xA0_0000, 5), Rotated(1) := File(1, 5)] && IsLowestFree(d, 2)
    ensures listing == [LogEntry(Rotated(2), 5), LogEntry(Rotated(1), 5)] && Lists(listing, Renamed(d, 2))
    ensures after == Dropped(Renamed(d, 2), Sort(listing), 1) && Rotated(2) !in after
  {
    d := map[LOG_FILE := File(0xA0_0000, 5), Rotated(1) := File(1, 5)];
    listing := [LogEntry(Rotated(2), 5), LogEntry(Rotated(1), 5)];
    RotatedIsOldLog(1);
    RotatedIsOldLog(2);
    if Rotated(2) == Rotated(1) {
      RotatedInjective(2, 1);
    }
    RenamedLogs(d, 2);
    assert OldLogs(d) == {Rotated(1)};
    assert OldLogs(Renamed(d, 2)) == {Rotated(2), Rotated(1)};
    ListsTwo(Renamed(d, 2), Rotated(2), Rotated(1), 5);
    FirstOfTwoGoes(Renamed(d, 2), Rotated(2), Rotated(1), 5);
    after := Renamed(d, 2) - {Rotated(2)};
  }
}
