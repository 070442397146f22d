/**
 * The backup locator `get_last_backup_info` of app/app.py:28-60. The directory
 * is given as a snapshot: whether it exists, and its listing in the order
 * `os.listdir` returns it, each entry with the result of `os.path.isfile` and
 * of `os.path.getmtime` for its path. The clock reading is a parameter.
 */
module BackupLocator {
  import opened Wrappers
  import opened BackupName
  import opened Selection

  /** One directory entry: its name, whether it is a regular file, its modification time in seconds. */
  datatype Entry = Entry(name: string, isFile: bool, mtime: real)

  /** A file whose name follows the convention, with the epoch its name encodes (the pair of app/app.py:48). */
  datatype NamedBackup = NamedBackup(epoch: nat, name: string)

  /** The pair the locator returns: `(None, None)` or a name and an age in whole seconds. */
  datatype BackupInfo = NotFound | Found(name: string, ageSeconds: nat)

  predicate IsNamedFile(e: Entry) {
    e.isFile && ParseBackupName(e.name).Some?
  }

  function EpochOf(e: Entry): nat
    requires ParseBackupName(e.name).Some?
  {
    ParseBackupName(e.name).value
  }

  function EpochKey(b: NamedBackup): real {
    b.epoch as real
  }

  function MtimeKey(e: Entry): real {
    e.mtime
  }

  /** The regular files of a listing, in listing order (the list `files` of app/app.py:32-36). */
  function Files(listing: seq<Entry>): (files: seq<Entry>)
    ensures forall e :: e in files <==> e in listing && e.isFile
  {
    if listing == [] then []
    else
      var last := listing[|listing| - 1];
      var rest := Files(listing[..|listing| - 1]);
      if last.isFile then rest + [last] else rest
  }

  /** The files whose names follow the convention, with their epochs, in order (the list `with_epoch` of app/app.py:44-48). */
  function NamedBackups(files: seq<Entry>): (named: seq<NamedBackup>)
    ensures forall k :: 0 <= k < |named| ==> ParseBackupName(named[k].name) == Some(named[k].epoch)
    ensures forall e :: e in files && ParseBackupName(e.name).Some? ==> NamedBackup(ParseBackupName(e.name).value, e.name) in named
    ensures forall b :: b in named ==> exists e :: e in files && e.name == b.name && ParseBackupName(e.name) == Some(b.epoch)
  {
    if files == [] then []
    else
      var last := files[|files| - 1];
      var rest := NamedBackups(files[..|files| - 1]);
      match ParseBackupName(last.name)
      case Some(epoch) => rest + [NamedBackup(epoch, last.name)]
      case None => rest
  }

  /** `int(max(0, now - reference))`: the elapsed whole seconds, clamped at zero. */
  function Age(now: real, reference: real): (age: nat)
    ensures now <= reference ==> age == 0
    ensures now > reference ==> age as real <= now - reference < age as real + 1.0
  {
    if now - reference > 0.0 then (now - reference).Floor else 0
  }

  /**
   * What `get_last_backup_info` returns for a directory snapshot and a clock reading:
   * `(None, None)` exactly when the directory is missing or has no regular file.
   */
  function Locate(dirExists: bool, listing: seq<Entry>, now: real): (info: BackupInfo)
    ensures info == NotFound <==> (!dirExists || forall j :: 0 <= j < |listing| ==> !listing[j].isFile)
  {
    FilesEmptyIff(listing);
    if !dirExists then NotFound
    else
      var files := Files(listing);
      if files == [] then NotFound
      else
        var withEpoch := NamedBackups(files);
        if withEpoch != [] then
          var newest := withEpoch[MaxIndex(withEpoch, EpochKey)];
          Found(newest.name, Age(now, newest.epoch as real))
        else
          var latest := files[MaxIndex(files, MtimeKey)];
          Found(latest.name, Age(now, latest.mtime))
  }

  /** The loop of app/app.py:32-36: keep the entries that are regular files. */
  method RegularFiles(listing: seq<Entry>) returns (files: seq<Entry>)
    ensures files == Files(listing)
  {
    files := [];
    for i := 0 to |listing|
      invariant files == Files(listing[..i])
    {
      assert listing[..i + 1][..i] == listing[..i];
      if listing[i].isFile {
        files := files + [listing[i]];
      }
    }
    assert listing[..|listing|] == listing;
  }

  /** The loop of app/app.py:44-48: pair each conforming name with its epoch. */
  method MatchBackups(files: seq<Entry>) returns (withEpoch: seq<NamedBackup>)
    ensures withEpoch == NamedBackups(files)
  {
    withEpoch := [];
    for i := 0 to |files|
      invariant withEpoch == NamedBackups(files[..i])
    {
      assert files[..i + 1][..i] == files[..i];
      var m := ParseBackupName(files[i].name);
      if m.Some? {
        withEpoch := withEpoch + [NamedBackup(m.value, files[i].name)];
      }
    }
    assert files[..|files|] == files;
  }

  /** `get_last_backup_info` (app/app.py:28-60). */
  method GetLastBackupInfo(dirExists: bool, listing: seq<Entry>, now: real) returns (info: BackupInfo)
    ensures info == Locate(dirExists, listing, now)
  {
    if !dirExists {
      return NotFound;
    }
    var files := RegularFiles(listing);
    if files == [] {
      return NotFound;
    }
    var withEpoch := MatchBackups(files);
    if withEpoch != [] {
      var newest := withEpoch[MaxIndex(withEpoch, EpochKey)];
      info := Found(newest.name, Age(now, newest.epoch as real));
      return;
    }
    var latest := files[MaxIndex(files, MtimeKey)];
    info := Found(latest.name, Age(now, latest.mtime));
  }

  // ---------- Reference definitions over the listing itself ----------

  /** Entry `i` is the first regular file of the listing with the largest epoch among the conforming names. */
  ghost predicate IsNewestNamed(listing: seq<Entry>, i: nat) {
    && i < |listing|
    && IsNamedFile(listing[i])
    && forall j :: 0 <= j < |listing| && IsNamedFile(listing[j]) ==>
         EpochOf(listing[j]) <= EpochOf(listing[i]) && (j < i ==> EpochOf(listing[j]) < EpochOf(listing[i]))
  }

  /** Entry `i` is the first regular file of the listing with the latest modification time. */
  ghost predicate IsLatestModified(listing: seq<Entry>, i: nat) {
    && i < |listing|
    && listing[i].isFile
    && forall j :: 0 <= j < |listing| && listing[j].isFile ==>
         listing[j].mtime <= listing[i].mtime && (j < i ==> listing[j].mtime < listing[i].mtime)
  }

  // ---------- Lemmas ----------

  lemma FilesSnoc(p: seq<Entry>, e: Entry)
    ensures Files(p + [e]) == if e.isFile then Files(p) + [e] else Files(p)
  {
    assert (p + [e])[..|p|] == p;
  }

  lemma NamedBackupsSnoc(p: seq<Entry>, e: Entry)
    ensures NamedBackups(p + [e]) ==
      match ParseBackupName(e.name)
      case Some(epoch) => NamedBackups(p) + [NamedBackup(epoch, e.name)]
      case None => NamedBackups(p)
  {
    assert (p + [e])[..|p|] == p;
  }

  /** A listing has no regular file exactly when its list of files is empty. */
  lemma {:induction false} FilesEmptyIff(listing: seq<Entry>)
    ensures Files(listing) == [] <==> forall j :: 0 <= j < |listing| ==> !listing[j].isFile
  {
    if listing != [] {
      var p := listing[..|listing| - 1];
      assert listing == p + [listing[|listing| - 1]];
      FilesEmptyIff(p);
    }
  }

  /** Without a conforming regular file, the list of named backups is empty. */
  lemma {:induction false} NoNamedFileNoBackups(listing: seq<Entry>)
    requires forall j :: 0 <= j < |listing| ==> !IsNamedFile(listing[j])
    ensures NamedBackups(Files(listing)) == []
  {
    if listing != [] {
      var p := listing[..|listing| - 1];
      var e := listing[|listing| - 1];
      assert listing == p + [e];
      NoNamedFileNoBackups(p);
      FilesSnoc(p, e);
      if e.isFile {
        NamedBackupsSnoc(Files(p), e);
      }
    }
  }

  /** Extending a listing by one conforming regular file keeps or moves the newest named entry. */
  lemma NewestNamedExtend(p: seq<Entry>, e: Entry, ip: nat)
    requires IsNewestNamed(p, ip) && IsNamedFile(e)
    ensures EpochOf(e) > EpochOf(p[ip]) ==> IsNewestNamed(p + [e], |p|)
    ensures EpochOf(e) <= EpochOf(p[ip]) ==> IsNewestNamed(p + [e], ip)
  {
  }

  /** Extending a listing by an entry that is not a conforming regular file keeps the newest named entry. */
  lemma NewestNamedKeep(p: seq<Entry>, e: Entry, ip: nat)
    requires IsNewestNamed(p, ip) && !IsNamedFile(e)
    ensures IsNewestNamed(p + [e], ip)
  {
  }

  /** The first conforming regular file of a listing is the newest named one so far. */
  lemma NewestNamedFirst(p: seq<Entry>, e: Entry)
    requires forall j :: 0 <= j < |p| ==> !IsNamedFile(p[j])
    requires IsNamedFile(e)
    ensures NamedBackups(Files(p + [e])) == [NamedBackup(EpochOf(e), e.name)]
    ensures IsNewestNamed(p + [e], |p|)
  {
    FilesSnoc(p, e);
    NoNamedFileNoBackups(p);
    NamedBackupsSnoc(Files(p), e);
    NewestNamedAlone(p, e);
  }

  /** A conforming regular file after none is the newest named entry. */
  lemma NewestNamedAlone(p: seq<Entry>, e: Entry)
    requires forall j :: 0 <= j < |p| ==> !IsNamedFile(p[j])
    requires IsNamedFile(e)
    ensures IsNewestNamed(p + [e], |p|)
  {
    assert forall j :: 0 <= j < |p| ==> (p + [e])[j] == p[j];
  }

  /** One more conforming regular file: the selection and the newest named entry move together. */
  lemma NewestNamedStep(p: seq<Entry>, e: Entry, ip: nat) returns (i: nat)
    requires IsNamedFile(e) && IsNewestNamed(p, ip)
    requires NamedBackups(Files(p)) != []
    requires var wp := NamedBackups(Files(p));
      wp[MaxIndex(wp, EpochKey)] == NamedBackup(EpochOf(p[ip]), p[ip].name)
    ensures NamedBackups(Files(p + [e])) != []
    ensures IsNewestNamed(p + [e], i)
    ensures var w := NamedBackups(Files(p + [e]));
      w[MaxIndex(w, EpochKey)] == NamedBackup(EpochOf((p + [e])[i]), (p + [e])[i].name)
  {
    FilesSnoc(p, e);
    NamedBackupsSnoc(Files(p), e);
    var wp := NamedBackups(Files(p));
    MaxIndexSnoc(wp, NamedBackup(EpochOf(e), e.name), EpochKey);
    NewestNamedExtend(p, e, ip);
    i := if EpochOf(e) > EpochOf(p[ip]) then |p| else ip;
  }

  /** One more entry that is not a conforming regular file changes neither the selection nor the newest named entry. */
  lemma NewestNamedSkip(p: seq<Entry>, e: Entry)
    requires !IsNamedFile(e)
    ensures NamedBackups(Files(p + [e])) == NamedBackups(Files(p))
  {
    FilesSnoc(p, e);
    if e.isFile {
      NamedBackupsSnoc(Files(p), e);
    }
  }

  /** The conforming name `max(with_epoch, key=epoch)` picks is the newest named regular file of the listing. */
  lemma {:induction false} NewestNamedSelected(listing: seq<Entry>) returns (i: nat)
    requires exists j :: 0 <= j < |listing| && IsNamedFile(listing[j])
    ensures NamedBackups(Files(listing)) != []
    ensures IsNewestNamed(listing, i)
    ensures var w := NamedBackups(Files(listing));
      w[MaxIndex(w, EpochKey)] == NamedBackup(EpochOf(listing[i]), listing[i].name)
  {
    var p := listing[..|listing| - 1];
    var e := listing[|listing| - 1];
    assert listing == p + [e];
    if !IsNamedFile(e) {
      NewestNamedSkip(p, e);
      var ip := NewestNamedSelected(p);
      NewestNamedKeep(p, e, ip);
      i := ip;
    } else if exists j :: 0 <= j < |p| && IsNamedFile(p[j]) {
      var ip := NewestNamedSelected(p);
      i := NewestNamedStep(p, e, ip);
    } else {
      NewestNamedFirst(p, e);
      i := |p|;
    }
  }

  /** Extending a listing by one regular file keeps or moves the latest modified entry. */
  lemma LatestModifiedExtend(p: seq<Entry>, e: Entry, ip: nat)
    requires IsLatestModified(p, ip) && e.isFile
    ensures e.mtime > p[ip].mtime ==> IsLatestModified(p + [e], |p|)
    ensures e.mtime <= p[ip].mtime ==> IsLatestModified(p + [e], ip)
  {
  }

  /** Extending a listing by an entry that is not a regular file keeps the latest modified entry. */
  lemma LatestModifiedKeep(p: seq<Entry>, e: Entry, ip: nat)
    requires IsLatestModified(p, ip) && !e.isFile
    ensures IsLatestModified(p + [e], ip)
  {
  }

  /** The file `max(files, key=getmtime)` picks is the latest modified regular file of the listing. */
  lemma {:induction false} LatestModifiedSelected(listing: seq<Entry>) returns (i: nat)
    requires exists j :: 0 <= j < |listing| && listing[j].isFile
    ensures Files(listing) != []
    ensures IsLatestModified(listing, i)
    ensures var f := Files(listing); f[MaxIndex(f, MtimeKey)] == listing[i]
  {
    var p := listing[..|listing| - 1];
    var e := listing[|listing| - 1];
    assert listing == p + [e];
    if !e.isFile {
      FilesSnoc(p, e);
      var ip := LatestModifiedSelected(p);
      LatestModifiedKeep(p, e, ip);
      i := ip;
    } else if exists j :: 0 <= j < |p| && p[j].isFile {
      var ip := LatestModifiedSelected(p);
      i := LatestModifiedStep(p, e, ip);
    } else {
      LatestModifiedFirst(p, e);
      i := |p|;
    }
  }

  /** The first regular file of a listing is the latest modified one so far. */
  lemma LatestModifiedFirst(p: seq<Entry>, e: Entry)
    requires forall j :: 0 <= j < |p| ==> !p[j].isFile
    requires e.isFile
    ensures Files(p + [e]) == [e]
    ensures IsLatestModified(p + [e], |p|)
  {
    FilesSnoc(p, e);
    FilesEmptyIff(p);
    LatestModifiedAlone(p, e);
  }

  /** A regular file after none is the latest modified entry. */
  lemma LatestModifiedAlone(p: seq<Entry>, e: Entry)
    requires forall j :: 0 <= j < |p| ==> !p[j].isFile
    requires e.isFile
    ensures IsLatestModified(p + [e], |p|)
  {
    assert forall j :: 0 <= j < |p| ==> (p + [e])[j] == p[j];
  }

  /** One more regular file: the selection and the latest modified entry move together. */
  lemma LatestModifiedStep(p: seq<Entry>, e: Entry, ip: nat) returns (i: nat)
    requires e.isFile && IsLatestModified(p, ip)
    requires Files(p) != [] && Files(p)[MaxIndex(Files(p), MtimeKey)] == p[ip]
    ensures Files(p + [e]) != []
    ensures IsLatestModified(p + [e], i)
    ensures var f := Files(p + [e]); f[MaxIndex(f, MtimeKey)] == (p + [e])[i]
  {
    FilesSnoc(p, e);
    MaxIndexSnoc(Files(p), e, MtimeKey);
    LatestModifiedExtend(p, e, ip);
    i := if e.mtime > p[ip].mtime then |p| else ip;
  }

  /**
   * When some regular file follows the convention, the result is the first such file
   * with the largest epoch, whatever the modification times, aged from its epoch.
   */
  lemma LocateNamed(listing: seq<Entry>, now: real) returns (i: nat)
    requires exists j :: 0 <= j < |listing| && IsNamedFile(listing[j])
    ensures IsNewestNamed(listing, i)
    ensures Locate(true, listing, now) == Found(listing[i].name, Age(now, EpochOf(listing[i]) as real))
  {
    var j :| 0 <= j < |listing| && IsNamedFile(listing[j]);
    FilesEmptyIff(listing);
    i := NewestNamedSelected(listing);
  }

  /**
   * When no regular file follows the convention, the result is the first regular file
   * with the latest modification time, aged from that time.
   */
  lemma LocateFallback(listing: seq<Entry>, now: real) returns (i: nat)
    requires exists j :: 0 <= j < |listing| && listing[j].isFile
    requires forall j :: 0 <= j < |listing| ==> !IsNamedFile(listing[j])
    ensures IsLatestModified(listing, i)
    ensures Locate(true, listing, now) == Found(listing[i].name, Age(now, listing[i].mtime))
  {
    FilesEmptyIff(listing);
    NoNamedFileNoBackups(listing);
    i := LatestModifiedSelected(listing);
  }

  /** A returned name is always the name of a regular file of the listing. */
  lemma LocateNameIsRegularFile(dirExists: bool, listing: seq<Entry>, now: real)
    requires Locate(dirExists, listing, now).Found?
    ensures exists i :: 0 <= i < |listing| && listing[i].isFile && listing[i].name == Locate(dirExists, listing, now).name
  {
    if exists j :: 0 <= j < |listing| && IsNamedFile(listing[j]) {
      var i := LocateNamed(listing, now);
    } else {
      var i := LocateFallback(listing, now);
    }
  }

  /** Two snapshots that differ only in modification times give the same result once some name conforms. */
  lemma LocateNamedIgnoresMtime(listing1: seq<Entry>, listing2: seq<Entry>, now: real)
    requires |listing1| == |listing2|
    requires forall j :: 0 <= j < |listing1| ==>
      listing1[j].name == listing2[j].name && listing1[j].isFile == listing2[j].isFile
    requires exists j :: 0 <= j < |listing1| && IsNamedFile(listing1[j])
    ensures Locate(true, listing1, now) == Locate(true, listing2, now)
  {
    var j :| 0 <= j < |listing1| && IsNamedFile(listing1[j]);
    assert IsNamedFile(listing2[j]);
    var i1 := LocateNamed(listing1, now);
    var i2 := LocateNamed(listing2, now);
    assert IsNewestNamed(listing1, i2);
    NewestNamedUnique(listing1, i1, i2);
  }

  /** At most one entry is the newest named one. */
  lemma NewestNamedUnique(listing: seq<Entry>, i1: nat, i2: nat)
    requires IsNewestNamed(listing, i1) && IsNewestNamed(listing, i2)
    ensures i1 == i2
  {
    assert EpochOf(listing[i1]) <= EpochOf(listing[i2]) <= EpochOf(listing[i1]);
  }

  /** At most one entry is the latest modified one. */
  lemma LatestModifiedUnique(listing: seq<Entry>, i1: nat, i2: nat)
    requires IsLatestModified(listing, i1) && IsLatestModified(listing, i2)
    ensures i1 == i2
  {
    assert listing[i1].mtime <= listing[i2].mtime <= listing[i1].mtime;
  }

  /** A later clock reading on the same snapshot names the same file and never a smaller age. */
  lemma LocateAgeMonotone(dirExists: bool, listing: seq<Entry>, now1: real, now2: real)
    requires now1 <= now2
    ensures Locate(dirExists, listing, now1).Found? == Locate(dirExists, listing, now2).Found?
    ensures Locate(dirExists, listing, now1).Found? ==>
      Locate(dirExists, listing, now1).name == Locate(dirExists, listing, now2).name
      && Locate(dirExists, listing, now1).ageSeconds <= Locate(dirExists, listing, now2).ageSeconds
  {
    if Locate(dirExists, listing, now1).Found? {
      var files := Files(listing);
      var withEpoch := NamedBackups(files);
      if withEpoch != [] {
        var ref := withEpoch[MaxIndex(withEpoch, EpochKey)].epoch as real;
        AgeMonotone(now1, now2, ref);
      } else {
        AgeMonotone(now1, now2, files[MaxIndex(files, MtimeKey)].mtime);
      }
    }
  }

  /** The age grows with the clock reading. */
  lemma AgeMonotone(now1: real, now2: real, reference: real)
    requires now1 <= now2
    ensures Age(now1, reference) <= Age(now2, reference)
  {
  }

  /** On whole-second readings the age is exactly `max(0, now - reference)`. */
  lemma AgeWholeSeconds(now: int, reference: int)
    ensures Age(now as real, reference as real) == if now > reference then now - reference else 0
  {
  }
}
