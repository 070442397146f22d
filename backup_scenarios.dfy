/** Concrete directory snapshots and what the locator returns for them. */
module BackupScenarios {
  import opened Wrappers
  import opened BackupName
  import opened BackupLocator

  /** `app-100.db` parses to epoch 100. */
  lemma App100()
    ensures ParseBackupName("app-100.db") == Some(100)
  {
    assert "app-100.db" == Prefix + "100" + Suffix;
    ParseAcceptsConvention("100");
    assert "100"[..2] == "10";
    assert "10"[..1] == "1";
    assert "1"[..0] == "";
  }

  /** `app-200.db` parses to epoch 200. */
  lemma App200()
    ensures ParseBackupName("app-200.db") == Some(200)
  {
    assert "app-200.db" == Prefix + "200" + Suffix;
    ParseAcceptsConvention("200");
    assert "200"[..2] == "20";
    assert "20"[..1] == "2";
    assert "2"[..0] == "";
  }

  /** `app-007.db` parses to epoch 7. */
  lemma App007()
    ensures ParseBackupName("app-007.db") == Some(7)
  {
    assert "app-007.db" == Prefix + "007" + Suffix;
    ParseAcceptsConvention("007");
    assert "007"[..2] == "00";
    assert "00"[..1] == "0";
    assert "0"[..0] == "";
  }

  /** `app-7.db` parses to epoch 7. */
  lemma App7()
    ensures ParseBackupName("app-7.db") == Some(7)
  {
    assert "app-7.db" == Prefix + "7" + Suffix;
    ParseAcceptsConvention("7");
    assert "7"[..0] == "";
  }

  /** `notes.txt` does not follow the convention. */
  lemma NotesTxtRejected()
    ensures ParseBackupName("notes.txt") == None
  {
    assert "notes.txt"[..|Prefix|][0] != Prefix[0];
    WrongPrefixRejected("notes.txt");
  }

  /** `random.db` does not follow the convention. */
  lemma RandomDbRejected()
    ensures ParseBackupName("random.db") == None
  {
    assert "random.db"[..|Prefix|][0] != Prefix[0];
    WrongPrefixRejected("random.db");
  }

  /** Of `app-100.db` and `app-200.db`, the larger epoch wins, even with the older modification time. */
  lemma LargerEpochWins(now: real)
    ensures Locate(true, [Entry("app-100.db", true, 500.0), Entry("app-200.db", true, 1.0)], now)
         == Found("app-200.db", Age(now, 200.0))
  {
    App100();
    App200();
    var listing := [Entry("app-100.db", true, 500.0), Entry("app-200.db", true, 1.0)];
    assert IsNamedFile(listing[1]);
    var i := LocateNamed(listing, now);
  }

  /** A conforming name beats a non-conforming file modified much later. */
  lemma ConventionBeatsMtime(now: real)
    ensures Locate(true, [Entry("app-100.db", true, 0.0), Entry("notes.txt", true, 9000000000.0)], now)
         == Found("app-100.db", Age(now, 100.0))
  {
    App100();
    var listing := [Entry("app-100.db", true, 0.0), Entry("notes.txt", true, 9000000000.0)];
    NotesTxtRejected();
    assert IsNamedFile(listing[0]);
    var i := LocateNamed(listing, now);
  }

  /** In this listing no name conforms, and `notes.txt` is the latest modified file. */
  lemma UnnamedListing()
    ensures var listing := [Entry("random.db", true, 10.0), Entry("notes.txt", true, 20.0)];
      listing[0].isFile
      && (forall j :: 0 <= j < |listing| ==> !IsNamedFile(listing[j]))
      && IsLatestModified(listing, 1)
  {
    RandomDbRejected();
    NotesTxtRejected();
  }

  /** Without a conforming name, the latest modified file is returned, aged from its modification time. */
  lemma FallbackToMtime(now: real)
    ensures Locate(true, [Entry("random.db", true, 10.0), Entry("notes.txt", true, 20.0)], now)
         == Found("notes.txt", Age(now, 20.0))
  {
    var listing := [Entry("random.db", true, 10.0), Entry("notes.txt", true, 20.0)];
    UnnamedListing();
    var i := LocateFallback(listing, now);
    LatestModifiedUnique(listing, i, 1);
  }

  /** A directory entry named like a backup is not a candidate. */
  lemma SubdirectoryIgnored(now: real)
    ensures Locate(true, [Entry("app-300.db", false, 0.0), Entry("app-100.db", true, 0.0)], now)
         == Found("app-100.db", Age(now, 100.0))
  {
    App100();
    var listing := [Entry("app-300.db", false, 0.0), Entry("app-100.db", true, 0.0)];
    assert IsNamedFile(listing[1]);
    var i := LocateNamed(listing, now);
  }

  /** Two names with the same epoch: the one listed first is returned. */
  lemma TieGoesToFirstListed(now: real)
    ensures Locate(true, [Entry("app-007.db", true, 0.0), Entry("app-7.db", true, 0.0)], now)
         == Found("app-007.db", Age(now, 7.0))
  {
    App007();
    App7();
    var listing := [Entry("app-007.db", true, 0.0), Entry("app-7.db", true, 0.0)];
    assert IsNamedFile(listing[1]);
    var i := LocateNamed(listing, now);
  }

  /** A backup dated in the future has age zero. */
  lemma FutureBackupHasAgeZero()
    ensures Locate(true, [Entry("app-200.db", true, 0.0)], 100.0) == Found("app-200.db", 0)
  {
    App200();
    var listing := [Entry("app-200.db", true, 0.0)];
    assert IsNamedFile(listing[0]);
    var i := LocateNamed(listing, 100.0);
  }
}
