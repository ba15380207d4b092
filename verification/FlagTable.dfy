/** partition.cpp, tw_flags: the table of the flags that a partition of the fstab can have. */
module FlagTable {
  import opened FlagParser

  const TwFlags: seq<Entry> := [
    Entry("andsec", 1),
    Entry("backup", 2),
    Entry("backupname=", 3),
    Entry("blocksize=", 4),
    Entry("canbewiped", 5),
    Entry("canencryptbackup", 6),
    Entry("defaults", 0),
    Entry("display=", 7),
    Entry("encryptable=", 8),
    Entry("fileencryption=", 9),
    Entry("flashimg", 10),
    Entry("forceencrypt=", 11),
    Entry("fsflags=", 12),
    Entry("hidden", 13),
    Entry("ignoreblkid", 14),
    Entry("length=", 15),
    Entry("mounttodecrypt", 16),
    Entry("removable", 17),
    Entry("retainlayoutversion", 18),
    Entry("settingsstorage", 19),
    Entry("storage", 20),
    Entry("storagename=", 21),
    Entry("subpartitionof=", 22),
    Entry("symlink=", 23),
    Entry("userdataencryptbackup", 24),
    Entry("usermrf", 25),
    Entry("wipeduringfactoryreset", 26),
    Entry("wipeingui", 27),
    Entry("slotselect", 28),
    Entry("wait", 29),
    Entry("verify", 30),
    Entry("check", 31),
    Entry("altdevice", 32),
    Entry("notrim", 33),
    Entry("voldmanaged=", 34),
    Entry("formattable", 35),
    Entry("resize", 36),
    Entry("keydirectory=", 37),
    Entry("wrappedkey", 38)
  ]

  /** The stems differ in their length and their first two characters. */
  function Key(s: string): int {
    if |s| < 2 then 0 else (|s| * 256 + s[0] as int) * 256 + s[1] as int
  }

  /** Where a stem with this key stands in the table */
  function PlaceOf(key: int): int {
    if key == 418158 then 0
    else if key == 418401 then 1
    else if key == 680545 then 2
    else if key == 615020 then 3
    else if key == 680801 then 4
    else if key == 1074017 then 5
    else if key == 549989 then 6
    else if key == 484457 then 7
    else if key == 746862 then 8
    else if key == 943721 then 9
    else if key == 550508 then 10
    else if key == 812655 then 11
    else if key == 484979 then 12
    else if key == 419945 then 13
    else if key == 747879 then 14
    else if key == 420965 then 15
    else if key == 945519 then 16
    else if key == 619109 then 17
    else if key == 1274469 then 18
    else if key == 1012581 then 19
    else if key == 488308 then 20
    else if key == 750452 then 21
    else if key == 947061 then 22
    else if key == 488313 then 23
    else if key == 1406323 then 24
    else if key == 488819 then 25
    else if key == 1472361 then 26
    else if key == 620393 then 27
    else if key == 684908 then 28
    else if key == 292705 then 29
    else if key == 423525 then 30
    else if key == 353128 then 31
    else if key == 614764 then 32
    else if key == 421487 then 33
    else if key == 751215 then 34
    else if key == 747119 then 35
    else if key == 422501 then 36
    else if key == 813925 then 37
    else if key == 685938 then 38
    else -1
  }

  predicate Keyed(e: Entry, key: int) {
    GoodEntry(e) && Key(Stem(e)) == key
  }

  lemma KeysTellStemsApart(table: seq<Entry>, keys: seq<int>)
    requires |keys| == |table| && forall k | 0 <= k < |table| :: Keyed(table[k], keys[k]) && PlaceOf(keys[k]) == k
    ensures GoodTable(table)
  {
    hide PlaceOf, Key;
  }

  lemma Keyed0() ensures Keyed(Entry("andsec", 1), 418158) {}
  lemma Keyed1() ensures Keyed(Entry("backup", 2), 418401) {}
  lemma Keyed2() ensures Keyed(Entry("backupname=", 3), 680545) {}
  lemma Keyed3() ensures Keyed(Entry("blocksize=", 4), 615020) {}
  lemma Keyed4() ensures Keyed(Entry("canbewiped", 5), 680801) {}
  lemma Keyed5() ensures Keyed(Entry("canencryptbackup", 6), 1074017) {}
  lemma Keyed6() ensures Keyed(Entry("defaults", 0), 549989) {}
  lemma Keyed7() ensures Keyed(Entry("display=", 7), 484457) {}
  lemma Keyed8() ensures Keyed(Entry("encryptable=", 8), 746862) {}
  lemma Keyed9() ensures Keyed(Entry("fileencryption=", 9), 943721) {}
  lemma Keyed10() ensures Keyed(Entry("flashimg", 10), 550508) {}
  lemma Keyed11() ensures Keyed(Entry("forceencrypt=", 11), 812655) {}
  lemma Keyed12() ensures Keyed(Entry("fsflags=", 12), 484979) {}
  lemma Keyed13() ensures Keyed(Entry("hidden", 13), 419945) {}
  lemma Keyed14() ensures Keyed(Entry("ignoreblkid", 14), 747879) {}
  lemma Keyed15() ensures Keyed(Entry("length=", 15), 420965) {}
  lemma Keyed16() ensures Keyed(Entry("mounttodecrypt", 16), 945519) {}
  lemma Keyed17() ensures Keyed(Entry("removable", 17), 619109) {}
  lemma Keyed18() ensures Keyed(Entry("retainlayoutversion", 18), 1274469) {}
  lemma Keyed19() ensures Keyed(Entry("settingsstorage", 19), 1012581) {}
  lemma Keyed20() ensures Keyed(Entry("storage", 20), 488308) {}
  lemma Keyed21() ensures Keyed(Entry("storagename=", 21), 750452) {}
  lemma Keyed22() ensures Keyed(Entry("subpartitionof=", 22), 947061) {}
  lemma Keyed23() ensures Keyed(Entry("symlink=", 23), 488313) {}
  lemma Keyed24() ensures Keyed(Entry("userdataencryptbackup", 24), 1406323) {}
  lemma Keyed25() ensures Keyed(Entry("usermrf", 25), 488819) {}
  lemma Keyed26() ensures Keyed(Entry("wipeduringfactoryreset", 26), 1472361) {}
  lemma Keyed27() ensures Keyed(Entry("wipeingui", 27), 620393) {}
  lemma Keyed28() ensures Keyed(Entry("slotselect", 28), 684908) {}
  lemma Keyed29() ensures Keyed(Entry("wait", 29), 292705) {}
  lemma Keyed30() ensures Keyed(Entry("verify", 30), 423525) {}
  lemma Keyed31() ensures Keyed(Entry("check", 31), 353128) {}
  lemma Keyed32() ensures Keyed(Entry("altdevice", 32), 614764) {}
  lemma Keyed33() ensures Keyed(Entry("notrim", 33), 421487) {}
  lemma Keyed34() ensures Keyed(Entry("voldmanaged=", 34), 751215) {}
  lemma Keyed35() ensures Keyed(Entry("formattable", 35), 747119) {}
  lemma Keyed36() ensures Keyed(Entry("resize", 36), 422501) {}
  lemma Keyed37() ensures Keyed(Entry("keydirectory=", 37), 813925) {}
  lemma Keyed38() ensures Keyed(Entry("wrappedkey", 38), 685938) {}

  /** The table of the source is one to which the results about flag lists apply. */
  lemma TwFlagsAreGood()
    ensures GoodTable(TwFlags)
  {
    hide Keyed, GoodTable, PlaceOf;
    Keyed0(); Keyed1(); Keyed2(); Keyed3(); Keyed4(); Keyed5(); Keyed6(); Keyed7();
    Keyed8(); Keyed9(); Keyed10(); Keyed11(); Keyed12(); Keyed13(); Keyed14(); Keyed15();
    Keyed16(); Keyed17(); Keyed18(); Keyed19(); Keyed20(); Keyed21(); Keyed22(); Keyed23();
    Keyed24(); Keyed25(); Keyed26(); Keyed27(); Keyed28(); Keyed29(); Keyed30(); Keyed31();
    Keyed32(); Keyed33(); Keyed34(); Keyed35(); Keyed36(); Keyed37(); Keyed38();
    var keys := [
      418158, 418401, 680545, 615020, 680801, 1074017, 549989, 484457, 746862, 943721,
      550508, 812655, 484979, 419945, 747879, 420965, 945519, 619109, 1274469, 1012581,
      488308, 750452, 947061, 488313, 1406323, 488819, 1472361, 620393, 684908, 292705,
      423525, 353128, 614764, 421487, 751215, 747119, 422501, 813925, 685938
    ];
    assert forall k | 0 <= k < |TwFlags| :: Keyed(TwFlags[k], keys[k]);
    KeyPlaces(keys);
    KeysTellStemsApart(TwFlags, keys);
  }

  lemma KeyPlaces(keys: seq<int>)
    requires keys == [
      418158, 418401, 680545, 615020, 680801, 1074017, 549989, 484457, 746862, 943721,
      550508, 812655, 484979, 419945, 747879, 420965, 945519, 619109, 1274469, 1012581,
      488308, 750452, 947061, 488313, 1406323, 488819, 1472361, 620393, 684908, 292705,
      423525, 353128, 614764, 421487, 751215, 747119, 422501, 813925, 685938
    ]
    ensures forall k | 0 <= k < |keys| :: PlaceOf(keys[k]) == k
  {
  }
}
