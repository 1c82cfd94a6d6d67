/**
  What a clean install may delete and what it must keep, and what each of its steps does
  to the card.
*/
module CleanupRules {
  import opened CardTree

  // ----- what must survive -----

  predicate OccursAt(s: string, t: string, i: int) {
    0 <= i <= |s| - |t| && s[i..i + |t|] == t
  }

  // strstr
  predicate Contains(s: string, t: string) {
    exists i :: 0 <= i <= |s| && OccursAt(s, t, i)
  }

  const KEPT_FOLDERS: seq<string> :=
    ["/switch/checkpoint/saves", "/switch/edizon/saves", "/switch/tinfoil/themes"]

  const KEPT_FILES: seq<string> :=
    ["/switch/retroarch_switch.nro", "/switch/tinfoil/credentials.json", "/switch/tinfoil/gdrive.token",
     "/switch/tinfoil/locations.conf", "/switch/tinfoil/options.json"]

  const SKIPPED: seq<string> :=
    ["/apgtmppackfolder", "/backup", "/emummc", "/emutendo", "/jksv", "/nintendo", "/retroarch", "/roms",
     "/switch/checkpoint/saves", "/switch/tinfoil/themes"]

  predicate Protected(p: string) {
    p in KEPT_FILES || exists i :: 0 <= i < |KEPT_FOLDERS| && Contains(p, KEPT_FOLDERS[i])
  }

  // A substring, wherever it is.
  lemma ContainsIs(s: string, t: string)
    ensures Contains(s, t) <==> exists a, b :: s == a + t + b
  {
    if Contains(s, t) {
      var i :| 0 <= i <= |s| && OccursAt(s, t, i);
      assert s == s[..i] + t + s[i + |t|..];
    }
    if exists a, b :: s == a + t + b {
      var a, b :| s == a + t + b;
      assert OccursAt(s, t, |a|) by { assert (a + t + b)[|a|..|a| + |t|] == t; }
    }
  }

  // The files that must survive, by name.
  lemma ProtectedNames(p: string)
    ensures Protected(p) <==>
            || p == "/switch/retroarch_switch.nro" || p == "/switch/tinfoil/credentials.json"
            || p == "/switch/tinfoil/gdrive.token" || p == "/switch/tinfoil/locations.conf" || p == "/switch/tinfoil/options.json"
            || Contains(p, "/switch/checkpoint/saves") || Contains(p, "/switch/edizon/saves") || Contains(p, "/switch/tinfoil/themes")
  {
    hide Contains;
    assert KEPT_FOLDERS[0] == "/switch/checkpoint/saves" && KEPT_FOLDERS[1] == "/switch/edizon/saves" && KEPT_FOLDERS[2] == "/switch/tinfoil/themes";
  }

  // canDeleteFolder
  method CanDeleteFolder(cPath: string) returns (res: bool)
    ensures res <==> cPath !in SKIPPED
  {
    res := true;
    for i := 0 to |SKIPPED|
      invariant res && cPath !in SKIPPED[..i]
    {
      if SKIPPED[i] == cPath {
        return false;
      }
    }
  }

  // canDeleteFile
  method CanDeleteFile(cPath: string) returns (res: bool)
    ensures res <==> !Protected(cPath)
  {
    res := true;
    for i := 0 to |KEPT_FILES|
      invariant res && cPath !in KEPT_FILES[..i]
    {
      if KEPT_FILES[i] == cPath {
        return false;
      }
    }
    for i := 0 to |KEPT_FOLDERS|
      invariant res && forall j :: 0 <= j < i ==> !Contains(cPath, KEPT_FOLDERS[j])
    {
      if Contains(cPath, KEPT_FOLDERS[i]) {
        return false;
      }
    }
  }

  // A protected file of the card c0 is, on the card c, where it was or in the staging folder.
  ghost predicate Kept(c0: Card, c: Card, p: string) {
    p in c0 && c0[p].File? && Protected(p) && !Staged(p) ==>
      (p in c && c[p] == c0[p]) || (STAGE + p in c && c[STAGE + p] == c0[p])
  }

  // The staged place of a protected file.
  ghost predicate Slot(c: Card, q: string) {
    |STAGE| < |q| &&
    var p := q[|STAGE|..]; p in c && c[p].File? && Protected(p) && !Staged(p)
  }

  // In the staging folder nothing is lost but what gives way to a protected file, and no
  // directory with a dot in its path is added.
  ghost predicate StageSafe(c0: Card, c: Card) {
    && (forall q :: q in c0 && Staged(q) && q != STAGE && !Slot(c0, q) ==> q in c && c[q] == c0[q])
    && (forall q :: q in c && Staged(q) && c[q].Dir? && '.' in q ==> q in c0 && c0[q].Dir?)
  }

  ghost predicate Safe(c0: Card, c: Card) {
    && WellFormed(c0) && WellFormed(c) && StageSafe(c0, c)
    && (forall p :: p in c && !Staged(p) ==> p in c0 && c[p] == c0[p])
    && (forall p :: p in c0 ==> Kept(c0, c, p))
  }

  lemma SafeAtFirst(c: Card)
    requires WellFormed(c)
    ensures Safe(c, c)
  {
    hide WellFormed, Slot, Protected;
  }

  // In names: each of these files, unless it lies in the staging folder, has its contents where
  // it was or below the staging folder.
  lemma NamedFilesKept(c0: Card, c: Card, p: string)
    requires Safe(c0, c) && p in c0 && c0[p].File? && !Under("/apgtmppackfolder", p) && p != "/apgtmppackfolder"
    requires || p == "/switch/retroarch_switch.nro" || p == "/switch/tinfoil/credentials.json"
             || p == "/switch/tinfoil/gdrive.token" || p == "/switch/tinfoil/locations.conf" || p == "/switch/tinfoil/options.json"
             || Contains(p, "/switch/checkpoint/saves") || Contains(p, "/switch/edizon/saves") || Contains(p, "/switch/tinfoil/themes")
    ensures (p in c && c[p] == c0[p]) || ("/apgtmppackfolder" + p in c && c["/apgtmppackfolder" + p] == c0[p])
  {
    hide Contains, Protected, StageSafe, WellFormed, Under;
    ProtectedNames(p);
    assert Kept(c0, c, p);
  }

  // ----- each operation is safe -----

  lemma UnlinkStageSafe(c0: Card, c: Card, p: string)
    requires StageSafe(c0, c) && (!Staged(p) || p == STAGE || Slot(c0, p))
    ensures StageSafe(c0, c - {p})
  {
    hide Staged, Slot;
  }

  lemma AddStageSafe(c0: Card, c: Card, p: string, x: Node)
    requires StageSafe(c0, c) && p !in c && (x.Dir? ==> '.' !in p)
    ensures StageSafe(c0, c[p := x])
  {
    hide Staged, Slot;
  }

  lemma SlotIs(c: Card, p: string)
    requires p in c && c[p].File? && Protected(p) && !Staged(p) && p != ""
    ensures Slot(c, STAGE + p)
  {
    hide Protected, Staged;
    assert (STAGE + p)[|STAGE|..] == p;
  }

  // Deleting an unprotected file or an empty directory outside the staging folder.
  lemma UnlinkSafe(c0: Card, c: Card, p: string)
    requires Safe(c0, c) && p in c && !Staged(p)
    requires if c[p].Dir? then Empty(c, p) else !Protected(p)
    ensures Safe(c0, c - {p})
  {
    hide Protected, GoodPath, Empty, Staged, ParentsIn, StageSafe, Slot;
    UnlinkWellFormed(c, p);
    UnlinkStageSafe(c0, c, p);
    forall q | q in c0 ensures Kept(c0, c - {p}, q) {
      assert Kept(c0, c, q);
      CopyIsStaged(q);
    }
  }

  // Deleting a file that has the name of the staging folder.
  lemma UnlinkStageFileSafe(c0: Card, c: Card)
    requires Safe(c0, c) && STAGE in c && c[STAGE].File?
    ensures Safe(c0, c - {STAGE})
  {
    hide Protected, Empty, Lower, StageSafe, Slot;
    UnlinkWellFormed(c, STAGE);
    UnlinkStageSafe(c0, c, STAGE);
    forall q | q in c0 ensures Kept(c0, c - {STAGE}, q) {
      assert Kept(c0, c, q);
      assert GoodPath(q);
      var p := STAGE + q;
      assert p[..|STAGE|] == STAGE && p[|STAGE|] == '/';
      assert p in c ==> ParentsIn(c, p);
    }
  }

  // Deleting the staged copy of a file that is still in place.
  lemma UnlinkCopySafe(c0: Card, c: Card, p: string)
    requires Safe(c0, c) && p in c && c[p].File? && Protected(p) && !Staged(p) && STAGE + p in c
    requires c[STAGE + p].Dir? ==> Empty(c, STAGE + p)
    ensures Safe(c0, c - {STAGE + p})
  {
    hide Protected, GoodPath, Empty, Staged, ParentsIn, StageSafe, Slot;
    RootNotIn(c);
    UnlinkWellFormed(c, STAGE + p);
    CopyIsStaged(p);
    SlotIs(c0, p);
    UnlinkStageSafe(c0, c, STAGE + p);
    forall q | q in c0 ensures Kept(c0, c - {STAGE + p}, q) {
      assert Kept(c0, c, q);
      CopyApart(p, q);
    }
  }

  lemma MkdirSafe(c0: Card, c: Card, p: string)
    requires Safe(c0, c) && p !in c && Staged(p) && GoodPath(p) && ParentsIn(c, p) && '.' !in p
    ensures Safe(c0, c[p := Dir])
  {
    hide Protected, GoodPath, Staged, ParentsIn, StageSafe;
    AddWellFormed(c, p, Dir);
    AddStageSafe(c0, c, p, Dir);
    forall q | q in c0 ensures Kept(c0, c[p := Dir], q) {
      assert Kept(c0, c, q);
    }
  }

  // Moving a file to its place in the staging folder.
  lemma RenameSafe(c0: Card, c: Card, p: string)
    requires Safe(c0, c) && p in c && c[p].File? && !Staged(p) && STAGE + p !in c
    requires GoodPath(STAGE + p) && ParentsIn(c, STAGE + p)
    ensures Safe(c0, (c - {p})[STAGE + p := c[p]])
  {
    hide Protected, GoodPath, Staged, ParentsIn, StageSafe, Slot;
    var c1 := c - {p};
    UnlinkStageSafe(c0, c, p);
    AddStageSafe(c0, c1, STAGE + p, c[p]);
    UnlinkWellFormed(c, p);
    ParentsStay(c, p);
    AddWellFormed(c1, STAGE + p, c[p]);
    CopyIsStaged(p);
    forall q | q in c0 ensures Kept(c0, c1[STAGE + p := c[p]], q) {
      assert Kept(c0, c, q);
      CopyApart(p, q);
      CopyIsStaged(q);
    }
  }

  // No file at the root is protected.
  lemma RootUnprotected(n: string)
    requires Token(n)
    ensures !Protected("/" + n)
  {
    var p := "/" + n;
    assert forall i :: 0 < i < |p| ==> p[i] == n[i - 1];
    assert forall i :: 0 <= i < |KEPT_FOLDERS| ==> |KEPT_FOLDERS[i]| > 7 && KEPT_FOLDERS[i][7] == '/';
    forall i, j | 0 <= i < |KEPT_FOLDERS| ensures !OccursAt(p, KEPT_FOLDERS[i], j) {
      var t := KEPT_FOLDERS[i];
      if 0 <= j <= |p| - |t| { assert p[j..j + |t|][7] == p[j + 7]; }
    }
    assert forall i :: 0 <= i < |KEPT_FILES| ==> |KEPT_FILES[i]| > 7 && KEPT_FILES[i][7] == '/';
  }

  lemma StageUnprotected()
    ensures !Protected(STAGE)
  {
  }

  // ----- what changes and what stays -----

  // Outside the staging folder, d has nothing that c has not.
  ghost predicate Shrinks(c: Card, d: Card) {
    forall q :: q in d && !Staged(q) ==> q in c && d[q] == c[q]
  }

  // d still has everything of c that is neither p nor below p nor staged.
  ghost predicate Spares(c: Card, d: Card, p: string) {
    forall q :: q in c && !Staged(q) && q != p && !Under(p, q) ==> q in d && d[q] == c[q]
  }

  lemma Unchanged(c: Card, p: string)
    ensures Shrinks(c, c) && Spares(c, c, p)
  {
  }

  lemma Together(c: Card, d: Card, e: Card, p: string)
    requires Shrinks(c, d) && Spares(c, d, p) && Shrinks(d, e) && Spares(d, e, p)
    ensures Shrinks(c, e) && Spares(c, e, p)
  {
  }

  lemma SparesWider(c: Card, d: Card, k: string, n: string)
    requires Spares(c, d, k + ("/" + n))
    ensures Spares(c, d, k)
  {
  }

  lemma FileGone(c: Card, p: string)
    ensures Shrinks(c, c - {p}) && Spares(c, c - {p}, p)
  {
  }

  lemma DirRemoved(c0: Card, c: Card, k: string)
    requires Shrinks(c0, c) && Spares(c0, c, k) && k in c0 && c0[k].Dir? && !Staged(k)
    ensures Shrinks(c0, c - {k}) && Spares(c0, c - {k}, k) && (k in c ==> c[k].Dir?)
  {
  }
}
