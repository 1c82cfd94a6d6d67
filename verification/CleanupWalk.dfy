/**
  The recursive walk over a directory and over the root: what it lists, what it leaves and
  what it moves aside.
*/
module CleanupWalk {
  import opened CardTree
  import opened CleanupRules
  import opened CleanupMove

  // ----- listing a directory -----

  ghost predicate Spells(spelling: string -> string) {
    forall n :: Lower(n) == n ==> Lower(spelling(n)) == n
  }

  // n names a member of directory k.
  ghost predicate IsEntry(c: Card, k: string, n: string) {
    Token(n) && k + ("/" + n) in c
  }

  ghost predicate Entries(c: Card, k: string, names: seq<string>) {
    forall i :: 0 <= i < |names| ==> IsEntry(c, k, Lower(names[i]))
  }

  ghost predicate Listed(k: string, names: seq<string>, q: string) {
    exists i :: 0 <= i < |names| && q == k + ("/" + Lower(names[i]))
  }

  // No name is listed twice.
  ghost predicate Distinct(names: seq<string>) {
    forall i, j :: 0 <= i < j < |names| ==> Lower(names[i]) != Lower(names[j])
  }

  lemma NoEntries(c: Card, k: string)
    ensures Entries(c, k, []) && Distinct([]) && forall q :: !Listed(k, [], q)
  {
  }

  lemma ListedMore(k: string, names: seq<string>, x: string)
    ensures forall r :: Listed(k, names + [x], r) <==> Listed(k, names, r) || r == k + ("/" + Lower(x))
  {
    hide Lower;
    var names' := names + [x];
    assert names'[|names|] == x;
    forall r | Listed(k, names, r) ensures Listed(k, names', r) {
      var i :| 0 <= i < |names| && r == k + ("/" + Lower(names[i]));
      assert names'[i] == names[i];
    }
  }

  lemma DistinctMore(k: string, names: seq<string>, x: string)
    requires Distinct(names) && !Listed(k, names, k + ("/" + Lower(x)))
    ensures Distinct(names + [x])
  {
    hide Lower;
    forall i | 0 <= i < |names| ensures Lower(names[i]) != Lower(x) {
      assert k + ("/" + Lower(names[i])) != k + ("/" + Lower(x));
    }
  }

  lemma EntriesMore(c: Card, k: string, names: seq<string>, x: string)
    requires Entries(c, k, names) && IsEntry(c, k, Lower(x))
    ensures Entries(c, k, names + [x])
  {
    hide Lower, IsEntry;
  }

  lemma EntryAdded(c: Card, k: string, q: string, names: seq<string>, spelling: string -> string)
    requires WellFormed(c) && q in c && Child(k, q) && Spells(spelling) && Entries(c, k, names)
    requires Distinct(names) && !Listed(k, names, q)
    ensures |q| > |k|
    ensures var names' := names + [spelling(q[|k| + 1..])];
            && Entries(c, k, names') && Distinct(names')
            && forall r :: Listed(k, names', r) <==> Listed(k, names, r) || r == q
  {
    hide Token, GoodPath, Lower, ParentsIn, Child, Entries, Distinct, Listed;
    assert GoodPath(q);
    ChildName(k, q);
    EntryToken(k, q);
    var n := q[|k| + 1..];
    TokenLower(n);
    var x := spelling(n);
    assert Lower(x) == n;
    EntriesMore(c, k, names, x);
    DistinctMore(k, names, x);
    ListedMore(k, names, x);
  }

  const BUFFER: int := 256

  // Every path of the old package fits the buffers, also behind the staging folder's name.
  ghost predicate FitsBuffer(c: Card) {
    forall q :: q in c && !Staged(q) ==> |STAGE + q| < BUFFER
  }

  // The buffers hold 256 characters, the staging folder's name takes 17 and the end of the string one.
  lemma FitsBufferIs(c: Card)
    ensures FitsBuffer(c) <==> forall q :: q in c && !Staged(q) ==> |q| <= 238
  {
    hide Staged;
  }

  // n names a member of directory k of card c, outside the staging folder.
  ghost predicate Entry(c: Card, k: string, n: string) {
    Token(n) && k + ("/" + n) in c && GoodPath(k + ("/" + n)) && !Staged(k + ("/" + n)) && !Staged(k)
  }

  lemma EntryIs(c: Card, k: string, n: string)
    requires Entry(c, k, n) && FitsBuffer(c)
    ensures var q := k + ("/" + n); GoodPath(q) && !Staged(q) && !Staged(k) && |STAGE + q| < BUFFER && |k| < |q|
  {
  }

  lemma EntryOf(c0: Card, c: Card, k: string, names: seq<string>, n: nat)
    requires n < |names| && Entries(c, k, names) && Shrinks(c0, c) && WellFormed(c) && !Staged(k) && k != ""
    ensures Entry(c0, k, Lower(names[n])) && forall j :: 0 <= j < |names| ==> Token(Lower(names[j]))
  {
    hide Staged, Token, GoodPath, Lower;
    assert IsEntry(c, k, Lower(names[n]));
    ChildNotStaged(k, Lower(names[n]));
    forall j | 0 <= j < |names| ensures Token(Lower(names[j])) { assert IsEntry(c, k, Lower(names[j])); }
  }

  // ----- emptying a directory -----

  // The buffer names the same path again, perhaps in lower case.
  predicate Restored(p: string, q: string) {
    p == q || p == Lower(q)
  }

  // What the cleanup may leave: directories that are not empty and, unless it is strict, protected files.
  ghost predicate Leftover(strict: bool, c: Card, q: string)
    requires q in c
  {
    if c[q].File? then Protected(q) && !strict else !Empty(c, q)
  }

  // Nothing else is left below p,
  ghost predicate Cleared(strict: bool, c: Card, p: string) {
    forall q :: q in c && Under(p, q) ==> Leftover(strict, c, q)
  }

  // nor p itself.
  ghost predicate Done(strict: bool, c: Card, p: string) {
    Cleared(strict, c, p) && (p in c ==> Leftover(strict, c, p))
  }

  lemma FileDone(reliable: bool, strict: bool, c: Card, d: Card, q: string)
    requires Empty(c, q) && Shrinks(c, d) && !Staged(q) && q != "" && (q in c ==> c[q].File?)
    requires reliable && q in d ==> Protected(q) && !strict
    ensures reliable ==> Done(strict, d, q)
  {
    hide Protected, Staged;
    forall r | r in d ensures !Under(q, r) {
      if Under(q, r) { UnderNotStaged(q, r); }
    }
  }

  // Work on another member of the directory leaves what is done.
  lemma StaysDone(strict: bool, c: Card, d: Card, k: string, m: string, n: string)
    requires Done(strict, c, k + ("/" + m)) && Shrinks(c, d) && Spares(c, d, k + ("/" + n))
    requires Token(m) && Token(n) && m != n && !Staged(k + ("/" + m))
    ensures Done(strict, d, k + ("/" + m))
  {
    hide Protected, Staged, Under, Token;
    var a := k + ("/" + m);
    forall q | q in d && (q == a || Under(a, q)) ensures Leftover(strict, d, q) {
      if q != a { UnderNotStaged(a, q); }
      if d[q].Dir? {
        var r :| r in c && Under(q, r);
        if q != a { Below(a, q, r); }
        UnderNotStaged(a, r);
        Apart(k, m, n, r);
      }
    }
  }

  ghost predicate AllDone(strict: bool, c: Card, k: string, names: seq<string>, n: nat)
    requires n <= |names|
  {
    forall j :: 0 <= j < n ==> Done(strict, c, k + ("/" + Lower(names[j])))
  }

  lemma NothingDone(strict: bool, c: Card, k: string, names: seq<string>)
    ensures AllDone(strict, c, k, names, 0)
  {
  }

  lemma OneMoreDone(strict: bool, c: Card, d: Card, k: string, names: seq<string>, n: nat)
    requires n < |names| && AllDone(strict, c, k, names, n) && Shrinks(c, d) && Spares(c, d, k + ("/" + Lower(names[n])))
    requires Done(strict, d, k + ("/" + Lower(names[n]))) && !Staged(k) && k != ""
    requires forall j :: 0 <= j < |names| ==> Token(Lower(names[j]))
    ensures AllDone(strict, d, k, names, n + 1)
  {
    hide Staged, Token, Shrinks, Spares, Lower, Done;
    forall j | 0 <= j < n ensures Done(strict, d, k + ("/" + Lower(names[j]))) {
      ChildNotStaged(k, Lower(names[j]));
      if Lower(names[j]) != Lower(names[n]) { StaysDone(strict, c, d, k, Lower(names[j]), Lower(names[n])); }
    }
  }

  lemma ChildrenDone(strict: bool, c0: Card, c: Card, k: string, names: seq<string>)
    requires WellFormed(c) && Shrinks(c0, c) && AllDone(strict, c, k, names, |names|) && !Staged(k) && k != ""
    requires forall q :: q in c0 && Child(k, q) ==> Listed(k, names, q)
    ensures Cleared(strict, c, k)
  {
    hide Staged, GoodPath, Lower, Protected, Empty;
    forall q | q in c && Under(k, q) ensures Leftover(strict, c, q) {
      MemberAbove(k, q);
      var n := Member(k, q);
      var a := k + ("/" + n);
      assert ParentsIn(c, q);
      assert a in c;
      assert Child(k, a) by { assert a[|k| + 1..] == n; }
      ChildNotStaged(k, n);
      assert Listed(k, names, a);
    }
  }

  // Deleting a cleared directory if it is empty finishes it.
  lemma ClearedDone(strict: bool, c: Card, k: string)
    requires Cleared(strict, c, k) && (k in c ==> c[k].Dir?)
    ensures Done(strict, c - {k}, k) && ((k in c && Empty(c, k)) || Done(strict, c, k))
  {
  }

  // ----- the root -----

  // A folder at the root that the cleanup does not enter.
  predicate Skip(c: Card, q: string) {
    q in SKIPPED && q in c && c[q].Dir?
  }

  // d has everything below the skipped folders of c.
  ghost predicate SkippedKept(c: Card, d: Card) {
    forall q :: q in c && !Staged(q) && q != "" && Skip(c, "/" + Member("", q)) ==> q in d && d[q] == c[q]
  }

  // Elsewhere d has nothing but protected files, and directories that are not empty.
  ghost predicate RootDone(strict: bool, c: Card, d: Card) {
    forall q :: q in d && !Staged(q) && q != "" && !Skip(c, "/" + Member("", q)) ==> Leftover(strict, d, q)
  }

  // The folders at the root that are skipped, by name.
  lemma SkippedNames(n: string)
    requires '/' !in n
    ensures "/" + n in SKIPPED <==> n in ["apgtmppackfolder", "backup", "emummc", "emutendo", "jksv", "nintendo", "retroarch", "roms"]
  {
    SlashInside(n);
    assert SKIPPED[0] == "/" + "apgtmppackfolder" && SKIPPED[1] == "/" + "backup" && SKIPPED[2] == "/" + "emummc";
    assert SKIPPED[3] == "/" + "emutendo" && SKIPPED[4] == "/" + "jksv" && SKIPPED[5] == "/" + "nintendo";
    assert SKIPPED[6] == "/" + "retroarch" && SKIPPED[7] == "/" + "roms";
    if "/" + n in SKIPPED {
      var i :| 0 <= i < |SKIPPED| && SKIPPED[i] == "/" + n;
      assert n == SKIPPED[i][1..];
    }
  }

  // Everything in them and below stays.
  lemma NamedFoldersKept(c: Card, d: Card, n: string, q: string)
    requires SkippedKept(c, d) && n in ["backup", "emummc", "emutendo", "jksv", "nintendo", "retroarch", "roms"]
    requires "/" + n in c && c["/" + n].Dir? && q in c && (q == "/" + n || Under("/" + n, q))
    ensures q in d && d[q] == c[q]
  {
    hide Under;
    assert '/' !in n && n != STAGE[1..] && n != "";
    SkippedNames(n);
    assert "" + ("/" + n) == "/" + n;
    hide Member;
    MemberIs("", n, q);
    NotTheStage(n, q);
  }

  lemma NotTheStage(n: string, q: string)
    requires '/' !in n && n != STAGE[1..] && (q == "/" + n || Under("/" + n, q))
    ensures !Staged(q) && q != ""
  {
    hide Staged;
    if Staged("/" + n) { RootStaged(n); }
    if q != "/" + n { UnderNotStaged("/" + n, q); }
  }

  lemma SlashInside(n: string)
    requires '/' !in n
    ensures "/" + n != "/switch/checkpoint/saves" && "/" + n != "/switch/tinfoil/themes"
  {
    assert "/switch/checkpoint/saves"[7] == '/' && "/switch/tinfoil/themes"[7] == '/';
    assert |n| > 6 ==> ("/" + n)[7] == n[6];
  }

  ghost predicate MembersDone(strict: bool, c0: Card, c: Card, names: seq<string>, n: nat)
    requires n <= |names|
  {
    forall j :: 0 <= j < n ==> MemberDone(strict, c0, c, "" + ("/" + Lower(names[j])))
  }

  ghost predicate MemberDone(strict: bool, c0: Card, c: Card, q: string) {
    q != STAGE && !Skip(c0, q) ==> Done(strict, c, q)
  }

  lemma NoMemberDone(strict: bool, c0: Card, c: Card, names: seq<string>)
    ensures MembersDone(strict, c0, c, names, 0)
  {
  }

  // The strict result implies the other.
  lemma RootDoneEither(strict: bool, c0: Card, c: Card)
    requires RootDone(strict, c0, c)
    ensures RootDone(false, c0, c)
  {
    hide Protected, Empty, Staged, Skip, Member;
  }

  lemma RootFits(c0: Card, c: Card, q: string)
    requires FitsBuffer(c0) && Shrinks(c0, c) && q in c && q !in SKIPPED && (Staged(q) ==> q == STAGE)
    ensures !Staged(q) && |q| < BUFFER
  {
  }

  lemma NothingSkipped(c: Card)
    ensures SkippedKept(c, c)
  {
  }

  lemma RootEntry(c: Card, names: seq<string>, n: nat)
    requires n < |names| && Entries(c, "", names)
    ensures Token(Lower(names[n])) && forall j :: 0 <= j < |names| ==> Token(Lower(names[j]))
  {
  }

  // The walk leaves what is below a skipped folder.
  lemma StaysSkipped(c0: Card, c: Card, d: Card, name: string)
    requires Token(Lower(name)) && Shrinks(c0, c) && SkippedKept(c0, c) && Shrinks(c, d)
    requires var child := "" + ("/" + Lower(name)); Spares(c, d, child) && (Skip(c, child) ==> d == c)
    ensures Shrinks(c0, d) && SkippedKept(c0, d)
  {
    hide Staged, Lower, Under, Member;
    var n := Lower(name);
    var child := "" + ("/" + n);
    RootMember(n);
    forall q | q in c0 && !Staged(q) && q != "" && Skip(c0, "/" + Member("", q)) ensures q in d && d[q] == c0[q] {
      if q == child || Under(child, q) {
        MemberIs("", n, q);
        assert child == "/" + Member("", q);
        if Staged(child) { StagedBelow(child, q); }
      }
    }
  }

  lemma OneMoreMember(strict: bool, c0: Card, c: Card, d: Card, names: seq<string>, n: nat)
    requires n < |names| && MembersDone(strict, c0, c, names, n) && Shrinks(c0, c) && Shrinks(c, d)
    requires forall j :: 0 <= j < |names| ==> Token(Lower(names[j]))
    requires var child := "" + ("/" + Lower(names[n]));
             Spares(c, d, child) && (child != STAGE && !Skip(c, child) ==> Done(strict, d, child))
    ensures MembersDone(strict, c0, d, names, n + 1)
  {
    hide Staged, Lower, Token, Done, Spares;
    forall j | 0 <= j < n + 1 ensures MemberDone(strict, c0, d, "" + ("/" + Lower(names[j]))) {
      var q := "" + ("/" + Lower(names[j]));
      RootMember(Lower(names[j]));
      if Lower(names[j]) != Lower(names[n]) && q != STAGE && !Skip(c0, q) {
        assert MemberDone(strict, c0, c, q);
        StaysDone(strict, c, d, "", Lower(names[j]), Lower(names[n]));
      }
    }
  }

  lemma MembersAll(strict: bool, c0: Card, c: Card, names: seq<string>)
    requires WellFormed(c) && Shrinks(c0, c) && MembersDone(strict, c0, c, names, |names|)
    requires forall q :: q in c0 && Child("", q) ==> Listed("", names, q)
    ensures RootDone(strict, c0, c)
  {
    hide Staged, Lower, Protected, Empty, Skip, Leftover;
    forall q | q in c && !Staged(q) && q != "" && !Skip(c0, "/" + Member("", q)) ensures Leftover(strict, c, q) {
      assert GoodPath(q) && ParentsIn(c, q);
      MemberAbove("", q);
      var n := Member("", q);
      var a := "" + ("/" + n);
      assert a == "/" + n;
      assert a in c;
      assert Child("", a) by { assert a[1..] == n; }
      if Staged(a) { StagedBelow(a, q); }
      StageItself();
      assert Listed("", names, a);
      assert MemberDone(strict, c0, c, a);
    }
  }

  // ----- which protected files have been moved aside -----

  // Below a skipped folder of c.
  ghost predicate Skipped(c: Card, q: string) {
    q != "" && Skip(c, "/" + Member("", q))
  }

  // Not below a folder with the name of a skipped one.
  ghost predicate Unskipped(q: string) {
    q != "" && "/" + Member("", q) !in SKIPPED
  }

  // A file that the cleanup comes across and must keep.
  ghost predicate KeptFile(c: Card, p: string) {
    p in c && c[p].File? && Protected(p) && !Staged(p) && !Skipped(c, p)
  }

  // Each of them can be moved on the card as it is.
  ghost predicate AllCanMove(c: Card) {
    forall p :: KeptFile(c, p) ==> CanMove(c, STAGE + p)
  }

  // None of them has a dotted directory that is already staged.
  ghost predicate NoDotsStaged(c: Card) {
    forall p, n {:trigger KeptFile(c, p), p[..n]} ::
      KeptFile(c, p) && 0 < n < |p| && p[n] == '/' && '.' in p[..n] ==> STAGE + p[..n] !in c
  }

  ghost predicate Orderly(c: Card) {
    WellFormed(c) && StageIsDir(c) && NoDotsStaged(c) && AllCanMove(c)
  }

  lemma OrderlyPlain(c: Card, p: string)
    requires Orderly(c) && KeptFile(c, p)
    ensures PlainDirs(p) && CanMove(c, STAGE + p)
  {
    hide Protected, Skipped, Empty;
    assert GoodPath(p);
    hide GoodPath, Staged, WellFormed;
    var s := STAGE + p;
    assert CanMove(c, s);
    forall n | 0 < n < |p| && p[n] == '/' ensures '.' !in p[..n] {
      var m := |STAGE| + n;
      assert s[m] == '/' && s[..m] == STAGE + p[..n];
      NoDotStaged(p[..n]);
    }
  }

  lemma SameSkip(p: string, n: string)
    requires GoodPath(p) && Unskipped(p)
    ensures Unskipped(p + ("/" + n))
  {
    hide GoodPath, Member;
    var q := p + ("/" + n);
    assert q[..|p|] == p && q[|p|] == '/';
    SameMember(p, q);
  }

  lemma RootUnskipped(n: string)
    requires Token(n) && "" + ("/" + n) !in SKIPPED
    ensures Unskipped("" + ("/" + n))
  {
    hide Token, Member;
    RootMember(n);
    assert "" + ("/" + n) == "/" + n;
  }

  lemma PathsGood(c: Card, q: string)
    requires WellFormed(c) && q in c
    ensures GoodPath(q) && q != ""
  {
    RootNotIn(c);
  }

  // Outside the staging folder a rename changes only p.
  lemma RenamedWithin(c: Card, d: Card, p: string)
    requires GoodPath(p) && SameBut(c, d, p)
    ensures Shrinks(c, d) && Spares(c, d, p)
  {
    hide GoodPath, Staged, Under;
    CopyIsStaged(p);
  }

  // The move of a protected file in an orderly walk: it goes, and the staging folder still mirrors the card.
  lemma OrderlyMove(c0: Card, c: Card, d: Card, p: string)
    requires Orderly(c0) && Mirror(c0, c) && Shrinks(c0, c) && Unskipped(p) && Protected(p) && !Staged(p)
    requires p in c && c[p].File? && SameButDirs(c, d, p) && MoveOutcome(true, c, d, p)
    ensures p !in d && Mirror(c0, d)
  {
    hide Protected, Staged, Mirror, CanMove, PlainDirs, SameButDirs, AllCanMove, NoDotsStaged, StageIsDir, WellFormed;
    assert KeptFile(c0, p);
    OrderlyPlain(c0, p);
    MirrorCanMove(c0, c, p);
    MirrorMoved(c0, c, d, p);
  }

  // Members of a directory other than the one worked on are still there.
  lemma SiblingSpared(c: Card, d: Card, k: string, m: string, n: string)
    requires Spares(c, d, k + ("/" + n)) && Token(m) && Token(n) && m != n && !Staged(k + ("/" + m)) && k + ("/" + m) in c
    ensures k + ("/" + m) in d
  {
    hide Staged, Lower;
    var a, b := k + ("/" + m), k + ("/" + n);
    MemberIs(k, m, a);
    if a == b || Under(b, a) { MemberIs(k, n, a); }
  }

  // The members from the n-th on are still to come.
  ghost predicate ToCome(c: Card, k: string, names: seq<string>, n: nat) {
    forall j :: n <= j < |names| ==> k + ("/" + Lower(names[j])) in c
  }

  lemma AllToCome(c: Card, k: string, names: seq<string>)
    requires Entries(c, k, names)
    ensures ToCome(c, k, names, 0)
  {
    hide Token, Lower;
    forall j | 0 <= j < |names| ensures k + ("/" + Lower(names[j])) in c { assert IsEntry(c, k, Lower(names[j])); }
  }

  lemma StillToCome(c: Card, d: Card, k: string, names: seq<string>, n: nat)
    requires n < |names| && ToCome(c, k, names, n) && Spares(c, d, k + ("/" + Lower(names[n]))) && Distinct(names)
    requires !Staged(k) && k != "" && forall j :: 0 <= j < |names| ==> Token(Lower(names[j]))
    ensures ToCome(d, k, names, n + 1)
  {
    hide Staged, Token, Lower, Spares;
    forall j | n + 1 <= j < |names| ensures k + ("/" + Lower(names[j])) in d {
      ChildNotStaged(k, Lower(names[j]));
      SiblingSpared(c, d, k, Lower(names[j]), Lower(names[n]));
    }
  }

  // ----- the end of the cleanup -----

  // Each protected file outside the skipped folders has gone to its staged place.
  ghost predicate AllMoved(c0: Card, c: Card) {
    forall p :: KeptFile(c0, p) ==> p !in c && STAGE + p in c && c[STAGE + p] == c0[p]
  }

  // Nothing is left but the staging folder and the skipped folders.
  ghost predicate NothingElse(c0: Card, c: Card) {
    forall q :: q in c ==> Staged(q) || Skipped(c0, q)
  }

  // A directory that is not empty leads to a longer path, and paths are bounded.
  lemma {:induction false} NoneLeft(c0: Card, c: Card, q: string)
    requires WellFormed(c) && FitsBuffer(c0) && Shrinks(c0, c) && RootDone(true, c0, c)
    requires q in c && !Staged(q) && !Skipped(c0, q)
    ensures false
    decreases BUFFER - |q|
  {
    RootNotIn(c);
    assert GoodPath(q);
    hide GoodPath, Protected, Staged, Member, Under;
    assert |STAGE + q| < BUFFER;
    assert Leftover(true, c, q);
    var r :| r in c && Under(q, r);
    SameMember(q, r);
    LongerBelow(q, r);
    UnderNotStaged(q, r);
    NoneLeft(c0, c, r);
  }

  lemma LongerBelow(q: string, r: string)
    requires Under(q, r)
    ensures |q| < |r|
  {
  }

  lemma EndsEmpty(c0: Card, c: Card)
    requires Safe(c0, c) && FitsBuffer(c0) && RootDone(true, c0, c)
    ensures NothingElse(c0, c) && AllMoved(c0, c)
  {
    hide FitsBuffer, RootDone, WellFormed, Protected, Staged, Skipped, StageSafe;
    forall q | q in c ensures Staged(q) || Skipped(c0, q) {
      if !Staged(q) && !Skipped(c0, q) { NoneLeft(c0, c, q); }
    }
    forall p | KeptFile(c0, p) ensures p !in c && STAGE + p in c && c[STAGE + p] == c0[p] {
      assert Kept(c0, c, p);
    }
  }

  // They have all gone only if they all could go.
  lemma MovedOnlyIf(c0: Card, c: Card)
    requires Safe(c0, c) && StageIsDir(c0) && AllMoved(c0, c)
    ensures AllCanMove(c0)
  {
    hide Safe, CanMove, Protected, Staged, Skipped;
    forall p | KeptFile(c0, p) ensures CanMove(c0, STAGE + p) { MovedCouldMove(c0, c, p); }
  }

  // On a card without a staging folder they can all go exactly when none is below a dotted folder.
  lemma FreshAllCanMove(c: Card)
    requires WellFormed(c) && STAGE !in c
    ensures StageIsDir(c) && NoDotsStaged(c)
    ensures AllCanMove(c) <==> forall p :: KeptFile(c, p) ==> PlainDirs(p)
  {
    hide Protected, Skipped, CanMove, PlainDirs;
    NothingStaged(c);
    forall p | KeptFile(c, p) ensures CanMove(c, STAGE + p) <==> PlainDirs(p) {
      assert GoodPath(p);
      FreshCanMove(c, p);
    }
    forall p, n | KeptFile(c, p) && 0 < n < |p| && p[n] == '/' && '.' in p[..n] ensures STAGE + p[..n] !in c {
      assert ParentsIn(c, p);
      assert p[..n] in c;
      CopyIsStaged(p[..n]);
    }
  }
}
