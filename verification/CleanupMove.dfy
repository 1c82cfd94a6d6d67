/**
  Moving a file to its place in the staging folder: which directories are made for it, and
  exactly when it goes.
*/
module CleanupMove {
  import opened CardTree
  import opened CleanupRules

  // ----- the directories that are made -----

  // tmp2 when the loop of easy_move has seen the first n pieces: those without a dot.
  function DirAt(ts: seq<string>, n: nat): string
    requires n <= |ts|
  {
    if n == 0 then ""
    else if '.' in ts[n - 1] then DirAt(ts, n - 1)
    else DirAt(ts, n - 1) + ("/" + ts[n - 1])
  }

  lemma NoDotAppended(p: string, t: string)
    ensures '.' !in p && '.' !in t ==> '.' !in p + ("/" + t)
    ensures '.' in p || '.' in t ==> '.' in p + ("/" + t)
  {
  }

  ghost predicate StagePieces(s: string, ts: seq<string>) {
    && ts != [] && "/" + ts[0] == STAGE && Join(ts) == s
    && forall i :: 0 <= i < |ts| ==> Token(ts[i])
  }

  lemma PiecesOf(p: string)
    requires GoodPath(p)
    ensures StagePieces(STAGE + p, Tokens(STAGE + p))
  {
    hide GoodPath, Token, Tokens;
    StageGood(p);
    FirstToken(p);
    TokensOf(STAGE + p);
  }

  lemma NoDotInStage(t: string)
    requires "/" + t == STAGE
    ensures '.' !in t && '.' !in STAGE
  {
    assert t == ("/" + t)[1..] == STAGE[1..];
  }

  // A staged path without a dot; the path made of the pieces itself if that has none.
  lemma {:induction false} DirAtIs(s: string, ts: seq<string>, n: nat)
    requires StagePieces(s, ts) && 0 < n <= |ts|
    ensures GoodPath(DirAt(ts, n)) && Staged(DirAt(ts, n)) && '.' !in DirAt(ts, n) && |DirAt(ts, n)| <= |Join(ts[..n])|
    ensures '.' !in Join(ts[..n]) ==> DirAt(ts, n) == Join(ts[..n])
    decreases n
  {
    hide Staged, GoodPath, Token, Join;
    NoDotInStage(ts[0]);
    JoinStep(ts, n - 1);
    NoDotAppended(Join(ts[..n - 1]), ts[n - 1]);
    if n == 1 {
      JoinNothing();
      assert ts[..0] == [];
      StageItself();
      assert "" + ("/" + ts[0]) == STAGE;
    } else {
      DirAtIs(s, ts, n - 1);
      NoDotAppended(DirAt(ts, n - 1), ts[n - 1]);
      AppendGood(DirAt(ts, n - 1), ts[n - 1]);
      StagedAppend(DirAt(ts, n - 1), ts[n - 1]);
    }
  }

  lemma JoinNothing()
    ensures Join([]) == ""
  {
  }

  // The directories on the way to one of them come before it.
  lemma {:induction false} PrefixIsDirAt(ts: seq<string>, k: nat, m: nat) returns (j: nat)
    requires k <= |ts| && (forall i :: 0 <= i < |ts| ==> Token(ts[i])) && 0 < m < |DirAt(ts, k)| && DirAt(ts, k)[m] == '/'
    ensures 0 < j < k && DirAt(ts, k)[..m] == DirAt(ts, j)
    decreases k
  {
    hide Token;
    var head := DirAt(ts, k - 1);
    if '.' in ts[k - 1] {
      j := PrefixIsDirAt(ts, k - 1, m);
    } else if m < |head| {
      j := PrefixIsDirAt(ts, k - 1, m);
      assert DirAt(ts, k)[..m] == head[..m];
    } else if m == |head| {
      j := k - 1;
      assert DirAt(ts, k)[..m] == head;
    } else {
      NoSlashAfter(head, ts[k - 1], m);
    }
  }

  // ----- making them -----

  ghost predicate Made(ts: seq<string>, q: string) {
    exists k :: 0 < k <= |ts| && q == DirAt(ts, k)
  }

  // d is c with some of these directories added.
  ghost predicate DirsMade(c: Card, d: Card, ts: seq<string>) {
    && (forall q :: q in c ==> q in d && d[q] == c[q])
    && (forall q :: q in d && q !in c ==> d[q] == Dir && Made(ts, q))
  }

  // No file is in the place of one of the first n - 1 directories.
  ghost predicate Free(c: Card, ts: seq<string>, n: nat)
    requires n <= |ts|
  {
    forall j :: 0 < j < n && DirAt(ts, j) in c ==> c[DirAt(ts, j)] == Dir
  }

  // Each of the first n directories that no file keeps from being made is there.
  ghost predicate AllMade(c: Card, d: Card, ts: seq<string>, n: nat)
    requires n <= |ts|
  {
    forall k :: 0 < k <= n && Free(c, ts, k) ==> DirAt(ts, k) in d
  }

  lemma NothingMade(c: Card, ts: seq<string>)
    ensures DirsMade(c, c, ts) && AllMade(c, c, ts, 0)
  {
  }

  lemma OneMoreDir(c: Card, d: Card, ts: seq<string>, k: nat)
    requires DirsMade(c, d, ts) && 0 < k <= |ts| && DirAt(ts, k) !in d
    ensures DirsMade(c, d[DirAt(ts, k) := Dir], ts)
  {
    hide DirAt;
  }

  lemma OneMoreMade(c: Card, d: Card, d': Card, ts: seq<string>, n: nat)
    requires n < |ts| && AllMade(c, d, ts, n) && (forall q :: q in d ==> q in d')
    requires Free(c, ts, n + 1) ==> DirAt(ts, n + 1) in d'
    ensures AllMade(c, d', ts, n + 1)
  {
    hide DirAt, Free;
  }

  // A dropped piece adds no directory.
  lemma DottedMade(c: Card, d: Card, ts: seq<string>, n: nat)
    requires n < |ts| && '.' in ts[n] && AllMade(c, d, ts, n) && (n == 0 ==> "/" + ts[0] == STAGE)
    ensures AllMade(c, d, ts, n + 1)
  {
    hide Free;
    if n == 0 { NoDotInStage(ts[0]); }
    if n > 0 && Free(c, ts, n + 1) { FreeLess(c, ts, n); }
  }

  lemma FreeLess(c: Card, ts: seq<string>, n: nat)
    requires n < |ts| && Free(c, ts, n + 1)
    ensures Free(c, ts, n)
  {
  }

  // Neither p nor anything that was there is affected.
  lemma DirsMadeKeeps(c: Card, d: Card, p: string)
    requires GoodPath(p) && !Staged(p) && DirsMade(c, d, Tokens(STAGE + p))
    ensures (p in c <==> p in d) && (p in c ==> d[p] == c[p])
  {
    hide Made, Tokens, GoodPath, Staged;
    PiecesOf(p);
    if p in d && p !in c { MadeIs(STAGE + p, Tokens(STAGE + p), p); }
  }

  // A directory whose predecessors are there can be made.
  lemma ParentsMade(c: Card, d: Card, ts: seq<string>, n: nat)
    requires n < |ts| && (forall i :: 0 <= i < |ts| ==> Token(ts[i]))
    requires DirsMade(c, d, ts) && AllMade(c, d, ts, n) && Free(c, ts, n + 1)
    ensures ParentsIn(d, DirAt(ts, n + 1))
  {
    hide Token, DirAt, Made;
    var q := DirAt(ts, n + 1);
    forall m | 0 < m < |q| && q[m] == '/' ensures q[..m] in d && d[q[..m]] == Dir {
      var j := PrefixIsDirAt(ts, n + 1, m);
      assert Free(c, ts, j);
    }
  }

  lemma MadeIs(s: string, ts: seq<string>, q: string)
    requires StagePieces(s, ts) && Made(ts, q)
    ensures Staged(q) && '.' !in q && |q| <= |s|
  {
    hide DirAt, Staged, GoodPath, Join, StagePieces;
    var k :| 0 < k <= |ts| && q == DirAt(ts, k);
    DirAtIs(s, ts, k);
    JoinPrefix(ts, k);
    WholeJoin(s, ts);
  }

  lemma WholeJoin(s: string, ts: seq<string>)
    requires StagePieces(s, ts)
    ensures Join(ts) == s
  {
  }

  // ----- when the file goes -----

  // Every directory on the way to s is there, or is not and has no dot in its path; and s itself
  // is not taken by a directory that holds something.
  ghost predicate CanMove(c: Card, s: string) {
    && (forall n :: 0 < n < |s| && s[n] == '/' ==> if s[..n] in c then c[s[..n]] == Dir else '.' !in s[..n])
    && (s in c && c[s].Dir? ==> Empty(c, s))
  }

  // The same once the directories have been made.
  ghost predicate CanRename(c: Card, s: string) {
    ParentsIn(c, s) && (s in c && c[s].Dir? ==> Empty(c, s))
  }

  // The file has gone to its place in the staging folder, or is where it was.
  ghost predicate WentOrStayed(c: Card, d: Card, p: string)
    requires p in c
  {
    if p in d then d[p] == c[p] else STAGE + p in d && d[STAGE + p] == c[p]
  }

  // Nothing but p and its staged place has changed.
  ghost predicate SameBut(c: Card, d: Card, p: string) {
    && (p in d ==> p in c && d[p] == c[p])
    && forall q :: q != p && q != STAGE + p ==> (q in d <==> q in c) && (q in c ==> d[q] == c[q])
  }

  // The same, and some directories have been made.
  ghost predicate SameButDirs(c: Card, d: Card, p: string) {
    && (p in d ==> p in c && d[p] == c[p])
    && (forall q :: q in c && q != p && q != STAGE + p ==> q in d && d[q] == c[q])
    && (forall q :: q in d && q !in c && q != p && q != STAGE + p ==> d[q] == Dir && Made(Tokens(STAGE + p), q))
  }

  lemma BothChanges(c: Card, m: Card, d: Card, p: string)
    requires GoodPath(p) && !Staged(p) && DirsMade(c, m, Tokens(STAGE + p)) && SameBut(m, d, p)
    ensures SameButDirs(c, d, p)
  {
    hide Made, Tokens, GoodPath, Staged;
    PiecesOf(p);
    if p in m && p !in c { MadeIs(STAGE + p, Tokens(STAGE + p), p); }
  }

  // Outside the staging folder only p has changed.
  lemma ChangesWithin(c: Card, d: Card, p: string)
    requires GoodPath(p) && SameButDirs(c, d, p)
    ensures Shrinks(c, d) && Spares(c, d, p)
  {
    hide Made, Tokens, GoodPath, Staged, Under;
    PiecesOf(p);
    CopyIsStaged(p);
    forall q | q in d && !Staged(q) ensures q in c && d[q] == c[q] {
      if q !in c && q != p { MadeIs(STAGE + p, Tokens(STAGE + p), q); }
    }
  }

  // What easy_rename does: the file goes exactly when it can, if nothing fails.
  ghost predicate RenameOutcome(reliable: bool, c: Card, d: Card, p: string)
    requires p in c
  {
    && WentOrStayed(c, d, p)
    && (p !in d ==> CanRename(c, STAGE + p)) && (reliable && CanRename(c, STAGE + p) ==> p !in d)
  }

  // What easy_move does, in terms of the card that it found.
  ghost predicate MoveOutcome(reliable: bool, c: Card, d: Card, p: string)
    requires p in c
  {
    && WentOrStayed(c, d, p)
    && (p !in d ==> CanMove(c, STAGE + p)) && (reliable && CanMove(c, STAGE + p) ==> p !in d)
  }

  lemma RenameNeeds(c: Card, m: Card, s: string, ts: seq<string>)
    requires StagePieces(s, ts) && DirsMade(c, m, ts) && CanRename(m, s)
    ensures CanMove(c, s)
  {
    hide Made, StagePieces, Under;
    forall n | 0 < n < |s| && s[n] == '/' && s[..n] !in c ensures '.' !in s[..n] { MadeIs(s, ts, s[..n]); }
  }

  // On the way to a dot-free directory there is no file in the way, if the file can be moved.
  lemma FreeWay(c: Card, s: string, ts: seq<string>, k: nat)
    requires StagePieces(s, ts) && CanMove(c, s) && 0 < k < |ts| && '.' !in Join(ts[..k])
    ensures Free(c, ts, k)
  {
    hide Join, Token, Empty, DirAt;
    forall j | 0 < j < k && DirAt(ts, j) in c ensures c[DirAt(ts, j)] == Dir {
      JoinPrefix(ts[..k], j);
      assert ts[..k][..j] == ts[..j];
      var q := Join(ts[..j]);
      assert '.' !in q by { assert Join(ts[..k])[..|q|] == q; }
      DirAtIs(s, ts, j);
      JoinPrefix(ts, j);
      JoinNonempty(ts, j);
      assert s[..|q|] == q && s[|q|] == '/';
    }
  }

  lemma JoinNonempty(ts: seq<string>, j: nat)
    requires 0 < j <= |ts|
    ensures Join(ts[..j]) != ""
  {
    JoinStep(ts, j - 1);
  }

  lemma WayMade(c: Card, m: Card, s: string, ts: seq<string>)
    requires StagePieces(s, ts) && DirsMade(c, m, ts) && AllMade(c, m, ts, |ts|) && CanMove(c, s)
    ensures ParentsIn(m, s)
  {
    hide Join, Token, Empty, DirAt, Made, Free;
    forall n | 0 < n < |s| && s[n] == '/' ensures s[..n] in m && m[s[..n]] == Dir {
      if s[..n] !in c {
        var k := PrefixIsJoin(ts, n);
        FreeWay(c, s, ts, k);
        DirAtIs(s, ts, k);
      }
    }
  }

  lemma PlaceFree(c: Card, m: Card, s: string, ts: seq<string>)
    requires WellFormed(c) && StagePieces(s, ts) && DirsMade(c, m, ts) && s != "" && (s in c && c[s].Dir? ==> Empty(c, s))
    ensures s in m && m[s].Dir? ==> Empty(m, s)
  {
    hide Made, StagePieces, GoodPath;
    if s in m && m[s].Dir? {
      if s !in c { NothingUnder(c, s); }
      forall q | q in m ensures !Under(s, q) {
        if q !in c { MadeIs(s, ts, q); }
      }
    }
  }

  lemma MoveConcluded(reliable: bool, c: Card, m: Card, d: Card, p: string)
    requires WellFormed(c) && GoodPath(p) && !Staged(p) && p in c && p in m && m[p] == c[p]
    requires var ts := Tokens(STAGE + p); DirsMade(c, m, ts) && (reliable ==> AllMade(c, m, ts, |ts|))
    requires RenameOutcome(reliable, m, d, p)
    ensures MoveOutcome(reliable, c, d, p)
  {
    hide WellFormed, GoodPath, Staged, Tokens, DirsMade, AllMade, StagePieces, ParentsIn, Empty, CanMove;
    var s, ts := STAGE + p, Tokens(STAGE + p);
    PiecesOf(p);
    if p !in d { RenameNeeds(c, m, s, ts); }
    if reliable && CanMove(c, s) {
      WayMade(c, m, s, ts);
      CanMoveEmpty(c, s);
      PlaceFree(c, m, s, ts);
    }
  }

  lemma CanMoveEmpty(c: Card, s: string)
    requires CanMove(c, s)
    ensures s in c && c[s].Dir? ==> Empty(c, s)
  {
  }

  // ----- which files can be moved, from the card as it was -----

  // The staging folder is not a file.
  ghost predicate StageIsDir(c: Card) { STAGE in c ==> c[STAGE] == Dir }

  // No directory on the way to p has a dot in its path.
  ghost predicate PlainDirs(p: string) {
    forall n :: 0 < n < |p| && p[n] == '/' ==> '.' !in p[..n]
  }

  // A directory on the way to the staged place of p is the staging folder or the place of one on the way to p.
  lemma StagedPrefix(p: string, n: nat)
    requires GoodPath(p) && 0 < n < |STAGE + p| && (STAGE + p)[n] == '/'
    ensures n >= |STAGE|
    ensures var t := (STAGE + p)[..n];
            if n == |STAGE| then t == STAGE else n - |STAGE| < |p| && p[n - |STAGE|] == '/' && t == STAGE + p[..n - |STAGE|]
  {
    hide GoodPath;
    var s := STAGE + p;
    assert forall i :: 0 < i < |STAGE| ==> s[i] == STAGE[i] && STAGE[i] != '/';
  }

  lemma NoDotStaged(r: string)
    ensures '.' in STAGE + r <==> '.' in r
  {
    assert forall i :: 0 <= i < |r| ==> (STAGE + r)[|STAGE| + i] == r[i];
    assert '.' !in STAGE;
  }

  // What is at the staged place of a directory is not in a protected file's place.
  lemma NotASlot(c: Card, r: string)
    requires r in c && c[r].Dir?
    ensures !Slot(c, STAGE + r)
  {
    assert (STAGE + r)[|STAGE|..] == r;
  }

  lemma WayOpen(c0: Card, c: Card, p: string, n: nat)
    requires Safe(c0, c) && StageIsDir(c0) && p in c0 && STAGE + p in c
    requires 0 < n < |STAGE + p| && (STAGE + p)[n] == '/'
    ensures var t := (STAGE + p)[..n]; if t in c0 then c0[t] == Dir else '.' !in t
  {
    hide Protected, Slot, Kept, Empty;
    var t := (STAGE + p)[..n];
    assert GoodPath(p) && ParentsIn(c0, p) && ParentsIn(c, STAGE + p);
    hide GoodPath;
    StagedPrefix(p, n);
    StageItself();
    assert t in c && c[t] == Dir;
    if t != STAGE {
      var r := p[..n - |STAGE|];
      assert r in c0 && c0[r] == Dir && GoodPath(r);
      NotASlot(c0, r);
      CopyIsStaged(r);
      assert t == STAGE + r;
    }
  }

  lemma NothingBelowFile(c: Card, p: string, q: string)
    requires WellFormed(c) && p in c && c[p].File? && p != "" && Under(p, q)
    ensures q !in c
  {
    hide GoodPath;
    assert q in c ==> ParentsIn(c, q);
  }

  lemma BelowPlace(p: string, q: string)
    requires Under(STAGE + p, q)
    ensures |STAGE| < |q| && Under(p, q[|STAGE|..])
  {
    var r := q[|STAGE|..];
    assert q[..|STAGE + p|] == STAGE + p;
    assert r[..|p|] == (STAGE + p)[|STAGE|..] == p;
  }

  lemma PlaceOpen(c0: Card, c: Card, p: string)
    requires Safe(c0, c) && p in c0 && c0[p].File? && STAGE + p in c && c[STAGE + p].File?
    ensures STAGE + p in c0 && c0[STAGE + p].Dir? ==> Empty(c0, STAGE + p)
  {
    hide Protected, Slot, Kept, Staged, StageSafe;
    var s := STAGE + p;
    forall q | q in c0 ensures !Under(s, q) {
      if Under(s, q) { InPlaceStays(c0, c, p, q); }
    }
  }

  // What lies below the place of a file of c0 stays there, and keeps the place a directory.
  lemma InPlaceStays(c0: Card, c: Card, p: string, q: string)
    requires Safe(c0, c) && p in c0 && c0[p].File? && q in c0 && Under(STAGE + p, q)
    ensures STAGE + p in c && c[STAGE + p].Dir?
  {
    hide Protected, Kept, Empty;
    assert GoodPath(p) && GoodPath(q);
    hide GoodPath;
    CopyIsStaged(p);
    StagedBelow(STAGE + p, q);
    BelowPlace(p, q);
    NothingBelowFile(c0, p, q[|STAGE|..]);
    assert !Slot(c0, q);
    assert q in c && ParentsIn(c, q);
  }

  // A file that got to its staged place could be moved when the cleanup started.
  lemma MovedCouldMove(c0: Card, c: Card, p: string)
    requires Safe(c0, c) && StageIsDir(c0) && p in c0 && c0[p].File? && STAGE + p in c && c[STAGE + p].File?
    ensures CanMove(c0, STAGE + p)
  {
    hide Safe, Empty;
    forall n | 0 < n < |STAGE + p| && (STAGE + p)[n] == '/'
      ensures var t := (STAGE + p)[..n]; if t in c0 then c0[t] == Dir else '.' !in t
    {
      WayOpen(c0, c, p, n);
    }
    PlaceOpen(c0, c, p);
  }

  // At every moment of the cleanup, a protected file that could not be moved at the start is still there.
  lemma BlockedStays(c0: Card, c: Card, p: string)
    requires Safe(c0, c) && StageIsDir(c0) && p in c0 && c0[p].File? && Protected(p) && !Staged(p)
    requires !CanMove(c0, STAGE + p)
    ensures p in c && c[p] == c0[p]
  {
    hide CanMove, StageSafe, WellFormed, Protected, Staged;
    assert Kept(c0, c, p);
    if STAGE + p in c && c[STAGE + p] == c0[p] { MovedCouldMove(c0, c, p); }
  }

  // With no staging folder yet, the files that can be moved are those below dot-free directories.
  lemma FreshCanMove(c: Card, p: string)
    requires WellFormed(c) && STAGE !in c && GoodPath(p)
    ensures CanMove(c, STAGE + p) <==> PlainDirs(p)
  {
    hide Lower;
    NothingStaged(c);
    hide WellFormed, GoodPath, Under;
    CopyIsStaged(p);
    var s := STAGE + p;
    if PlainDirs(p) {
      forall n | 0 < n < |s| && s[n] == '/' ensures s[..n] !in c && '.' !in s[..n] {
        StagedPrefix(p, n);
        NoDotStaged(if n == |STAGE| then "" else p[..n - |STAGE|]);
        StagedWay(p, n);
      }
    }
    if CanMove(c, s) {
      forall m | 0 < m < |p| && p[m] == '/' ensures '.' !in p[..m] {
        var n := |STAGE| + m;
        assert s[n] == '/' && s[..n] == STAGE + p[..m];
        StagedWay(p, n);
        NoDotStaged(p[..m]);
      }
    }
  }

  lemma StagedWay(p: string, n: nat)
    requires GoodPath(p) && 0 < n < |STAGE + p| && (STAGE + p)[n] == '/'
    ensures Staged((STAGE + p)[..n])
  {
    StagedPrefix(p, n);
  }

  lemma NothingStaged(c: Card)
    requires WellFormed(c) && STAGE !in c
    ensures forall q :: q in c ==> !Staged(q)
  {
    hide GoodPath;
    forall q | q in c ensures !Staged(q) {
      assert ParentsIn(c, q);
      if |STAGE| < |q| && q[|STAGE|] == '/' { assert q[..|STAGE|] in c; }
    }
  }

  // Dropping a dotted piece v of one file's path can make a directory in the place of another
  // file: after d/v/g/x the file d/g cannot be moved.
  lemma DroppedPieceBlocks(c: Card, d: string, v: string, g: string, x: string)
    requires GoodPath(d) && '.' !in d && Token(v) && '.' in v && Token(g) && '.' !in g && Token(x) && '.' !in x
    requires STAGE + d + ("/" + g) in c && c[STAGE + d + ("/" + g)].Dir? && STAGE + d + ("/" + g) + ("/" + x) in c
    ensures var ts := Tokens(STAGE + d + ("/" + v) + ("/" + g) + ("/" + x));
            Made(ts, STAGE + d + ("/" + g)) && Made(ts, STAGE + d + ("/" + g) + ("/" + x))
    ensures !CanMove(c, STAGE + d + ("/" + g))
  {
    hide GoodPath, Tokens, Token, Staged, DirAt, Made;
    var a, b := STAGE + d, STAGE + d + ("/" + g);
    ThreeMore(a, v, g, x);
    PiecesOf(d);
    var ts := Tokens(a);
    NoDotStaged(d);
    assert ts[..|ts|] == ts;
    DirAtIs(a, ts, |ts|);
    DroppedDir(ts, v, g, x);
    assert Under(b, b + ("/" + x));
  }

  lemma ThreeMore(a: string, v: string, g: string, x: string)
    requires Token(v) && Token(g) && Token(x)
    ensures Tokens(a + ("/" + v) + ("/" + g) + ("/" + x)) == Tokens(a) + [v, g, x]
  {
    hide Tokens, Token;
    TokensAppend(a, v);
    TokensAppend(a + ("/" + v), g);
    TokensAppend(a + ("/" + v) + ("/" + g), x);
  }

  lemma DirAtDropped(us: seq<string>, n: nat)
    requires n + 3 == |us| && '.' in us[n] && '.' !in us[n + 1] && '.' !in us[n + 2]
    ensures DirAt(us, n + 2) == DirAt(us, n) + ("/" + us[n + 1])
    ensures DirAt(us, n + 3) == DirAt(us, n + 2) + ("/" + us[n + 2])
  {
    assert DirAt(us, n + 1) == DirAt(us, n);
  }

  lemma MadeAt(ts: seq<string>, k: nat)
    requires 0 < k <= |ts|
    ensures Made(ts, DirAt(ts, k))
  {
  }

  lemma DroppedDir(ts: seq<string>, v: string, g: string, x: string)
    requires '.' in v && '.' !in g && '.' !in x
    ensures var us := ts + [v, g, x]; var b := DirAt(ts, |ts|) + ("/" + g); Made(us, b) && Made(us, b + ("/" + x))
  {
    hide DirAt, Made;
    var us, n := ts + [v, g, x], |ts|;
    DirAtSame(ts, us, n);
    DirAtDropped(us, n);
    MadeAt(us, n + 2);
    MadeAt(us, n + 3);
  }

  lemma {:induction false} DirAtSame(ts: seq<string>, us: seq<string>, n: nat)
    requires n <= |ts| <= |us| && us[..|ts|] == ts
    ensures DirAt(us, n) == DirAt(ts, n)
    decreases n
  {
    if n > 0 {
      DirAtSame(ts, us, n - 1);
      assert us[..|ts|][n - 1] == us[n - 1];
    }
  }

  // ----- when all of them can be moved -----

  // Whatever is in the staging folder was there before or is the copy of a file or directory of c0.
  ghost predicate Mirror(c0: Card, c: Card) {
    forall q :: q in c && Staged(q) ==>
      || (q in c0 && c[q] == c0[q])
      || (q == STAGE && c[q] == Dir)
      || (|STAGE| < |q| && q[|STAGE|..] in c0 && c[q] == c0[q[|STAGE|..]])
  }

  lemma MirrorAtFirst(c: Card)
    ensures Mirror(c, c)
  {
    hide Staged;
  }

  lemma MirrorShrinks(c0: Card, c: Card, k: string)
    requires Mirror(c0, c)
    ensures Mirror(c0, c - {k})
  {
    hide Staged;
  }

  // As long as that is so, what could be moved at the start can still be.
  lemma MirrorCanMove(c0: Card, c: Card, p: string)
    requires WellFormed(c0) && Mirror(c0, c) && p in c0 && c0[p].File? && PlainDirs(p) && CanMove(c0, STAGE + p)
    ensures CanMove(c, STAGE + p)
  {
    assert GoodPath(p) && ParentsIn(c0, p);
    var s := STAGE + p;
    forall n | 0 < n < |s| && s[n] == '/' ensures if s[..n] in c then c[s[..n]] == Dir else '.' !in s[..n] {
      MirrorWay(c0, c, p, n);
    }
    if s in c && c[s].Dir? {
      CopyIsStaged(p);
      assert s[|STAGE|..] == p;
      forall q | q in c ensures !Under(s, q) {
        if Under(s, q) { MirrorBelow(c0, c, p, q); }
      }
    }
  }

  lemma MirrorWay(c0: Card, c: Card, p: string, n: nat)
    requires Mirror(c0, c) && GoodPath(p) && ParentsIn(c0, p) && PlainDirs(p) && CanMove(c0, STAGE + p)
    requires 0 < n < |STAGE + p| && (STAGE + p)[n] == '/'
    ensures var t := (STAGE + p)[..n]; if t in c then c[t] == Dir else '.' !in t
  {
    hide GoodPath, Empty;
    var t := (STAGE + p)[..n];
    StagedPrefix(p, n);
    StagedWay(p, n);
    NoDotStaged(if n == |STAGE| then "" else p[..n - |STAGE|]);
    if t != STAGE { assert t[|STAGE|..] == p[..n - |STAGE|]; }
  }

  lemma MirrorBelow(c0: Card, c: Card, p: string, q: string)
    requires WellFormed(c0) && Mirror(c0, c) && p in c0 && c0[p].File? && GoodPath(p) && q in c && Under(STAGE + p, q)
    ensures q in c0
  {
    RootNotIn(c0);
    hide GoodPath;
    CopyIsStaged(p);
    StagedBelow(STAGE + p, q);
    BelowPlace(p, q);
    NothingBelowFile(c0, p, q[|STAGE|..]);
  }

  // Moving such a file keeps it so.
  lemma MirrorMoved(c0: Card, c: Card, d: Card, p: string)
    requires WellFormed(c0) && Mirror(c0, c) && p in c0 && PlainDirs(p) && SameButDirs(c, d, p)
    requires STAGE + p in d && d[STAGE + p] == c0[p]
    ensures Mirror(c0, d)
  {
    assert GoodPath(p) && ParentsIn(c0, p);
    hide GoodPath, Staged, WellFormed, Made;
    var s := STAGE + p;
    forall q | q in d && Staged(q)
      ensures || (q in c0 && d[q] == c0[q]) || (q == STAGE && d[q] == Dir)
              || (|STAGE| < |q| && q[|STAGE|..] in c0 && d[q] == c0[q[|STAGE|..]])
    {
      if q == s {
        assert s[|STAGE|..] == p;
      } else if q !in c {
        PlainMade(p, q);
        if q != STAGE { assert q[|STAGE|..] in c0; }
      } else if q != p {
        assert d[q] == c[q];
      }
    }
  }

  // With dot-free directories nothing is made but those on the way, and the place itself.
  lemma PlainMade(p: string, q: string)
    requires GoodPath(p) && PlainDirs(p) && Made(Tokens(STAGE + p), q) && q != STAGE + p
    ensures q == STAGE || (|STAGE| < |q| && var m := |q| - |STAGE|; m < |p| && p[m] == '/' && q[|STAGE|..] == p[..m])
  {
    hide GoodPath, DirAt, Tokens, Join, Token;
    var s, ts := STAGE + p, Tokens(STAGE + p);
    PiecesOf(p);
    var k :| 0 < k <= |ts| && q == DirAt(ts, k);
    var j := PlainDirAt(p, ts, k);
    JoinPrefix(ts, j);
    JoinNonempty(ts, j);
    var n := |Join(ts[..j])|;
    StagedPrefix(p, n);
    if n != |STAGE| { assert (STAGE + p[..n - |STAGE|])[|STAGE|..] == p[..n - |STAGE|]; }
  }

  lemma PlainDirAt(p: string, ts: seq<string>, k: nat) returns (j: nat)
    requires GoodPath(p) && PlainDirs(p) && StagePieces(STAGE + p, ts) && 0 < k <= |ts| && DirAt(ts, k) != STAGE + p
    ensures 0 < j < |ts| && DirAt(ts, k) == Join(ts[..j])
  {
    hide GoodPath, Join, Token;
    var s := STAGE + p;
    if k < |ts| {
      j := k;
      PlainPrefix(p, ts, j);
      DirAtIs(s, ts, j);
    } else {
      assert ts[..k] == ts;
      NoDotInStage(ts[0]);
      j := k - 1;
      JoinStep(ts, j);
      if j > 0 {
        PlainPrefix(p, ts, j);
        DirAtIs(s, ts, j);
      } else {
        StageAlone(ts, p);
      }
    }
  }

  lemma StageAlone(ts: seq<string>, p: string)
    requires StagePieces(STAGE + p, ts) && GoodPath(p)
    ensures |ts| > 1
  {
    hide Token, Join;
    JoinStep(ts, 0);
    JoinNothing();
    assert ts[..0] == [];
    assert |Join(ts[..1])| == |STAGE|;
    if |ts| == 1 { JoinAll(ts); }
  }

  lemma JoinAll(ts: seq<string>)
    ensures Join(ts[..|ts|]) == Join(ts)
  {
    assert ts[..|ts|] == ts;
  }

  lemma PlainPrefix(p: string, ts: seq<string>, j: nat)
    requires GoodPath(p) && PlainDirs(p) && StagePieces(STAGE + p, ts) && 0 < j < |ts|
    ensures '.' !in Join(ts[..j])
  {
    hide GoodPath, Join, Token;
    JoinPrefix(ts, j);
    JoinNonempty(ts, j);
    var n := |Join(ts[..j])|;
    StagedPrefix(p, n);
    NoDotStaged(if n == |STAGE| then "" else p[..n - |STAGE|]);
  }
}
