/**
  Removing an old package from the SD card before a clean install: a recursive delete
  that moves protected files into a staging folder instead.
*/
module Cleanup {
  import opened CardTree
  import opened CleanupMove
  import opened CleanupRules
  import opened CleanupWalk

  class Cleaner {
    const reliable: bool              // no operation fails
    const spelling: string -> string  // how a directory spells a lower-case name
    ghost const before: Card          // the card when the cleanup started
    var card: Card
    var path: string                  // the path-name buffer, up to its terminator
    ghost var seen: set<Card>         // every state the card has been in

    ghost predicate Valid()
      reads this`card, this`seen
    {
      && Safe(before, card) && (forall s :: s in seen ==> Safe(before, s))
      && Spells(spelling)
    }

    constructor (reliable: bool, spelling: string -> string, card: Card)
      requires WellFormed(card) && Spells(spelling)
      ensures Valid() && this.card == before == card && seen == {card}
      ensures this.reliable == reliable && this.spelling == spelling && path == ""
    {
      this.reliable, this.spelling, this.before := reliable, spelling, card;
      this.card, this.path, this.seen := card, "", {card};
      new;
      SafeAtFirst(card);
    }

    // Whether the next operation fails: any of them may, unless the card is reliable.
    method Fault() returns (b: bool)
      ensures reliable ==> !b
    {
      b := *;
      if reliable { b := false; }
    }

    // f_unlink of a file, or of a directory that must be empty
    method Unlink(p: string) returns (ok: bool)
      requires Valid() && (Staged(Lower(p)) ==> Lower(p) == STAGE && (STAGE in card ==> card[STAGE].File?))
      requires Lower(p) in card && card[Lower(p)].File? ==> !Protected(Lower(p))
      modifies this`card, this`seen
      ensures Valid() && card == (if ok then old(card) - {Lower(p)} else old(card))
      ensures ok ==> Lower(p) in old(card)
      ensures reliable && Lower(p) in old(card) && (old(card)[Lower(p)].File? || Empty(old(card), Lower(p))) ==> ok
    {
      var k := Lower(p);
      var fault := Fault();
      ok := k in card && !fault && (card[k].File? || forall q | q in card :: !Under(k, q));
      if ok {
        if Staged(k) { UnlinkStageFileSafe(before, card); } else { UnlinkSafe(before, card, k); }
        card := card - {k};
      }
      seen := seen + {card};
    }

    // f_unlink of the staged copy of p, which is still in place
    method UnlinkCopy(p: string) returns (ok: bool)
      requires Valid() && p in card && card[p].File? && Protected(p) && !Staged(p)
      modifies this`card, this`seen
      ensures Valid() && card == (if ok then old(card) - {STAGE + p} else old(card))
      ensures ok ==> STAGE + p in old(card) && (old(card)[STAGE + p].File? || Empty(old(card), STAGE + p))
      ensures reliable && STAGE + p in old(card) && (old(card)[STAGE + p].File? || Empty(old(card), STAGE + p)) ==> ok
    {
      var k := STAGE + p;
      var fault := Fault();
      ok := k in card && !fault && (card[k].File? || forall q | q in card :: !Under(k, q));
      if ok {
        UnlinkCopySafe(before, card, p);
        card := card - {k};
      }
      seen := seen + {card};
    }

    // f_rename of p to its place in the staging folder, whose directory must exist
    method Rename(p: string) returns (ok: bool)
      requires Valid() && !Staged(p) && GoodPath(STAGE + p) && (p in card ==> card[p].File?)
      modifies this`card, this`seen
      ensures Valid()
      ensures ok ==> p in old(card) && ParentsIn(old(card), STAGE + p) && card == (old(card) - {p})[STAGE + p := old(card)[p]]
      ensures !ok ==> card == old(card)
      ensures reliable && p in old(card) && STAGE + p !in old(card) && ParentsIn(old(card), STAGE + p) ==> ok
    {
      var fault := Fault();
      ok := p in card && STAGE + p !in card && ParentsIn(card, STAGE + p) && !fault;
      if ok {
        RenameSafe(before, card, p);
        card := (card - {p})[STAGE + p := card[p]];
      }
      seen := seen + {card};
    }

    // easy_rename(p, STAGE + p)
    method EasyRename(p: string) returns (ok: bool)
      requires Valid() && !Staged(p) && GoodPath(p) && Protected(p) && (p in card ==> card[p].File?)
      modifies this`card, this`seen
      ensures Valid() && SameBut(old(card), card, p)
      ensures p in old(card) ==> RenameOutcome(reliable, old(card), card, p)
    {
      hide Staged, GoodPath, Valid, Empty, ParentsIn, Protected;
      StageGood(p);
      ok := true;
      if p in card {
        CopyApartFromItself(p);
        if STAGE + p in card {
          ParentsWithoutSelf(card, STAGE + p);
          ok := UnlinkCopy(p);
        }
        if ok { ok := Rename(p); }
      }
    }

    // f_mkdir inside the staging folder
    method Mkdir(p: string) returns (ok: bool)
      requires Valid() && Staged(p) && GoodPath(p) && '.' !in p
      modifies this`card, this`seen
      ensures Valid() && card == (if ok then old(card)[p := Dir] else old(card)) && (ok ==> p !in old(card))
      ensures reliable && p !in old(card) && ParentsIn(old(card), p) ==> ok
    {
      var fault := Fault();
      ok := p !in card && ParentsIn(card, p) && !fault;
      if ok {
        MkdirSafe(before, card, p);
        card := card[p := Dir];
      }
      seen := seen + {card};
    }

    // One turn of the loop of easy_move: make the directory tmp2 if it is not there.
    method EnsureDir(tmp2: string, ghost c0: Card, ghost s: string, ghost ts: seq<string>, ghost i: nat)
      requires Valid() && StagePieces(s, ts) && i < |ts| && tmp2 == DirAt(ts, i + 1) && DirsMade(c0, card, ts)
      modifies this`card, this`seen
      ensures Valid() && DirsMade(c0, card, ts)
      ensures reliable && AllMade(c0, old(card), ts, i) ==> AllMade(c0, card, ts, i + 1)
    {
      hide Staged, GoodPath, Valid, DirsMade, AllMade, Free, ParentsIn, DirAt, Join, Token;
      ghost var go := reliable && AllMade(c0, card, ts, i);
      DirAtIs(s, ts, i + 1);
      if go && Free(c0, ts, i + 1) { ParentsMade(c0, card, ts, i); }
      if tmp2 !in card {
        OneMoreDir(c0, card, ts, i + 1);
        var _ := Mkdir(tmp2);
      }
      if go { OneMoreMade(c0, old(card), card, ts, i); }
    }

    // The loop of easy_move over the pieces of s, which makes the directories.
    method MakeDirs(s: string)
      requires Valid() && StagePieces(s, Tokens(s))
      modifies this`card, this`seen
      ensures Valid() && DirsMade(old(card), card, Tokens(s))
      ensures reliable ==> AllMade(old(card), card, Tokens(s), |Tokens(s)|)
    {
      hide Valid, Tokens, DirsMade, AllMade, Token, Join;
      var tokens := Tokens(s);
      NothingMade(card, tokens);
      var tmp2 := "";
      for i := 0 to |tokens|
        invariant Valid() && DirsMade(old(card), card, tokens) && tmp2 == DirAt(tokens, i)
        invariant reliable ==> AllMade(old(card), card, tokens, i)
      {
        if '.' !in tokens[i] {
          tmp2 := tmp2 + ("/" + tokens[i]);
          EnsureDir(tmp2, old(card), s, tokens, i);
        } else if reliable {
          DottedMade(old(card), card, tokens, i);
        }
      }
    }

    // easy_move(p, STAGE + p)
    method EasyMove(p: string) returns (ok: bool)
      requires Valid() && !Staged(p) && GoodPath(p) && Protected(p) && (p in card ==> card[p].File?)
      modifies this`card, this`seen
      ensures Valid() && SameButDirs(old(card), card, p)
      ensures p in old(card) ==> MoveOutcome(reliable, old(card), card, p)
    {
      hide Staged, GoodPath, Tokens, SameBut, SameButDirs, DirsMade, AllMade, StagePieces, RenameOutcome, MoveOutcome, Protected;
      CardWellFormed();
      hide Valid;
      PiecesOf(p);
      MakeDirs(STAGE + p);
      ghost var c := card;
      DirsMadeKeeps(old(card), c, p);
      ok := EasyRename(p);
      BothChanges(old(card), c, card, p);
      if p in old(card) { MoveConcluded(reliable, old(card), c, card, p); }
    }

    lemma CardWellFormed()
      requires Valid()
      ensures WellFormed(card) && Shrinks(before, card)
    {
    }

    // f_opendir and f_readdir: the names in directory k, as the directory spells them
    method ReadDir(k: string) returns (names: seq<string>)
      requires Valid()
      ensures Entries(card, k, names) && Distinct(names)
      ensures forall q :: q in card && Child(k, q) ==> Listed(k, names, q)
    {
      CardWellFormed();
      hide Valid, Child, Listed, Entries, WellFormed, Distinct;
      var todo := set q | q in card && Child(k, q);
      names := [];
      NoEntries(card, k);
      while todo != {}
        invariant Entries(card, k, names) && Distinct(names)
        invariant forall q :: q in todo ==> q in card && Child(k, q) && !Listed(k, names, q)
        invariant forall q :: q in card && Child(k, q) && q !in todo ==> Listed(k, names, q)
        decreases todo
      {
        var q :| q in todo;
        EntryAdded(card, k, q, names, spelling);
        names := names + [spelling(q[|k| + 1..])];
        todo := todo - {q};
      }
    }

    // The walk is orderly: nothing fails, every protected file on its way could be moved at the
    // start, and so far all of them have been.
    ghost predicate InOrder()
      reads this`card
    {
      reliable && Orderly(before) && Mirror(before, card)
    }

    // The file case of delete_node: delete it, or move it aside.
    method HandleFile(p: string, ghost strict: bool)
      requires Valid() && Lower(p) == p && GoodPath(p) && !Staged(p) && (p in card ==> card[p].File?)
      requires strict ==> InOrder() && Unskipped(p) && p in card
      modifies this`card, this`seen
      ensures Valid() && Shrinks(old(card), card) && Spares(old(card), card, p)
      ensures reliable && p in card ==> Protected(p) && !strict
      ensures strict ==> InOrder()
      ensures Protected(p) && p in old(card) ==> MoveOutcome(reliable, old(card), card, p)
    {
      hide Staged, GoodPath, Valid, Shrinks, Spares, Protected, MoveOutcome, SameButDirs, Orderly, Mirror, Unskipped;
      CardWellFormed();
      var can := CanDeleteFile(p);
      Unchanged(card, p);
      if can {
        FileGone(card, p);
        if strict { MirrorShrinks(before, card, p); }
        var _ := Unlink(p);
      } else {
        var _ := EasyMove(p);
        ChangesWithin(old(card), card, p);
        if strict { OrderlyMove(before, old(card), card, p); }
      }
    }

    // One entry of the directory path[..i], from the loop of delete_node.
    method Visit(i: nat, name: string, ghost strict: bool) returns (res: bool)
      requires Valid() && FitsBuffer(before) && i <= |path|
      requires Entry(before, Lower(path[..i]), Lower(name))
      requires strict ==>
                 var child := Lower(path[..i]) + ("/" + Lower(name)); InOrder() && Unskipped(child) && child in card
      modifies this
      ensures Valid() && i < |path| && Restored(path[..i], old(path)[..i]) && (strict ==> InOrder())
      ensures var child := Lower(old(path)[..i]) + ("/" + Lower(name));
              && Shrinks(old(card), card) && Spares(old(card), card, child) && (reliable ==> res && Done(strict, card, child))
              // a file leaves the whole buffer in lower case
              && (!(child in old(card) && old(card)[child].Dir?) ==> path == child)
      decreases BUFFER - i, 0
    {
      hide Staged, Valid, Shrinks, Spares, FitsBuffer, Done, GoodPath, Lower, Protected, Entry, Empty, InOrder, Unskipped;
      ghost var key, child := Lower(path[..i]), Lower(path[..i]) + ("/" + Lower(name));
      EntryIs(before, key, Lower(name));
      LowerPath(path[..i], name);
      path := path[..i] + ("/" + name);
      LowerPrefix(path, i);
      if Lower(path) in card && card[Lower(path)].Dir? {
        res := DeleteNode(strict);
      } else {
        LowerTwice(path);
        CardWellFormed();
        NothingUnder(card, child);
        path := Lower(path);
        HandleFile(path, strict);
        FileDone(reliable, strict, old(card), card, child);
        res := true;
      }
    }

    // The loop of delete_node over the names in the directory path[..i].
    method DeleteMembers(i: nat, names: seq<string>, ghost strict: bool) returns (res: bool)
      requires Valid() && FitsBuffer(before) && i < |path| && i < BUFFER && GoodPath(Lower(path[..i])) && Lower(path[..i]) != ""
      requires !Staged(Lower(path[..i])) && Entries(card, Lower(path[..i]), names) && Distinct(names)
      requires strict ==> InOrder() && Unskipped(Lower(path[..i]))
      modifies this
      ensures Valid() && i < |path| && Restored(path[..i], old(path)[..i]) && (strict ==> InOrder())
      ensures var key := Lower(old(path)[..i]);
              && Shrinks(old(card), card) && Spares(old(card), card, key)
              && (reliable ==> res && AllDone(strict, card, key, names, |names|))
      decreases BUFFER - i, 1
    {
      hide Staged, Valid, Shrinks, Spares, Done, FitsBuffer, Entries, GoodPath, Lower, Protected, WellFormed, Empty;
      hide InOrder, Unskipped, Distinct, AllDone;
      ghost var p, key, c0 := path[..i], Lower(path[..i]), card;
      CardWellFormed();
      Unchanged(card, key);
      LowerTwice(p);
      AllToCome(card, key, names);
      NothingDone(strict, card, key, names);
      res := true;
      var n := 0;
      while n < |names|
        invariant 0 <= n <= |names| && res && Valid() && i < |path| && Restored(path[..i], p)
        invariant Shrinks(c0, card) && Spares(c0, card, key) && (strict ==> InOrder()) && ToCome(card, key, names, n)
        invariant reliable ==> AllDone(strict, card, key, names, n)
      {
        var fault := Fault();
        if fault { return false; }
        ghost var c := card;
        EntryOf(before, c0, key, names, n);
        if strict { SameSkip(key, Lower(names[n])); }
        res := Visit(i, names[n], strict);
        SparesWider(c, card, key, Lower(names[n]));
        Together(c0, c, card, key);
        if !res { return; }
        StillToCome(c, card, key, names, n);
        if reliable { OneMoreDone(strict, c, card, key, names, n); }
        n := n + 1;
      }
      var fault := Fault();
      res := !fault;
    }

    // delete_node on the directory named by the buffer
    method DeleteNode(ghost strict: bool) returns (res: bool)
      requires Valid() && !Staged(Lower(path)) && FitsBuffer(before) && |path| < BUFFER
      requires strict ==> InOrder() && Unskipped(Lower(path))
      modifies this
      ensures Valid() && Restored(path, old(path)) && (strict ==> InOrder())
      ensures var key := Lower(old(path));
              && Shrinks(old(card), card) && Spares(old(card), card, key)
              && (reliable && key in old(card) && old(card)[key].Dir? ==> res && Done(strict, card, key))
      decreases BUFFER - |path|, 2
    {
      hide Staged, Valid, Shrinks, Spares, Done, Cleared, FitsBuffer, Entries, Listed, Lower, Protected, WellFormed, Empty, AllDone;
      hide Orderly, Mirror, Unskipped, Distinct, GoodPath;
      ghost var key, c0 := Lower(path), card;
      Unchanged(card, key);
      var fault := Fault();
      if fault || Lower(path) !in card || card[Lower(path)].File? { return false; }
      CardWellFormed();
      PathsGood(card, key);
      LowerTwice(path);
      var names := ReadDir(Lower(path));
      var i := |path|;
      path := path + "/";
      assert path[..i] == old(path);
      res := DeleteMembers(i, names, strict);
      path := path[..i];
      if res {
        ghost var c := card;
        CardWellFormed();
        DirRemoved(c0, c, key);
        if strict { MirrorShrinks(before, c, key); }
        if reliable {
          ChildrenDone(strict, c0, c, key, names);
          ClearedDone(strict, c, key);
        }
        var _ := Unlink(path);
      }
    }

    // One entry of the root directory, from the loop of performCleanup.
    method VisitRoot(name: string, ghost strict: bool)
      requires Valid() && FitsBuffer(before) && Token(Lower(name)) && (strict ==> InOrder())
      modifies this
      ensures Valid() && (strict ==> InOrder())
      ensures var child := "" + ("/" + Lower(name));
              && Shrinks(old(card), card) && Spares(old(card), card, child)
              && (Skip(old(card), child) ==> card == old(card))
              && (reliable && child != STAGE && !Skip(old(card), child) ==> Done(strict, card, child))
    {
      hide Staged, Valid, Shrinks, Spares, FitsBuffer, Done, GoodPath, Lower, Protected, Empty, InOrder, Unskipped, Token;
      RootName(name);
      var file := Lower("/" + name);
      Unchanged(card, file);
      CardWellFormed();
      if file in card && card[file].Dir? {
        var can := CanDeleteFolder(file);
        if can {
          RootFits(before, card, file);
          RootUnskipped(Lower(name));
          path := file;
          var _ := DeleteNode(strict);
        }
      } else {
        RootFile(file, Lower(name), strict);
      }
    }

    // The file case of performCleanup
    method RootFile(file: string, ghost n: string, ghost strict: bool)
      requires Valid() && Lower(file) == file && file == "" + ("/" + n) && Token(n)
      requires GoodPath(file) && (Staged(file) ==> file == STAGE) && (file in card ==> card[file].File?)
      requires strict ==> InOrder()
      modifies this`card, this`seen
      ensures Valid() && Shrinks(old(card), card) && Spares(old(card), card, file) && (strict ==> InOrder())
      ensures reliable && file != STAGE ==> Done(strict, card, file)
    {
      hide Staged, Valid, Shrinks, Spares, Done, GoodPath, Lower, Protected, Empty, Mirror, Orderly, Token, SameBut;
      Unchanged(card, file);
      CardWellFormed();
      NothingUnder(card, file);
      StageUnprotected();
      var can := CanDeleteFile(file);
      if can {
        FileGone(card, file);
        if strict { MirrorShrinks(before, card, file); }
        var _ := Unlink(file);
      } else {
        var _ := EasyRename(file);
        RenamedWithin(old(card), card, file);
      }
      assert file == "/" + n;
      RootUnprotected(n);
      if file != STAGE { FileDone(reliable, strict, old(card), card, file); }
    }

    // performCleanup
    method PerformCleanup() returns (res: bool)
      requires Valid() && FitsBuffer(before)
      modifies this
      ensures Valid() && Shrinks(old(card), card) && SkippedKept(old(card), card)
      ensures reliable ==> res && RootDone(false, old(card), card)
      // which protected files have been moved aside, and what is left
      ensures reliable && old(card) == before && StageIsDir(before) && NoDotsStaged(before) ==>
                && (AllMoved(before, card) <==> AllCanMove(before))
                && (AllCanMove(before) ==> NothingElse(before, card))
    {
      hide Staged, Valid, Shrinks, Spares, Done, FitsBuffer, Entries, Listed, Lower, Protected, WellFormed, Empty, SkippedKept;
      hide Mirror, AllMoved, AllCanMove, NothingElse, StageIsDir, NoDotsStaged, RootDone, MembersDone;
      ghost var c0, strict := card, reliable && card == before && Orderly(before);
      MirrorAtFirst(card);
      Unchanged(card, "");
      NothingSkipped(card);
      CardWellFormed();
      var fault := Fault();
      if fault { return false; }
      var names := ReadDir("");
      NoMemberDone(strict, c0, card, names);
      var n := 0;
      while n < |names|
        invariant 0 <= n <= |names| && Valid() && Shrinks(c0, card) && SkippedKept(c0, card) && (strict ==> InOrder())
        invariant reliable ==> MembersDone(strict, c0, card, names, n)
      {
        fault := Fault();
        if fault { return false; }
        ghost var c := card;
        RootEntry(c0, names, n);
        VisitRoot(names[n], strict);
        StaysSkipped(c0, c, card, names[n]);
        if reliable { OneMoreMember(strict, c0, c, card, names, n); }
        n := n + 1;
      }
      fault := Fault();
      res := !fault;
      if reliable {
        CardWellFormed();
        MembersAll(strict, c0, card, names);
        RootDoneEither(strict, c0, card);
        if c0 == before { Ends(strict); }
      }
    }

    lemma Ends(strict: bool)
      requires Valid() && FitsBuffer(before) && RootDone(strict, before, card)
      ensures strict ==> NothingElse(before, card) && AllMoved(before, card)
      ensures StageIsDir(before) && AllMoved(before, card) ==> AllCanMove(before)
    {
      hide FitsBuffer, RootDone, NothingElse, AllMoved, AllCanMove, StageIsDir, Safe;
      if strict { EndsEmpty(before, card); }
      if StageIsDir(before) && AllMoved(before, card) { MovedOnlyIf(before, card); }
    }
  }
}
