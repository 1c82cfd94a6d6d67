/**
  What a self-update promises over every history of forwarder runs.

  A history is a sequence of cards.  Each one is where the previous run left off:
  its end, or the point at which the power went.  `Swap.Forwarder.RunSwap` proves
  that every state it ever puts on the card is a `RunPoint` of the card it started on.
*/
module SwapTheorems {
  import opened Handoff
  import opened Swap

  ghost predicate History(lib: Library, sound: bool, cards: seq<Card>) {
    forall i, j :: 0 <= i && j == i + 1 && j < |cards| ==> RunPoint(lib, sound, cards[i], cards[j])
  }

  function Doc(lib: Library, c: Card): Option<Handoff> {
    if c.doc.None? then None else lib.Parse(c.doc.value)
  }

  predicate Swaps(lib: Library, c: Card) {
    Installs(SwapAction(lib, c))
  }

  // A run from c that got to s has touched a binary.
  predicate Touched(c: Card, s: Card) {
    s.target != c.target || s.backup != c.backup || s.incoming != c.incoming || s.staged != c.staged
  }

  // ----- one run -----

  // Until the new target verifies, the binary that was there before is at target or backup.
  lemma OldBinaryKept(lib: Library, sound: bool, c: Card, s: Card)
    requires Swaps(lib, c) && RunPoint(lib, sound, c, s) && c.target.Some?
    ensures s.target == c.target || s.backup == c.target || Verifies(lib, Doc(lib, c).value, s.target)
  {
  }

  // Once a swap touches anything, the staged file or the target matches the digest, and
  // the attempt is on record unless the update has just completed.
  lemma TouchedIsRecorded(lib: Library, sound: bool, c: Card, s: Card)
    requires Swaps(lib, c) && RunPoint(lib, sound, c, s) && Touched(c, s)
    ensures var h := Doc(lib, c).value;
            && (Verifies(lib, h, s.staged) || Verifies(lib, h, s.target))
            && (s.doc == Some(lib.encode(h.Next())) || (s.doc == None && Verifies(lib, h, s.target)))
  {
  }

  // A digest mismatch leaves everything but the handoff alone, at every moment of the run.
  lemma MismatchTouchesNothing(lib: Library, sound: bool, c: Card, s: Card)
    requires Swaps(lib, c) && !Verifies(lib, Doc(lib, c).value, c.staged) && RunPoint(lib, sound, c, s)
    ensures !Touched(c, s)
  {
  }

  // ----- the application survives -----

  ghost predicate Present(c: Card) {
    c.target.Some? || c.backup.Some?
  }

  lemma RunKeepsPresent(lib: Library, sound: bool, c: Card, s: Card)
    requires Present(c) && RunPoint(lib, sound, c, s)
    ensures Present(s)
  {
  }

  // Whatever fails and wherever the power goes, there is a binary at target or backup.
  lemma {:induction false} AlwaysPresent(lib: Library, sound: bool, cards: seq<Card>, n: nat)
    requires History(lib, sound, cards) && n < |cards| && Present(cards[0])
    ensures Present(cards[n])
  {
    if n > 0 {
      AlwaysPresent(lib, sound, cards, n - 1);
      RunKeepsPresent(lib, sound, cards[n - 1], cards[n]);
    }
  }

  // ----- the retry budget -----

  // The swaps that the handoff on the card still allows.
  function Budget(lib: Library, c: Card): nat {
    var h := Doc(lib, c);
    if h.Some? && !h.value.Exhausted() then h.value.maxAttempts - h.value.attempts else 0
  }

  lemma NextDoc(lib: Library, h: Handoff, c: Card)
    requires lib.Lawful() && c.doc == Some(lib.encode(h.Next()))
    ensures Doc(lib, c) == if h.Next().InRange() then Some(h.Next()) else None
  {
  }

  lemma BudgetStep(lib: Library, sound: bool, c: Card, s: Card)
    requires lib.Lawful() && Present(c) && RunPoint(lib, sound, c, s)
    ensures Budget(lib, s) <= Budget(lib, c)
    ensures Swaps(lib, c) && Touched(c, s) ==> Budget(lib, s) < Budget(lib, c)
  {
    if Swaps(lib, c) && s.doc == Some(lib.encode(Doc(lib, c).value.Next())) {
      NextDoc(lib, Doc(lib, c).value, s);
    }
  }

  // How many runs of a history were swaps that touched a binary.
  function SwapRuns(lib: Library, cards: seq<Card>): nat {
    if |cards| < 2 then 0
    else
      var n := |cards| - 1;
      SwapRuns(lib, cards[..n]) + (if Swaps(lib, cards[n - 1]) && Touched(cards[n - 1], cards[n]) then 1 else 0)
  }

  // No crash history makes the forwarder try more often than the handoff allows.
  lemma {:induction false} SwapRunsBounded(lib: Library, sound: bool, cards: seq<Card>)
    requires lib.Lawful() && History(lib, sound, cards) && cards != [] && Present(cards[0])
    ensures SwapRuns(lib, cards) + Budget(lib, cards[|cards| - 1]) <= Budget(lib, cards[0])
    decreases |cards|
  {
    var n := |cards| - 1;
    if n > 0 {
      SwapRunsBounded(lib, sound, cards[..n]);
      AlwaysPresent(lib, sound, cards, n - 1);
      BudgetStep(lib, sound, cards[n - 1], cards[n]);
    }
  }

  // With no binary at target or backup a spent budget does not stop the swap: this is
  // the one state in which it goes on.
  lemma ExhaustedInstalls(h: Handoff, p: Presence)
    requires h.Exhausted() && p.handoff
    ensures Installs(DecideRecovery(Some(h), p)) <==> p.staged && !p.target && !p.backup
  {
  }

  // Then only parseHandoff's limit of 1000 attempts ends the tries.
  function TriesLeft(lib: Library, c: Card): nat {
    var h := Doc(lib, c);
    if h.Some? && 0 <= h.value.attempts <= 1000 then 1001 - h.value.attempts else 0
  }

  lemma TriesStep(lib: Library, sound: bool, c: Card, s: Card)
    requires lib.Lawful() && RunPoint(lib, sound, c, s)
    ensures TriesLeft(lib, s) <= TriesLeft(lib, c)
    ensures Swaps(lib, c) && Touched(c, s) ==> TriesLeft(lib, s) < TriesLeft(lib, c)
  {
    if Swaps(lib, c) && s.doc == Some(lib.encode(Doc(lib, c).value.Next())) {
      NextDoc(lib, Doc(lib, c).value, s);
    }
  }

  // From any card at all, the tries end.
  lemma {:induction false} SwapRunsFinite(lib: Library, sound: bool, cards: seq<Card>)
    requires lib.Lawful() && History(lib, sound, cards) && cards != []
    ensures SwapRuns(lib, cards) + TriesLeft(lib, cards[|cards| - 1]) <= TriesLeft(lib, cards[0])
    decreases |cards|
  {
    var n := |cards| - 1;
    if n > 0 {
      SwapRunsFinite(lib, sound, cards[..n]);
      TriesStep(lib, sound, cards[n - 1], cards[n]);
    }
  }

  // ----- full recovery on a sound card -----

  // A binary that was there at the start or matches the digest of the update.
  ghost predicate Good(lib: Library, h0: Handoff, origin: set<Bytes>, f: File) {
    f.Some? ==> f.value in origin || lib.hash(f.value) == h0.sha
  }

  // h is the handoff h0 with some number of attempts.
  ghost predicate SameUpdate(h0: Handoff, h: Handoff) {
    h == h0.(attempts := h.attempts)
  }

  ghost predicate Recoverable(lib: Library, h0: Handoff, origin: set<Bytes>, c: Card) {
    && (c.doc.Some? ==> lib.decode(c.doc.value).Some? && SameUpdate(h0, lib.decode(c.doc.value).value))
    && (c.target.Some? || (c.backup.Some? && Doc(lib, c).Some?))
    && Good(lib, h0, origin, c.target) && Good(lib, h0, origin, c.backup)
  }

  lemma RunKeepsRecoverable(lib: Library, h0: Handoff, origin: set<Bytes>, c: Card, s: Card)
    requires lib.Lawful() && Recoverable(lib, h0, origin, c) && RunPoint(lib, true, c, s)
    ensures Recoverable(lib, h0, origin, s)
  {
    if Swaps(lib, c) {
      var h := Doc(lib, c).value;
      if s.doc == Some(lib.encode(h.Next())) {
        NextDoc(lib, h, s);
      }
    }
  }

  lemma {:induction false} AlwaysRecoverable(lib: Library, h0: Handoff, origin: set<Bytes>, cards: seq<Card>, n: nat)
    requires lib.Lawful() && History(lib, true, cards) && n < |cards| && Recoverable(lib, h0, origin, cards[0])
    ensures Recoverable(lib, h0, origin, cards[n])
  {
    if n > 0 {
      AlwaysRecoverable(lib, h0, origin, cards, n - 1);
      RunKeepsRecoverable(lib, h0, origin, cards[n - 1], cards[n]);
    }
  }

  // After any history of failures and power cuts, one undisturbed run leaves a good
  // binary at the target.
  lemma RecoveryCompletes(lib: Library, h0: Handoff, origin: set<Bytes>, cards: seq<Card>, r: Result, s: Card)
    requires lib.Lawful() && History(lib, true, cards) && cards != [] && Recoverable(lib, h0, origin, cards[0])
    requires var c := cards[|cards| - 1]; Outcome(lib, true, c, r, s) && CleanOutcome(lib, true, c, r, s)
    ensures s.target.Some? && Good(lib, h0, origin, s.target)
  {
    var n := |cards| - 1;
    AlwaysRecoverable(lib, h0, origin, cards, n);
    RunKeepsRecoverable(lib, h0, origin, cards[n], s);
  }

  // ----- when the last good binary can be lost -----

  // A binary that was there at the start or matches the digest is at target or backup.
  ghost predicate GoodAt(lib: Library, h0: Handoff, origin: set<Bytes>, c: Card) {
    || (c.target.Some? && Good(lib, h0, origin, c.target))
    || (c.backup.Some? && Good(lib, h0, origin, c.backup))
  }

  ghost predicate OfUpdate(lib: Library, h0: Handoff, c: Card) {
    Doc(lib, c).Some? ==> SameUpdate(h0, Doc(lib, c).value)
  }

  // One run keeps a good binary at every moment exactly when the target is good or absent, or
  // the run will not touch it.  Otherwise the retry clears the backup for the bad target, and
  // a roll-back deletes it.
  lemma RunKeepsGood(lib: Library, sound: bool, h0: Handoff, origin: set<Bytes>, c: Card)
    requires GoodAt(lib, h0, origin, c) && OfUpdate(lib, h0, c)
    ensures (forall s :: RunPoint(lib, sound, c, s) ==> GoodAt(lib, h0, origin, s)) <==>
            || Good(lib, h0, origin, c.target)
            || SwapAction(lib, c) == Action.Unrecoverable
            || (Swaps(lib, c) && !Verifies(lib, Doc(lib, c).value, c.staged))
  {
    var a := SwapAction(lib, c);
    if
      || Good(lib, h0, origin, c.target) || a == Action.Unrecoverable
      || (Swaps(lib, c) && !Verifies(lib, Doc(lib, c).value, c.staged))
    {
      forall s | RunPoint(lib, sound, c, s) ensures GoodAt(lib, h0, origin, s) {
        PointKeepsGood(lib, sound, h0, origin, c, s);
      }
    } else if Swaps(lib, c) {
      BackupCleared(lib, sound, c);
    } else {
      assert RunPoint(lib, sound, c, Abandoned(c));
    }
  }

  lemma PointKeepsGood(lib: Library, sound: bool, h0: Handoff, origin: set<Bytes>, c: Card, s: Card)
    requires GoodAt(lib, h0, origin, c) && OfUpdate(lib, h0, c) && RunPoint(lib, sound, c, s)
    requires Good(lib, h0, origin, c.target) || SwapAction(lib, c) == Action.Unrecoverable ||
             (Swaps(lib, c) && !Verifies(lib, Doc(lib, c).value, c.staged))
    ensures GoodAt(lib, h0, origin, s)
  {
  }

  // Record, copy, clear the backup; power cut.
  lemma BackupCleared(lib: Library, sound: bool, c: Card)
    requires Swaps(lib, c) && Verifies(lib, Doc(lib, c).value, c.staged)
    ensures var s := Recorded(lib, Doc(lib, c).value, c).With(Incoming, c.staged).With(Backup, None);
            RunPoint(lib, sound, c, s) && s.target == c.target && s.backup == None
  {
  }

  // No history of runs that starts with c ever leaves target and backup without a good binary.
  ghost predicate AlwaysGood(lib: Library, sound: bool, h0: Handoff, origin: set<Bytes>, c: Card) {
    forall cards :: History(lib, sound, cards) && cards != [] && cards[0] == c ==>
      GoodAt(lib, h0, origin, cards[|cards| - 1])
  }

  // What to look for on a card: no run will act on it, or the target is not a bad one and no
  // swap that could spoil it is to come.
  ghost predicate OutOfDanger(lib: Library, sound: bool, h0: Handoff, origin: set<Bytes>, c: Card) {
    || SwapAction(lib, c) == Action.Unrecoverable
    || (&& Good(lib, h0, origin, c.target)
        && (sound || Doc(lib, c).value.Exhausted() || !Verifies(lib, Doc(lib, c).value, c.staged)))
  }

  lemma StaysOutOfDanger(lib: Library, sound: bool, h0: Handoff, origin: set<Bytes>, c: Card, s: Card)
    requires lib.Lawful() && GoodAt(lib, h0, origin, c) && OfUpdate(lib, h0, c) && OutOfDanger(lib, sound, h0, origin, c)
    requires RunPoint(lib, sound, c, s)
    ensures GoodAt(lib, h0, origin, s) && OfUpdate(lib, h0, s) && OutOfDanger(lib, sound, h0, origin, s)
  {
    if Swaps(lib, c) && s.doc == Some(lib.encode(Doc(lib, c).value.Next())) { NextDoc(lib, Doc(lib, c).value, s); }
  }

  lemma {:induction false} HistoryOutOfDanger(lib: Library, sound: bool, h0: Handoff, origin: set<Bytes>, cards: seq<Card>, n: nat)
    requires lib.Lawful() && History(lib, sound, cards) && n < |cards|
    requires GoodAt(lib, h0, origin, cards[0]) && OfUpdate(lib, h0, cards[0]) && OutOfDanger(lib, sound, h0, origin, cards[0])
    ensures GoodAt(lib, h0, origin, cards[n]) && OfUpdate(lib, h0, cards[n]) && OutOfDanger(lib, sound, h0, origin, cards[n])
  {
    if n > 0 {
      HistoryOutOfDanger(lib, sound, h0, origin, cards, n - 1);
      StaysOutOfDanger(lib, sound, h0, origin, cards[n - 1], cards[n]);
    }
  }

  lemma OneMoreRun(lib: Library, sound: bool, c: Card, cards: seq<Card>)
    requires History(lib, sound, cards) && cards != [] && RunPoint(lib, sound, c, cards[0])
    ensures History(lib, sound, [c] + cards)
  {
    hide RunPoint;
    var all := [c] + cards;
    forall i, j | 0 <= i && j == i + 1 && j < |all| ensures RunPoint(lib, sound, all[i], all[j]) {
      if i > 0 { assert all[i] == cards[i - 1] && all[j] == cards[j - 1]; }
    }
  }

  // A bad target: the tries run out one after the other, and the roll-back deletes the backup.
  lemma {:induction false} BadTargetLoses(lib: Library, sound: bool, h0: Handoff, origin: set<Bytes>, c: Card)
    returns (cards: seq<Card>)
    requires lib.Lawful() && SwapAction(lib, c) != Action.Unrecoverable
    requires !Good(lib, h0, origin, c.target)
    ensures History(lib, sound, cards) && cards != [] && cards[0] == c && !GoodAt(lib, h0, origin, cards[|cards| - 1])
    decreases Budget(lib, c)
  {
    var h := Doc(lib, c).value;
    if h.Exhausted() {
      cards := [c, Abandoned(c)];
      assert RunPoint(lib, sound, c, Abandoned(c));
    } else {
      var s := Recorded(lib, h, c);
      NextDoc(lib, h, s);
      assert RunPoint(lib, sound, c, s);
      var rest := BadTargetLoses(lib, sound, h0, origin, s);
      OneMoreRun(lib, sound, c, rest);
      cards := [c] + rest;
    }
  }

  // A good target: one copy is corrupted unnoticed and the power goes before it is confirmed.
  lemma BadCopyLoses(lib: Library, h0: Handoff, origin: set<Bytes>, c: Card, junk: Bytes) returns (cards: seq<Card>)
    requires lib.Lawful() && junk !in origin && lib.hash(junk) != h0.sha && Doc(lib, c).Some? && !Doc(lib, c).value.Exhausted()
    requires c.target.Some? && Verifies(lib, Doc(lib, c).value, c.staged)
    ensures History(lib, false, cards) && cards != [] && cards[0] == c && !GoodAt(lib, h0, origin, cards[|cards| - 1])
  {
    var h := Doc(lib, c).value;
    // record, copy, move the target aside, move the copy in; power cut
    var s := Recorded(lib, h, c).With(Incoming, Some(junk)).With(Backup, None).Moved(Target, Backup).Moved(Incoming, Target);
    NextDoc(lib, h, s);
    assert RunPoint(lib, false, c, s);
    var rest := BadTargetLoses(lib, false, h0, origin, s);
    OneMoreRun(lib, false, c, rest);
    cards := [c] + rest;
  }

  lemma InDangerLoses(lib: Library, sound: bool, h0: Handoff, origin: set<Bytes>, c: Card, junk: Bytes)
    returns (cards: seq<Card>)
    requires lib.Lawful() && junk !in origin && lib.hash(junk) != h0.sha
    requires GoodAt(lib, h0, origin, c) && !OutOfDanger(lib, sound, h0, origin, c)
    ensures History(lib, sound, cards) && cards != [] && cards[0] == c && !GoodAt(lib, h0, origin, cards[|cards| - 1])
  {
    if !Good(lib, h0, origin, c.target) {
      cards := BadTargetLoses(lib, sound, h0, origin, c);
    } else if c.target.Some? {
      cards := BadCopyLoses(lib, h0, origin, c, junk);
    } else {
      // the backup is put back; power cut before the handoff goes
      var s := c.Moved(Backup, Target);
      assert RunPoint(lib, false, c, s);
      var rest := BadCopyLoses(lib, h0, origin, s, junk);
      OneMoreRun(lib, false, c, rest);
      cards := [c] + rest;
    }
  }

  // Over every history of failures, power cuts and, unless the card is sound, corrupt copies, a
  // good binary stays at target or backup exactly when the first card is out of danger.
  lemma AlwaysGoodIff(lib: Library, sound: bool, h0: Handoff, origin: set<Bytes>, c: Card, junk: Bytes)
    requires lib.Lawful() && junk !in origin && lib.hash(junk) != h0.sha
    requires GoodAt(lib, h0, origin, c) && OfUpdate(lib, h0, c)
    ensures AlwaysGood(lib, sound, h0, origin, c) <==> OutOfDanger(lib, sound, h0, origin, c)
  {
    hide GoodAt, OutOfDanger, OfUpdate, History;
    if OutOfDanger(lib, sound, h0, origin, c) {
      forall cards | History(lib, sound, cards) && cards != [] && cards[0] == c
        ensures GoodAt(lib, h0, origin, cards[|cards| - 1])
      {
        HistoryOutOfDanger(lib, sound, h0, origin, cards, |cards| - 1);
      }
    } else {
      var cards := InDangerLoses(lib, sound, h0, origin, c, junk);
    }
  }

  // Two runs suffice: one copy is corrupted unnoticed and the power goes before the new target is
  // confirmed; the retry, whose own copy is flawless, then clears the backup.
  lemma CorruptCopyLosesOld(lib: Library, h: Handoff, old': Bytes, new': Bytes, junk: Bytes)
    requires lib.Lawful() && h.InRange() && h.attempts + 1 < h.maxAttempts && lib.hash(new') == h.sha
    requires junk != old' && lib.hash(junk) != h.sha
    ensures var c0 := Card(Some(lib.encode(h)), None, Some(new'), Some(old'), None, None);
            var c1 := Card(Some(lib.encode(h.Next())), None, Some(new'), Some(junk), None, Some(old'));
            var c2 := Card(Some(lib.encode(h.Next().Next())), None, Some(new'), None, Some(new'), Some(junk));
            // the first run: record, copy, move the target aside, move the copy in; power cut
            && c1 == Recorded(lib, h, c0).With(Incoming, Some(junk)).Moved(Target, Backup).Moved(Incoming, Target)
            // the second run: record, copy, clear the backup, move the target aside; power cut
            && c2 == Recorded(lib, h.Next(), c1).With(Incoming, Some(new')).With(Backup, None).Moved(Target, Backup)
            && History(lib, false, [c0, c1, c2])
            && GoodAt(lib, h, {old'}, c0) && !GoodAt(lib, h, {old'}, c2)
  {
    var c0 := Card(Some(lib.encode(h)), None, Some(new'), Some(old'), None, None);
    var c1 := Card(Some(lib.encode(h.Next())), None, Some(new'), Some(junk), None, Some(old'));
    var c2 := Card(Some(lib.encode(h.Next().Next())), None, Some(new'), None, Some(new'), Some(junk));
    assert Doc(lib, c0) == Some(h) && Doc(lib, c1) == Some(h.Next());
    assert RunPoint(lib, false, c0, c1) && RunPoint(lib, false, c1, c2);
  }

  // ----- the recovery table, in terms of the attempts and the files that are there -----

  // Which action each combination leads to.
  lemma DecisionTable(handoff: Option<Handoff>, p: Presence)
    ensures var none := handoff.None? || !p.handoff; var spent := !none && handoff.value.attempts >= handoff.value.maxAttempts;
            var a := DecideRecovery(handoff, p);
            && (a == Nothing <==> none && p.target)
            && (a == RollBack <==> spent && (p.target || p.backup))
            && (a == RestoreBackup <==> !p.target && p.backup && !spent)
            && (a == InstallStaged <==> !none && !p.target && !p.backup && p.staged)
            && (a == ProceedWithSwap <==> !none && !spent && p.target && p.staged && handoff.value.attempts == 0)
            && (a == RetrySwap <==> !none && !spent && p.target && p.staged && handoff.value.attempts != 0)
            && (a == Action.Unrecoverable <==>
                  || (!p.target && !p.backup && (none || !p.staged))
                  || (!none && !spent && p.target && !p.staged))
  {
  }

  // A handoff is read exactly when it decodes and its counts are in range.
  lemma HandoffRead(lib: Library, c: Card)
    ensures Doc(lib, c).Some? <==>
            && c.doc.Some? && lib.decode(c.doc.value).Some?
            && var h := lib.decode(c.doc.value).value; 0 <= h.attempts <= 1000 && 1 <= h.maxAttempts <= 1000
    ensures Doc(lib, c).Some? ==> Doc(lib, c) == lib.decode(c.doc.value)
  {
  }

  // Without a readable handoff nothing changes.
  lemma NoHandoffResult(lib: Library, sound: bool, c: Card, r: Result, s: Card)
    requires CleanOutcome(lib, sound, c, r, s) && Doc(lib, c).None?
    ensures r == Result.Unrecoverable && s == c
  {
  }

  // A spent budget with a binary left: the update is abandoned, and target and backup become the
  // target if there is one, else the backup.
  lemma SpentBudgetResult(lib: Library, sound: bool, c: Card, r: Result, s: Card)
    requires CleanOutcome(lib, sound, c, r, s) && Doc(lib, c).Some? && Present(c)
    requires Doc(lib, c).value.attempts >= Doc(lib, c).value.maxAttempts
    ensures r == RolledBack && s.target == (if c.target.Some? then c.target else c.backup)
    ensures s.doc == None && s.staged == None && s.backup == None && s.tmp == c.tmp && s.incoming == c.incoming
  {
  }

  // Budget left, the target missing and a backup there: the backup is restored and the update abandoned.
  lemma LostTargetResult(lib: Library, sound: bool, c: Card, r: Result, s: Card)
    requires CleanOutcome(lib, sound, c, r, s) && Doc(lib, c).Some? && c.target.None? && c.backup.Some?
    requires Doc(lib, c).value.attempts < Doc(lib, c).value.maxAttempts
    ensures r == Restored && s.target == c.backup
    ensures s.doc == None && s.staged == None && s.backup == None && s.tmp == c.tmp && s.incoming == c.incoming
  {
  }

  // Nothing is staged and there is nothing to restore or to roll back: nothing changes.
  lemma NothingStagedResult(lib: Library, sound: bool, c: Card, r: Result, s: Card)
    requires CleanOutcome(lib, sound, c, r, s) && Doc(lib, c).Some? && c.staged.None?
    requires !Present(c) || (c.target.Some? && Doc(lib, c).value.attempts < Doc(lib, c).value.maxAttempts)
    ensures r == Result.Unrecoverable && s == c
  {
  }

  // A staged file, and a target with budget left or no binary at all: installed if the file
  // matches the digest, else one more attempt is recorded and nothing else changes.
  lemma StagedResult(lib: Library, c: Card, r: Result, s: Card)
    requires CleanOutcome(lib, true, c, r, s) && Doc(lib, c).Some? && c.staged.Some?
    requires !Present(c) || (c.target.Some? && Doc(lib, c).value.attempts < Doc(lib, c).value.maxAttempts)
    ensures var h := Doc(lib, c).value;
            if lib.hash(c.staged.value) == h.sha then
              r == Installed && s == Card(None, None, None, c.staged, None, None)
            else
              && r == DigestMismatch
              && s == c.(doc := Some(lib.encode(Handoff(h.sha, h.attempts + 1, h.maxAttempts))), tmp := None)
  {
  }

  // A copy that was corrupted: the old target is back, and only the attempt, which is on record, is lost.
  lemma BadCopyResult(lib: Library, c: Card, r: Result, s: Card)
    requires CleanOutcome(lib, false, c, r, s) && Swaps(lib, c) && c.target.Some? && lib.hash(c.staged.value) == Doc(lib, c).value.sha
    ensures r == Installed || r == IoFailed
    ensures r == Installed ==> s.target.Some? && lib.hash(s.target.value) == Doc(lib, c).value.sha
    ensures var h := Doc(lib, c).value;
            r == IoFailed ==>
              s == Card(Some(lib.encode(Handoff(h.sha, h.attempts + 1, h.maxAttempts))), None, c.staged, c.target, None, None)
  {
  }

  // ----- where the code departs from its recovery table -----

  // Without a handoff runSwap never looks for the binaries, so it reports
  // Unrecoverable even where the table says "nothing to do" or "restore the backup".
  lemma NoHandoffRow(lib: Library, c: Card)
    requires c.doc.None?
    ensures SwapAction(lib, c) == Action.Unrecoverable
    ensures SwapAction(lib, c) == DecideRecovery(None, Presence(false, c.staged.Some?, c.target.Some?, c.backup.Some?))
            <==> !Present(c)
  {
  }

  // A roll-back puts the backup in place exactly when there is no other binary at the target.
  lemma RollBackRestores(lib: Library, sound: bool, c: Card, s: Card)
    requires Outcome(lib, sound, c, RolledBack, s) && c.backup.Some?
    ensures s.target == c.backup <==> c.target == None || c.target == c.backup
    ensures s.target.Some?
  {
  }
}
