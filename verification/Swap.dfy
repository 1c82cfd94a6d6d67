/**
  The forwarder's side of a self-update: file operations on an SD card on which
  any operation may fail and power may be lost between any two of them.
*/
module Swap {
  import opened Handoff

  // The paths involved in a swap, which are pairwise distinct.
  datatype Name = HandoffDoc | HandoffTmp | Staged | Target | Incoming | Backup

  type File = Option<Bytes>

  // What the card holds at each path.
  datatype Card = Card(doc: File, tmp: File, staged: File, target: File, incoming: File, backup: File) {
    function At(n: Name): File {
      match n
      case HandoffDoc => doc
      case HandoffTmp => tmp
      case Staged => staged
      case Target => target
      case Incoming => incoming
      case Backup => backup
    }

    function With(n: Name, f: File): (c: Card)
      ensures c.At(n) == f
      ensures forall m :: m != n ==> c.At(m) == At(m)
    {
      match n
      case HandoffDoc => this.(doc := f)
      case HandoffTmp => this.(tmp := f)
      case Staged => this.(staged := f)
      case Target => this.(target := f)
      case Incoming => this.(incoming := f)
      case Backup => this.(backup := f)
    }

    lemma WithSame(n: Name)
      ensures With(n, At(n)) == this
    {
    }

    lemma WithWith(n: Name, f: File, g: File)
      ensures With(n, f).With(n, g) == With(n, g)
    {
    }

    // The card after the file at `from` has taken the place of `to`.
    function Moved(from: Name, to: Name): Card {
      With(from, None).With(to, At(from))
    }
  }

  // What the forwarder takes from the core library: SHA-256 and the JSON form of
  // the handoff.  Any functions will do, as long as decoding undoes encoding.
  datatype Library = Library(hash: Bytes -> Digest, decode: Bytes -> Option<Handoff>, encode: Handoff -> Bytes) {
    ghost predicate Lawful() {
      forall h :: decode(encode(h)) == Some(h)
    }

    // parseHandoff
    function Parse(raw: Bytes): Option<Handoff> {
      var h := decode(raw);
      if h.Some? && h.value.InRange() then h else None
    }
  }

  datatype Result = NothingToDo | Installed | RolledBack | Restored | DigestMismatch | IoFailed | Unrecoverable

  const IO_CHUNK: nat := 65536

  // The states a card starting as c passes through while one file is written.
  ghost predicate OnlyAt(c: Card, n: Name, s: Card) {
    s == c.With(n, s.At(n))
  }

  lemma OnlyAtStays(c: Card, n: Name)
    ensures OnlyAt(c, n, c) && forall f :: OnlyAt(c, n, c.With(n, f))
  {
    hide Card.At, Card.With;
    c.WithSame(n);
    forall f ensures OnlyAt(c, n, c.With(n, f)) { assert c.With(n, f).At(n) == f; }
  }

  lemma OnlyAtStep(c: Card, n: Name, s: Card, f: File)
    requires OnlyAt(c, n, s)
    ensures OnlyAt(c, n, s.With(n, f))
  {
    hide Card.At, Card.With;
    c.WithWith(n, s.At(n), f);
  }

  lemma OneMoreChunk(src: Bytes, pos: nat, n: nat)
    requires pos + n <= |src|
    ensures src[..pos] + src[pos..pos + n] == src[..pos + n]
  {
  }

  // ... and while the handoff is replaced: the document is the old one, the whole
  // new one, or absent, never a part of one.
  ghost predicate DocUpdate(c: Card, data: Bytes, s: Card) {
    && s == c.(doc := s.doc, tmp := s.tmp)
    && (s.doc == c.doc || s.doc == Some(data) || s.doc == None)
  }

  // ... and while backup, staged file and handoff are deleted.
  ghost predicate Cleaning(c: Card, s: Card) {
    && s == c.(backup := s.backup, staged := s.staged, doc := s.doc)
    && (s.backup == c.backup || s.backup == None)
    && (s.staged == c.staged || s.staged == None)
    && (s.doc == c.doc || s.doc == None)
  }

  ghost predicate Verifies(lib: Library, h: Handoff, f: File) {
    f.Some? && lib.hash(f.value) == h.sha
  }

  // ----- the crash points of a run that started on card c with handoff h -----

  // The attempt is on record and the staged file has verified; the copy and the
  // renames are under way.  The old binary is at target or backup.
  ghost predicate Swapping(lib: Library, h: Handoff, c: Card, s: Card) {
    && s == c.(doc := Some(lib.encode(h.Next())), tmp := None, target := s.target, incoming := s.incoming, backup := s.backup)
    && Verifies(lib, h, c.staged)
    && (|| (s.target == c.target && (s.backup == c.backup || s.backup == None))
        || s.backup == c.target)
  }

  // The new target has verified; the rest is being deleted.
  ghost predicate Finishing(lib: Library, h: Handoff, c: Card, s: Card) {
    && Verifies(lib, h, c.staged) && Verifies(lib, h, s.target)
    && (s.doc == Some(lib.encode(h.Next())) || s.doc == None)
    && (s.staged == c.staged || s.staged == None)
    && (s.backup == c.target || s.backup == None)
  }

  ghost predicate InstallPoint(lib: Library, sound: bool, h: Handoff, c: Card, s: Card) {
    && (|| DocUpdate(c, lib.encode(h.Next()), s)
        || Swapping(lib, h, c, s)
        || Finishing(lib, h, c, s))
    && (sound ==> s.target == None || s.target == c.target || s.target == c.staged)
  }

  // The backup goes back only if there is no target; then everything else goes.
  ghost predicate RestorePoint(c: Card, s: Card) {
    || s == c
    || Cleaning(if c.target.None? then c.Moved(Backup, Target) else c, s)
  }

  // The card once that is done.
  function Abandoned(c: Card): Card {
    (if c.target.None? then c.Moved(Backup, Target) else c).(backup := None, staged := None, doc := None)
  }

  // The card once the attempt is on record.
  function Recorded(lib: Library, h: Handoff, c: Card): Card {
    c.(doc := Some(lib.encode(h.Next())), tmp := None)
  }

  // What runSwap decides on card c when the handoff can be read.
  function SwapAction(lib: Library, c: Card): Action {
    if c.doc.None? || lib.Parse(c.doc.value).None? then Action.Unrecoverable
    else DecideRecovery(lib.Parse(c.doc.value), Presence(true, c.staged.Some?, c.target.Some?, c.backup.Some?))
  }

  ghost predicate RunPoint(lib: Library, sound: bool, c: Card, s: Card) {
    s == c ||
    var a := SwapAction(lib, c);
    if Installs(a) then InstallPoint(lib, sound, lib.Parse(c.doc.value).value, c, s)
    else (a == RollBack || a == RestoreBackup) && RestorePoint(c, s)
  }

  ghost predicate Outcome(lib: Library, sound: bool, c: Card, r: Result, s: Card) {
    && RunPoint(lib, sound, c, s)
    && r != NothingToDo
    && (r == Result.Unrecoverable ==> s == c)
    && (r == RolledBack || r == Restored ==> !Installs(SwapAction(lib, c)) && s.target.Some?)
    && (r == Installed ==> Installs(SwapAction(lib, c)) && Finishing(lib, lib.Parse(c.doc.value).value, c, s))
    && (r == DigestMismatch ==>
          Installs(SwapAction(lib, c)) &&
          var h := lib.Parse(c.doc.value).value;
          !Verifies(lib, h, c.staged) && s == Recorded(lib, h, c))
  }

  // An install in which nothing fails and power stays on.  If the copy was corrupted the new target
  // does not verify, and the old one is back in its place.
  ghost predicate CleanInstall(lib: Library, sound: bool, h: Handoff, c: Card, r: Result, s: Card) {
    if Verifies(lib, h, c.staged) then
      || (&& r == Installed && Verifies(lib, h, s.target) && (sound ==> s.target == c.staged)
          && s == Card(None, None, None, s.target, None, None))
      || (&& r == IoFailed && !sound
          && s == Recorded(lib, h, c).(target := if c.target.Some? then c.target else s.target, incoming := None, backup := None))
    else
      r == DigestMismatch && s == Recorded(lib, h, c)
  }

  // The outcome when nothing fails and power stays on.
  ghost predicate CleanOutcome(lib: Library, sound: bool, c: Card, r: Result, s: Card) {
    match SwapAction(lib, c)
    case Nothing => false
    case Unrecoverable => r == Result.Unrecoverable && s == c
    case RollBack => r == RolledBack && s == Abandoned(c)
    case RestoreBackup => r == Restored && s == Abandoned(c)
    case _ => CleanInstall(lib, sound, lib.Parse(c.doc.value).value, c, r, s)
  }

  class Forwarder {
    const lib: Library
    const sound: bool             // a copy reads the bytes that hashing the file read
    var card: Card
    ghost var seen: set<Card>     // every state the card has been in, hence every crash point
    ghost var faults: nat         // how many operations have failed

    constructor (lib: Library, sound: bool, card: Card)
      ensures this.lib == lib && this.sound == sound && this.card == card && seen == {card} && faults == 0
    {
      this.lib, this.sound, this.card, this.seen, this.faults := lib, sound, card, {card}, 0;
    }

    // ----- single operations -----

    // Whether the next operation fails: any of them may.
    method Fault() returns (b: bool)
      modifies this`faults
      ensures faults == old(faults) + if b then 1 else 0
    {
      b := *;
      if b { faults := faults + 1; }
    }

    method Remove(n: Name) returns (ok: bool)
      modifies this
      ensures card == (if ok then old(card).With(n, None) else old(card))
      ensures ok ==> old(card).At(n).Some?
      ensures faults == old(faults) && old(card).At(n).Some? ==> ok
      ensures seen == old(seen) + {card} && faults >= old(faults)
    {
      var fault := Fault();
      ok := card.At(n).Some? && !fault;
      if ok { card := card.With(n, None); }
      seen := seen + {card};
    }

    // FatFs refuses to rename onto an existing file.
    method Rename(from: Name, to: Name) returns (ok: bool)
      requires from != to
      modifies this
      ensures card == (if ok then old(card).Moved(from, to) else old(card))
      ensures ok ==> old(card).At(from).Some? && old(card).At(to) == None
      ensures faults == old(faults) && old(card).At(from).Some? && old(card).At(to) == None ==> ok
      ensures seen == old(seen) + {card} && faults >= old(faults)
    {
      var fault := Fault();
      ok := card.At(from).Some? && card.At(to).None? && !fault;
      if ok { card := card.Moved(from, to); }
      seen := seen + {card};
    }

    method Exists(n: Name) returns (b: bool)
      ensures b == card.At(n).Some?
    {
      b := card.At(n).Some?;
    }

    // readFile
    method Read(n: Name) returns (data: File)
      modifies this`faults
      ensures faults >= old(faults)
      ensures data == card.At(n) || data == None
      ensures faults == old(faults) ==> data == card.At(n)
    {
      var fault := Fault();
      data := if fault then None else card.At(n);
    }

    // hashFile
    method HashFile(n: Name) returns (d: Option<Digest>)
      modifies this`faults
      ensures faults >= old(faults)
      ensures d.Some? ==> card.At(n).Some? && d.value == lib.hash(card.At(n).value)
      ensures faults == old(faults) && card.At(n).Some? ==> d.Some?
    {
      var data := Read(n);
      d := if data.Some? then Some(lib.hash(data.value)) else None;
    }

    // fopen(n, "wb")
    method Create(n: Name) returns (ok: bool)
      modifies this
      ensures card == (if ok then old(card).With(n, Some([])) else old(card))
      ensures faults == old(faults) ==> ok
      ensures seen == old(seen) + {card} && faults >= old(faults)
    {
      var fault := Fault();
      ok := !fault;
      if ok { card := card.With(n, Some([])); }
      seen := seen + {card};
    }

    // fwrite: on failure only a prefix reaches the card.
    method Append(n: Name, data: Bytes) returns (ok: bool)
      requires card.At(n).Some?
      modifies this
      ensures card == old(card).With(n, card.At(n)) && card.At(n).Some?
      ensures ok ==> card.At(n).value == old(card).At(n).value + data
      ensures faults == old(faults) ==> ok
      ensures seen == old(seen) + {card} && faults >= old(faults)
    {
      var fault := Fault();
      ok := !fault;
      var written: nat := |data|;
      if fault { written :| 0 <= written <= |data|; }
      card := card.With(n, Some(card.At(n).value + data[..written]));
      assert ok ==> data[..written] == data;
      seen := seen + {card};
    }

    // ----- compound operations -----

    // fread of n bytes at pos.  On a card that is not sound they may be any bytes.
    method ReadChunk(src: Bytes, pos: nat, n: nat) returns (chunk: Bytes)
      requires pos + n <= |src|
      ensures sound ==> chunk == src[pos..pos + n]
    {
      chunk := *;
      if sound { chunk := src[pos..pos + n]; }
    }

    // copyFile
    method CopyFile(from: Name, to: Name) returns (ok: bool)
      requires from != to
      modifies this
      ensures ok ==> old(card).At(from).Some? && card.At(to).Some?
      ensures ok && sound ==> card.At(to) == old(card).At(from)
      ensures OnlyAt(old(card), to, card)
      ensures forall s :: s in seen && s !in old(seen) ==> OnlyAt(old(card), to, s)
      ensures faults == old(faults) && old(card).At(from).Some? ==> ok
      ensures !ok && faults <= old(faults) + 1 ==> card == old(card) || card.At(to) == None
      ensures old(seen) <= seen && faults >= old(faults)
    {
      hide Card.At, Card.With, OnlyAt;
      OnlyAtStays(card, to);
      var fault := Fault();
      if card.At(from).None? || fault { return false; }
      var src := card.At(from).value;
      ok := Create(to);
      if !ok { return false; }
      var pos := 0;
      while true
        invariant ok && 0 <= pos <= |src| && card.At(to).Some?
        invariant sound ==> card.At(to).value == src[..pos]
        invariant OnlyAt(old(card), to, card) && old(seen) <= seen && faults >= old(faults)
        invariant forall s :: s in seen && s !in old(seen) ==> OnlyAt(old(card), to, s)
        decreases |src| - pos
      {
        var n := if |src| - pos < IO_CHUNK then |src| - pos else IO_CHUNK;
        fault := Fault();
        if fault || n == 0 {
          ok := !fault;
          break;
        }
        ghost var was := card;
        var chunk := ReadChunk(src, pos, n);
        ok := Append(to, chunk);
        OnlyAtStep(old(card), to, was, card.At(to));
        if !ok { break; }
        OneMoreChunk(src, pos, n);
        pos := pos + n;
      }
      assert src[..|src|] == src;
      fault := Fault();                 // fflush
      ok := ok && !fault;
      if !ok {
        OnlyAtStep(old(card), to, card, None);
        var _ := Remove(to);
      }
    }

    // writeFileAtomic on the handoff
    method WriteHandoff(data: Bytes) returns (ok: bool)
      modifies this
      ensures ok ==> card == old(card).(doc := Some(data), tmp := None)
      ensures DocUpdate(old(card), data, card) && faults >= old(faults)
      ensures forall s :: s in seen && s !in old(seen) ==> DocUpdate(old(card), data, s)
      ensures faults == old(faults) ==> ok
      ensures !ok && faults <= old(faults) + 1 ==> card == old(card) || card.tmp == None
      ensures old(seen) <= seen
    {
      ok := Create(HandoffTmp);
      if !ok { return; }
      ok := Append(HandoffTmp, data);
      var fault := Fault();             // fflush
      if !ok || fault {
        var _ := Remove(HandoffTmp);
        return false;
      }
      assert [] + data == data;
      var _ := Remove(HandoffDoc);
      ok := Rename(HandoffTmp, HandoffDoc);
      if !ok {
        var _ := Remove(HandoffTmp);
      }
    }

    // renameOver
    method RenameOver(from: Name, to: Name) returns (ok: bool)
      requires from != to
      modifies this
      ensures ok ==> old(card).At(from).Some? && card == old(card).Moved(from, to)
      ensures !ok ==> card == old(card) || card == old(card).With(to, None)
      ensures faults >= old(faults)
      ensures old(seen) <= seen && seen <= old(seen) + {old(card), old(card).With(to, None), card}
      ensures faults == old(faults) && old(card).At(from).Some? ==> ok
    {
      var _ := Remove(to);
      ok := Rename(from, to);
    }

    // cleanUp
    method CleanUp()
      modifies this
      ensures Cleaning(old(card), card) && old(seen) <= seen && faults >= old(faults)
      ensures forall s :: s in seen && s !in old(seen) ==> Cleaning(old(card), s)
      ensures faults == old(faults) ==> card == old(card).(backup := None, staged := None, doc := None)
    {
      var _ := Remove(Backup);
      var _ := Remove(Staged);
      var _ := Remove(HandoffDoc);
    }

    // ----- the run -----

    // Every new crash point is one of an install from card c.
    ghost predicate InstallSeen(was: set<Card>, h: Handoff, c: Card)
      reads this`card, this`seen
    {
      && was <= seen && InstallPoint(lib, sound, h, c, card)
      && forall s :: s in seen && s !in was ==> InstallPoint(lib, sound, h, c, s)
    }

    // Steps 2 to 4 of runSwap: record the attempt, verify the staged file, copy it.
    // `copying` says whether it got to the copy.
    method Prepare(h: Handoff) returns (r: Option<Result>, ghost copying: bool)
      modifies this
      ensures InstallSeen(old(seen), h, old(card)) && faults >= old(faults) && card.target == old(card).target
      ensures r.Some? ==> r.value == IoFailed || (r.value == DigestMismatch && !Verifies(lib, h, old(card).staged))
      ensures r.None? ==> Verifies(lib, h, old(card).staged) && card.incoming.Some?
      ensures r.None? ==> card == Recorded(lib, h, old(card)).(incoming := card.incoming)
      ensures r.None? && sound ==> card.incoming == old(card).staged
      ensures faults == old(faults) && old(card).staged.Some? ==>
                r == (if Verifies(lib, h, old(card).staged) then None else Some(DigestMismatch))
      ensures r == Some(DigestMismatch) ==> card == Recorded(lib, h, old(card))
      ensures !copying ==> r.Some? && card.incoming == old(card).incoming
      ensures copying && r.Some? && faults <= old(faults) + 1 ==> card.incoming == None
    {
      copying := false;
      var next := h.Next();
      var ok := WriteHandoff(lib.encode(next));
      if !ok { r := Some(IoFailed); return; }

      var actual := HashFile(Staged);
      if actual.None? { r := Some(IoFailed); return; }
      if actual.value != next.sha { r := Some(DigestMismatch); return; }

      copying := true;
      ok := CopyFile(Staged, Incoming);
      if !ok {
        var _ := Remove(Incoming);
        r := Some(IoFailed);
        return;
      }
      r := None;
    }

    // Steps 5 and 6: the two renames, undone if the second one fails.
    method Exchange(h: Handoff, ghost c: Card) returns (ok: bool)
      requires c.target.Some? || c.backup.None?
      requires card == Recorded(lib, h, c).(incoming := card.incoming)
      requires Verifies(lib, h, c.staged) && card.incoming.Some? && (sound ==> card.incoming == c.staged)
      modifies this
      ensures InstallSeen(old(seen), h, c)
      ensures ok ==> card == old(card).(target := old(card).incoming, incoming := None, backup := c.target)
      ensures faults >= old(faults) && (!ok && faults <= old(faults) + 1 && c.target.Some? ==> card.target == c.target)
      ensures !ok && faults <= old(faults) + 1 ==> card.incoming == None
      ensures faults == old(faults) ==> ok
    {
      var there := Exists(Target);
      if there {
        ok := RenameOver(Target, Backup);
        if !ok {
          var _ := Remove(Incoming);
          return;
        }
      }
      ok := RenameOver(Incoming, Target);
      if !ok {
        there := Exists(Backup);
        if there { var _ := RenameOver(Backup, Target); }
        var _ := Remove(Incoming);
      }
    }

    // Step 7: confirm the new target before deleting anything, else put the old one back.
    method Confirm(h: Handoff, ghost c: Card) returns (r: Result)
      requires Swapping(lib, h, c, card) && card.backup == c.target && (sound ==> card.target == c.staged)
      modifies this
      ensures InstallSeen(old(seen), h, c)
      ensures r == IoFailed || (r == Installed && Finishing(lib, h, c, card))
      ensures faults >= old(faults)
      ensures r == IoFailed && c.target.Some? && faults <= old(faults) + (if sound then 1 else 0) ==> card.target == c.target
      ensures faults == old(faults) ==>
                if Verifies(lib, h, old(card).target) then
                  r == Installed && card == old(card).(doc := None, staged := None, backup := None)
                else
                  r == IoFailed && card == if c.target.Some? then old(card).Moved(Backup, Target) else old(card)
    {
      var installed := HashFile(Target);
      if installed.None? || installed.value != h.sha {
        var there := Exists(Backup);
        if there { var _ := RenameOver(Backup, Target); }
        return IoFailed;
      }
      CleanUp();
      return Installed;
    }

    // Steps 2 to 7 of runSwap.
    method Install(h: Handoff) returns (r: Result)
      requires card.target.Some? || card.backup.None?
      modifies this
      ensures InstallSeen(old(seen), h, old(card))
      ensures faults >= old(faults)
      ensures r != Installed && old(card).target.Some? && faults <= old(faults) + (if sound then 1 else 0) ==>
                card.target == old(card).target
      ensures r == IoFailed || r == Installed || r == DigestMismatch
      ensures r == Installed ==> Finishing(lib, h, old(card), card)
      ensures r == DigestMismatch ==> !Verifies(lib, h, old(card).staged)
      ensures faults == old(faults) && old(card).staged.Some? ==> CleanInstall(lib, sound, h, old(card), r, card)
      ensures r == DigestMismatch ==> card == Recorded(lib, h, old(card))
    {
      var failed, _ := Prepare(h);
      if failed.Some? { return failed.value; }
      var ok := Exchange(h, old(card));
      if !ok { return IoFailed; }
      r := Confirm(h, old(card));
    }

    // rollBack
    method RollBackNow() returns (r: Result)
      requires card.target.Some? || card.backup.Some?
      modifies this
      ensures (r == RolledBack || r == IoFailed) && faults >= old(faults)
      ensures old(seen) <= seen && RestorePoint(old(card), card)
      ensures forall s :: s in seen && s !in old(seen) ==> RestorePoint(old(card), s)
      ensures r == RolledBack ==> card.target.Some?
      ensures old(card).target.Some? ==> card.target == old(card).target
      ensures faults == old(faults) ==> r == RolledBack && card == Abandoned(old(card))
    {
      var haveBackup := Exists(Backup);
      var haveTarget := Exists(Target);
      if haveBackup && !haveTarget {
        var ok := RenameOver(Backup, Target);
        if !ok { return IoFailed; }
      }
      CleanUp();
      return RolledBack;
    }

    // The RestoreBackup case of runSwap.
    method RestoreNow() returns (r: Result)
      requires card.target.None? && card.backup.Some?
      modifies this
      ensures (r == Restored || r == IoFailed) && faults >= old(faults)
      ensures old(seen) <= seen && RestorePoint(old(card), card)
      ensures forall s :: s in seen && s !in old(seen) ==> RestorePoint(old(card), s)
      ensures r == Restored ==> card.target.Some?
      ensures faults == old(faults) ==> r == Restored && card == Abandoned(old(card))
    {
      var ok := RenameOver(Backup, Target);
      if !ok { return IoFailed; }
      CleanUp();
      return Restored;
    }

    // The first half of runSwap: read the handoff, look at the files and decide.
    method Decide() returns (handoff: Option<Handoff>, a: Action)
      modifies this`faults
      ensures faults >= old(faults)
      ensures a != Nothing && (a == SwapAction(lib, card) || a == Action.Unrecoverable)
      ensures faults == old(faults) ==> a == SwapAction(lib, card)
      ensures a != Action.Unrecoverable ==> card.doc.Some? && handoff.Some? && handoff == lib.Parse(card.doc.value)
      ensures a == RollBack ==> card.target.Some? || card.backup.Some?
      ensures a == RestoreBackup ==> card.target.None? && card.backup.Some?
      ensures Installs(a) ==> card.staged.Some? && (card.target.Some? || card.backup.None?)
    {
      var raw := Read(HandoffDoc);
      handoff := None;
      if raw.Some? {
        handoff := lib.Parse(raw.value);
        if handoff.None? { return None, Action.Unrecoverable; }
      }
      var present := Presence(raw.Some?, false, false, false);
      if handoff.Some? {
        var staged := Exists(Staged);
        var target := Exists(Target);
        var backup := Exists(Backup);
        present := Presence(raw.Some?, staged, target, backup);
      }
      a := DecideRecovery(handoff, present);
    }

    // runSwap
    method RunSwap() returns (r: Result)
      modifies this
      ensures old(seen) <= seen
      ensures forall s :: s in seen && s !in old(seen) ==> RunPoint(lib, sound, old(card), s)
      ensures Outcome(lib, sound, old(card), r, card)
      ensures faults == old(faults) ==> CleanOutcome(lib, sound, old(card), r, card)
      // a bad copy, or else one failed operation, never costs the application: the run itself puts it back
      ensures old(card).target.Some? && faults <= old(faults) + (if sound then 1 else 0) ==>
                r == Installed || card.target == old(card).target
    {
      hide SwapAction, InstallPoint, RestorePoint, Finishing, Verifies, Abandoned, Recorded, CleanInstall;
      var handoff, action := Decide();
      match action {
        case Nothing => r := NothingToDo;
        case Unrecoverable => r := Result.Unrecoverable;
        case RollBack => r := RollBackNow();
        case RestoreBackup => r := RestoreNow();
        case ProceedWithSwap => r := Install(handoff.value);
        case RetrySwap => r := Install(handoff.value);
        case InstallStaged => r := Install(handoff.value);
      }
    }
  }
}
