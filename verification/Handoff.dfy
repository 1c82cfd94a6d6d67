/**
  The handoff document and the recovery decision taken from it.
*/
module Handoff {
  newtype Byte = x: int | 0 <= x < 256
  type Bytes = seq<Byte>
  type Digest = Bytes

  datatype Option<+T> = None | Some(value: T)

  // The fields that the swap reads.  The remaining ones (schema, versions,
  // creation time, forwarder path) are carried along unchanged.
  datatype Handoff = Handoff(sha: Digest, attempts: int, maxAttempts: int) {
    predicate Exhausted() { attempts >= maxAttempts }

    // The range check of parseHandoff.
    predicate InRange() { 0 <= attempts <= 1000 && 1 <= maxAttempts <= 1000 }

    function Next(): Handoff { this.(attempts := attempts + 1) }
  }

  datatype Presence = Presence(handoff: bool, staged: bool, target: bool, backup: bool)

  datatype Action = Nothing | ProceedWithSwap | RetrySwap | RollBack | RestoreBackup | InstallStaged | Unrecoverable

  predicate Installs(a: Action) {
    a == ProceedWithSwap || a == RetrySwap || a == InstallStaged
  }

  function DecideRecovery(handoff: Option<Handoff>, present: Presence): Action {
    if handoff.None? || !present.handoff then
      if present.target then Nothing
      else if present.backup then RestoreBackup
      else Unrecoverable
    else if handoff.value.Exhausted() then
      if present.backup then RollBack
      else if present.target then RollBack
      else if present.staged then InstallStaged
      else Unrecoverable
    else if !present.target then
      if present.backup then RestoreBackup
      else if present.staged then InstallStaged
      else Unrecoverable
    else if !present.staged then Unrecoverable
    else if handoff.value.attempts == 0 then ProceedWithSwap
    else RetrySwap
  }
}
