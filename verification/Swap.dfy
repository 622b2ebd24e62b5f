/**
 * The atomic swap of a compacted database: recovery link, rename, verification and rollback,
 * over a directory in which any operation may fail.
 */
module Swap {
  import opened Basics
  import opened Disk

  datatype SwapError = Busy | IoFailed | IntegrityFailed | Interrupted | RollbackFailed(database: Name, backup: Name)

  type SwapResult<T> = Outcome<T, SwapError>

  /** The places where another process may act between the steps of a swap. */
  datatype Hook = AfterLockClosed | BackupCreated

  /** The choices of the caller and of everything outside the program. */
  datatype Script = Script(
    stamp: string, pid: nat, hardLinks: bool, skipBackup: bool,
    compacted: string,        // what VACUUM INTO produces
    built: bool,              // it succeeds and its output passes every check
    intruders: set<Hook>,     // where another process puts its own file in the database's place
    foreign: string,
    enters: bool,             // the signal controller admits the swap
    verifies: bool)           // the swapped database passes verification

  /** The original bytes are under the database's name, or under the recovery link's. */
  ghost predicate Reachable(d: Directory, original: string, backup: Option<Name>) {
    d.Holds(Database, original) || (backup.Some? && d.Holds(backup.value, original))
  }

  /** The original is reachable in every directory logged from `from` on. */
  ghost predicate Kept(log: seq<Directory>, from: nat, original: string, backup: Option<Name>) {
    forall k | from <= k < |log| :: Reachable(log[k], original, backup)
  }

  const DATABASE_SIDECARS: set<Name> := {Sidecar(Database, true), Sidecar(Database, false)}

  /** Every directory logged from `from` on agrees with `d` outside `touched`. */
  ghost predicate OnlySince(disk: Disk, from: nat, d: Directory, touched: set<Name>)
    reads disk
  {
    Only(disk.log, from, d, touched) && SameOutside(d, disk.now, touched)
  }

  ghost predicate Only(log: seq<Directory>, from: nat, d: Directory, touched: set<Name>) {
    forall k | from <= k < |log| :: SameOutside(d, log[k], touched)
  }

  lemma SameChain(a: Directory, b: Directory, c: Directory, first: set<Name>, second: set<Name>, all: set<Name>)
    requires SameOutside(a, b, first) && SameOutside(b, c, second) && first <= all && second <= all
    ensures SameOutside(a, c, all)
  {
  }

  /** Two stretches of the log, each local to some names. */
  lemma OnlyChain(first: seq<Directory>, log: seq<Directory>, from: nat, a: Directory, b: Directory,
                  t1: set<Name>, t2: set<Name>, all: set<Name>)
    requires first <= log && from <= |first| && t1 <= all && t2 <= all
    requires Only(first, from, a, t1) && SameOutside(a, b, t1) && Only(log, |first|, b, t2)
    ensures Only(log, from, a, all)
  {
    forall k | from <= k < |log| ensures SameOutside(a, log[k], all) {
      if k < |first| { SameChain(a, first[k], first[k], t1, {}, all); } else { SameChain(a, b, log[k], t1, t2, all); }
    }
  }

  /** While nothing but other names changes, the database holds the original. */
  lemma OnlyKeeps(log: seq<Directory>, from: nat, d: Directory, touched: set<Name>, original: string, backup: Option<Name>)
    requires Only(log, from, d, touched) && Database !in touched && d.Holds(Database, original)
    ensures Kept(log, from, original, backup)
  {
    forall k | from <= k < |log| ensures Reachable(log[k], original, backup) { SameHolds(d, log[k], touched, Database, original); }
  }

  lemma SameHolds(a: Directory, b: Directory, touched: set<Name>, n: Name, bytes: string)
    requires SameOutside(a, b, touched) && n !in touched && a.Holds(n, bytes)
    ensures b.Holds(n, bytes) && b.names[n] == a.names[n]
  {
  }

  /** Removes the sidecars of the database one by one; a missing one is no failure. */
  method RemoveSidecars(disk: Disk, of: Name) returns (ok: bool)
    requires disk.now.Valid()
    modifies disk
    ensures disk.now.Valid() && old(disk.log) <= disk.log && disk.operations >= old(disk.operations)
    ensures OnlySince(disk, |old(disk.log)|, old(disk.now), {Sidecar(of, true), Sidecar(of, false)})
    ensures ok <==> old(disk.Spared(2))
    ensures ok ==> disk.operations == old(disk.operations) + 2
    ensures ok ==> !disk.now.Present(Sidecar(of, true)) && !disk.now.Present(Sidecar(of, false))
    ensures forall n :: disk.now.Present(n) ==> old(disk.now).Present(n)
    ensures disk.now.symlinks <= old(disk.now).symlinks
  {
    var wal := disk.Remove(Sidecar(of, true));
    if wal.Failed? {
      return false;
    }
    var shm := disk.Remove(Sidecar(of, false));
    ok := !shm.Failed?;
  }

  /** The occupied numbered names the loop has not tried yet. */
  ghost function Untried(d: Directory, stamp: string, pid: nat, sequence: nat): set<Name> {
    set n | n in d.names.Keys + d.symlinks && n.NumberedBackup? && n.stamp == stamp && n.pid == pid && n.sequence >= sequence
  }

  /** The plain backup name while it is free, afterwards numbered names. */
  method AvailableCandidate(disk: Disk, stamp: string, pid: nat, sequence: nat) returns (n: Name, next: nat)
    ensures n == if disk.now.Present(Backup(stamp)) then NumberedBackup(stamp, pid, sequence) else Backup(stamp)
    ensures next == if disk.now.Present(Backup(stamp)) then sequence + 1 else sequence
  {
    if !disk.now.Present(Backup(stamp)) {
      return Backup(stamp), sequence;
    }
    n, next := NumberedBackup(stamp, pid, sequence), sequence + 1;
  }

  predicate IsBackup(n: Name) {
    n.Backup? || n.NumberedBackup?
  }

  /** At most the backup name `n`, which was free, has come or gone since. */
  ghost predicate NewAtMost(disk: Disk, from: nat, d: Directory, n: Option<Name>)
    reads disk
  {
    (n.Some? ==> IsBackup(n.value) && !d.Present(n.value)) && OnlySince(disk, from, d, if n.Some? then {n.value} else {})
  }

  /** One attempt to put the file `i` under a free name. */
  method LinkAttempt(disk: Disk, i: Inode, n: Name, hardLinks: bool) returns (r: Io)
    requires disk.now.Valid() && i in disk.now.contents
    modifies disk
    ensures disk.now.Valid() && old(disk.log) <= disk.log && disk.operations > old(disk.operations)
    ensures r == Exists <==> old(disk.now).Present(n) && (hardLinks ==> !old(disk.Faulty()))
    ensures r == Exists ==> disk.now == old(disk.now)
    ensures r != NotFound && (r == Done ==> !old(disk.now).Present(n))
    ensures old(!disk.Faulty()) ==> r != Failed
    ensures old(disk.Faulty()) && !old(disk.now).Present(n) ==> r == Failed
    ensures r == Done ==> disk.operations == old(disk.operations) + 1
    ensures r == Done ==> disk.now.Holds(n, old(disk.now).contents[i])
    ensures r == Done ==> disk.now.names[n] == if hardLinks then i else old(disk.now).next
    ensures !old(disk.now).Present(n) ==> OnlySince(disk, |old(disk.log)|, old(disk.now), {n})
    ensures old(disk.now).Present(n) ==> OnlySince(disk, |old(disk.log)|, old(disk.now), {})
  {
    if hardLinks {
      r := disk.HardLink(i, n);
    } else {
      r := disk.CopyExclusive(i, n);
    }
  }

  /** The recovery links a swap makes: none when it would be an unwanted copy. */
  function Links(s: Script): nat {
    if s.skipBackup && !s.hardLinks then 0 else 1
  }

  /** The recovery link of a swap that finds the plain backup name free. */
  function PlainLink(s: Script): Option<Name> {
    if Links(s) == 0 then None else Some(Backup(s.stamp))
  }

  /** The numbered names from `start` up to `end` are taken by files. */
  ghost predicate Taken(d: Directory, s: Script, start: nat, end: nat) {
    forall k: nat | start <= k < end :: NumberedBackup(s.stamp, s.pid, k) in d.names
  }

  /**
   * Makes a second name for the original: a hard link, or a copy where links are not available.
   * The search for a free name ends, and no existing file is touched.
   */
  method CreateRecoveryLink(disk: Disk, i: Inode, s: Script, sequence: nat) returns (r: SwapResult<Option<Name>>, next: nat)
    requires disk.now.Valid() && i in disk.now.contents
    modifies disk
    ensures disk.now.Valid() && old(disk.log) <= disk.log && next >= sequence
    ensures r.Success? ==> (r.value.None? <==> s.skipBackup && !s.hardLinks)
    ensures r.Success? && r.value.None? ==> disk.now == old(disk.now) && disk.log == old(disk.log)
    ensures r.Success? && r.value.Some? ==> !old(disk.now).Present(r.value.value) && disk.now.Holds(r.value.value, old(disk.now).contents[i])
    ensures r.Success? && r.value.Some? ==> IsBackup(r.value.value)
    ensures r.Success? && r.value.Some? ==> disk.now.names[r.value.value] == if s.hardLinks then i else old(disk.now).next
    ensures r.Success? && r.value.Some? ==> OnlySince(disk, |old(disk.log)|, old(disk.now), {r.value.value})
    ensures r.Failure? ==> r.error == IoFailed && exists n: Option<Name> :: NewAtMost(disk, |old(disk.log)|, old(disk.now), n)
    ensures disk.faults == {} && old(disk.now).symlinks == {} ==> r.Success?
    ensures Links(s) == 0 ==> r.Success? && disk.operations == old(disk.operations)
    ensures Links(s) == 1 && !old(disk.now).Present(Backup(s.stamp)) ==>
              if old(disk.Faulty()) then r.Failure?
              else r == Success(Some(Backup(s.stamp))) && disk.operations == old(disk.operations) + 1
    ensures Backup(s.stamp) in old(disk.now).symlinks && !(s.skipBackup && !s.hardLinks) ==> r.Failure? && disk.now == old(disk.now)
    // with the plain name taken, the first numbered name that is no file: free, or a symlink and refused
    ensures r.Success? && r.value.Some? && old(disk.now).Present(Backup(s.stamp)) ==>
              next > sequence && r.value.value == NumberedBackup(s.stamp, s.pid, next - 1) && Taken(old(disk.now), s, sequence, next - 1)
    ensures r.Failure? && disk.faults == {} && Backup(s.stamp) !in old(disk.now).symlinks ==>
              next > sequence && NumberedBackup(s.stamp, s.pid, next - 1) in disk.now.symlinks && Taken(disk.now, s, sequence, next - 1)
              && disk.now == old(disk.now)
  {
    next := sequence;
    ghost var before, from := disk.now, |disk.log|;
    if s.skipBackup && !s.hardLinks {
      return Success(None), next;
    }
    if Backup(s.stamp) in disk.now.symlinks {
      assert NewAtMost(disk, from, before, None);
      return Failure(IoFailed), next;
    }
    while true
      invariant disk.now == before && old(disk.log) <= disk.log && next >= sequence
      invariant OnlySince(disk, from, before, {})
      invariant !before.Present(Backup(s.stamp)) ==> disk.operations == old(disk.operations)
      invariant before.Present(Backup(s.stamp)) ==> Taken(before, s, sequence, next)
      decreases Untried(before, s.stamp, s.pid, next)
    {
      var candidate;
      ghost var tried := next;
      candidate, next := AvailableCandidate(disk, s.stamp, s.pid, next);
      if candidate in disk.now.symlinks {
        assert NewAtMost(disk, from, before, None);
        return Failure(IoFailed), next;
      }
      var result := LinkAttempt(disk, i, candidate, s.hardLinks);
      if result.Done? {
        return Success(Some(candidate)), next;
      } else if result.Failed? {
        assert NewAtMost(disk, from, before, if before.Present(candidate) then None else Some(candidate));
        return Failure(IoFailed), next;
      }
      assert candidate in Untried(before, s.stamp, s.pid, tried);
    }
  }

  predicate IsDatabase(d: Directory, i: Inode) {
    Database in d.names && d.names[Database] == i
  }

  /** Both sidecars are missing or empty. */
  predicate Quiescent(d: Directory)
    requires forall n <- d.names :: d.names[n] in d.contents
  {
    forall n <- DATABASE_SIDECARS | n in d.names :: d.contents[d.names[n]] == ""
  }

  lemma QuiescentExactly(d: Directory)
    requires forall n <- d.names :: d.names[n] in d.contents
    ensures Quiescent(d) <==> forall wal: bool | Sidecar(Database, wal) in d.names :: d.Holds(Sidecar(Database, wal), "")
  {
    assert forall wal: bool | Sidecar(Database, wal) in d.names :: Sidecar(Database, wal) in DATABASE_SIDECARS;
  }

  /** The names a swap may change, with the recovery link it made. */
  function Mine(stamp: string, made: Option<Name>): set<Name> {
    DATABASE_SIDECARS + {Database, Temporary(stamp), Sidecar(Temporary(stamp), true), Sidecar(Temporary(stamp), false)}
    + (if made.Some? then {made.value} else {})
  }

  /** The database is the original file, and the compacted one waits beside it. */
  ghost predicate Ready(d: Directory, i: Inode, original: string, s: Script) {
    d.Valid() && IsDatabase(d, i) && d.contents[i] == original && d.Holds(Temporary(s.stamp), s.compacted) && d.names[Temporary(s.stamp)] != i
  }

  /** No sidecar that belongs to an older file is beside the database. */
  ghost predicate NoSidecars(d: Directory) {
    forall n <- DATABASE_SIDECARS :: !d.Present(n)
  }

  /** Checks that the database is still the one that was compacted, and clears its sidecars away. */
  method PrepareSwap(disk: Disk, i: Inode) returns (r: SwapResult<()>)
    requires disk.now.Valid()
    modifies disk
    ensures disk.now.Valid() && old(disk.log) <= disk.log
    ensures OnlySince(disk, |old(disk.log)|, old(disk.now), DATABASE_SIDECARS) && disk.now.symlinks <= old(disk.now).symlinks
    ensures r.Failure? ==> r.error == Busy || r.error == IoFailed
    ensures !IsDatabase(old(disk.now), i) || !Quiescent(old(disk.now)) ==> r == Failure(Busy) && disk.now == old(disk.now)
    ensures !IsDatabase(old(disk.now), i) || !Quiescent(old(disk.now)) ==> disk.log == old(disk.log)
    ensures IsDatabase(old(disk.now), i) && Quiescent(old(disk.now)) ==> (r.Success? <==> old(disk.Spared(2)))
    ensures r.Success? ==> disk.operations == old(disk.operations) + 2 && NoSidecars(disk.now)
  {
    if !IsDatabase(disk.now, i) || !Quiescent(disk.now) {
      return Failure(Busy);
    }
    var ok := RemoveSidecars(disk, Database);
    r := if ok then Success(()) else Failure(IoFailed);
  }

  /** What a failed or successful replacement leaves. */
  ghost predicate Replaced(d: Directory, i: Inode, original: string, s: Script, backup: Option<Name>) {
    && d.Valid() && d.Holds(Database, s.compacted) && d.names[Database] != i && NoSidecars(d)
    && Temporary(s.stamp) !in d.names
    && (backup.Some? ==> d.Holds(backup.value, original) && d.names[backup.value] != d.names[Database])
  }

  ghost predicate StillOriginal(d: Directory, i: Inode, original: string) {
    d.Valid() && IsDatabase(d, i) && d.contents[i] == original
  }

  /**
   * What a vacuum answers whose rename, the operation `n`, fails: the link is removed and the rename's
   * failure reported. Only if the removal fails as well, the link stays and the error names it.
   */
  ghost predicate RenameFailed(d: Directory, original: string, made: Option<Name>, n: nat, faults: set<nat>, r: SwapResult<Option<Name>>) {
    n in faults &&
    if made.Some? && n + 1 in faults then r == Failure(RollbackFailed(Database, made.value)) && d.Holds(made.value, original)
    else r == Failure(IoFailed) && (made.Some? ==> !d.Present(made.value))
  }

  /** Renames the compacted database over the source; if that fails, the recovery link is removed. */
  method Replace(disk: Disk, i: Inode, s: Script, backup: Option<Name>, ghost original: string) returns (r: SwapResult<Option<Name>>)
    requires Ready(disk.now, i, original, s) && NoSidecars(disk.now)
    requires backup.Some? ==> disk.now.Holds(backup.value, original) && IsBackup(backup.value)
    requires backup.Some? ==> disk.now.names[backup.value] != disk.now.names[Temporary(s.stamp)]
    modifies disk
    ensures old(disk.log) <= disk.log && OnlySince(disk, |old(disk.log)|, old(disk.now), Mine(s.stamp, backup))
    ensures r.Success? ==> r.value == backup && Replaced(disk.now, i, original, s, backup)
    ensures r.Success? ==> disk.now.names[Database] == old(disk.now).names[Temporary(s.stamp)]
    ensures r.Failure? ==> StillOriginal(disk.now, i, original)
    ensures r.Success? <==> !old(disk.Faulty())
    ensures r.Success? ==> disk.operations == old(disk.operations) + 1
    ensures r.Failure? ==> RenameFailed(disk.now, original, backup, old(disk.operations), disk.faults, r)
    ensures r.Failure? && r.error.RollbackFailed? ==> old(disk.operations) + 1 in disk.faults
    ensures r == Failure(IoFailed) && backup.Some? ==> !disk.now.Present(backup.value)
    ensures r.Failure? ==> r.error == IoFailed || (backup.Some? && r.error == RollbackFailed(Database, backup.value))
    ensures r.Failure? ==> Kept(disk.log, |old(disk.log)|, original, None)
    ensures backup.Some? ==> Kept(disk.log, |old(disk.log)|, original, backup)
  {
    var renamed := disk.RenameOver(Temporary(s.stamp), Database);
    if renamed.Done? {
      return Success(backup);
    }
    if backup.Some? {
      var removed := disk.Remove(backup.value);
      if !removed.Done? {
        return Failure(RollbackFailed(Database, backup.value));
      }
    }
    r := Failure(IoFailed);
  }

  /** A name was added beside a swap that is ready: it still is, and the original has a second name. */
  lemma StillReady(a: Directory, b: Directory, i: Inode, original: string, s: Script, n: Name)
    requires Ready(a, i, original, s) && b.Valid() && !a.Present(n) && SameOutside(a, b, {n})
    ensures Ready(b, i, original, s) && SameOutside(a, b, Mine(s.stamp, Some(n)))
    ensures b.names[Temporary(s.stamp)] == a.names[Temporary(s.stamp)]
    ensures b.Holds(n, original) && (b.names[n] == i || b.names[n] == a.next) ==> b.names[n] != b.names[Temporary(s.stamp)]
  {
    SameHolds(a, b, {n}, Database, original);
    SameHolds(a, b, {n}, Temporary(s.stamp), s.compacted);
  }

  lemma OnlyWider(log: seq<Directory>, from: nat, d: Directory, some: set<Name>, all: set<Name>)
    requires Only(log, from, d, some) && some <= all
    ensures Only(log, from, d, all)
  {
    forall k | from <= k < |log| ensures SameOutside(d, log[k], all) { SameChain(d, log[k], log[k], some, {}, all); }
  }

  /** The recovery link of a swap that is ready. */
  method Secure(disk: Disk, i: Inode, s: Script, sequence: nat, ghost original: string)
    returns (r: SwapResult<Option<Name>>, next: nat, ghost made: Option<Name>)
    requires Ready(disk.now, i, original, s)
    modifies disk
    ensures disk.now.Valid() && old(disk.log) <= disk.log && next >= sequence
    ensures made.Some? ==> IsBackup(made.value) && !old(disk.now).Present(made.value)
    ensures Ready(disk.now, i, original, s) && Kept(disk.log, |old(disk.log)|, original, None)
    ensures disk.now.names[Temporary(s.stamp)] == old(disk.now).names[Temporary(s.stamp)]
    ensures r.Success? ==> r.value == made && (made.None? <==> s.skipBackup && !s.hardLinks)
    ensures NoSidecars(old(disk.now)) ==> NoSidecars(disk.now)
    ensures r.Success? && made.Some? ==> disk.now.Holds(made.value, original)
    ensures r.Success? && made.Some? ==> disk.now.names[made.value] != disk.now.names[Temporary(s.stamp)]
    ensures r.Failure? ==> r.error == IoFailed
    ensures disk.faults == {} && old(disk.now).symlinks == {} ==> r.Success?
    ensures !old(disk.now).Present(Backup(s.stamp)) ==> (r.Success? <==> old(disk.Spared(Links(s))))
    ensures !old(disk.now).Present(Backup(s.stamp)) && r.Success? ==>
              made == PlainLink(s) && disk.operations == old(disk.operations) + Links(s)
    ensures OnlySince(disk, |old(disk.log)|, old(disk.now), Mine(s.stamp, made))
  {
    ghost var before, from := disk.now, |disk.log|;
    r, next := CreateRecoveryLink(disk, i, s, sequence);
    if r.Failure? {
      made :| NewAtMost(disk, from, before, made);
    } else {
      made := r.value;
    }
    ghost var added := if made.Some? then {made.value} else {};
    OnlyWider(disk.log, from, before, added, Mine(s.stamp, made));
    OnlyKeeps(disk.log, from, before, added, original, None);
    if made.Some? {
      StillReady(before, disk.now, i, original, s, made.value);
    } else {
      SameHolds(before, disk.now, {}, Temporary(s.stamp), s.compacted);
    }
  }

  lemma ReadyAfterCleaning(a: Directory, b: Directory, i: Inode, original: string, s: Script)
    requires Ready(a, i, original, s) && b.Valid() && SameOutside(a, b, DATABASE_SIDECARS)
    ensures Ready(b, i, original, s) && b.names[Temporary(s.stamp)] == a.names[Temporary(s.stamp)]
  {
    SameHolds(a, b, DATABASE_SIDECARS, Database, original);
    SameHolds(a, b, DATABASE_SIDECARS, Temporary(s.stamp), s.compacted);
  }

  lemma KeptChain(first: seq<Directory>, log: seq<Directory>, from: nat, original: string, backup: Option<Name>)
    requires first <= log && from <= |first| && Kept(first, from, original, None)
    ensures Kept(log, |first|, original, None) ==> Kept(log, from, original, None)
    ensures Kept(log, |first|, original, backup) ==> Kept(log, from, original, backup)
  {
    forall k | from <= k < |first| ensures Reachable(log[k], original, None) { assert Reachable(first[k], original, None); }
  }

  /** Another process replaces the database right after the recovery link was made. */
  method Interfere(disk: Disk, s: Script, made: Option<Name>) returns (ghost intruded: bool)
    requires disk.now.Valid() && Database in disk.now.names
    modifies disk
    ensures intruded <==> made.Some? && BackupCreated in s.intruders
    ensures disk.operations == old(disk.operations)
    ensures !intruded ==> disk.now == old(disk.now) && disk.log == old(disk.log)
    ensures intruded ==> disk.now.Valid() && old(disk.log) <= disk.log && disk.now.Holds(Database, s.foreign)
    ensures intruded ==> disk.now.names[Database] !in old(disk.now).contents
    ensures intruded ==> OnlySince(disk, |old(disk.log)|, old(disk.now), {Database})
  {
    intruded := made.Some? && BackupCreated in s.intruders;
    if made.Some? && BackupCreated in s.intruders {
      disk.Intrude(Database, s.foreign);
    }
  }

  /** How a swap went: the recovery link, the number of the rename if it was tried, whether it worked, whether another process broke in. */
  datatype Course = Course(made: Option<Name>, rename: Option<nat>, swapped: bool, intruded: bool)

  /** A rename that was tried worked unless it failed, and what it returned then; without one nothing is rolled back. */
  ghost predicate RenameAnswers(d: Directory, original: string, made: Option<Name>, rename: Option<nat>, swapped: bool, faults: set<nat>,
                                r: SwapResult<Option<Name>>) {
    && (swapped <==> rename.Some? && rename.value !in faults)
    && (rename.Some? && !swapped ==> RenameFailed(d, original, made, rename.value, faults, r))
    && (rename.None? ==> r.Failure? && !r.error.RollbackFailed?)
  }

  /** The end of the critical section. */
  ghost predicate SectionEnd(d: Directory, i: Inode, original: string, s: Script, r: SwapResult<Option<Name>>, c: Course) {
    && c.swapped == r.Success? && !(c.swapped && c.intruded)
    && (c.swapped ==> r.value == c.made && Replaced(d, i, original, s, c.made) && (c.made.None? <==> s.skipBackup && !s.hardLinks))
    && (!c.swapped && !c.intruded ==> StillOriginal(d, i, original))
    && (c.intruded ==> r == Failure(Busy) && d.Holds(Database, s.foreign))
    && (c.made.Some? ==> IsBackup(c.made.value))
    && (r.Failure? && c.made.Some? && r.error.RollbackFailed? ==> r.error == RollbackFailed(Database, c.made.value))
    && (r.Failure? ==> r.error != IntegrityFailed && r.error != SwapError.Interrupted)
  }

  /** The first half of the critical section, up to the recovery link. */
  method Approach(disk: Disk, i: Inode, s: Script, sequence: nat, ghost original: string)
    returns (r: SwapResult<Option<Name>>, next: nat, ghost made: Option<Name>)
    requires Ready(disk.now, i, original, s)
    modifies disk
    ensures old(disk.log) <= disk.log && next >= sequence
    ensures Ready(disk.now, i, original, s) && Kept(disk.log, |old(disk.log)|, original, None)
    ensures disk.now.names[Temporary(s.stamp)] == old(disk.now).names[Temporary(s.stamp)]
    ensures made.Some? ==> IsBackup(made.value) && !old(disk.now).Present(made.value)
    ensures r.Success? ==> r.value == made && (made.None? <==> s.skipBackup && !s.hardLinks) && NoSidecars(disk.now)
    ensures r.Success? && made.Some? ==> disk.now.Holds(made.value, original)
    ensures r.Success? && made.Some? ==> disk.now.names[made.value] != disk.now.names[Temporary(s.stamp)]
    ensures r.Failure? ==> r.error == Busy || r.error == IoFailed
    ensures disk.faults == {} && old(disk.now).symlinks == {} && Quiescent(old(disk.now)) ==> r.Success?
    ensures !old(disk.now).Present(Backup(s.stamp)) && Quiescent(old(disk.now)) ==>
              (r.Success? <==> old(disk.Spared(2 + Links(s))))
    ensures !old(disk.now).Present(Backup(s.stamp)) && r.Success? ==>
              made == PlainLink(s) && disk.operations == old(disk.operations) + 2 + Links(s)
    ensures !Quiescent(old(disk.now)) ==> r == Failure(Busy) && made.None? && disk.now == old(disk.now)
    ensures OnlySince(disk, |old(disk.log)|, old(disk.now), Mine(s.stamp, made))
  {
    ghost var d0, from := disk.now, |disk.log|;
    next, made := sequence, None;
    var prepared := PrepareSwap(disk, i);
    ghost var d1, log1 := disk.now, disk.log;
    OnlyWider(log1, from, d0, DATABASE_SIDECARS, Mine(s.stamp, None));
    OnlyKeeps(log1, from, d0, DATABASE_SIDECARS, original, None);
    ReadyAfterCleaning(d0, d1, i, original, s);
    SameChain(d0, d1, d1, DATABASE_SIDECARS, {}, Mine(s.stamp, None));
    if prepared.Failure? {
      return Failure(prepared.error), next, made;
    }
    r, next, made := Secure(disk, i, s, sequence, original);
    ghost var mine := Mine(s.stamp, made);
    OnlyChain(log1, disk.log, from, d0, d1, DATABASE_SIDECARS, mine, mine);
    SameChain(d0, d1, disk.now, DATABASE_SIDECARS, mine, mine);
    KeptChain(log1, disk.log, from, original, None);
  }

  /** Whoever replaces the database, the recovery link still has the original. */
  lemma IntrusionSpares(log: seq<Directory>, from: nat, d: Directory, end: Directory, original: string, backup: Name)
    requires Only(log, from, d, {Database}) && SameOutside(d, end, {Database}) && IsBackup(backup) && d.Holds(backup, original)
    ensures Kept(log, from, original, Some(backup)) && end.Holds(backup, original)
  {
    forall k | from <= k < |log| ensures Reachable(log[k], original, Some(backup)) { SameHolds(d, log[k], {Database}, backup, original); }
    SameHolds(d, end, {Database}, backup, original);
  }

  /** The second half of the critical section: the last check and the rename. */
  method Exchange(disk: Disk, i: Inode, s: Script, backup: Option<Name>, ghost original: string)
    returns (r: SwapResult<Option<Name>>, ghost intruded: bool)
    requires Ready(disk.now, i, original, s) && NoSidecars(disk.now)
    requires backup.Some? ==> disk.now.Holds(backup.value, original) && IsBackup(backup.value)
    requires backup.Some? ==> disk.now.names[backup.value] != disk.now.names[Temporary(s.stamp)]
    modifies disk
    ensures disk.now.Valid() && old(disk.log) <= disk.log
    ensures intruded <==> backup.Some? && BackupCreated in s.intruders
    ensures intruded ==> r == Failure(Busy) && disk.now.Holds(Database, s.foreign) && disk.now.Holds(backup.value, original)
    ensures !intruded ==> (r.Success? <==> !old(disk.Faulty()))
    ensures r.Success? ==> r.value == backup && Replaced(disk.now, i, original, s, backup) && disk.operations == old(disk.operations) + 1
    ensures r.Success? ==> disk.now.names[Database] == old(disk.now).names[Temporary(s.stamp)]
    ensures r.Failure? && !intruded ==> StillOriginal(disk.now, i, original) && Kept(disk.log, |old(disk.log)|, original, None)
    ensures r.Failure? && !intruded ==> r.error == IoFailed || (backup.Some? && r.error == RollbackFailed(Database, backup.value))
    ensures r.Failure? && !intruded ==> RenameFailed(disk.now, original, backup, old(disk.operations), disk.faults, r)
    ensures backup.Some? ==> Kept(disk.log, |old(disk.log)|, original, backup)
    ensures OnlySince(disk, |old(disk.log)|, old(disk.now), Mine(s.stamp, backup))
  {
    ghost var before, from := disk.now, |disk.log|;
    intruded := Interfere(disk, s, backup);
    if !IsDatabase(disk.now, i) {
      OnlyWider(disk.log, from, before, {Database}, Mine(s.stamp, backup));
      SameChain(before, disk.now, disk.now, {Database}, {}, Mine(s.stamp, backup));
      IntrusionSpares(disk.log, from, before, disk.now, original, backup.value);
      return Failure(Busy), intruded;
    }
    r := Replace(disk, i, s, backup, original);
  }

  /** The critical section: checks, recovery link, checks again, rename. */
  method CriticalSection(disk: Disk, i: Inode, s: Script, sequence: nat, ghost original: string)
    returns (r: SwapResult<Option<Name>>, next: nat, ghost c: Course)
    requires Ready(disk.now, i, original, s)
    modifies disk
    ensures disk.now.Valid() && old(disk.log) <= disk.log && next >= sequence
    ensures SectionEnd(disk.now, i, original, s, r, c)
    ensures c.swapped ==> disk.now.names[Database] == old(disk.now).names[Temporary(s.stamp)]
    ensures c.made.Some? ==> !old(disk.now).Present(c.made.value)
    ensures OnlySince(disk, |old(disk.log)|, old(disk.now), Mine(s.stamp, c.made))
    ensures disk.faults == {} && old(disk.now).symlinks == {} && Quiescent(old(disk.now)) && s.intruders == {} ==> r.Success?
    ensures !old(disk.now).Present(Backup(s.stamp)) && Quiescent(old(disk.now)) && s.intruders == {} ==>
              (r.Success? <==> old(disk.Spared(3 + Links(s))))
    ensures !old(disk.now).Present(Backup(s.stamp)) && r.Success? ==>
              c.made == PlainLink(s) && disk.operations == old(disk.operations) + 3 + Links(s)
    ensures RenameAnswers(disk.now, original, c.made, c.rename, c.swapped, disk.faults, r) && (c.intruded ==> c.rename.None?)
    ensures c.swapped ==> disk.operations == c.rename.value + 1
    ensures !old(disk.now).Present(Backup(s.stamp)) && c.rename.Some? ==>
              c.made == PlainLink(s) && c.rename.value == old(disk.operations) + 2 + Links(s)
    ensures !old(disk.now).Present(Backup(s.stamp)) && Quiescent(old(disk.now)) && s.intruders == {} ==>
              (c.rename.Some? <==> old(disk.Spared(2 + Links(s))))
    ensures !Quiescent(old(disk.now)) ==> r == Failure(Busy) && c == Course(None, None, false, false) && disk.now == old(disk.now)
    ensures c.swapped && c.made.Some? ==> BackupCreated !in s.intruders
    ensures c.intruded ==> c.made.Some? && disk.now.Holds(c.made.value, original) && Kept(disk.log, |old(disk.log)|, original, c.made)
    ensures !c.swapped && !c.intruded ==> Kept(disk.log, |old(disk.log)|, original, None)
    ensures c.swapped && c.made.Some? ==> Kept(disk.log, |old(disk.log)|, original, c.made)
  {
    ghost var d0, from := disk.now, |disk.log|;
    ghost var made;
    disk.SparedNext(2 + Links(s));
    r, next, made := Approach(disk, i, s, sequence, original);
    ghost var d2, log2, mine := disk.now, disk.log, Mine(s.stamp, made);
    c := Course(made, None, false, false);
    if r.Failure? {
      return r, next, c;
    }
    ghost var intruded, rename;
    rename := disk.operations;
    r, intruded := Exchange(disk, i, s, r.value, original);
    OnlyChain(log2, disk.log, from, d0, d2, mine, mine, mine);
    SameChain(d0, d2, disk.now, mine, mine, mine);
    c := Course(made, if intruded then None else Some(rename), r.Success?, intruded);
    KeptChain(log2, disk.log, from, original, made);
  }

  /** As `SameOutside`, but the file `own` may have been written. */
  ghost predicate SameBut(a: Directory, b: Directory, touched: set<Name>, own: Inode) {
    && (forall n | n !in touched :: (n in b.names <==> n in a.names) && (n in b.symlinks <==> n in a.symlinks))
    && (forall n <- a.names | n !in touched && n in b.names :: b.names[n] == a.names[n])
    && (forall i <- a.contents | i != own :: i in b.contents && b.contents[i] == a.contents[i])
  }

  lemma SameButChain(a: Directory, b: Directory, c: Directory, touched: set<Name>, own: Inode)
    requires SameBut(a, b, touched, own) && SameBut(b, c, touched, own)
    ensures SameBut(a, c, touched, own)
  {
  }

  lemma LocalIsBut(a: Directory, b: Directory, some: set<Name>, touched: set<Name>, own: Inode)
    requires SameOutside(a, b, some) && some <= touched
    ensures SameBut(a, b, touched, own)
  {
  }

  /** Puts the original back over the compacted database, from the recovery link. */
  method Rollback(disk: Disk, s: Script, backup: Option<Name>, ghost i: Inode, ghost original: string) returns (ok: bool)
    requires Replaced(disk.now, i, original, s, backup) && (backup.Some? ==> IsBackup(backup.value))
    modifies disk
    ensures disk.now.Valid() && old(disk.log) <= disk.log
    ensures ok <==> backup.Some? && old(disk.Spared(5))
    ensures ok ==> disk.now.Holds(Database, original) && !disk.now.Present(backup.value)
    ensures backup.None? ==> disk.now.Holds(Database, s.compacted)
    ensures Database in disk.now.names && NoSidecars(disk.now)
    ensures backup.Some? ==> Reachable(disk.now, original, backup) && Kept(disk.log, |old(disk.log)|, original, backup)
    ensures SameBut(old(disk.now), disk.now, Mine(s.stamp, backup), old(disk.now).names[Database])
  {
    ghost var d0, log0 := disk.now, disk.log;
    var cleared := RemoveSidecars(disk, Database);
    ghost var d1, log1 := disk.now, disk.log;
    LocalIsBut(d0, d1, DATABASE_SIDECARS, Mine(s.stamp, backup), d0.names[Database]);
    SameHolds(d0, d1, DATABASE_SIDECARS, Database, s.compacted);
    if backup.None? {
      return false;
    }
    BackupStays(log1, |log0|, d0, original, backup.value);
    SameHolds(d0, d1, DATABASE_SIDECARS, backup.value, original);
    if !cleared {
      return false;
    }
    ok := Restore(disk, s, backup.value, original);
    ghost var mine, own := Mine(s.stamp, backup), d0.names[Database];
    SameButChain(d0, d1, disk.now, mine, own);
    KeptAppend(log1, disk.log, |log0|, original, backup);
  }

  lemma BackupStays(log: seq<Directory>, from: nat, d: Directory, original: string, backup: Name)
    requires Only(log, from, d, DATABASE_SIDECARS) && IsBackup(backup) && d.Holds(backup, original)
    ensures Kept(log, from, original, Some(backup))
  {
    forall k | from <= k < |log| ensures Reachable(log[k], original, Some(backup)) { SameHolds(d, log[k], DATABASE_SIDECARS, backup, original); }
  }

  lemma KeptAppend(first: seq<Directory>, log: seq<Directory>, from: nat, original: string, backup: Option<Name>)
    requires first <= log && from <= |first| && Kept(first, from, original, backup) && Kept(log, |first|, original, backup)
    ensures Kept(log, from, original, backup)
  {
    forall k | from <= k < |log| ensures Reachable(log[k], original, backup) { if k < |first| { assert Reachable(first[k], original, backup); } }
  }

  /** Copies the recovery link over the database, then drops the link. */
  method Restore(disk: Disk, s: Script, backup: Name, ghost original: string) returns (ok: bool)
    requires disk.now.Valid() && IsBackup(backup) && Database in disk.now.names && disk.now.Holds(backup, original)
    requires disk.now.names[backup] != disk.now.names[Database]
    modifies disk
    ensures disk.now.Valid() && old(disk.log) <= disk.log
    ensures ok <==> old(disk.Spared(3))
    ensures ok ==> disk.now.Holds(Database, original) && !disk.now.Present(backup)
    ensures Database in disk.now.names && (NoSidecars(old(disk.now)) ==> NoSidecars(disk.now))
    ensures Reachable(disk.now, original, Some(backup)) && Kept(disk.log, |old(disk.log)|, original, Some(backup))
    ensures SameBut(old(disk.now), disk.now, Mine(s.stamp, Some(backup)), old(disk.now).names[Database])
  {
    var copied := disk.Copy(backup, Database);
    if !copied.Done? {
      return false;
    }
    var removed := disk.Remove(backup);
    if !removed.Done? {
      return false;
    }
    var synced := disk.Sync(Database);
    ok := synced.Done?;
  }

  /**
   * How the part after the rename went: whether the flush worked, whether verification passed, and
   * the length of the log at that moment.
   */
  datatype Settlement = Settlement(flushed: bool, verified: bool, mark: nat)

  ghost predicate Settled(d: Directory, log: seq<Directory>, from: nat, s: Script, backup: Option<Name>, original: string,
                          r: SwapResult<Option<Name>>, e: Settlement) {
    && from <= e.mark <= |log| && (!e.verified ==> e.mark == |log|)
    && (backup.Some? ==> Kept(log[..e.mark], from, original, backup))
    && (e.verified ==> s.verifies && d.Holds(Database, s.compacted))
    && (r.Success? ==> e.verified && r.value == if s.skipBackup then None else backup)
    && (r.Success? && r.value.Some? ==> d.Holds(r.value.value, original))
    && (r.Success? && s.skipBackup && backup.Some? ==> !d.Present(backup.value))
    && (backup.Some? && !e.verified ==> Reachable(d, original, backup))
    && (r == Failure(IntegrityFailed) ==> d.Holds(Database, original) && (backup.Some? ==> !d.Present(backup.value)))
    && (r.Failure? && r.error.RollbackFailed? ==> r.error == RollbackFailed(Database, if backup.Some? then backup.value else Backup(s.stamp)))
    // a failed flush is reported as it is; a rollback is attempted exactly after a failed verification
    && (!e.flushed ==> r == Failure(IoFailed) && d.Holds(Database, s.compacted) && (backup.Some? ==> d.Holds(backup.value, original)))
    && (e.flushed && !s.verifies ==> r.Failure? && (r.error == IntegrityFailed || r.error.RollbackFailed?))
    && (e.verified <==> e.flushed && s.verifies)
    && (backup.None? ==> d.Holds(Database, s.compacted))
    && (backup.None? ==> r != Failure(IntegrityFailed))
    && Database in d.names && NoSidecars(d)
  }

  /** None of the operations from `from` on, up to `to`, fails. */
  ghost predicate Passed(faults: set<nat>, from: nat, to: nat) {
    forall k | from <= k < to :: k !in faults
  }

  /**
   * The result of the part after the rename, whose first operation `n` is the flush. A failed
   * verification restores the original exactly when there is a link and the five operations of the
   * rollback work.
   */
  ghost function SettledAs(s: Script, backup: Option<Name>, n: nat, faults: set<nat>): SwapResult<Option<Name>> {
    if n in faults then Failure(IoFailed)
    else if !s.verifies then
      if backup.Some? && Passed(faults, n + 1, n + 6) then Failure(IntegrityFailed)
      else Failure(RollbackFailed(Database, if backup.Some? then backup.value else Backup(s.stamp)))
    else if n + 1 in faults || (s.skipBackup && backup.Some? && n + 4 in faults) then Failure(IoFailed)
    else Success(if s.skipBackup then None else backup)
  }

  /** Flushes and verifies the swapped database, and rolls back when verification fails. */
  method Settle(disk: Disk, s: Script, backup: Option<Name>, ghost i: Inode, ghost original: string)
    returns (r: SwapResult<Option<Name>>, ghost e: Settlement)
    requires Replaced(disk.now, i, original, s, backup) && (backup.Some? ==> IsBackup(backup.value))
    modifies disk
    ensures disk.now.Valid() && old(disk.log) <= disk.log
    ensures Settled(disk.now, disk.log, |old(disk.log)|, s, backup, original, r, e)
    ensures r == SettledAs(s, backup, old(disk.operations), disk.faults)
    ensures e.flushed <==> !old(disk.Faulty())
    ensures old(disk.Faulty()) ==> disk.now == old(disk.now)
    ensures SameBut(old(disk.now), disk.now, Mine(s.stamp, backup), old(disk.now).names[Database])
  {
    var synced := disk.Sync(Database);
    if !synced.Done? {
      e := Settlement(false, false, |disk.log|);
      return Failure(IoFailed), e;
    }
    if !s.verifies {
      ghost var log1 := disk.log;
      var rolledBack := Rollback(disk, s, backup, i, original);
      e := Settlement(true, false, |disk.log|);
      assert disk.log[..e.mark] == disk.log;
      if backup.Some? { KeptAppend(log1, disk.log, |old(disk.log)|, original, backup); }
      r := Failure(if rolledBack then IntegrityFailed else RollbackFailed(Database, if backup.Some? then backup.value else Backup(s.stamp)));
      return r, e;
    }
    e := Settlement(true, true, |disk.log|);
    r := Finish(disk, s, backup, i, original);
  }

  /** After verification: measures the result, clears up, and drops an unwanted recovery link. */
  method Finish(disk: Disk, s: Script, backup: Option<Name>, ghost i: Inode, ghost original: string) returns (r: SwapResult<Option<Name>>)
    requires Replaced(disk.now, i, original, s, backup) && (backup.Some? ==> IsBackup(backup.value))
    modifies disk
    ensures disk.now.Valid() && old(disk.log) <= disk.log
    ensures disk.now.Holds(Database, s.compacted) && NoSidecars(disk.now) && (r.Failure? ==> r.error == IoFailed)
    ensures r.Success? <==> !old(disk.Faulty()) && (s.skipBackup && backup.Some? ==> old(disk.operations) + 3 !in disk.faults)
    ensures r.Success? ==> r.value == if s.skipBackup then None else backup
    ensures r.Success? && r.value.Some? ==> disk.now.Holds(r.value.value, original)
    ensures r.Success? && s.skipBackup && backup.Some? ==> !disk.now.Present(backup.value)
    ensures r.Success? && Passed(disk.faults, old(disk.operations) + 1, old(disk.operations) + 3) ==>
              !disk.now.Present(Sidecar(Temporary(s.stamp), true)) && !disk.now.Present(Sidecar(Temporary(s.stamp), false))
    ensures SameBut(old(disk.now), disk.now, Mine(s.stamp, backup), old(disk.now).names[Database])
  {
    var measured := disk.Sync(Database);
    if !measured.Done? {
      return Failure(IoFailed);
    }
    var wal := disk.Remove(Sidecar(Temporary(s.stamp), true));
    var shm := disk.Remove(Sidecar(Temporary(s.stamp), false));
    if s.skipBackup && backup.Some? {
      var removed := disk.Remove(backup.value);
      if !removed.Done? {
        return Failure(IoFailed);
      }
    }
    r := Success(if s.skipBackup then None else backup);
  }

  /** The temporary file and its sidecars. */
  function Scratch(stamp: string): set<Name> {
    {Temporary(stamp), Sidecar(Temporary(stamp), true), Sidecar(Temporary(stamp), false)}
  }

  /** Removes a file if it is there; a failure is ignored. */
  method RemoveIfPresent(disk: Disk, n: Name, ghost start: Directory, ghost from: nat, ghost touched: set<Name>)
    requires disk.now.Valid() && n in touched && from <= |disk.log| && OnlySince(disk, from, start, touched)
    modifies disk
    ensures disk.now.Valid() && old(disk.log) <= disk.log && disk.operations == old(disk.operations) + 1
    ensures OnlySince(disk, from, start, touched)
    ensures disk.now.Present(n) <==> old(disk.now).Present(n) && old(disk.Faulty())
    ensures forall m | m != n :: disk.now.Present(m) <==> old(disk.now).Present(m)
  {
    ghost var before := disk.now;
    var removed := disk.Remove(n);
    SameChain(start, before, disk.now, touched, {n}, touched);
  }

  /** The clean-up at the end of every run that created the temporary file: a file stays only if its removal fails. */
  method CleanUp(disk: Disk, stamp: string)
    requires disk.now.Valid()
    modifies disk
    ensures disk.now.Valid() && old(disk.log) <= disk.log && disk.operations == old(disk.operations) + 3
    ensures OnlySince(disk, |old(disk.log)|, old(disk.now), Scratch(stamp))
    ensures old(disk.Spared(3)) ==> forall n <- Scratch(stamp) :: !disk.now.Present(n)
  {
    ghost var start, from, scratch := disk.now, |disk.log|, Scratch(stamp);
    RemoveIfPresent(disk, Temporary(stamp), start, from, scratch);
    RemoveIfPresent(disk, Sidecar(Temporary(stamp), true), start, from, scratch);
    RemoveIfPresent(disk, Sidecar(Temporary(stamp), false), start, from, scratch);
  }

  /**
   * The whole course of a vacuum, for its specification. `rename` is the number of the operation that
   * renames, if it was reached, `flush` of the one that flushes the swapped file, and `mark` the length
   * of the log when verification passed.
   */
  datatype Voyage = Voyage(made: Option<Name>, rename: Option<nat>, swapped: bool, intruded: bool, flush: nat, flushed: bool, verified: bool,
                           mark: nat)

  /**
   * The safety of one vacuum of the file `i`, which held `original`. `log` has every directory
   * since the start from index `from` on, and `end` is the last one.
   */
  ghost predicate Safe(original: string, i: Inode, end: Directory, log: seq<Directory>, from: nat, s: Script,
                       r: SwapResult<Option<Name>>, v: Voyage) {
    // until verification passes, the original bytes are under the database's name or the link's
    && from <= v.mark <= |log| && (!v.verified ==> v.mark == |log|)
    && (v.made.Some? || (!v.intruded && !v.swapped) ==> Kept(log[..v.mark], from, original, v.made))
    && (!v.intruded && !v.swapped ==> StillOriginal(end, i, original))
    && (v.swapped && !v.verified && v.made.Some? ==> Reachable(end, original, v.made))
    // success means the compacted database is in place, and the link is kept if it was wanted
    && (r.Success? ==> v.swapped && v.verified && end.Holds(Database, s.compacted) && (r.value.Some? <==> !s.skipBackup))
    && (r.Success? && r.value.Some? ==> r.value == v.made && end.Holds(r.value.value, original))
    && (r.Success? && s.skipBackup && v.made.Some? ==> !end.Present(v.made.value))
    // a failed flush after the rename is reported without a rollback: the original is at the link only
    && (v.swapped ==> (v.verified <==> v.flushed && s.verifies))
    && (v.swapped && !v.flushed ==>
          r == Failure(IoFailed) && end.Holds(Database, s.compacted) && (v.made.Some? ==> end.Holds(v.made.value, original)))
    // a failed verification is reported, with the original back in place or at a name the error gives
    && (v.swapped && v.flushed && !s.verifies ==> r.Failure? && (r.error == IntegrityFailed || r.error.RollbackFailed?))
    && (r == Failure(IntegrityFailed) ==> end.Holds(Database, original))
    && (r == Failure(IntegrityFailed) && v.made.Some? ==> !end.Present(v.made.value))
    && (r.Failure? && r.error.RollbackFailed? && v.made.Some? ==> r.error == RollbackFailed(Database, v.made.value))
    && (!s.verifies ==> r.Failure?)
    // without a link there is nothing to roll back to
    && (v.swapped && v.made.None? ==> end.Holds(Database, s.compacted))
    && (v.swapped && v.made.None? && v.flushed && !s.verifies ==> r == Failure(RollbackFailed(Database, Backup(s.stamp))))
    && Database in end.names
    // no sidecar of the file that was replaced is left beside the swapped one
    && (v.swapped ==> NoSidecars(end))
    // the link is made unless it is not wanted and would have to be a copy
    && (v.swapped ==> (v.made.None? <==> s.skipBackup && !s.hardLinks))
    && (v.made.Some? ==> IsBackup(v.made.value))
    // another process's database is left alone, and the original stays at the link if one was made
    && (v.intruded ==> r == Failure(Busy) && end.Holds(Database, s.foreign) && !v.swapped && !v.verified)
    && (v.intruded && v.made.Some? ==> end.Holds(v.made.value, original))
  }

  lemma KeptPrefix(log: seq<Directory>, from: nat, original: string, backup: Option<Name>)
    ensures Kept(log, from, original, None) ==> Kept(log, from, original, backup)
    ensures log[..|log|] == log
  {
    if Kept(log, from, original, None) {
      forall k | from <= k < |log| ensures Reachable(log[k], original, backup) { assert Reachable(log[k], original, None); }
    }
  }

  /** Nothing was swapped, and nothing at all was changed. */
  ghost predicate Refused(before: Directory, after: Directory, r: SwapResult<Option<Name>>, v: Voyage) {
    r == Failure(Busy) && !v.swapped && !v.intruded && v.made.None? && after == before
  }

  /** The part of a vacuum from the critical section on. */
  method SwapAndSettle(disk: Disk, i: Inode, s: Script, sequence: nat, ghost original: string)
    returns (r: SwapResult<Option<Name>>, next: nat, ghost v: Voyage)
    requires Ready(disk.now, i, original, s)
    modifies disk
    ensures disk.now.Valid() && old(disk.log) <= disk.log && next >= sequence
    ensures Safe(original, i, disk.now, disk.log, |old(disk.log)|, s, r, v)
    ensures v.made.Some? ==> !old(disk.now).Present(v.made.value)
    ensures disk.faults == {} && old(disk.now).symlinks == {} && Quiescent(old(disk.now)) && s.intruders == {} ==> v.swapped
    ensures v.swapped ==> r == SettledAs(s, v.made, v.flush, disk.faults) && (v.flushed <==> v.flush !in disk.faults)
    ensures !old(disk.now).Present(Backup(s.stamp)) && Quiescent(old(disk.now)) && s.intruders == {} ==>
              (v.swapped <==> old(disk.Spared(3 + Links(s))))
    ensures RenameAnswers(disk.now, original, v.made, v.rename, v.swapped, disk.faults, r) && (v.swapped ==> v.flush == v.rename.value + 1)
    ensures r != Failure(SwapError.Interrupted)
    ensures !old(disk.now).Present(Backup(s.stamp)) && v.rename.Some? ==>
              v.made == PlainLink(s) && v.rename.value == old(disk.operations) + 2 + Links(s)
    ensures !old(disk.now).Present(Backup(s.stamp)) && Quiescent(old(disk.now)) && s.intruders == {} ==>
              (v.rename.Some? <==> old(disk.Spared(2 + Links(s))))
    ensures v.swapped && v.made.Some? ==> BackupCreated !in s.intruders
    ensures !Quiescent(old(disk.now)) ==> Refused(old(disk.now), disk.now, r, v)
    ensures SameBut(old(disk.now), disk.now, Mine(s.stamp, v.made), old(disk.now).names[Temporary(s.stamp)])
  {
    ghost var d0, from, own := disk.now, |disk.log|, disk.now.names[Temporary(s.stamp)];
    ghost var c;
    r, next, c := CriticalSection(disk, i, s, sequence, original);
    ghost var d1, log1, mine := disk.now, disk.log, Mine(s.stamp, c.made);
    LocalIsBut(d0, d1, mine, mine, own);
    KeptPrefix(log1, from, original, c.made);
    v := Voyage(c.made, c.rename, c.swapped, c.intruded, disk.operations, false, false, |disk.log|);
    if r.Failure? {
      return r, next, v;
    }
    ghost var e;
    ghost var flush := disk.operations;
    r, e := Settle(disk, s, r.value, i, original);
    v := Voyage(c.made, c.rename, true, false, flush, e.flushed, e.verified, e.mark);
    if c.made.Some? { KeptUpTo(log1, disk.log, from, e.mark, original, c.made); }
    SameButChain(d0, d1, disk.now, mine, own);
  }

  lemma KeptUpTo(first: seq<Directory>, log: seq<Directory>, from: nat, mark: nat, original: string, backup: Option<Name>)
    requires first <= log && from <= |first| <= mark <= |log|
    requires Kept(first, from, original, backup) && Kept(log[..mark], |first|, original, backup)
    ensures Kept(log[..mark], from, original, backup)
  {
    assert first <= log[..mark];
    KeptAppend(first, log[..mark], from, original, backup);
  }

  /** The temporary file is gone; everything else is as it was. */
  lemma SafeAfterCleanUp(original: string, i: Inode, before: Directory, log: seq<Directory>, after: Directory, longer: seq<Directory>,
                         from: nat, s: Script, r: SwapResult<Option<Name>>, v: Voyage)
    requires Safe(original, i, before, log, from, s, r, v) && after.Valid()
    requires before.Valid() && log <= longer && SameOutside(before, after, Scratch(s.stamp)) && Only(longer, |log|, before, Scratch(s.stamp))
    ensures Safe(original, i, after, longer, from, s, r, if v.verified then v else v.(mark := |longer|))
  {
    var mark := if v.verified then v.mark else |longer|;
    assert longer[..v.mark] == log[..v.mark];
    if !v.verified && (v.made.Some? || (!v.intruded && !v.swapped)) {
      assert Reachable(before, original, v.made);
      forall k | from <= k < mark ensures Reachable(longer[..mark][k], original, v.made) {
        if k < |log| {
          assert Reachable(log[..|log|][k], original, v.made);
        } else {
          StaysReachable(before, longer[k], s, original, v.made);
        }
      }
    }
    if v.made.Some? { StaysReachable(before, after, s, original, v.made); }
    StaysReachable(before, after, s, original, None);
    StaysReachable(before, after, s, s.compacted, None);
    StaysReachable(before, after, s, s.foreign, None);
    StaysReachable(before, after, s, before.contents[before.names[Database]], None);
  }

  lemma StaysReachable(a: Directory, b: Directory, s: Script, bytes: string, backup: Option<Name>)
    requires SameOutside(a, b, Scratch(s.stamp)) && (backup.Some? ==> IsBackup(backup.value))
    ensures Reachable(a, bytes, backup) ==> Reachable(b, bytes, backup)
    ensures a.Holds(Database, bytes) ==> b.Holds(Database, bytes) && b.names[Database] == a.names[Database]
    ensures backup.Some? && a.Holds(backup.value, bytes) ==> b.Holds(backup.value, bytes)
  {
    if a.Holds(Database, bytes) { SameHolds(a, b, Scratch(s.stamp), Database, bytes); }
    if backup.Some? && a.Holds(backup.value, bytes) { SameHolds(a, b, Scratch(s.stamp), backup.value, bytes); }
  }

  /** The output of `VACUUM INTO`, then whatever another process does once the lock is closed. */
  method BuildOutput(disk: Disk, i: Inode, s: Script, ghost original: string) returns (r: SwapResult<()>, ghost intruded: bool)
    requires StillOriginal(disk.now, i, original) && !disk.now.Present(Temporary(s.stamp))
    modifies disk
    ensures disk.now.Valid() && old(disk.log) <= disk.log
    ensures SameOutside(old(disk.now), disk.now, {Temporary(s.stamp), Database}) && disk.now.symlinks == old(disk.now).symlinks
    ensures !intruded ==> StillOriginal(disk.now, i, original) && Kept(disk.log, |old(disk.log)|, original, None)
    ensures !intruded ==> SameOutside(old(disk.now), disk.now, {Temporary(s.stamp)})
    ensures intruded ==> r == Failure(Busy) && disk.now.Holds(Database, s.foreign)
    ensures r.Success? ==> Ready(disk.now, i, original, s) && disk.now.names[Temporary(s.stamp)] !in old(disk.now).contents
    ensures r.Failure? ==> !r.error.RollbackFailed?
    ensures r.Success? <==> !old(disk.Faulty()) && s.built && s.enters && AfterLockClosed !in s.intruders
    ensures old(disk.Faulty()) || !s.built ==> r == Failure(IntegrityFailed)
    ensures !old(disk.Faulty()) && s.built && AfterLockClosed in s.intruders ==> r == Failure(Busy)
    ensures !old(disk.Faulty()) && s.built && AfterLockClosed !in s.intruders && !s.enters ==> r == Failure(SwapError.Interrupted)
    ensures disk.operations == old(disk.operations) + 1
  {
    intruded := false;
    var built := disk.Build(Temporary(s.stamp), s.compacted, s.built);
    if !built {
      return Failure(IntegrityFailed), intruded;
    }
    if AfterLockClosed in s.intruders {
      disk.Intrude(Database, s.foreign);
      intruded := true;
    }
    if !IsDatabase(disk.now, i) {
      return Failure(Busy), intruded;
    }
    r := if s.enters then Success(()) else Failure(SwapError.Interrupted);
  }

  /** The part of a vacuum from the critical section on, seen from its start, when the temporary file was not there. */
  method SwapBuilt(disk: Disk, i: Inode, s: Script, sequence: nat, ghost original: string, ghost start: Directory, ghost from: nat)
    returns (r: SwapResult<Option<Name>>, next: nat, ghost v: Voyage)
    requires Ready(disk.now, i, original, s) && from <= |disk.log| && Kept(disk.log, from, original, None)
    requires start.Valid() && !start.Present(Temporary(s.stamp)) && SameOutside(start, disk.now, {Temporary(s.stamp)})
    requires disk.now.names[Temporary(s.stamp)] !in start.contents && disk.now.symlinks == start.symlinks
    modifies disk
    ensures disk.now.Valid() && old(disk.log) <= disk.log && next >= sequence
    ensures Safe(original, i, disk.now, disk.log, from, s, r, v)
    ensures v.made.Some? ==> !start.Present(v.made.value)
    ensures SameOutside(start, disk.now, Mine(s.stamp, v.made))
    ensures Undisturbed(start, disk.faults, s) ==> v.swapped
    ensures v.swapped ==> r == SettledAs(s, v.made, v.flush, disk.faults) && (v.flushed <==> v.flush !in disk.faults)
    ensures Prepared(start, s) ==> (v.swapped <==> old(disk.Spared(3 + Links(s))))
    ensures RenameAnswers(disk.now, original, v.made, v.rename, v.swapped, disk.faults, r) && (v.swapped ==> v.flush == v.rename.value + 1)
    ensures r != Failure(SwapError.Interrupted)
    ensures !start.Present(Backup(s.stamp)) && v.rename.Some? ==> v.made == PlainLink(s) && v.rename.value == old(disk.operations) + 2 + Links(s)
    ensures Prepared(start, s) ==> (v.rename.Some? <==> old(disk.Spared(2 + Links(s))))
    ensures v.swapped && v.made.Some? ==> BackupCreated !in s.intruders
    ensures !Quiescent(start) ==> Untouched(start, disk.now, s, r, v)
  {
    ghost var d1, log1 := disk.now, disk.log;
    StillQuiescent(start, d1, s);
    r, next, v := SwapAndSettle(disk, i, s, sequence, original);
    Joined(log1, disk.log, from, original, i, disk.now, s, r, v);
    Carried(start, d1, disk.now, s, r, v);
  }

  /** Everything between the check for the temporary name and the clean-up. */
  method BuildAndSwap(disk: Disk, i: Inode, s: Script, sequence: nat, ghost original: string)
    returns (r: SwapResult<Option<Name>>, next: nat, ghost v: Voyage)
    requires StillOriginal(disk.now, i, original) && !disk.now.Present(Temporary(s.stamp))
    modifies disk
    ensures disk.now.Valid() && old(disk.log) <= disk.log && next >= sequence
    ensures Safe(original, i, disk.now, disk.log, |old(disk.log)|, s, r, v)
    ensures v.made.Some? ==> !old(disk.now).Present(v.made.value)
    ensures SameOutside(old(disk.now), disk.now, Mine(s.stamp, v.made))
    ensures Undisturbed(old(disk.now), disk.faults, s) ==> v.swapped
    ensures v.swapped ==> r == SettledAs(s, v.made, v.flush, disk.faults) && (v.flushed <==> v.flush !in disk.faults)
    ensures Prepared(old(disk.now), s) ==> (v.swapped <==> old(disk.Spared(4 + Links(s))))
    ensures RenameAnswers(disk.now, original, v.made, v.rename, v.swapped, disk.faults, r) && (v.swapped ==> v.flush == v.rename.value + 1)
    ensures !old(disk.now).Present(Backup(s.stamp)) && v.rename.Some? ==>
              v.made == PlainLink(s) && v.rename.value == old(disk.operations) + 3 + Links(s)
    ensures Prepared(old(disk.now), s) ==> (v.rename.Some? <==> old(disk.Spared(3 + Links(s))))
    ensures s.built && !old(disk.Faulty()) && s.intruders == {} && !s.enters ==> r == Failure(SwapError.Interrupted)
    ensures s.built && !old(disk.Faulty()) && AfterLockClosed in s.intruders ==> r == Failure(Busy)
    ensures r == Failure(SwapError.Interrupted) ==> !s.enters && s.built
    ensures v.swapped ==> s.built && s.enters && AfterLockClosed !in s.intruders && (v.made.Some? ==> BackupCreated !in s.intruders)
    ensures !Quiescent(old(disk.now)) ==> Untouched(old(disk.now), disk.now, s, r, v)
  {
    ghost var d0, from := disk.now, |disk.log|;
    next := sequence;
    disk.SparedFirst(2 + Links(s));
    disk.SparedFirst(3 + Links(s));
    ghost var intruded;
    var built;
    built, intruded := BuildOutput(disk, i, s, original);
    ghost var d1, log1 := disk.now, disk.log;
    if built.Failure? {
      v := Voyage(None, None, false, intruded, disk.operations, false, false, |disk.log|);
      r := Failure(built.error);
      StopsEarly(original, i, d0, d1, log1, from, s, r, v);
      return;
    }
    r, next, v := SwapBuilt(disk, i, s, next, original, d0, from);
  }

  /** A vacuum that stops before the critical section. */
  lemma SafeEarly(original: string, i: Inode, end: Directory, log: seq<Directory>, from: nat, s: Script, error: SwapError, v: Voyage)
    requires from <= |log| && v.made.None? && !v.swapped && !v.verified && v.mark == |log| && Database in end.names
    requires !v.intruded ==> StillOriginal(end, i, original) && Kept(log, from, original, None)
    requires v.intruded ==> error == Busy && end.Holds(Database, s.foreign)
    requires !error.RollbackFailed? && (error == IntegrityFailed ==> end.Holds(Database, original))
    ensures Safe(original, i, end, log, from, s, Failure(error), v)
  {
    assert log[..|log|] == log;
  }

  lemma StopsEarly(original: string, i: Inode, a: Directory, b: Directory, log: seq<Directory>, from: nat, s: Script,
                   r: SwapResult<Option<Name>>, v: Voyage)
    requires from <= |log| && v.made.None? && v.rename.None? && !v.swapped && !v.verified && v.mark == |log| && Database in b.names
    requires !v.intruded ==> StillOriginal(b, i, original) && Kept(log, from, original, None)
    requires v.intruded ==> r == Failure(Busy) && b.Holds(Database, s.foreign)
    requires r.Failure? && !r.error.RollbackFailed? && (r.error == IntegrityFailed ==> b.Holds(Database, original))
    requires SameOutside(a, b, {Temporary(s.stamp)} + if v.intruded then {Database} else {})
    ensures Safe(original, i, b, log, from, s, r, v)
    ensures Untouched(a, b, s, r, v) && SameOutside(a, b, Mine(s.stamp, v.made))
    ensures forall faults :: RenameAnswers(b, original, v.made, v.rename, v.swapped, faults, r)
  {
    SafeEarly(original, i, b, log, from, s, r.error, v);
    EarlyEnd(a, b, s, r, v);
  }

  lemma EarlyEnd(a: Directory, b: Directory, s: Script, r: SwapResult<Option<Name>>, v: Voyage)
    requires SameOutside(a, b, {Temporary(s.stamp)} + if v.intruded then {Database} else {})
    requires r.Failure? && !v.swapped && v.made.None?
    ensures Untouched(a, b, s, r, v) && SameOutside(a, b, Mine(s.stamp, v.made))
  {
    var few := {Temporary(s.stamp)} + if v.intruded then {Database} else {};
    SameChain(a, b, b, few, {}, Scratch(s.stamp) + if v.intruded then {Database} else {});
    SameChain(a, b, b, few, {}, Mine(s.stamp, v.made));
  }

  /** The compacted file is a new one, so writing it changes no file that was there before. */
  lemma Carried(a: Directory, b: Directory, c: Directory, s: Script, r: SwapResult<Option<Name>>, v: Voyage)
    requires SameOutside(a, b, {Temporary(s.stamp)}) && Temporary(s.stamp) in b.names
    requires b.names[Temporary(s.stamp)] !in a.contents && SameBut(b, c, Mine(s.stamp, v.made), b.names[Temporary(s.stamp)])
    ensures SameOutside(a, c, Mine(s.stamp, v.made))
    ensures Refused(b, c, r, v) ==> Untouched(a, c, s, r, v)
  {
    var own := b.names[Temporary(s.stamp)];
    LocalIsBut(a, b, {Temporary(s.stamp)}, Mine(s.stamp, v.made), own);
    SameButChain(a, b, c, Mine(s.stamp, v.made), own);
    if Refused(b, c, r, v) { EarlyEnd(a, c, s, r, v); }
  }

  lemma StillQuiescent(a: Directory, b: Directory, s: Script)
    requires a.Valid() && b.Valid() && SameOutside(a, b, {Temporary(s.stamp)})
    ensures (Quiescent(a) <==> Quiescent(b)) && (a.Present(Backup(s.stamp)) <==> b.Present(Backup(s.stamp)))
  {
    forall n <- DATABASE_SIDECARS | n in a.names ensures n in b.names && b.contents[b.names[n]] == a.contents[a.names[n]] {
      SameHolds(a, b, {Temporary(s.stamp)}, n, a.contents[a.names[n]]);
    }
  }

  /** Nothing stands in the way of a swap up to its rename, and the plain backup name is free. */
  ghost predicate Prepared(start: Directory, s: Script)
    requires start.Valid()
  {
    Quiescent(start) && !start.Present(Backup(s.stamp)) && s.intruders == {} && s.built && s.enters
  }

  /** Nothing was swapped; the database's sidecars and everything but the run's scratch names is as it was. */
  ghost predicate Untouched(start: Directory, end: Directory, s: Script, r: SwapResult<Option<Name>>, v: Voyage) {
    r.Failure? && !v.swapped && v.made.None? && SameOutside(start, end, Scratch(s.stamp) + if v.intruded then {Database} else {})
  }

  /** A vacuum whose temporary name is free: build, swap, clean up. */
  method VacuumFresh(disk: Disk, s: Script, sequence: nat) returns (r: SwapResult<Option<Name>>, next: nat, ghost v: Voyage)
    requires disk.now.Valid() && Database in disk.now.names && !disk.now.Present(Temporary(s.stamp))
    modifies disk
    ensures disk.now.Valid() && old(disk.log) <= disk.log && next >= sequence
    ensures var i := old(disk.now).names[Database];
            Safe(old(disk.now).contents[i], i, disk.now, disk.log, |old(disk.log)|, s, r, v)
    ensures v.made.Some? ==> !old(disk.now).Present(v.made.value)
    ensures SameOutside(old(disk.now), disk.now, Mine(s.stamp, v.made))
    ensures v.made.None? || !disk.now.Present(v.made.value) ==> SameBackups(old(disk.now), disk.now)
    ensures Undisturbed(old(disk.now), disk.faults, s) ==> v.swapped
    ensures v.swapped ==> r == SettledAs(s, v.made, v.flush, disk.faults) && (v.flushed <==> v.flush !in disk.faults)
    ensures RenameAnswers(disk.now, old(disk.now).contents[old(disk.now).names[Database]], v.made, v.rename, v.swapped, disk.faults, r)
    ensures v.swapped ==> v.flush == v.rename.value + 1
    ensures !old(disk.now).Present(Backup(s.stamp)) && v.rename.Some? ==>
              v.made == PlainLink(s) && v.rename.value == old(disk.operations) + 3 + Links(s)
    ensures Prepared(old(disk.now), s) ==> (v.rename.Some? <==> old(disk.Spared(3 + Links(s))))
    ensures s.built && !old(disk.Faulty()) && s.intruders == {} && !s.enters ==> r == Failure(SwapError.Interrupted)
    ensures r == Failure(SwapError.Interrupted) ==> !s.enters && !v.intruded
    ensures v.swapped ==> s.built && s.enters && AfterLockClosed !in s.intruders && (v.made.Some? ==> BackupCreated !in s.intruders)
    ensures !Quiescent(old(disk.now)) ==> Untouched(old(disk.now), disk.now, s, r, v)
    ensures disk.operations >= 3
    ensures Passed(disk.faults, disk.operations - 3, disk.operations) ==> forall n <- Scratch(s.stamp) :: !disk.now.Present(n)
  {
    var i := disk.now.names[Database];
    ghost var d0, from, original := disk.now, |disk.log|, disk.now.contents[i];
    r, next, v := BuildAndSwap(disk, i, s, sequence, original);
    ghost var d2, log2, mine := disk.now, disk.log, Mine(s.stamp, v.made);
    CleanUp(disk, s.stamp);
    SafeAfterCleanUp(original, i, d2, log2, disk.now, disk.log, from, s, r, v);
    SameChain(d0, d2, disk.now, mine, Scratch(s.stamp), mine);
    AnswersAfterCleanUp(d2, disk.now, s, original, disk.faults, r, v);
    NoNewBackup(d0, disk.now, s, v.made);
    UntouchedAfterCleanUp(d0, d2, disk.now, s, r, v);
    v := if v.verified then v else v.(mark := |disk.log|);
  }

  /**
   * Rebuilds the database into a temporary file and swaps it in. An existing file of the temporary
   * name is an error and is left alone.
   */
  method VacuumInto(disk: Disk, s: Script, sequence: nat) returns (r: SwapResult<Option<Name>>, next: nat, ghost v: Voyage)
    requires disk.now.Valid() && Database in disk.now.names
    modifies disk
    ensures disk.now.Valid() && old(disk.log) <= disk.log && next >= sequence
    ensures var i := old(disk.now).names[Database];
            Safe(old(disk.now).contents[i], i, disk.now, disk.log, |old(disk.log)|, s, r, v)
    ensures v.made.Some? ==> !old(disk.now).Present(v.made.value)
    ensures SameOutside(old(disk.now), disk.now, Mine(s.stamp, v.made))
    ensures old(disk.now).Present(Temporary(s.stamp)) ==> r == Failure(IoFailed) && disk.now == old(disk.now)
    ensures !old(disk.now).Present(Temporary(s.stamp)) && Undisturbed(old(disk.now), disk.faults, s) ==>
              v.swapped && (s.verifies ==> r.Success?) && (!s.verifies && Links(s) == 1 ==> r == Failure(IntegrityFailed))
    ensures v.swapped ==> r == SettledAs(s, v.made, v.flush, disk.faults) && (v.flushed <==> v.flush !in disk.faults)
    ensures !old(disk.now).Present(Temporary(s.stamp)) && Prepared(old(disk.now), s) ==>
              (v.swapped <==> old(disk.Spared(4 + Links(s))))
    ensures RenameAnswers(disk.now, old(disk.now).contents[old(disk.now).names[Database]], v.made, v.rename, v.swapped, disk.faults, r)
    ensures v.swapped ==> v.flush == v.rename.value + 1
    ensures !old(disk.now).Present(Backup(s.stamp)) && v.rename.Some? ==>
              v.made == PlainLink(s) && v.rename.value == old(disk.operations) + 3 + Links(s)
    // only the rename fails: the database is the original file, and no backup name has come
    ensures !old(disk.now).Present(Temporary(s.stamp)) && Prepared(old(disk.now), s) && old(disk.Spared(3 + Links(s))) ==>
              old(disk.operations) + 3 + Links(s) in disk.faults && old(disk.operations) + 4 + Links(s) !in disk.faults ==>
                r == Failure(IoFailed) && IsDatabase(disk.now, old(disk.now).names[Database])
                && SameBackups(old(disk.now), disk.now)
    // the signal controller refuses the swap
    ensures !old(disk.now).Present(Temporary(s.stamp)) && s.built && !old(disk.Faulty()) && s.intruders == {} && !s.enters ==>
              r == Failure(SwapError.Interrupted)
    ensures r == Failure(SwapError.Interrupted) ==> !s.enters && IsDatabase(disk.now, old(disk.now).names[Database])
    ensures v.swapped ==> s.built && s.enters && AfterLockClosed !in s.intruders && (v.made.Some? ==> BackupCreated !in s.intruders)
    // the bytes a success leaves
    ensures r.Success? ==>
              && Database in disk.now.names && disk.now.names[Database] in disk.now.contents
              && disk.now.contents[disk.now.names[Database]] == s.compacted
    ensures r.Success? && r.value.Some? ==>
              && r.value.value in disk.now.names && disk.now.names[r.value.value] in disk.now.contents
              && disk.now.contents[disk.now.names[r.value.value]] == old(disk.now).contents[old(disk.now).names[Database]]
    // a sidecar that holds data keeps the database from being swapped
    ensures forall wal: bool | Sidecar(Database, wal) in old(disk.now).names && !old(disk.now).Holds(Sidecar(Database, wal), "") ::
              Untouched(old(disk.now), disk.now, s, r, v)
    ensures !old(disk.now).Present(Temporary(s.stamp)) ==> disk.operations >= 3
    ensures !old(disk.now).Present(Temporary(s.stamp)) && Passed(disk.faults, disk.operations - 3, disk.operations) ==>
              forall n <- Scratch(s.stamp) :: !disk.now.Present(n)
  {
    if disk.now.Present(Temporary(s.stamp)) {
      return Failure(IoFailed), sequence, Voyage(None, None, false, false, disk.operations, false, false, |disk.log|);
    }
    QuiescentExactly(disk.now);
    r, next, v := VacuumFresh(disk, s, sequence);
    disk.SparedNext(3 + Links(s));
  }

  lemma AnswersAfterCleanUp(before: Directory, after: Directory, s: Script, original: string, faults: set<nat>,
                            r: SwapResult<Option<Name>>, v: Voyage)
    requires SameOutside(before, after, Scratch(s.stamp)) && (v.made.Some? ==> IsBackup(v.made.value))
    requires RenameAnswers(before, original, v.made, v.rename, v.swapped, faults, r)
    ensures RenameAnswers(after, original, v.made, v.rename, v.swapped, faults, r)
  {
    if v.made.Some? { StaysReachable(before, after, s, original, v.made); }
  }

  /** The backup names are the same as before. */
  ghost predicate SameBackups(start: Directory, end: Directory) {
    forall n | IsBackup(n) :: end.Present(n) <==> start.Present(n)
  }

  lemma NoNewBackup(start: Directory, end: Directory, s: Script, made: Option<Name>)
    requires SameOutside(start, end, Mine(s.stamp, made)) && (made.Some? ==> !start.Present(made.value))
    ensures made.None? || !end.Present(made.value) ==> SameBackups(start, end)
  {
  }

  lemma UntouchedAfterCleanUp(start: Directory, before: Directory, after: Directory, s: Script, r: SwapResult<Option<Name>>, v: Voyage)
    requires SameOutside(before, after, Scratch(s.stamp))
    ensures Untouched(start, before, s, r, v) ==> forall mark :: Untouched(start, after, s, r, v.(mark := mark))
  {
    var few := Scratch(s.stamp) + if v.intruded then {Database} else {};
    if Untouched(start, before, s, r, v) { SameChain(start, before, after, few, Scratch(s.stamp), few); }
  }

  /** No operation fails, no other process interferes, and every check before the rename passes. */
  ghost predicate Undisturbed(start: Directory, faults: set<nat>, s: Script)
    requires start.Valid()
  {
    faults == {} && start.symlinks == {} && Quiescent(start) && s.intruders == {} && s.built && s.enters
  }

  /** The safety of the second part extends to the log of the first. */
  lemma Joined(first: seq<Directory>, log: seq<Directory>, from: nat, original: string, i: Inode, end: Directory, s: Script,
               r: SwapResult<Option<Name>>, v: Voyage)
    requires first <= log && from <= |first| && Kept(first, from, original, None)
    requires Safe(original, i, end, log, |first|, s, r, v)
    ensures Safe(original, i, end, log, from, s, r, v)
  {
    KeptPrefix(first, from, original, v.made);
    if v.made.Some? || (!v.intruded && !v.swapped) { KeptUpTo(first, log, from, v.mark, original, v.made); }
  }

  /** One vacuum of a series: its first operation, the directories up to its end, where its own begin, and its course. */
  datatype Leg = Leg(operation: nat, log: seq<Directory>, from: nat, voyage: Voyage)

  /** Which vacuums swap, and what each returns that does. */
  ghost predicate Answers(start: Directory, s: Script, r: SwapResult<Option<Name>>, v: Voyage, operation: nat, faults: set<nat>)
    requires start.Valid()
  {
    && (v.swapped ==> r == SettledAs(s, v.made, v.flush, faults))
    && (!start.Present(Temporary(s.stamp)) && Prepared(start, s) ==> (v.swapped <==> Passed(faults, operation, operation + 4 + Links(s))))
    && (!start.Present(Temporary(s.stamp)) && Undisturbed(start, faults, s) ==> v.swapped)
  }

  /** A vacuum from `start` to `end` was safe and changed no name but its own. */
  ghost predicate SafeLeg(start: Directory, end: Directory, s: Script, r: SwapResult<Option<Name>>, l: Leg, faults: set<nat>) {
    && start.Valid() && Database in start.names && Answers(start, s, r, l.voyage, l.operation, faults)
    && SameOutside(start, end, Mine(s.stamp, l.voyage.made))
    && (l.voyage.made.Some? ==> !start.Present(l.voyage.made.value))
    && Safe(start.contents[start.names[Database]], start.names[Database], end, l.log, l.from, s, r, l.voyage)
  }

  /** Every recovery link in `a` is in `b`, with the same bytes. */
  ghost predicate LinksStay(a: Directory, b: Directory) {
    forall n <- a.names | IsBackup(n) && a.names[n] in a.contents :: b.Holds(n, a.contents[a.names[n]])
  }

  lemma LegKeepsLinks(start: Directory, end: Directory, s: Script, r: SwapResult<Option<Name>>, l: Leg, faults: set<nat>)
    requires SafeLeg(start, end, s, r, l, faults)
    ensures LinksStay(start, end)
  {
    forall n <- start.names | IsBackup(n) ensures end.Holds(n, start.contents[start.names[n]]) {
      SameHolds(start, end, Mine(s.stamp, l.voyage.made), n, start.contents[start.names[n]]);
    }
  }

  /** One vacuum of a series. */
  method VacuumAgain(disk: Disk, s: Script, sequence: nat) returns (r: SwapResult<Option<Name>>, next: nat, ghost leg: Leg)
    requires disk.now.Valid() && Database in disk.now.names
    modifies disk
    ensures disk.now.Valid() && Database in disk.now.names && next >= sequence
    ensures SafeLeg(old(disk.now), disk.now, s, r, leg, disk.faults) && leg.operation == old(disk.operations)
    ensures leg.log == disk.log && leg.from <= |disk.log| && disk.log[..leg.from] == old(disk.log)
  {
    ghost var operation, from := disk.operations, |disk.log|;
    ghost var v;
    r, next, v := VacuumInto(disk, s, sequence);
    leg := Leg(operation, disk.log, from, v);
  }

  /** The vacuums of a series, each safe; `between` has the directory before, between and after them. */
  ghost predicate Series(scripts: seq<Script>, results: seq<SwapResult<Option<Name>>>, between: seq<Directory>, legs: seq<Leg>,
                         faults: set<nat>)
  {
    && |results| == |legs| == |scripts| && |between| == |scripts| + 1
    && forall i | 0 <= i < |scripts| :: SafeLeg(between[i], between[i + 1], scripts[i], results[i], legs[i], faults)
  }

  lemma {:induction false} LinksStayFrom(scripts: seq<Script>, results: seq<SwapResult<Option<Name>>>, between: seq<Directory>, legs: seq<Leg>,
                                         faults: set<nat>, a: nat, b: nat)
    requires Series(scripts, results, between, legs, faults) && a <= b <= |scripts|
    ensures LinksStay(between[a], between[b])
    decreases b
  {
    if a < b {
      ghost var c := b - 1;
      LinksStayFrom(scripts, results, between, legs, faults, a, c);
      LegKeepsLinks(between[c], between[c + 1], scripts[c], results[c], legs[c], faults);
    }
  }

  /** Each vacuum's part of the log follows that of the vacuum before it. */
  ghost predicate Consecutive(legs: seq<Leg>, start: nat, log: seq<Directory>) {
    if legs == [] then |log| == start
    else
      var last := legs[|legs| - 1];
      last.log == log && last.from <= |log| && Consecutive(legs[..|legs| - 1], start, log[..last.from])
  }

  lemma NextLeg(legs: seq<Leg>, start: nat, leg: Leg)
    requires leg.from <= |leg.log| && Consecutive(legs, start, leg.log[..leg.from])
    ensures Consecutive(legs + [leg], start, leg.log)
  {
    assert (legs + [leg])[..|legs|] == legs;
  }

  /** A new recovery link, under which the bytes that the database had before are still found at the end. */
  ghost predicate AddsLink(before: Directory, name: Name, end: Directory) {
    IsBackup(name) && !before.Present(name) && Database in before.names && before.names[Database] in before.contents
    && end.Holds(name, before.contents[before.names[Database]])
  }

  lemma LinkStays(scripts: seq<Script>, results: seq<SwapResult<Option<Name>>>, between: seq<Directory>, legs: seq<Leg>,
                  faults: set<nat>, i: nat, j: nat)
    requires Series(scripts, results, between, legs, faults) && i < j <= |scripts| && results[i].Success? && results[i].value.Some?
    ensures AddsLink(between[i], results[i].value.value, between[j])
  {
    assert SafeLeg(between[i], between[i + 1], scripts[i], results[i], legs[i], faults);
    LinksStayFrom(scripts, results, between, legs, faults, i + 1, j);
  }

  lemma SeriesKeepsLinks(scripts: seq<Script>, results: seq<SwapResult<Option<Name>>>, between: seq<Directory>, legs: seq<Leg>, faults: set<nat>)
    requires Series(scripts, results, between, legs, faults)
    ensures forall a, b | 0 <= a <= b <= |scripts| :: LinksStay(between[a], between[b])
    ensures forall i | 0 <= i < |scripts| && results[i].Success? && results[i].value.Some? ::
              AddsLink(between[i], results[i].value.value, between[|scripts|])
    ensures forall i, j | 0 <= i < j < |scripts| && results[i].Success? && results[j].Success? && results[i].value.Some? ::
              results[i].value != results[j].value
  {
    forall a, b | 0 <= a <= b <= |scripts| ensures LinksStay(between[a], between[b]) {
      LinksStayFrom(scripts, results, between, legs, faults, a, b);
    }
    forall i, j | 0 <= i < j <= |scripts| && results[i].Success? && results[i].value.Some?
      ensures AddsLink(between[i], results[i].value.value, between[j])
    {
      LinkStays(scripts, results, between, legs, faults, i, j);
    }
    forall i, j | 0 <= i < j < |scripts| && results[i].Success? && results[j].Success? && results[i].value.Some?
      ensures results[i].value != results[j].value
    {
      assert AddsLink(between[i], results[i].value.value, between[j]);
      if results[j].value.Some? { assert AddsLink(between[j], results[j].value.value, between[j + 1]); }
    }
  }

  lemma NextInSeries(scripts: seq<Script>, n: nat, results: seq<SwapResult<Option<Name>>>, between: seq<Directory>, legs: seq<Leg>,
                     faults: set<nat>, r: SwapResult<Option<Name>>, start: Directory, end: Directory, leg: Leg)
    requires n < |scripts| && Series(scripts[..n], results, between, legs, faults) && between[n] == start
    requires SafeLeg(start, end, scripts[n], r, leg, faults)
    ensures Series(scripts[..n + 1], results + [r], between + [end], legs + [leg], faults)
  {
  }

  /**
   * Any number of vacuums in a row, also with one timestamp for all. Whatever is under a backup name
   * before or after one of them, left by a success or by a failure, is there with the same bytes after
   * all later ones; and a successful one adds a link to the bytes it replaced, under a name of its own.
   */
  method Repeat(disk: Disk, scripts: seq<Script>)
    returns (results: seq<SwapResult<Option<Name>>>, ghost between: seq<Directory>, ghost legs: seq<Leg>)
    requires disk.now.Valid() && Database in disk.now.names
    modifies disk
    ensures disk.now.Valid() && Series(scripts, results, between, legs, disk.faults)
    ensures between[0] == old(disk.now) && between[|scripts|] == disk.now
    ensures Consecutive(legs, |old(disk.log)|, disk.log)
    ensures forall a, b | 0 <= a <= b <= |scripts| :: LinksStay(between[a], between[b])
    ensures forall i | 0 <= i < |scripts| && results[i].Success? && results[i].value.Some? ::
              AddsLink(between[i], results[i].value.value, disk.now)
    ensures forall i, j | 0 <= i < j < |scripts| && results[i].Success? && results[j].Success? && results[i].value.Some? ::
              results[i].value != results[j].value
  {
    results, between, legs := [], [disk.now], [];
    var sequence := 0;
    for n := 0 to |scripts|
      invariant disk.now.Valid() && Database in disk.now.names
      invariant Series(scripts[..n], results, between, legs, disk.faults) && between[0] == old(disk.now) && between[n] == disk.now
      invariant Consecutive(legs, |old(disk.log)|, disk.log)
    {
      ghost var before := disk.now;
      var r;
      ghost var leg;
      r, sequence, leg := VacuumAgain(disk, scripts[n], sequence);
      NextLeg(legs, |old(disk.log)|, leg);
      NextInSeries(scripts, n, results, between, legs, disk.faults, r, before, disk.now, leg);
      results, between, legs := results + [r], between + [disk.now], legs + [leg];
    }
    assert scripts[..|scripts|] == scripts;
    SeriesKeepsLinks(scripts, results, between, legs, disk.faults);
  }

  const BEFORE := Directory(map[Database := 0], {}, map[0 := "original"], 1)

  /** A failing rename: the database is the original, and no recovery link is left. */
  method RenameFails() returns (disk: Disk, r: SwapResult<Option<Name>>)
    ensures r == Failure(IoFailed) && disk.faults == {4}
    ensures disk.now.Holds(Database, "original") && forall n | IsBackup(n) :: !disk.now.Present(n)
  {
    disk := new Disk(BEFORE, {4}, "");
    var s := Script("20250101T000000Z", 1, true, false, "compacted", true, {}, "", true, true);
    var next;
    ghost var v;
    r, next, v := VacuumInto(disk, s, 0);
  }

  /** A failing verification: the original is back, and its link is gone. */
  method OriginalBack() returns (disk: Disk, r: SwapResult<Option<Name>>)
    ensures r == Failure(IntegrityFailed) && disk.faults == {}
    ensures disk.now.Holds(Database, "original") && !disk.now.Present(Backup("20250101T000000Z"))
  {
    disk := new Disk(BEFORE, {}, "");
    var s := Script("20250101T000000Z", 1, true, false, "compacted", true, {}, "", true, false);
    var next;
    ghost var v;
    r, next, v := VacuumInto(disk, s, 0);
  }

  /** A failing flush: the compacted database stays, and the original is at the recovery link only. */
  method FlushFails() returns (disk: Disk, r: SwapResult<Option<Name>>)
    ensures r == Failure(IoFailed) && disk.faults == {5}
    ensures disk.now.Holds(Database, "compacted") && disk.now.Holds(Backup("20250101T000000Z"), "original")
  {
    disk := new Disk(BEFORE, {5}, "");
    var s := Script("20250101T000000Z", 1, true, false, "compacted", true, {}, "", true, true);
    var next;
    ghost var v;
    r, next, v := VacuumInto(disk, s, 0);
  }

  /**
   * Without hard links and without a backup, a failing verification leaves the compacted database,
   * and the error names a backup that does not exist. No operation has failed.
   */
  method OriginalLost() returns (disk: Disk, r: SwapResult<Option<Name>>)
    ensures r == Failure(RollbackFailed(Database, Backup("20250101T000000Z"))) && disk.faults == {}
    ensures disk.now.Holds(Database, "compacted") && !disk.now.Present(Backup("20250101T000000Z"))
  {
    disk := new Disk(BEFORE, {}, "");
    var s := Script("20250101T000000Z", 1, false, true, "compacted", true, {}, "", true, false);
    var next;
    ghost var v;
    r, next, v := VacuumInto(disk, s, 0);
  }
}
