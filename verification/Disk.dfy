/** One directory: names of files, and file operations any of which may fail. */
module Disk {
  datatype Name =
    | Database
    | Sidecar(of: Name, wal: bool)                  // "-wal" and "-shm" files
    | Temporary(stamp: string)                      // ".oc-clean-tmp-"
    | Backup(stamp: string)                         // ".bak."
    | NumberedBackup(stamp: string, pid: nat, sequence: nat)
    | Unrelated(text: string)

  type Inode = nat

  /** Names of files, symbolic links, and what the files hold. */
  datatype Directory = Directory(names: map<Name, Inode>, symlinks: set<Name>, contents: map<Inode, string>, next: Inode) {
    ghost predicate Valid() {
      && (forall n <- names :: names[n] in contents)
      && (forall i <- contents :: i < next)
      && names.Keys !! symlinks
    }

    predicate Present(n: Name) {
      n in names || n in symlinks
    }

    ghost predicate Holds(n: Name, bytes: string) {
      n in names && names[n] in contents && contents[names[n]] == bytes
    }

    function Unlink(n: Name): Directory {
      this.(names := names - {n}, symlinks := symlinks - {n})
    }

    function Link(n: Name, i: Inode): Directory {
      this.(names := names[n := i])
    }

    function Create(n: Name, bytes: string): Directory {
      Directory(names[n := next], symlinks, contents[next := bytes], next + 1)
    }

    function Write(n: Name, bytes: string): Directory
      requires n in names
    {
      this.(contents := contents[names[n] := bytes])
    }

    function RenameOver(from: Name, to: Name): Directory
      requires from in names
    {
      this.(names := (names - {from})[to := names[from]])
    }
  }

  /** Nothing differs but what the given names refer to; no existing file was written. */
  ghost predicate SameOutside(a: Directory, b: Directory, touched: set<Name>) {
    && (forall n | n !in touched :: (n in b.names <==> n in a.names) && (n in b.symlinks <==> n in a.symlinks))
    && (forall n <- a.names | n !in touched && n in b.names :: b.names[n] == a.names[n])
    && (forall i <- a.contents :: i in b.contents && b.contents[i] == a.contents[i])
  }

  lemma CreationIsLocal(d: Directory, n: Name, bytes: string)
    requires d.Valid() && !d.Present(n)
    ensures d.Create(n, bytes).Valid() && SameOutside(d, d.Create(n, bytes), {n})
    ensures d.Create(n, bytes).Unlink(n).Valid() && SameOutside(d, d.Create(n, bytes).Unlink(n), {n})
    ensures d.Create(n, bytes).Holds(n, bytes) && SameOutside(d, d, {n})
  {
  }

  datatype Io = Done | NotFound | Exists | Failed

  class Disk {
    var now: Directory
    var operations: nat             // file operations attempted so far
    const faults: set<nat>          // the attempts that fail
    const partial: string           // what an interrupted copy leaves in its destination
    ghost var log: seq<Directory>   // the directory after every operation

    constructor (now: Directory, faults: set<nat>, partial: string)
      ensures this.now == now && operations == 0 && this.faults == faults && this.partial == partial && log == []
    {
      this.now, operations, this.faults, this.partial, log := now, 0, faults, partial, [];
    }

    predicate Faulty()
      reads this`operations
    {
      operations in faults
    }

    /** None of the next `n` operations fails. */
    ghost predicate Spared(n: nat)
      reads this`operations
    {
      forall k | operations <= k < operations + n :: k !in faults
    }

    lemma SparedNext(n: nat)
      ensures Spared(n + 1) <==> Spared(n) && operations + n !in faults
    {
    }

    lemma SparedFirst(n: nat)
      ensures Spared(n + 1) <==> operations !in faults && forall k | operations + 1 <= k < operations + 1 + n :: k !in faults
    {
    }

    /** Moves on to the next directory. */
    method Become(next: Directory)
      modifies this
      ensures now == next && log == old(log) + [next] && operations == old(operations) + 1
    {
      now, log, operations := next, log + [next], operations + 1;
    }

    method Remove(n: Name) returns (r: Io)
      modifies this
      ensures operations == old(operations) + 1 && log == old(log) + [now]
      ensures r == if old(Faulty()) then Failed else if old(now).Present(n) then Done else NotFound
      ensures now == if r == Done then old(now).Unlink(n) else old(now)
    {
      r := if Faulty() then Failed else if now.Present(n) then Done else NotFound;
      Become(if r == Done then now.Unlink(n) else now);
    }

    /** Links the file `i` under a new name; an existing name is never replaced. */
    method HardLink(i: Inode, n: Name) returns (r: Io)
      modifies this
      ensures operations == old(operations) + 1 && log == old(log) + [now]
      ensures r == if old(Faulty()) then Failed else if old(now).Present(n) then Exists else Done
      ensures now == if r == Done then old(now).Link(n, i) else old(now)
    {
      r := if Faulty() then Failed else if now.Present(n) then Exists else Done;
      Become(if r == Done then now.Link(n, i) else now);
    }

    /** Copies the file `i` to a new name. An interrupted copy is removed again, if that works. */
    method CopyExclusive(i: Inode, n: Name) returns (r: Io)
      requires now.Valid() && i in now.contents
      modifies this
      ensures operations > old(operations) && old(log) < log && now.Valid()
      ensures old(now).Present(n) ==> r == Exists && now == old(now) && log == old(log) + [now]
      ensures !old(now).Present(n) ==> r == if old(Faulty()) then Failed else Done
      ensures r == Done ==> now == old(now).Create(n, old(now).contents[i]) && operations == old(operations) + 1
      ensures r == Failed ==> now == if old(operations) + 1 in faults then old(now).Create(n, partial) else old(now).Create(n, partial).Unlink(n)
      ensures !old(now).Present(n) ==> SameOutside(old(now), now, {n})
      ensures !old(now).Present(n) ==> forall k | |old(log)| <= k < |log| :: SameOutside(old(now), log[k], {n})
    {
      if now.Present(n) {
        Become(now);
        return Exists;
      }
      CreationIsLocal(now, n, partial);
      CreationIsLocal(now, n, now.contents[i]);
      if Faulty() {
        Become(now.Create(n, partial));
        var removed := Remove(n);
        return Failed;
      }
      Become(now.Create(n, now.contents[i]));
      r := Done;
    }

    /** Copies over an existing file, in place. An interrupted copy leaves the destination spoilt. */
    method Copy(from: Name, to: Name) returns (r: Io)
      requires now.Valid()
      modifies this
      ensures operations == old(operations) + 1 && log == old(log) + [now]
      ensures from in old(now).names && to in old(now).names ==> r == if old(Faulty()) then Failed else Done
      ensures from !in old(now).names || to !in old(now).names ==> r == NotFound && now == old(now)
      ensures r == Done ==> now == old(now).Write(to, old(now).contents[old(now).names[from]])
      ensures r == Failed ==> now == old(now).Write(to, partial)
    {
      if from !in now.names || to !in now.names {
        Become(now);
        return NotFound;
      }
      r := if Faulty() then Failed else Done;
      Become(now.Write(to, if r == Done then now.contents[now.names[from]] else partial));
    }

    method RenameOver(from: Name, to: Name) returns (r: Io)
      modifies this
      ensures operations == old(operations) + 1 && log == old(log) + [now]
      ensures r == if old(Faulty()) then Failed else if from in old(now).names then Done else NotFound
      ensures now == if r == Done then old(now).RenameOver(from, to) else old(now)
    {
      r := if Faulty() then Failed else if from in now.names then Done else NotFound;
      Become(if r == Done then now.RenameOver(from, to) else now);
    }

    /** Flushes a file and its directory; changes nothing. */
    method Sync(n: Name) returns (r: Io)
      modifies this
      ensures operations == old(operations) + 1 && log == old(log) + [now] && now == old(now)
      ensures r == if old(Faulty()) then Failed else if n in old(now).names then Done else NotFound
    {
      r := if Faulty() then Failed else if n in now.names then Done else NotFound;
      Become(now);
    }

    /** Another process puts its own file under a name. */
    method Intrude(n: Name, bytes: string)
      requires now.Valid() && n !in now.symlinks
      modifies this`now, this`log
      ensures now == old(now).Create(n, bytes) && log == old(log) + [now] && now.Valid()
    {
      now := now.Create(n, bytes);
      log := log + [now];
    }

    /** Writes the output of `VACUUM INTO`; a failing one leaves part of it. */
    method Build(n: Name, bytes: string, works: bool) returns (ok: bool)
      requires now.Valid() && !now.Present(n)
      modifies this
      ensures operations == old(operations) + 1 && log == old(log) + [now] && now.Valid()
      ensures ok <==> works && !old(Faulty())
      ensures now == old(now).Create(n, if ok then bytes else partial)
    {
      ok := works && !Faulty();
      Become(now.Create(n, if ok then bytes else partial));
    }
  }
}
