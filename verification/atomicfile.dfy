/**
 * Replacing a file through a temporary one (writeFileAtomic in evaluator.go):
 * what a power loss between or inside any two of its system calls leaves at
 * the path.
 *
 * The content of a file is durable once it was synced; before that a power
 * loss can leave anything. Names reach the disk in the order they were changed,
 * each at some unknown time before the next effective sync of the directory.
 */
module AtomicFiles {
  import opened Types

  type Contents = string

  /** One file: what it holds, None for a part of what was written. */
  datatype Inode = Inode(data: Option<Contents>, synced: bool)

  /** The two names in use, and the file each stands for. */
  datatype Dir = Dir(path: Option<nat>, tmp: Option<nat>)

  /** What is on the disk: visible names, and every set of names a power loss may go back to. */
  datatype Fs = Fs(inodes: seq<Inode>, dir: Dir, possible: set<Dir>)

  predicate InDisk(fs: Fs, d: Dir) {
    (d.path.Some? ==> d.path.value < |fs.inodes|) && (d.tmp.Some? ==> d.tmp.value < |fs.inodes|)
  }

  /** The files that have been at the path are not the temporary one. */
  predicate Apart(fs: Fs, d: Dir) {
    d.path.Some? ==> d.path != d.tmp && d.path != fs.dir.tmp
  }

  ghost predicate Sound(fs: Fs) {
    fs.dir in fs.possible && forall d :: d in fs.possible ==> InDisk(fs, d) && Apart(fs, d)
  }

  /** What names d say the path holds: no file, or a file with these contents, None when they are not whole. */
  function Holds(fs: Fs, d: Dir): Option<Option<Contents>>
    requires InDisk(fs, d)
  {
    if d.path.None? then None else Some(fs.inodes[d.path.value].data)
  }

  /** Contents c can be at the path after a power loss. */
  ghost predicate MayHold(fs: Fs, c: Option<Option<Contents>>)
    requires Sound(fs)
  {
    exists d :: d in fs.possible && InDisk(fs, d) && CanBe(fs, d, c)
  }

  predicate CanBe(fs: Fs, d: Dir, c: Option<Option<Contents>>)
    requires InDisk(fs, d)
  {
    if d.path.None? || fs.inodes[d.path.value].synced then c == Holds(fs, d) else c.Some?
  }

  /** Whatever a power loss leaves at the path is no file or whole contents, one of those in allowed. */
  ghost predicate Guarded(fs: Fs, allowed: iset<Option<Contents>>) {
    Sound(fs) && forall d :: d in fs.possible ==> AtPath(fs, d, allowed)
  }

  ghost predicate AtPath(fs: Fs, d: Dir, allowed: iset<Option<Contents>>)
    requires InDisk(fs, d)
  {
    if d.path.None? then None in allowed
    else fs.inodes[d.path.value].synced && fs.inodes[d.path.value].data.Some? && fs.inodes[d.path.value].data in allowed
  }

  lemma GuardedMeans(fs: Fs, allowed: iset<Option<Contents>>, c: Option<Option<Contents>>)
    requires Guarded(fs, allowed) && MayHold(fs, c)
    ensures c == None || c.value.Some?
    ensures (if c.None? then None else c.value) in allowed
  {
    var d :| d in fs.possible && InDisk(fs, d) && CanBe(fs, d, c);
    assert AtPath(fs, d, allowed);
  }

  /** fs after a power loss: some possible names, durable files as they were. */
  ghost predicate After(fs: Fs, fs': Fs) {
    && fs'.dir in fs.possible && fs'.possible == {fs'.dir} && |fs'.inodes| == |fs.inodes|
    && forall i :: 0 <= i < |fs.inodes| && fs.inodes[i].synced ==> fs'.inodes[i] == fs.inodes[i]
  }

  /** So a program that starts again finds what it would have been allowed to find. */
  lemma GuardedAfter(fs: Fs, allowed: iset<Option<Contents>>, fs': Fs)
    requires Guarded(fs, allowed) && After(fs, fs')
    ensures Guarded(fs', allowed)
  {
    assert AtPath(fs, fs'.dir, allowed);
  }

  class FileSystem {
    var state: Fs
    ghost var seen: seq<Fs>   // every state there was, the current one last
    var calls: nat            // system calls so far that can fail
    const works: nat -> bool  // which of them succeed: the system's choice

    ghost predicate Valid()
      reads this
    {
      |seen| > 0 && seen[|seen| - 1] == state
    }

    constructor (fs: Fs, works: nat -> bool)
      ensures Valid() && state == fs && seen == [fs] && this.works == works
    {
      state, seen, calls, this.works := fs, [fs], 0, works;
    }

    /** Every call since the given number of them succeeded. */
    ghost predicate AllWorked(since: nat)
      reads `calls
    {
      since <= calls && forall k: nat :: since <= k < calls ==> works(k)
    }

    /** One more call that can fail. */
    method Try() returns (ok: bool)
      modifies `calls
      ensures calls == old(calls) + 1
      ensures forall since: nat :: since <= old(calls) ==> (AllWorked(since) <==> old(AllWorked(since)) && ok)
    {
      ok := works(calls);
      calls := calls + 1;
    }

    method Become(fs: Fs)
      requires Valid()
      modifies `state, `seen
      ensures Valid() && state == fs && seen == old(seen) + [fs]
    {
      state, seen := fs, seen + [fs];
    }

    /** Opens the temporary file, emptied if there is one. */
    method OpenTmp() returns (ok: bool)
      requires Valid() && Sound(state)
      modifies this
      ensures Valid() && seen == old(seen) + [state]
      ensures !ok ==> state == old(state)
      ensures ok ==> state.dir.tmp.Some?
      ensures forall allowed :: Guarded(old(state), allowed) ==> Guarded(state, allowed)
      ensures Sound(state) ==> Holds(state, state.dir) == Holds(old(state), old(state).dir)
      ensures Tried(ok)
    {
      ok := Try();
      var fs := state;
      if ok {
        if state.dir.tmp.Some? {
          fs := state.(inodes := state.inodes[state.dir.tmp.value := Inode(None, false)]);
        } else {
          var dir := state.dir.(tmp := Some(|state.inodes|));
          fs := Fs(state.inodes + [Inode(None, false)], dir, state.possible + {dir});
        }
      }
      Become(fs);
    }

    /** Gives the temporary file contents b; a failed write leaves any part of them. */
    method WriteTmp(b: Contents) returns (ok: bool)
      requires Valid() && Sound(state) && state.dir.tmp.Some?
      modifies this
      ensures Valid() && seen == old(seen) + [state]
      ensures state.dir == old(state).dir && state.possible == old(state).possible && |state.inodes| == |old(state).inodes|
      ensures state.inodes == old(state).inodes[state.dir.tmp.value := Inode(if ok then Some(b) else None, false)]
      ensures Tried(ok)
    {
      ok := Try();
      Become(state.(inodes := state.inodes[state.dir.tmp.value := Inode(if ok then Some(b) else None, false)]));
    }

    method SyncTmp() returns (ok: bool)
      requires Valid() && Sound(state) && state.dir.tmp.Some?
      modifies this
      ensures Valid() && seen == old(seen) + [state]
      ensures !ok ==> state == old(state)
      ensures ok ==> state == old(state).(inodes := old(state).inodes[old(state).dir.tmp.value :=
                                                     old(state).inodes[old(state).dir.tmp.value].(synced := true)])
      ensures Tried(ok)
    {
      ok := Try();
      var i := state.dir.tmp.value;
      Become(if ok then state.(inodes := state.inodes[i := state.inodes[i].(synced := true)]) else state);
    }

    /** Moves the temporary file over the path, whole or not at all. */
    method Rename() returns (ok: bool)
      requires Valid() && Sound(state) && state.dir.tmp.Some?
      modifies this
      ensures Valid() && seen == old(seen) + [state]
      ensures !ok ==> state == old(state)
      ensures ok ==> state == old(state).(dir := Dir(old(state).dir.tmp, None), possible := old(state).possible + {Dir(old(state).dir.tmp, None)})
      ensures Tried(ok)
    {
      ok := Try();
      var dir := Dir(state.dir.tmp, None);
      Become(if ok then state.(dir := dir, possible := state.possible + {dir}) else state);
    }

    /** One more call was made, with this outcome. */
    twostate predicate Tried(ok: bool)
      reads `calls
    {
      && calls == old(calls) + 1
      && forall since: nat :: since <= old(calls) ==> (AllWorked(since) <==> old(AllWorked(since)) && ok)
    }

    /** Removes the temporary file, if that works. */
    method RemoveTmp()
      requires Valid()
      modifies `state, `seen
      ensures Valid() && seen == old(seen) + [state]
      ensures forall allowed :: Guarded(old(state), allowed) ==> Guarded(state, allowed)
      ensures state.dir.path == old(state).dir.path && state.inodes == old(state).inodes
    {
      var ok: bool := *;
      var dir := state.dir.(tmp := None);
      Become(if ok then state.(dir := dir, possible := state.possible + {dir}) else state);
    }

    /** Makes the names durable; it may do nothing, and reports no error either way. */
    method SyncDir() returns (ghost effective: bool)
      requires Valid() && Sound(state)
      modifies `state, `seen
      ensures Valid() && seen == old(seen) + [state]
      ensures state == if effective then old(state).(possible := {old(state).dir}) else old(state)
    {
      var works: bool := *;
      effective := works;
      Become(if works then state.(possible := {state.dir}) else state);
    }

    /** No call was made since. */
    lemma NoneTried()
      ensures AllWorked(calls)
    {
    }

    /** Writes b into the temporary file just opened, syncs and closes it. */
    method FillTmp(b: Contents, ghost allowed: iset<Option<Contents>>) returns (ok: bool)
      requires Valid() && Guarded(state, allowed) && state.dir.tmp.Some?
      modifies this
      ensures Valid() && old(seen) <= seen && Guarded(state, allowed)
      ensures forall k :: |old(seen)| <= k < |seen| ==> Guarded(seen[k], allowed)
      ensures state.dir == old(state).dir && Holds(state, state.dir) == Holds(old(state), old(state).dir)
      ensures ok ==> state.dir.tmp.value < |state.inodes| && state.inodes[state.dir.tmp.value] == Inode(Some(b), true)
      ensures old(calls) < calls
      ensures forall since: nat :: since <= old(calls) ==> (AllWorked(since) <==> old(AllWorked(since)) && ok)
    {
      hide AllWorked;
      var made := state;
      ok := WriteTmp(b);
      TmpChanged(made, state, allowed);
      if ok {
        var unsynced := state;
        ok := SyncTmp();
        TmpChanged(unsynced, state, allowed);
      }
      var closed := Try();    // closing the file writes nothing
      ok := ok && closed;
    }

    /**
     * Replaces the contents at the path by b. From the first system call to the
     * last, a power loss leaves at the path what it could leave before the call,
     * or the whole of b; after an error the path is what it was; on success it is
     * b, for good once the names are durable. It fails exactly when one of its
     * system calls does.
     */
    method WriteFileAtomic(b: Contents, ghost allowed: iset<Option<Contents>>) returns (ok: bool, ghost durable: bool)
      requires Valid() && Guarded(state, allowed)
      modifies this
      ensures Valid() && Sound(state) && old(seen) <= seen
      ensures forall k :: |old(seen)| <= k < |seen| ==> Guarded(seen[k], allowed + iset{Some(b)})
      ensures !ok ==> Guarded(state, allowed) && Holds(state, state.dir) == Holds(old(state), old(state).dir)
      ensures ok ==> Holds(state, state.dir) == Some(Some(b))
      ensures ok && durable ==> Guarded(state, iset{Some(b)})
      ensures ok <==> AllWorked(old(calls))
    {
      hide AllWorked;
      durable := false;
      ghost var wider := allowed + iset{Some(b)};
      NoneTried();
      ok := OpenTmp();
      WidenAll(seen, |old(seen)|, allowed, wider);
      if !ok { return; }
      ok := FillTmp(b, allowed);
      WidenAll(seen, |old(seen)|, allowed, wider);
      if ok {
        var settled := state;
        ok := Rename();
        if ok {
          Renamed(settled, state, allowed, b);
        } else {
          Widen(state, allowed, wider);
        }
      }
      if !ok {
        RemoveTmp();
        Widen(state, allowed, wider);
        return;
      }
      ghost var named := state;
      durable := SyncDir();
      NamesSynced(named, state, wider, b);
    }

    static lemma WidenAll(seen: seq<Fs>, from: nat, allowed: iset<Option<Contents>>, wider: iset<Option<Contents>>)
      requires allowed <= wider
      ensures forall k :: from <= k < |seen| && Guarded(seen[k], allowed) ==> Guarded(seen[k], wider)
    {
      forall k | from <= k < |seen| && Guarded(seen[k], allowed) ensures Guarded(seen[k], wider) {
        Widen(seen[k], allowed, wider);
      }
    }

    static lemma NamesSynced(fs: Fs, fs': Fs, allowed: iset<Option<Contents>>, b: Contents)
      requires Guarded(fs, allowed) && Holds(fs, fs.dir) == Some(Some(b))
      requires fs' == fs || fs' == fs.(possible := {fs.dir})
      ensures Guarded(fs', allowed) && Holds(fs', fs'.dir) == Some(Some(b))
      ensures fs'.possible == {fs.dir} ==> Guarded(fs', iset{Some(b)})
    {
      assert AtPath(fs, fs.dir, allowed);
    }

    static lemma Widen(fs: Fs, allowed: iset<Option<Contents>>, wider: iset<Option<Contents>>)
      requires Guarded(fs, allowed) && allowed <= wider
      ensures Guarded(fs, wider)
    {
      forall d | d in fs.possible ensures AtPath(fs, d, wider) {
        assert AtPath(fs, d, allowed);
      }
    }

    /** Changing the temporary file changes nothing a power loss can leave at the path. */
    static lemma TmpChanged(fs: Fs, fs': Fs, allowed: iset<Option<Contents>>)
      requires Guarded(fs, allowed) && fs.dir.tmp.Some?
      requires fs'.dir == fs.dir && fs'.possible == fs.possible && |fs'.inodes| == |fs.inodes|
      requires forall i :: 0 <= i < |fs.inodes| && i != fs.dir.tmp.value ==> fs'.inodes[i] == fs.inodes[i]
      ensures Guarded(fs', allowed) && Holds(fs', fs'.dir) == Holds(fs, fs.dir)
    {
      forall d | d in fs'.possible ensures InDisk(fs', d) && Apart(fs', d) && AtPath(fs', d, allowed) {
        assert InDisk(fs, d) && Apart(fs, d) && AtPath(fs, d, allowed);
      }
    }

    static lemma Renamed(fs: Fs, fs': Fs, allowed: iset<Option<Contents>>, b: Contents)
      requires Guarded(fs, allowed) && fs.dir.tmp.Some? && fs.inodes[fs.dir.tmp.value] == Inode(Some(b), true)
      requires fs' == fs.(dir := Dir(fs.dir.tmp, None), possible := fs.possible + {Dir(fs.dir.tmp, None)})
      ensures Guarded(fs', allowed + iset{Some(b)}) && Holds(fs', fs'.dir) == Some(Some(b))
    {
      forall d | d in fs'.possible ensures InDisk(fs', d) && Apart(fs', d) && AtPath(fs', d, allowed + iset{Some(b)}) {
        if d in fs.possible {
          assert InDisk(fs, d) && Apart(fs, d) && AtPath(fs, d, allowed);
        }
      }
    }
  }
}
