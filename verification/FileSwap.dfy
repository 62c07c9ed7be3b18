/** Swapping downloaded files in for old ones, with an undo log. */
module FileSwaps {
  import opened ByteSeq

  type Path = string

  type Files = map<Path, bytes>

  /** What an operation on the file system says: it is done, the file is not there, or something else is wrong. */
  datatype Said = Done | NotExist | Fault

  datatype Stage = Stage(target: Path, temp: Path)

  datatype Swap = Swap(target: Path, backup: Path, hadOriginal: bool)

  /** The file `from` under the name `to`, in place of what was there. */
  function Moved(files: Files, from: Path, to: Path): Files
    requires from in files
  {
    (files - {from})[to := files[from]]
  }

  /** A file system whose operation number `k` fails, and changes nothing, if `faulty(k)`. */
  class Disk {
    const faulty: nat -> bool
    var files: Files
    var ops: nat

    constructor (files: Files, faulty: nat -> bool)
      ensures this.files == files && this.faulty == faulty && ops == 0
    {
      this.files, this.faulty, ops := files, faulty, 0;
    }

    ghost predicate Faults(from: nat, to: nat) {
      exists k :: from <= k < to && faulty(k)
    }

    lemma FaultsJoin(from: nat, k: nat)
      requires from <= k <= ops
      ensures Faults(from, ops) <==> Faults(from, k) || Faults(k, ops)
    {
    }

    method Rename(from: Path, to: Path) returns (said: Said)
      modifies this
      ensures ops == old(ops) + 1
      ensures said == if faulty(old(ops)) then Fault else if from in old(files) then Done else NotExist
      ensures files == if said == Done then Moved(old(files), from, to) else old(files)
    {
      var k := ops;
      ops := ops + 1;
      if faulty(k) {
        return Fault;
      }
      if from !in files {
        return NotExist;
      }
      files := (files - {from})[to := files[from]];
      return Done;
    }

    method Remove(name: Path) returns (said: Said)
      modifies this
      ensures ops == old(ops) + 1
      ensures said == if faulty(old(ops)) then Fault else if name in old(files) then Done else NotExist
      ensures files == if said == Done then old(files) - {name} else old(files)
    {
      var k := ops;
      ops := ops + 1;
      if faulty(k) {
        return Fault;
      }
      if name !in files {
        return NotExist;
      }
      files := files - {name};
      return Done;
    }

    /** Creates an empty file under some name that is not in use and not reserved. */
    method CreateTemp(reserved: set<Path>) returns (name: Option<Path>)
      modifies this
      ensures ops == old(ops) + 1 && (name.Some? <==> !faulty(old(ops)))
      ensures name.Some? ==>
                name.value !in old(files) && name.value !in reserved && files == old(files)[name.value := []]
      ensures name.None? ==> files == old(files)
    {
      var k := ops;
      ops := ops + 1;
      if faulty(k) {
        return None;
      }
      ghost var free := FreeName(files.Keys + reserved);
      var chosen: Path :| chosen !in files.Keys + reserved;
      files := files[chosen := []];
      return Some(chosen);
    }

    /** Closing a file that has just been created. */
    method Close() returns (ok: bool)
      modifies this`ops
      ensures ops == old(ops) + 1 && ok == !faulty(old(ops))
    {
      ops := ops + 1;
      return !faulty(ops - 1);
    }

    /**
     * A name for a backup. On a failure, first in operation `u - 1`, the file that was created for the name is left
     * behind exactly if it cannot be removed; it is then the only thing in `stray`.
     */
    method BackupFile(reserved: set<Path>) returns (name: Option<Path>, ghost u: nat, ghost stray: set<Path>)
      modifies this
      ensures old(ops) < u <= ops && !Faults(old(ops), u - 1) && (name.None? <==> Faults(old(ops), u))
      ensures stray != {} <==> !faulty(old(ops)) && faulty(old(ops) + 2)
      ensures name.None? ==> faulty(u - 1) && ops == UndoFrom(old(ops), u) <= old(ops) + 3
      ensures name.Some? ==>
                && u == ops == old(ops) + 3 && stray == {} && files == old(files)
                && name.value !in old(files) && name.value !in reserved
      ensures name.None? ==> Littered(old(files), files, stray, reserved)
    {
      stray := {};
      var file := CreateTemp(reserved);
      u := ops;
      if file.None? {
        return None, u, {};
      }
      var ok := Close();
      u := ops;
      if !ok {
        var said := Remove(file.value);
        stray := if said == Done then {} else {file.value};
        assert files - stray == old(files);
        return None, u, stray;
      }
      var said := Remove(file.value);
      u := ops;
      if said != Done {
        stray := {file.value};
        assert files - stray == old(files);
        return None, u, stray;
      }
      assert files == old(files);
      return file, u, {};
    }
  }

  /**
   * Where undoing begins if a stage that begins with operation `at` fails in `u - 1`. The removal behind a close that
   * fails is not counted; if it fails as well there is a stray file.
   */
  function UndoFrom(at: nat, u: nat): nat {
    if u == at + 2 then u + 1 else u
  }

  /** Nothing has changed but for some new empty files. */
  ghost predicate Littered(before: Files, after: Files, stray: set<Path>, reserved: set<Path>) {
    && IsLitter(before, stray, reserved) && after - stray == before
    && forall p :: p in stray ==> p in after && after[p] == []
  }

  /** At most one name that has not been in use. */
  ghost predicate IsLitter(before: Files, stray: set<Path>, reserved: set<Path>) {
    |stray| <= 1 && stray !! before.Keys && stray !! reserved
  }

  lemma FreeName(used: set<Path>) returns (p: Path)
    ensures p !in used
  {
    var n := Longest(used);
    p := seq(n + 1, _ => 'x');
  }

  lemma Longest(used: set<Path>) returns (n: nat)
    ensures forall p :: p in used ==> |p| <= n
    decreases |used|
  {
    if used == {} {
      return 0;
    }
    var p :| p in used;
    var m := Longest(used - {p});
    n := if m < |p| then |p| else m;
    assert forall q :: q in used ==> q == p || q in used - {p};
  }

  // ---------------------------------------------------------------------------------------------
  // One swap and its undoing

  /** The files after a stage has been swapped in. */
  function Swapped(files: Files, st: Stage, s: Swap): Files
    requires st.temp in files && st.temp != st.target && st.temp != s.backup && (s.hadOriginal ==> st.target in files)
  {
    Moved(if s.hadOriginal then Moved(files, st.target, s.backup) else files, st.temp, st.target)
  }

  ghost predicate IsSwap(before: Files, st: Stage, s: Swap, after: Files, reserved: set<Path>) {
    && st.temp in before && st.temp != st.target && s.target == st.target
    && s.backup !in before && s.backup !in reserved && st.target in reserved && st.temp in reserved
    && (s.hadOriginal <==> st.target in before)
    && after == Swapped(before, st, s)
  }

  function Undone(files: Files, s: Swap): Files
    requires s.hadOriginal ==> s.backup in files && s.backup != s.target
  {
    if s.hadOriginal then Moved(files - {s.target}, s.backup, s.target) else files - {s.target} - {s.backup}
  }

  /** Undoing brings back the files from before, except for those in `aside`, which do not matter. */
  lemma UndoSwap(before: Files, st: Stage, s: Swap, after: Files, reserved: set<Path>, now: Files, aside: set<Path>)
    requires IsSwap(before, st, s, after, reserved) && now - aside == after - aside
    requires st.temp in aside && st.target !in aside && (s.hadOriginal ==> s.backup !in aside)
    ensures s.hadOriginal ==> s.backup in now && s.backup != s.target
    ensures Undone(now, s) - aside == before - aside
  {
    assert s.hadOriginal ==> s.backup in after && after[s.backup] == before[st.target];
    assert s.hadOriginal ==> s.backup in now - aside && (now - aside)[s.backup] == before[st.target];
    var u := Undone(now, s);
    forall p
      ensures p in u - aside <==> p in before - aside
      ensures p in before - aside ==> (u - aside)[p] == before[p]
    {
      assert p in now - aside <==> p in after - aside;
    }
  }

  /**
   * One stage; if moving the new file in fails, the old one is moved back. The first failure is operation `u - 1`, and
   * what comes from `u` on only undoes.
   */
  method SwapOne(disk: Disk, st: Stage, reserved: set<Path>)
    returns (r: Option<Swap>, ghost u: nat, ghost stray: set<Path>)
    requires st.temp != st.target && st.target in reserved && st.temp in reserved
    modifies disk
    ensures old(disk.ops) < disk.ops
    ensures r.Some? <==> !disk.Faults(old(disk.ops), disk.ops) && st.temp in old(disk.files)
    ensures r.Some? ==> IsSwap(old(disk.files), st, r.value, disk.files, reserved)
    ensures r.None? ==> old(disk.ops) < u <= disk.ops && !disk.Faults(old(disk.ops), u - 1)
    ensures r.None? ==> u <= old(disk.ops) + 6 && UndoFrom(old(disk.ops), u) <= disk.ops
    ensures r.None? ==> disk.faulty(u - 1) || st.temp !in old(disk.files)
    ensures r.Some? ==> disk.ops == old(disk.ops) + OpsOf(r.value.hadOriginal)
    ensures IsLitter(old(disk.files), stray, reserved)
    ensures stray != {} <==> !disk.faulty(old(disk.ops)) && disk.faulty(old(disk.ops) + 2)
    ensures stray != {} ==> Littered(old(disk.files), disk.files, stray, reserved)
    ensures r.None? && !disk.Faults(UndoFrom(old(disk.ops), u), disk.ops) ==>
              Littered(old(disk.files), disk.files, stray, reserved)
  {
    hide Littered, IsLitter;
    ghost var before := disk.files;
    NoLitter(before, reserved);
    var backup;
    backup, u, stray := disk.BackupFile(reserved);
    if backup.None? {
      LitterOf(before, disk.files, stray, reserved);
      return None, u, stray;
    }
    var s := Swap(st.target, backup.value, false);
    var said := disk.Rename(st.target, s.backup);
    u := disk.ops;
    if said == Done {
      s := s.(hadOriginal := true);
    } else if said == NotExist {
      said := disk.Remove(s.backup);
      u := disk.ops;
      if said == Fault {
        return None, u, {};
      }
    } else {
      return None, u, {};
    }
    said := disk.Rename(st.temp, st.target);
    u := disk.ops;
    if said != Done {
      if s.hadOriginal {
        said := disk.Rename(s.backup, st.target);
        assert said == Done ==> disk.files == before;
      }
      return None, u, {};
    }
    return Some(s), u, {};
  }

  /** What a stage takes: a name for the backup in three operations, and the moves. */
  function OpsOf(hadOriginal: bool): nat {
    if hadOriginal then 5 else 6
  }

  lemma NoLitter(files: Files, reserved: set<Path>)
    ensures Littered(files, files, {}, reserved) && IsLitter(files, {}, reserved)
  {
  }

  lemma LitterOf(before: Files, after: Files, stray: set<Path>, reserved: set<Path>)
    requires Littered(before, after, stray, reserved)
    ensures IsLitter(before, stray, reserved)
  {
  }

  // ---------------------------------------------------------------------------------------------
  // A transaction

  function Temps(stages: seq<Stage>): set<Path> {
    set st | st in stages :: st.temp
  }

  function Targets(stages: seq<Stage>): set<Path> {
    set st | st in stages :: st.target
  }

  /** The files between the swaps of a transaction. */
  ghost predicate Chain(states: seq<Files>, stages: seq<Stage>, swaps: seq<Swap>, reserved: set<Path>) {
    && |states| == |swaps| + 1 && |swaps| <= |stages|
    && forall i :: 0 <= i < |swaps| ==> IsSwap(states[i], stages[i], swaps[i], states[i + 1], reserved)
  }

  class Tx {
    var swaps: seq<Swap>

    constructor ()
      ensures swaps == []
    {
      swaps := [];
    }

    /** Undoes the swaps, the last one first, and goes on after errors. */
    method Rollback(disk: Disk, ghost states: seq<Files>, ghost stages: seq<Stage>, ghost reserved: set<Path>,
                    ghost aside: set<Path>)
      returns (ok: bool)
      requires Chain(states, stages, swaps, reserved) && Aside(aside, stages, swaps)
      modifies disk
      ensures old(disk.ops) <= disk.ops
      ensures old(disk.files) - aside == states[|swaps|] - aside ==>
                (ok <==> !disk.Faults(old(disk.ops), disk.ops)) && (ok ==> disk.files - aside == states[0] - aside)
      ensures disk.files - Named(swaps) == old(disk.files) - Named(swaps)
    {
      hide IsSwap, Swapped, Undone;
      ghost var sound := disk.files - aside == states[|swaps|] - aside;
      ok := true;
      var i := |swaps|;
      while i > 0
        invariant 0 <= i <= |swaps| && old(disk.ops) <= disk.ops
        invariant disk.files - Named(swaps) == old(disk.files) - Named(swaps)
        invariant sound ==>
                    && (ok <==> !disk.Faults(old(disk.ops), disk.ops))
                    && (ok ==> disk.files - aside == states[i] - aside)
      {
        i := i - 1;
        ghost var now, k := disk.files, disk.ops;
        if sound && ok {
          UndoSwap(states[i], stages[i], swaps[i], states[i + 1], reserved, now, aside);
        }
        var done := Undo(disk, swaps[i]);
        StillSame(now, disk.files, {swaps[i].target, swaps[i].backup}, Named(swaps));
        disk.FaultsJoin(old(disk.ops), k);
        ok := ok && done;
      }
    }

    /** Removes the backups, and goes on after errors. */
    method Commit(disk: Disk) returns (ok: bool)
      modifies disk
      ensures old(disk.ops) <= disk.ops && (ok <==> !disk.Faults(old(disk.ops), disk.ops))
      ensures ok ==> disk.files == old(disk.files) - Backups(swaps)
    {
      ok := true;
      var i := 0;
      while i < |swaps|
        invariant 0 <= i <= |swaps| && old(disk.ops) <= disk.ops
        invariant ok <==> !disk.Faults(old(disk.ops), disk.ops)
        invariant ok ==> disk.files == old(disk.files) - Backups(swaps[..i])
      {
        BackupsSnoc(swaps, i);
        ghost var k := disk.ops;
        var said := disk.Remove(swaps[i].backup);
        disk.FaultsJoin(old(disk.ops), k);
        ok := ok && said != Fault;
        i := i + 1;
      }
      assert swaps[..i] == swaps;
    }
  }

  /** The names that undoing works on. */
  function Named(swaps: seq<Swap>): set<Path> {
    (set s | s in swaps :: s.target) + (set s | s in swaps :: s.backup)
  }

  lemma StillSame(before: Files, after: Files, some: set<Path>, all: set<Path>)
    requires after - some == before - some && some <= all
    ensures after - all == before - all
  {
    assert after - all == (after - some) - all;
    assert before - all == (before - some) - all;
  }

  function Backups(swaps: seq<Swap>): set<Path> {
    set s | s in swaps :: s.backup
  }

  lemma BackupsSnoc(swaps: seq<Swap>, i: nat)
    requires i < |swaps|
    ensures Backups(swaps[..i + 1]) == Backups(swaps[..i]) + {swaps[i].backup}
  {
    assert swaps[..i + 1] == swaps[..i] + [swaps[i]];
  }

  /** What does not matter for undoing: the downloads, but no target and no original that has been moved away. */
  ghost predicate Aside(aside: set<Path>, stages: seq<Stage>, swaps: seq<Swap>)
    requires |swaps| <= |stages|
  {
    && (forall i :: 0 <= i < |swaps| ==> stages[i].temp in aside && stages[i].target !in aside)
    && (forall i :: 0 <= i < |swaps| && swaps[i].hadOriginal ==> swaps[i].backup !in aside)
  }

  /** Undoes one swap. */
  method Undo(disk: Disk, s: Swap) returns (ok: bool)
    modifies disk
    ensures old(disk.ops) < disk.ops
    ensures (s.hadOriginal ==> s.backup != s.target && s.backup in old(disk.files)) ==>
              (ok <==> !disk.Faults(old(disk.ops), disk.ops)) && (ok ==> disk.files == Undone(old(disk.files), s))
    ensures disk.files - {s.target, s.backup} == old(disk.files) - {s.target, s.backup}
  {
    ok := true;
    var said := disk.Remove(s.target);
    if said == Fault {
      ok := false;
    }
    if s.hadOriginal {
      said := disk.Rename(s.backup, s.target);
      if said != Done {
        ok := false;
      }
    } else {
      said := disk.Remove(s.backup);
      if said == Fault {
        ok := false;
      }
    }
  }

  /** Files that no stage names stay, and so do originals that have been moved away. */
  lemma SwapKeeps(before: Files, st: Stage, s: Swap, after: Files, reserved: set<Path>)
    requires IsSwap(before, st, s, after, reserved)
    ensures forall p :: p in before && p != st.temp && p != st.target ==> p in after
    ensures st.temp in reserved && st.target in reserved && (s.hadOriginal ==> s.backup in after)
    ensures s.backup !in reserved
  {
  }

  /** Nothing that swaps need is in the way: names that have not been in use, and the downloads. */
  lemma MayBeAside(stages: seq<Stage>, swaps: seq<Swap>, now: Files, stray: set<Path>)
    requires |swaps| <= |stages| && Temps(stages) !! Targets(stages)
             && IsLitter(now, stray, Temps(stages) + Targets(stages))
    requires forall j :: 0 <= j < |swaps| ==> swaps[j].backup !in Temps(stages)
    requires forall j :: 0 <= j < |swaps| && swaps[j].hadOriginal ==> swaps[j].backup in now
    ensures Aside(Temps(stages) + stray, stages, swaps)
  {
    forall i | 0 <= i < |swaps|
      ensures stages[i].temp in Temps(stages) && stages[i].target !in Temps(stages) + stray
    {
      assert stages[i].target in Targets(stages);
    }
  }

  /** Stage `i` finds an original, from before or put there by an earlier stage. */
  predicate HasOriginal(files: Files, stages: seq<Stage>, i: nat)
    requires i < |stages|
  {
    stages[i].target in files || stages[i].target in Targets(stages[..i])
  }

  /** What the first `i` stages take. */
  function OpsBefore(files: Files, stages: seq<Stage>, i: nat): nat
    requires i <= |stages|
  {
    if i == 0 then 0 else OpsBefore(files, stages, i - 1) + OpsOf(HasOriginal(files, stages, i - 1))
  }

  /**
   * Stage `i`, which begins with operation `at`, is the one that fails, first in operation `u - 1`. It leaves a stray
   * file exactly if it can create the file for the name of its backup but not remove it.
   */
  ghost predicate FailsAt(faulty: nat -> bool, stages: seq<Stage>, i: nat, at: nat, u: nat, stray: set<Path>) {
    && i < |stages| && at < u <= at + 6
    && (stray != {} <==> !faulty(at) && faulty(at + 2))
  }

  /**
   * All stages. If all goes well the transaction holds a chain of swaps; otherwise, unless undoing fails, the files are
   * those from before but for the downloads and at most one stray empty file. The stray stays, if no stage before has
   * made up a backup name that it did not need.
   */
  method SwapAll(disk: Disk, stages: seq<Stage>)
    returns (t: Option<Tx>, ghost states: seq<Files>, ghost failed: nat, ghost at: nat, ghost u: nat,
             ghost stray: set<Path>)
    requires Temps(stages) !! Targets(stages)
    modifies disk
    ensures old(disk.ops) <= disk.ops
    ensures t.Some? ==> fresh(t.value) && |t.value.swaps| == |stages|
    ensures t.Some? ==> Chain(states, stages, t.value.swaps, Temps(stages) + Targets(stages))
    ensures t.Some? ==> states[0] == old(disk.files) && disk.files == states[|stages|]
    ensures t.Some? ==> !disk.Faults(old(disk.ops), disk.ops)
    ensures t.Some? ==> disk.ops == old(disk.ops) + OpsBefore(old(disk.files), stages, |stages|)
    ensures AllThere(old(disk.files), stages, 0) && !disk.Faults(old(disk.ops), disk.ops) ==> t.Some?
    ensures t.None? ==> old(disk.ops) < u <= disk.ops && !disk.Faults(old(disk.ops), u - 1)
    ensures t.None? && AllThere(old(disk.files), stages, 0) ==> disk.faulty(u - 1)
    ensures t.None? ==> FailsAt(disk.faulty, stages, failed, at, u, stray)
    ensures t.None? ==> at == old(disk.ops) + OpsBefore(old(disk.files), stages, failed)
    ensures t.None? && !disk.Faults(UndoFrom(at, u), disk.ops) ==>
              Restored(old(disk.files), disk.files, Temps(stages), Targets(stages), stray)
    ensures t.None? && (forall j: nat :: j < failed ==> HasOriginal(old(disk.files), stages, j)) ==>
              AreEmpty(disk.files, stray)
  {
    hide IsSwap, Aside, Littered, IsLitter, Restored, Temps, Targets, AllThere, Named, AreEmpty, UndoFrom, HasOriginal,
        Underway, Chain, OpsOf, FailsAt, OpsBefore;
    var reserved := Temps(stages) + Targets(stages);
    var tx := new Tx();
    states := [disk.files];
    failed, at, u, stray := 0, 0, 0, {};
    var i := 0;
    NoStageYet(disk.files, stages);
    OpsNext(disk.files, stages, 0);
    while i < |stages|
      invariant 0 <= i <= |stages| && |tx.swaps| == i && |states| == i + 1 && fresh(tx)
      invariant states[0] == old(disk.files) && disk.files == states[i]
      invariant Underway(old(disk.files), stages, states, tx.swaps, reserved)
      invariant disk.ops == old(disk.ops) + OpsBefore(old(disk.files), stages, i)
      invariant !disk.Faults(old(disk.ops), disk.ops)
      modifies disk, tx
    {
      ghost var before, k := disk.files, disk.ops;
      StageNames(stages, i);
      CanGoOn(old(disk.files), stages, states, tx.swaps, reserved);
      var s;
      s, u, stray := SwapOne(disk, stages[i], reserved);
      disk.FaultsJoin(old(disk.ops), k);
      if s.None? {
        failed, at := i, k;
        ghost var k', now := disk.ops, disk.files;
        GivingUp(old(disk.files), stages, states, tx.swaps, reserved, now, stray);
        var ok := tx.Rollback(disk, states, stages, reserved, Temps(stages) + stray);
        assert FailsAt(disk.faulty, stages, failed, at, u, stray) by {
          Fails(disk.faulty, stages, i, at, u, stray);
        }
        EarlierFaults(disk, old(disk.ops), k, k', UndoFrom(at, u));
        return None, states, failed, at, u, stray;
      }
      OneMore(old(disk.files), stages, states, tx.swaps, reserved, s.value, disk.files);
      OpsNext(old(disk.files), stages, i);
      tx.swaps := tx.swaps + [s.value];
      states := states + [disk.files];
      i := i + 1;
    }
    CanGoOn(old(disk.files), stages, states, tx.swaps, reserved);
    return Some(tx), states, failed, at, u, stray;
  }

  lemma Fails(faulty: nat -> bool, stages: seq<Stage>, i: nat, at: nat, u: nat, stray: set<Path>)
    requires i < |stages| && at < u <= at + 6 && (stray != {} <==> !faulty(at) && faulty(at + 2))
    ensures FailsAt(faulty, stages, i, at, u, stray)
  {
  }

  lemma OpsNext(files: Files, stages: seq<Stage>, i: nat)
    requires i <= |stages|
    ensures OpsBefore(files, stages, 0) == 0
    ensures i < |stages| ==>
              OpsBefore(files, stages, i + 1) == OpsBefore(files, stages, i) + OpsOf(HasOriginal(files, stages, i))
  {
  }

  /** What holds between the stages of a transaction. */
  ghost predicate Underway(first: Files, stages: seq<Stage>, states: seq<Files>, swaps: seq<Swap>,
                           reserved: set<Path>) {
    && Chain(states, stages, swaps, reserved) && states[0] == first
    && var i, files := |swaps|, states[|swaps|];
    && TargetsThere(first, files, stages, i)
    && (forall j :: 0 <= j < i ==> (swaps[j].hadOriginal <==> HasOriginal(first, stages, j)))
    && (forall j :: 0 <= j < i ==> swaps[j].backup !in reserved && (swaps[j].hadOriginal ==> swaps[j].backup in files))
    && (forall p :: p in first && p !in reserved ==> p in files)
    && (AllThere(first, stages, 0) ==> AllThere(files, stages, i))
  }

  lemma NoStageYet(files: Files, stages: seq<Stage>)
    ensures Underway(files, stages, [files], [], Temps(stages) + Targets(stages))
  {
  }

  lemma CanGoOn(first: Files, stages: seq<Stage>, states: seq<Files>, swaps: seq<Swap>, reserved: set<Path>)
    requires Underway(first, stages, states, swaps, reserved)
    ensures Chain(states, stages, swaps, reserved)
    ensures |swaps| < |stages| && AllThere(first, stages, 0) ==> stages[|swaps|].temp in states[|swaps|]
  {
    if |swaps| < |stages| {
      HasNext(states[|swaps|], stages, |swaps|);
    }
  }

  lemma OneMore(first: Files, stages: seq<Stage>, states: seq<Files>, swaps: seq<Swap>, reserved: set<Path>, s: Swap,
                after: Files)
    requires Underway(first, stages, states, swaps, reserved) && |swaps| < |stages|
    requires Temps(stages) !! Targets(stages) && reserved == Temps(stages) + Targets(stages)
    requires IsSwap(states[|swaps|], stages[|swaps|], s, after, reserved)
    ensures Underway(first, stages, states + [after], swaps + [s], reserved)
    ensures s.hadOriginal <==> HasOriginal(first, stages, |swaps|)
  {
    hide Temps, Targets, AllThere, HasOriginal, TargetsThere, IsSwap;
    var i, before := |swaps|, states[|swaps|];
    SwapKeeps(before, stages[i], s, after, reserved);
    StillThere(before, after, stages, i);
    TargetAdded(first, before, after, stages, i, s, reserved);
  }

  /** What rolling back from the middle of a transaction is about. */
  lemma GivingUp(first: Files, stages: seq<Stage>, states: seq<Files>, swaps: seq<Swap>, reserved: set<Path>,
                 now: Files, stray: set<Path>)
    requires Underway(first, stages, states, swaps, reserved)
    requires Temps(stages) !! Targets(stages) && reserved == Temps(stages) + Targets(stages)
    requires IsLitter(states[|swaps|], stray, reserved)
    requires stray != {} ==> Littered(states[|swaps|], now, stray, reserved)
    ensures Aside(Temps(stages) + stray, stages, swaps)
    ensures var aside := Temps(stages) + stray;
            && (Littered(states[|swaps|], now, stray, reserved) ==> now - aside == states[|swaps|] - aside)
            && (forall after: Files :: after - aside == first - aside ==>
                  Restored(first, after, Temps(stages), Targets(stages), stray))
    ensures (forall j: nat :: j < |swaps| ==> HasOriginal(first, stages, j)) ==>
              forall after: Files :: after - Named(swaps) == now - Named(swaps) ==> AreEmpty(after, stray)
  {
    hide Aside, Littered, IsLitter, Restored, Temps, Targets, AllThere, Named, AreEmpty, TargetsThere, HasOriginal,
        IsSwap;
    var before := states[|swaps|];
    MayBeAside(stages, swaps, before, stray);
    StillLitter(first, before, now, stray, Temps(stages), Targets(stages));
    if forall j: nat :: j < |swaps| ==> HasOriginal(first, stages, j) {
      forall after: Files | after - Named(swaps) == now - Named(swaps)
        ensures AreEmpty(after, stray)
      {
        StrayStays(states, stages, swaps, reserved, before, now, after, stray);
      }
    }
  }

  ghost predicate AreEmpty(files: Files, names: set<Path>) {
    forall p :: p in names ==> p in files && files[p] == []
  }

  /** Which targets there are after `i` stages. */
  ghost predicate TargetsThere(first: Files, files: Files, stages: seq<Stage>, i: nat)
    requires i <= |stages|
  {
    forall p :: p in Targets(stages) ==> (p in files <==> p in first || p in Targets(stages[..i]))
  }

  lemma TargetAdded(first: Files, before: Files, after: Files, stages: seq<Stage>, i: nat, s: Swap, reserved: set<Path>)
    requires i < |stages| && Temps(stages) !! Targets(stages) && reserved == Temps(stages) + Targets(stages)
    requires TargetsThere(first, before, stages, i) && IsSwap(before, stages[i], s, after, reserved)
    ensures TargetsThere(first, after, stages, i + 1)
    ensures s.hadOriginal <==> HasOriginal(first, stages, i)
  {
    StageNames(stages, i);
    assert stages[..i + 1] == stages[..i] + [stages[i]];
    assert Targets(stages[..i + 1]) == Targets(stages[..i]) + {stages[i].target};
    forall p | p in Targets(stages)
      ensures p in after <==> p in before || p == stages[i].target
    {
      assert p != stages[i].temp && p != s.backup;
    }
  }

  /** A fault on the way that is not in the part that counts. */
  lemma EarlierFaults(disk: Disk, first: nat, k: nat, k': nat, from: nat)
    requires first <= k <= k' <= disk.ops && from <= k'
    ensures disk.Faults(k, k') ==> disk.Faults(first, disk.ops)
    ensures !disk.Faults(from, disk.ops) ==> !disk.Faults(from, k') && !disk.Faults(k', disk.ops)
  {
  }

  lemma StrayStays(states: seq<Files>, stages: seq<Stage>, swaps: seq<Swap>, reserved: set<Path>, before: Files,
                   now: Files, after: Files, stray: set<Path>)
    requires Chain(states, stages, swaps, reserved) && Temps(stages) + Targets(stages) == reserved
    requires IsLitter(before, stray, reserved) && (stray != {} ==> Littered(before, now, stray, reserved))
    requires forall j :: 0 <= j < |swaps| ==> swaps[j].backup in before
    requires after - Named(swaps) == now - Named(swaps)
    ensures AreEmpty(after, stray)
  {
    hide Swapped;
    forall p | p in stray
      ensures p !in Named(swaps)
    {
      forall j | 0 <= j < |swaps|
        ensures swaps[j].target != p && swaps[j].backup != p
      {
        assert IsSwap(states[j], stages[j], swaps[j], states[j + 1], reserved);
      }
    }
    forall p | p in stray
      ensures p in after && after[p] == []
    {
      assert p in now - Named(swaps);
      assert (after - Named(swaps))[p] == (now - Named(swaps))[p];
    }
  }

  /** A disk on which the third operation, giving back the name for the first backup, fails. */
  method LeavesStray(target: Path, temp: Path) returns (disk: Disk, ghost stray: set<Path>)
    requires target != temp
    ensures fresh(disk) && stray != {} && target in disk.files && disk.files[target] == [1]
    ensures forall p :: p in stray ==> p != target && p != temp && p in disk.files && disk.files[p] == []
  {
    hide OpsBefore, HasOriginal;
    ghost var first: Files := map[target := [1], temp := [2]];
    disk := new Disk(map[target := [1], temp := [2]], k => k == 2);
    var stages := [Stage(target, temp)];
    assert Temps(stages) == {temp} && Targets(stages) == {target};
    OpsNext(first, stages, 0);
    var t;
    ghost var states, failed, at, u;
    t, states, failed, at, u, stray := SwapAll(disk, stages);
    assert disk.faulty(2);
    assert target in disk.files - Temps(stages) - stray;
  }

  /** The downloads from stage `i` on are there, each of its own. */
  ghost predicate AllThere(files: Files, stages: seq<Stage>, i: nat) {
    forall j :: i <= j < |stages| ==>
      stages[j].temp in files && forall k :: j < k < |stages| ==> stages[j].temp != stages[k].temp
  }

  lemma HasNext(files: Files, stages: seq<Stage>, i: nat)
    requires i < |stages|
    ensures AllThere(files, stages, i) ==> stages[i].temp in files
  {
  }

  lemma StillThere(files: Files, after: Files, stages: seq<Stage>, i: nat)
    requires i < |stages| && Temps(stages) !! Targets(stages)
    requires forall p :: p in files && p != stages[i].temp && p != stages[i].target ==> p in after
    ensures AllThere(files, stages, i) ==> AllThere(after, stages, i + 1)
  {
    StageNames(stages, i);
    forall j | i < j < |stages|
      ensures stages[j].temp != stages[i].target
    {
      StageNames(stages, j);
    }
  }

  lemma StageNames(stages: seq<Stage>, i: nat)
    requires i < |stages|
    ensures stages[i].temp in Temps(stages) && stages[i].target in Targets(stages)
  {
  }

  /** Litter on the files in the middle of a transaction is litter on those before it. */
  lemma StillLitter(first: Files, before: Files, now: Files, stray: set<Path>, temps: set<Path>, targets: set<Path>)
    requires IsLitter(before, stray, temps + targets)
    requires forall p :: p in first && p !in temps + targets ==> p in before
    ensures Littered(before, now, stray, temps + targets) ==> now - (temps + stray) == before - (temps + stray)
    ensures forall after: Files :: after - (temps + stray) == first - (temps + stray) ==>
              Restored(first, after, temps, targets, stray)
  {
    assert stray !! first.Keys by {
      forall p | p in stray
        ensures p !in first
      {
      }
    }
    assert Littered(before, now, stray, temps + targets) ==> now - (temps + stray) == (now - stray) - temps;
    assert before - (temps + stray) == before - temps;
    forall after: Files | after - (temps + stray) == first - (temps + stray)
      ensures Restored(first, after, temps, targets, stray)
    {
      assert after - temps - stray == after - (temps + stray);
      assert first - (temps + stray) == first - temps;
    }
  }

  /** Every file is as it was, and no other has appeared, except for the downloads and at most one stray. */
  ghost predicate Restored(before: Files, after: Files, temps: set<Path>, targets: set<Path>, stray: set<Path>) {
    after - temps - stray == before - temps && IsLitter(before, stray, targets)
  }

  // ---------------------------------------------------------------------------------------------
  // What a committed transaction has done

  /** The downloads moved to their targets, one stage after the other. */
  function Installed(files: Files, stages: seq<Stage>): Files {
    if stages == [] then files
    else
      var f, st := Installed(files, stages[..|stages| - 1]), stages[|stages| - 1];
      if st.temp in f then Moved(f, st.temp, st.target) else f
  }

  /** Swapping in without the backup is moving. */
  lemma SwapMoves(before: Files, st: Stage, s: Swap, after: Files, reserved: set<Path>, backups: set<Path>)
    requires IsSwap(before, st, s, after, reserved) && backups !! reserved
    ensures st.temp in before - backups
    ensures after - (backups + {s.backup}) == Moved(before - backups, st.temp, st.target)
  {
  }

  /** After the commit the files are as if the downloads had just been moved in; no backup is left. */
  lemma {:induction false} CommitInstalls(states: seq<Files>, stages: seq<Stage>, swaps: seq<Swap>,
                                          reserved: set<Path>, n: nat)
    requires Chain(states, stages, swaps, reserved) && n <= |swaps|
    ensures states[n] - Backups(swaps[..n]) == Installed(states[0], stages[..n])
    ensures Backups(swaps[..n]) !! reserved
    decreases n
  {
    hide IsSwap, Moved;
    if n == 0 {
      assert stages[..0] == [] && Backups(swaps[..0]) == {};
    } else {
      CommitInstalls(states, stages, swaps, reserved, n - 1);
      BackupsSnoc(swaps, n - 1);
      SwapKeeps(states[n - 1], stages[n - 1], swaps[n - 1], states[n], reserved);
      SwapMoves(states[n - 1], stages[n - 1], swaps[n - 1], states[n], reserved, Backups(swaps[..n - 1]));
      assert stages[..n][..n - 1] == stages[..n - 1];
    }
  }

  /** With different downloads, each target ends up with the last download for it, and no download is left. */
  lemma {:induction false} InstalledContents(files: Files, stages: seq<Stage>, p: Path)
    requires Temps(stages) !! Targets(stages) && Temps(stages) <= files.Keys
    requires forall i, j :: 0 <= i < j < |stages| ==> stages[i].temp != stages[j].temp
    ensures var after := Installed(files, stages);
            && (p in Temps(stages) ==> p !in after)
            && (p in Targets(stages) ==>
                  p in after && exists i: nat ::
                    IsLast(stages, p, i) && stages[i].temp in files && after[p] == files[stages[i].temp])
            && (p !in Temps(stages) + Targets(stages) ==>
                  (p in after <==> p in files) && (p in files ==> after[p] == files[p]))
    decreases |stages|
  {
    hide Temps, Targets, Moved;
    if stages == [] {
      NoNames();
    } else {
      var n := |stages| - 1;
      var before, st := stages[..n], stages[n];
      FrontNames(stages);
      InstalledContents(files, before, p);
      InstalledContents(files, before, st.temp);
      MovedContents(Installed(files, before), st.temp, st.target, p);
      if p == st.target {
        assert IsLast(stages, p, n) && st.temp in files;
      } else if p in Targets(before) {
        var i: nat :| IsLast(before, p, i) && before[i].temp in files
            && Installed(files, before)[p] == files[before[i].temp];
        assert IsLast(stages, p, i);
      }
    }
  }

  lemma NoNames()
    ensures Temps([]) == {} && Targets([]) == {}
  {
  }

  lemma MovedContents(files: Files, from: Path, to: Path, p: Path)
    requires from in files && from != to
    ensures var after := Moved(files, from, to);
            && from !in after && to in after && after[to] == files[from]
            && (p != from && p != to ==> (p in after <==> p in files) && (p in files ==> after[p] == files[p]))
  {
  }

  lemma FrontNames(stages: seq<Stage>)
    requires stages != [] && forall i, j :: 0 <= i < j < |stages| ==> stages[i].temp != stages[j].temp
    ensures var before, st := stages[..|stages| - 1], stages[|stages| - 1];
            && Temps(stages) == Temps(before) + {st.temp} && Targets(stages) == Targets(before) + {st.target}
            && st.temp !in Temps(before)
  {
    var before, st := stages[..|stages| - 1], stages[|stages| - 1];
    assert stages == before + [st];
    forall x | x in before
      ensures x.temp != st.temp
    {
      var i :| 0 <= i < |before| && stages[i] == x;
    }
  }

  /** Stage `i` is the last one with this target. */
  ghost predicate IsLast(stages: seq<Stage>, target: Path, i: nat) {
    i < |stages| && stages[i].target == target && forall j :: i < j < |stages| ==> stages[j].target != target
  }

  datatype Update = NotSwapped | RolledBack(ok: bool) | Committed(ok: bool)

  /**
   * The whole update. If the new files load, they stay and no backup is left; if they do not, or if a stage fails, all
   * is as it was before, unless undoing fails.
   */
  method UpdateAll(disk: Disk, stages: seq<Stage>, loads: bool)
    returns (r: Update, ghost failed: nat, ghost at: nat, ghost u: nat, ghost stray: set<Path>)
    requires Temps(stages) !! Targets(stages)
    modifies disk
    ensures r.Committed? ==> loads && (r.ok ==> disk.files == Installed(old(disk.files), stages))
    ensures r.RolledBack? ==> !loads && (r.ok ==> disk.files - Temps(stages) == old(disk.files) - Temps(stages))
    ensures r.NotSwapped? ==> old(disk.ops) < u <= disk.ops && !disk.Faults(old(disk.ops), u - 1)
    ensures r.NotSwapped? ==> FailsAt(disk.faulty, stages, failed, at, u, stray)
    ensures r.NotSwapped? ==> at == old(disk.ops) + OpsBefore(old(disk.files), stages, failed)
    ensures r.NotSwapped? && !disk.Faults(UndoFrom(at, u), disk.ops) ==>
              Restored(old(disk.files), disk.files, Temps(stages), Targets(stages), stray)
    ensures AllThere(old(disk.files), stages, 0) && !disk.Faults(old(disk.ops), disk.ops) ==> !r.NotSwapped? && r.ok
  {
    hide IsSwap, Restored, Installed, AllThere, Backups, Aside, FailsAt, OpsBefore, UndoFrom, Named;
    ghost var k := disk.ops;
    var t;
    ghost var states;
    t, states, failed, at, u, stray := SwapAll(disk, stages);
    if t.None? {
      return NotSwapped, failed, at, u, stray;
    }
    ghost var k', swaps, reserved := disk.ops, t.value.swaps, Temps(stages) + Targets(stages);
    assert swaps[..|stages|] == swaps && stages[..|stages|] == stages;
    var ok;
    if !loads {
      ChainAside(states, stages, swaps, reserved);
      ok := t.value.Rollback(disk, states, stages, reserved, Temps(stages));
      r := RolledBack(ok);
    } else {
      CommitInstalls(states, stages, swaps, reserved, |stages|);
      ok := t.value.Commit(disk);
      r := Committed(ok);
    }
    disk.FaultsJoin(k, k');
  }

  lemma ChainAside(states: seq<Files>, stages: seq<Stage>, swaps: seq<Swap>, reserved: set<Path>)
    requires Chain(states, stages, swaps, reserved) && Temps(stages) !! Targets(stages)
             && reserved == Temps(stages) + Targets(stages)
    ensures Aside(Temps(stages), stages, swaps)
  {
    hide Swapped;
    forall i | 0 <= i < |swaps|
      ensures stages[i].temp in Temps(stages) && stages[i].target !in Temps(stages) && swaps[i].backup !in Temps(stages)
    {
      assert stages[i].target in Targets(stages);
      assert IsSwap(states[i], stages[i], swaps[i], states[i + 1], reserved);
    }
  }
}
