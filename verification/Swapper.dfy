/** `DoubleBufferSwapper` and the task around it, over the bytes of the two buffers. Storing processes
    and the client go on between any two of its steps; `world` is the protocol state of everybody, and
    every store to a buffer or pointer here is one step of it. */
module Swapper {
  import opened Bits
  import DB = DoubleBuffer

  /** Steps of the storing processes and of the client, but for the beginning of a new `load`. */
  predicate ByOthers(a: DB.Action) {
    a.StoreCall? || a.StoreLock? || a.StoreByte? || a.StoreUnlock? || a.LoadClearIdle? || a.LoadTrigger? || a.WaitReturns?
  }

  /** What the worker may rely on meanwhile: its own state, and under its lock the shared buffer. */
  ghost predicate Onward(s: DB.State, t: DB.State) {
    && t.size == s.size && t.worker == s.worker && t.stage == s.stage
    && t.private == s.private && t.active == s.active && t.published == s.published
    && t.taken == s.taken && t.everTaken == s.everTaken && s.contents <= t.contents
    && (DB.WorkerHolds(s.worker) ==> t.holder == s.holder && t.shm == s.shm && t.contents == s.contents)
  }

  lemma OthersStep(s: DB.State, a: DB.Action)
    requires DB.CoreInv(s) && DB.Enabled(s, a) && ByOthers(a)
    ensures DB.CoreInv(DB.Next(s, a)) && Onward(s, DB.Next(s, a))
  {
    DB.StepCore(s, a);
  }

  lemma OnwardTrans(s: DB.State, t: DB.State, u: DB.State)
    requires Onward(s, t) && Onward(t, u)
    ensures Onward(s, u)
  {
  }

  lemma OnwardRefl(s: DB.State)
    ensures Onward(s, s)
  {
  }

  class DoubleBufferSwapper {
    const shm: array<byte>
    const preAllocated: array<byte>
    var active: array?<byte>
    var staged: array?<byte>
    var published: array?<byte>
    var world: DB.State

    /** The pointer a protocol state speaks of. */
    function Buffer(p: DB.Pointer): array<byte> {
      if p == DB.Shared then shm else preAllocated
    }

    /** The buffers and the stage are those of the protocol state. */
    ghost predicate Buffered()
      reads this, shm, preAllocated
    {
      && shm != preAllocated && shm.Length == preAllocated.Length == world.size
      && shm[..] == world.shm && preAllocated[..] == world.private
      && staged == (if world.stage then shm else null)
      && DB.CoreInv(world)
    }

    /** And so are the active and the published pointer. */
    ghost predicate Mirrored()
      reads this, shm, preAllocated
    {
      Buffered() && active == Buffer(world.active) && published == Buffer(world.published)
    }

    /** The owner's constructor: the shared buffer becomes the active and the published one. */
    constructor (shm: array<byte>, preAllocated: array<byte>)
      requires shm != preAllocated && shm.Length == preAllocated.Length
      ensures Mirrored() && DB.Init(world) && this.shm == shm && this.preAllocated == preAllocated
    {
      this.shm := shm;
      this.preAllocated := preAllocated;
      active, staged, published := null, null, null;
      world := DB.State(shm.Length, shm[..], preAllocated[..], DB.Shared, DB.Shared, false, DB.Free, map[],
                        DB.Ready, DB.Blocked, false, true, [shm[..]], 0, 0, false);
      new;
      DB.InitInv(world);
      SetActive(shm);
      published := active;
    }

    /** `set_active`: makes the pointer the one the protocol state has. */
    method SetActive(buffer: array<byte>)
      requires Buffered() && buffer != active && buffer == Buffer(world.active)
      modifies this`active
      ensures Buffered() && active == Buffer(world.active)
    {
      active := buffer;
    }

    /** `stage`, the first step of a `load`. */
    method Stage(buffer: array<byte>)
      requires Mirrored() && buffer == shm && DB.Enabled(world, DB.LoadStage)
      modifies this`staged, this`world
      ensures Mirrored() && world == DB.Next(old(world), DB.LoadStage)
    {
      DB.StepCore(world, DB.LoadStage);
      staged := buffer;
      world := DB.Next(world, DB.LoadStage);
    }

    /** One step of somebody else. */
    method Other(a: DB.Action)
      requires Mirrored() && ByOthers(a) && DB.Enabled(world, a)
      modifies shm, this`world
      ensures Mirrored() && world == DB.Next(old(world), a) && Onward(old(world), world)
    {
      OthersStep(world, a);
      if a.StoreByte? {
        shm[a.j] := world.storers[a.id].v[a.j];
      }
      world := DB.Next(world, a);
    }

    /** Everybody else, for any number of steps. */
    method Interfere()
      requires Mirrored()
      modifies shm, this`world
      ensures Mirrored() && Onward(old(world), world)
    {
      hide DB.CoreInv, DB.Next, DB.Enabled, ByOthers;
      OnwardRefl(world);
      ghost var was := world;
      hide Onward;
      var steps: nat := *;
      while steps > 0
        invariant Mirrored() && Onward(was, world)
      {
        var a: DB.Action := *;
        if ByOthers(a) && DB.Enabled(world, a) {
          ghost var before := world;
          Other(a);
          OnwardTrans(was, before, world);
        }
        steps := steps - 1;
      }
    }

    /** `lock`, once the lock is free. */
    method Lock()
      requires Mirrored() && world.worker == DB.Locking && world.holder == DB.Free
      modifies this`world
      ensures Mirrored() && world == DB.Next(old(world), DB.WorkerLocks)
      ensures world.worker == DB.Copying({}) && world.stage == old(world.stage) && world.shm == old(world.shm)
      ensures DB.WorkerHolds(world.worker)
    {
      DB.StepCore(world, DB.WorkerLocks);
      world := DB.Next(world, DB.WorkerLocks);
    }

    /** The end of the copy: both buffers hold the content found at the lock. */
    method EndCopy()
      requires Mirrored() && world.worker.Copying? && forall j :: 0 <= j < shm.Length ==> j in world.worker.done
      modifies this`world
      ensures Mirrored() && world == DB.Next(old(world), DB.WorkerCopied) == old(world).(worker := DB.Copied)
      ensures world.private == world.shm
    {
      DB.StepCore(world, DB.WorkerCopied);
      world := DB.Next(world, DB.WorkerCopied);
    }

    /** `unlock` */
    method Unlock()
      requires Mirrored() && world.worker == DB.Published
      modifies this`world
      ensures Mirrored() && world == DB.Next(old(world), DB.WorkerUnlocks) == old(world).(holder := DB.Free, worker := DB.Unlocked)
    {
      DB.StepCore(world, DB.WorkerUnlocks);
      world := DB.Next(world, DB.WorkerUnlocks);
    }

    /** One byte of the copy. */
    method CopyByte(j: nat)
      requires Mirrored() && staged != null && world.worker.Copying? && j < shm.Length && j !in world.worker.done
      modifies preAllocated, this`world
      ensures Mirrored() && world == DB.Next(old(world), DB.WorkerCopies(j))
      ensures Held(old(world), world) && world.worker == DB.Copying(old(world.worker.done) + {j})
    {
      DB.StepCore(world, DB.WorkerCopies(j));
      preAllocated[j] := staged[j];
      world := DB.Next(world, DB.WorkerCopies(j));
    }

    /** `swap`, with the lock held: whatever the others do, the private buffer takes the content the
        shared one had when the lock was taken, and becomes active; the stage is used up. */
    method Swap()
      requires Mirrored() && world.worker == DB.Copying({}) && staged != null
      modifies this`active, this`staged, this`world, shm, preAllocated
      ensures Mirrored() && world.worker == DB.Unstaged && world.active == DB.Private
      ensures preAllocated[..] == old(shm[..]) == shm[..] && active == preAllocated && staged == null
      ensures world.contents == old(world.contents) && world.taken == old(world.taken)
    {
      ghost var was := world;
      hide DB.CoreInv, DB.Enabled, DB.Next;
      for j := 0 to shm.Length
        invariant Mirrored() && world.worker.Copying? && Held(was, world)
        invariant forall q :: q in world.worker.done <==> 0 <= q < j
      {
        Interfere();
        CopyByte(j);
      }
      Interfere();
      EndCopy();
      Interfere();
      Install();
      Interfere();
      Unstage();
    }

    method Install()
      requires Mirrored() && world.worker == DB.Copied
      modifies this`active, this`world
      ensures Mirrored() && world == DB.Next(old(world), DB.WorkerInstalls) == old(world).(active := DB.Private, worker := DB.Installed)
    {
      DB.StepCore(world, DB.WorkerInstalls);
      active := preAllocated;
      world := DB.Next(world, DB.WorkerInstalls);
    }

    method Unstage()
      requires Mirrored() && world.worker == DB.Installed
      modifies this`staged, this`world
      ensures Mirrored() && world == DB.Next(old(world), DB.WorkerUnstages) == old(world).(stage := false, worker := DB.Unstaged)
    {
      DB.StepCore(world, DB.WorkerUnstages);
      staged := null;
      world := DB.Next(world, DB.WorkerUnstages);
    }

    method Publish()
      requires Mirrored() && world.worker == DB.Unstaged
      modifies this`published, this`world
      ensures Mirrored() && world == DB.Next(old(world), DB.WorkerPublishes) == old(world).(published := old(world.active), worker := DB.Published)
    {
      DB.StepCore(world, DB.WorkerPublishes);
      published := active;
      world := DB.Next(world, DB.WorkerPublishes);
    }

    /** The runner's task, from the moment the lock is had: afterwards the published pointer leads to
        the content the shared buffer had at that moment, and the lock is free again. */
    method Task()
      requires Mirrored() && world.worker == DB.Locking && world.holder == DB.Free && staged != null
      modifies this, shm, preAllocated
      ensures Mirrored() && world.worker == DB.Unlocked && staged == null
      ensures published == preAllocated && preAllocated[..] == old(shm[..]) == DB.Snapshot(world)
    {
      hide DB.CoreInv, DB.Enabled, DB.Next;
      Lock();
      Swap();
      Interfere();
      Publish();
      Interfere();
      Unlock();
    }
  }

  /** The worker has held the lock since `was`. */
  ghost predicate Held(was: DB.State, s: DB.State) {
    && s.size == was.size && s.stage == was.stage && s.shm == was.shm && s.contents == was.contents
    && s.taken == was.taken && s.holder == was.holder
  }
}
