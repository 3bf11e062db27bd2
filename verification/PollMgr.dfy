/** The poll manager as an object. Each method is what one thread does while it holds the manager's
    lock, and is proved to take the corresponding steps of the model one after the other. */
module PollMgrModule {
  import opened PollRemoval
  import opened SelectAioModule

  class PollMgr {
    const aio: SelectAio
    var callbacks: set<nat>
    var pending: bool

    constructor (pipe: nat)
      ensures Mirrors(INITIAL) && fresh(aio) && aio.pipe == pipe
    {
      aio := new SelectAio(pipe);
      callbacks, pending := {}, false;
    }

    /** The object is in the state of the model; the pipe is watched besides. */
    ghost predicate Mirrors(p: Poll)
      reads this, aio
    {
      && aio.Valid()
      && aio.rfds == p.rfds + {aio.pipe} && aio.wfds == p.wfds
      && callbacks == p.callbacks && pending == p.pending
    }

    method AddCallback(ghost p: Poll, fd: nat, flag: Flag)
      requires Mirrors(p) && p.lock.Free?
      modifies this, aio
      ensures Mirrors(Apply(Apply(p, AddBegin(fd, flag)), AddEnd))
    {
      aio.WatchFd(p, fd, flag);
      callbacks := callbacks + {fd};
    }

    /** The callback goes only when the descriptor is watched for nothing any more. */
    method DelCallback(ghost p: Poll, fd: nat, flag: Flag)
      requires Mirrors(p) && p.lock.Free? && fd != aio.pipe
      modifies this, aio
      ensures Mirrors(Apply(Apply(p, DeleteBegin(fd, flag)), DeleteEnd))
    {
      var gone := aio.UnwatchFd(p, fd, flag);
      if gone {
        callbacks := callbacks - {fd};
      }
    }

    /** `block_remove_fd` up to its wait. */
    method BeginRemoval(ghost p: Poll, ghost t: nat, fd: nat)
      requires Mirrors(p) && Enabled(p, RemoveBegin(t, fd)) && fd != aio.pipe
      modifies this, aio
      ensures Mirrors(Apply(Apply(p, RemoveBegin(t, fd)), RemoveWait))
      ensures pending && fd !in aio.rfds && fd !in aio.wfds
    {
      var gone := aio.UnwatchFd(p, fd, ReadWrite);
      pending := true;
    }

    /** `block_remove_fd` after its wait. */
    method FinishRemoval(ghost p: Poll, ghost t: nat, fd: nat)
      requires Mirrors(p) && Enabled(p, RemoveReturn(t)) && p.removers[t].fd == fd
      modifies this
      ensures Mirrors(Apply(p, RemoveReturn(t))) && fd !in callbacks
    {
      callbacks := callbacks - {fd};
    }

    /** The top of the loop: broadcasts exactly when a change is pending. */
    method TopOfLoop(ghost p: Poll) returns (broadcast: bool)
      requires Mirrors(p) && Enabled(p, Step.TopOfLoop)
      modifies this
      ensures Mirrors(Apply(p, Step.TopOfLoop)) && broadcast == p.pending
      ensures broadcast ==> forall t :: t in p.removers ==> !Apply(p, Step.TopOfLoop).removers[t].Waiting?
    {
      broadcast := pending;
      if pending {
        pending := false;
      }
    }
  }
}
