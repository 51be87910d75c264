/** code/threads/thread.cc: the table of thread numbers. */
module KernelIds {
  import opened Options
  import opened Kernels

  // ----- thread numbers -----

  ghost predicate OwnerOf(k: Kernel, t: Tid, i: int) {
    t in k.threads && k.threads[t].threadID == i
  }

  /** The table marks exactly the numbers of the threads that exist, each held once. */
  ghost predicate IdsOk(k: Kernel) {
    && |k.threadIDs| == MAX_THREAD
    && (forall t :: t in k.threads ==> -1 <= k.threads[t].threadID < MAX_THREAD)
    && (forall t :: t in k.threads && k.threads[t].threadID >= 0 ==> k.threadIDs[k.threads[t].threadID])
    && (forall t, u :: t in k.threads && u in k.threads && t != u && k.threads[t].threadID >= 0
          ==> k.threads[t].threadID != k.threads[u].threadID)
    && (forall i :: 0 <= i < MAX_THREAD && k.threadIDs[i] ==> exists t :: OwnerOf(k, t, i))
  }

  /** Steps that neither create nor delete keep the numbers as they are. */
  ghost predicate SameIds(k: Kernel, k': Kernel) {
    && k'.threadIDs == k.threadIDs && k'.threads.Keys == k.threads.Keys
    && forall t :: t in k.threads ==> k'.threads[t].threadID == k.threads[t].threadID
  }

  lemma SameIdsOk(k: Kernel, k': Kernel)
    requires IdsOk(k) && SameIds(k, k')
    ensures IdsOk(k')
  {
    forall i | 0 <= i < MAX_THREAD && k'.threadIDs[i] ensures exists t :: OwnerOf(k', t, i) {
      var t :| OwnerOf(k, t, i);
      assert OwnerOf(k', t, i);
    }
  }

  lemma ReapIds(k: Kernel)
    requires IdsOk(k) && (k.toBeDestroyed.Some? ==> k.toBeDestroyed.value in k.threads)
    ensures IdsOk(Reap(k))
  {
    if k.toBeDestroyed.Some? {
      var x, k' := k.toBeDestroyed.value, Reap(k);
      forall i | 0 <= i < MAX_THREAD && k'.threadIDs[i] ensures exists t :: OwnerOf(k', t, i) {
        var t :| OwnerOf(k, t, i);
        assert OwnerOf(k', t, i);
      }
    }
  }

  lemma DispatchIds(k: Kernel)
    requires Between(k) && k.ready != [] && IdsOk(k)
    ensures IdsOk(Dispatch(k))
  {
    hide IdsOk;
    var at := k.threads[k.ready[0]].at;
    var point, phase := if at.InP? then at else Code, if at.InP? then Checking else Active;
    assert Fits(k.(phase := Idling), k.ready[0]);
    SameIdsOk(k, Front(k, point, phase));
    ReapIds(Front(k, point, phase));
  }

  lemma NewThreadIds(k: Kernel, t: Tid)
    requires Placed(k) && IdsOk(k) && Enabled(k, NewThread(t))
    ensures IdsOk(Do(k, NewThread(t)))
  {
    hide Fits, QueueOk, NoRepeats;
    var k' := Do(k, NewThread(t));
    assert FreeID(k.threadIDs) >= 0 ==> !k.threadIDs[FreeID(k.threadIDs)];
    forall i | 0 <= i < MAX_THREAD && k'.threadIDs[i] ensures exists u :: OwnerOf(k', u, i) {
      if k.threadIDs[i] {
        var u :| OwnerOf(k, u, i);
        assert OwnerOf(k', u, i);
      } else {
        assert OwnerOf(k', t, i);
      }
    }
  }

  lemma StepIds(k: Kernel, step: Step)
    requires Placed(k) && IdsOk(k) && Enabled(k, step)
    ensures IdsOk(Do(k, step))
  {
    hide IdsOk;
    match step
    case NewThread(t) => NewThreadIds(k, t);
    case CallYield => YieldIds(k);
    case CallFinish => FinishIds(k);
    case Recheck => assert Fits(k, k.current); TryPIds(k, k.threads[k.current].at.sem);
    case CallP(s) => TryPIds(k, s);
    case CallV(s) => assert QueueOk(k, s); SameIdsOk(k, V(k, s));
    case HandlerV(s) => assert QueueOk(k, s); SameIdsOk(k, V(k, s));
    case Resume => DispatchIds(k);
    case Fork(_) => SameIdsOk(k, Do(k, step));
    case NewSemaphore(_, _) => SameIdsOk(k, Do(k, step));
  }

  lemma YieldIds(k: Kernel)
    requires Placed(k) && IdsOk(k) && k.phase == Active
    ensures IdsOk(Do(k, CallYield))
  {
    hide IdsOk;
    if k.ready != [] {
      YieldPlaced(k);
      var k1 := SetThread(k, k.current, Ready, InYield).(ready := k.ready + [k.current]);
      SameIdsOk(k, k1);
      DispatchIds(k1);
    }
  }

  lemma FinishIds(k: Kernel)
    requires Placed(k) && IdsOk(k) && k.phase == Active
    ensures IdsOk(Do(k, CallFinish))
  {
    hide IdsOk;
    FinishPlaced(k);
    var k1 := SetThread(k.(toBeDestroyed := Some(k.current)), k.current, Blocked, Finished);
    if k.ready == [] {
      SameIdsOk(k, k1.(phase := Idling));
    } else {
      SameIdsOk(k, k1);
      DispatchIds(k1);
    }
  }

  lemma TryPIds(k: Kernel, s: Sid)
    requires Placed(k) && IdsOk(k) && k.phase != Idling && s in k.sems
    ensures IdsOk(TryP(k, s))
  {
    hide IdsOk;
    if k.sems[s].value > 0 || k.ready == [] {
      SameIdsOk(k, TryP(k, s));
    } else {
      EnqueuePlaced(k, s);
      SameIdsOk(k, Enqueue(k, s));
      DispatchIds(Enqueue(k, s));
    }
  }

  // ----- how many threads can be numbered -----

  ghost function Numbered(k: Kernel, n: nat): set<Tid> {
    set t | t in k.threads && 0 <= k.threads[t].threadID < n
  }

  function CountTrue(ids: seq<bool>, n: nat): nat
    requires n <= |ids|
  {
    if n == 0 then 0 else CountTrue(ids, n - 1) + if ids[n - 1] then 1 else 0
  }

  lemma {:induction false} AllTrue(ids: seq<bool>, n: nat)
    requires n <= |ids|
    ensures CountTrue(ids, n) <= n
    ensures CountTrue(ids, n) == n <==> forall i :: 0 <= i < n ==> ids[i]
  {
    if n > 0 { AllTrue(ids, n - 1); }
  }

  lemma {:induction false} NumberedCount(k: Kernel, n: nat)
    requires IdsOk(k) && n <= MAX_THREAD
    ensures |Numbered(k, n)| == CountTrue(k.threadIDs, n)
  {
    if n == 0 {
      assert Numbered(k, 0) == {};
    } else {
      NumberedCount(k, n - 1);
      TableSize(k);
      hide IdsOk, Numbered;
      if k.threadIDs[n - 1] {
        var t := Owner(k, n - 1);
        NumberedStep(k, n - 1, t);
      } else {
        NumberedSame(k, n - 1);
      }
    }
  }

  lemma TableSize(k: Kernel)
    requires IdsOk(k)
    ensures |k.threadIDs| == MAX_THREAD
  {
  }

  lemma Owner(k: Kernel, i: nat) returns (t: Tid)
    requires IdsOk(k) && i < |k.threadIDs| && k.threadIDs[i]
    ensures OwnerOf(k, t, i)
  {
    t :| OwnerOf(k, t, i);
  }

  lemma NumberedStep(k: Kernel, n: nat, t: Tid)
    requires IdsOk(k) && n < MAX_THREAD && OwnerOf(k, t, n)
    ensures |Numbered(k, n + 1)| == |Numbered(k, n)| + 1
  {
    assert Numbered(k, n + 1) == Numbered(k, n) + {t};
    assert t !in Numbered(k, n);
  }

  lemma NumberedSame(k: Kernel, n: nat)
    requires IdsOk(k) && n < MAX_THREAD && !k.threadIDs[n]
    ensures Numbered(k, n + 1) == Numbered(k, n)
  {
  }

  /** A new thread goes without a number exactly when 128 existing threads have one. */
  lemma UnnumberedExactly(k: Kernel)
    requires IdsOk(k)
    ensures FreeID(k.threadIDs) == -1 <==> |Numbered(k, MAX_THREAD)| == MAX_THREAD
  {
    NumberedCount(k, MAX_THREAD);
    AllTrue(k.threadIDs, MAX_THREAD);
  }
}
