/**
 Passes over a ledger in which records may share an id, which `create` lets in: an update reaches only
 the first record with the id, so any other one stays as it is and is executed over and over.
 */
module TaskDuplicates {
  import Harness
  import opened TaskRunner
  import opened Tasks
  import opened TaskTheorems
  import opened Wrappers

  /** Any ledger after `n` passes. */
  function LedgerPasses(tasks: seq<Task>, fates: nat -> Fates, n: nat): (r: seq<Task>)
    ensures |r| == |tasks|
  {
    if n == 0 then tasks else LedgerPass(LedgerPasses(tasks, fates, n - 1), fates(n - 1))
  }

  /** With unique ids these are the passes that the other theorems speak of. */
  lemma {:induction false} UniqueLedgerPasses(tasks: seq<Task>, fates: nat -> Fates, n: nat)
    requires UniqueIds(tasks)
    ensures LedgerPasses(tasks, fates, n) == Passes(tasks, fates, n) && UniqueIds(Passes(tasks, fates, n))
  {
    if n > 0 {
      UniqueLedgerPasses(tasks, fates, n - 1);
      UniqueLedgerPass(Passes(tasks, fates, n - 1), fates(n - 1));
    }
  }

  /** Pass `n` executes the record at position `i`. */
  predicate RunsIn(tasks: seq<Task>, fates: nat -> Fates, n: nat, i: nat)
    requires i < |tasks|
  {
    Executes(LedgerPasses(tasks, fates, n), LedgerPasses(tasks, fates, n)[i])
  }

  /** No earlier record has the id of the record at position `i`. */
  ghost predicate IsFirst(tasks: seq<Task>, i: nat)
    requires i < |tasks|
  {
    FirstWithId(tasks, i, tasks[i].id)
  }

  // ----- one pass -----

  lemma {:induction false} WrittenEach(tasks: seq<Task>, t: Task, i: nat)
    requires i < |tasks|
    ensures Written(tasks, t)[i] == if FirstWithId(tasks, i, t.id) then t else tasks[i]
  {
    if tasks[0].id != t.id && i > 0 {
      WrittenEach(tasks[1..], t, i - 1);
      assert FirstWithId(tasks, i, t.id) <==> FirstWithId(tasks[1..], i - 1, t.id) by {
        assert forall k :: 0 <= k < |tasks| - 1 ==> tasks[1..][k] == tasks[k + 1];
        assert forall k :: 0 < k < |tasks| ==> tasks[k] == tasks[1..][k - 1];
      }
    }
  }

  /** What a pass that has dealt with `seen` has made of the record `was` at some position: nothing unless
      the record is the first with its id; a first record that is executed or failed is no longer pending. */
  ghost predicate Became(before: seq<Task>, seen: seq<Task>, fates: Fates, first: bool, was: Task, now: Task) {
    && (!first ==> now == was)
    && (first && (was.status != Pending || (was in seen && Advance(before, was, fates).status != Pending)) ==>
          now.status != Pending)
  }

  lemma DealtNext(before: seq<Task>, init: seq<Task>, t: Task, fates: Fates, now: seq<Task>, i: nat)
    requires i < |before| && SameIds(now, before) && Became(before, init, fates, IsFirst(before, i), before[i], now[i])
    ensures Became(before, init + [t], fates, IsFirst(before, i), before[i], DealWith(before, now, t, fates)[i])
  {
    var after := Advance(before, t, fates);
    assert after.id == t.id;
    WrittenEach(now, after, i);
    assert FirstWithId(now, i, t.id) <==> before[i].id == t.id && IsFirst(before, i);
  }

  lemma {:induction false} DealtEach(before: seq<Task>, seen: seq<Task>, fates: Fates, i: nat)
    requires i < |before| && forall t :: t in seen ==> t in before
    ensures Became(before, seen, fates, IsFirst(before, i), before[i], Dealt(before, seen, fates)[i])
  {
    if seen != [] {
      var init, t := seen[..|seen| - 1], seen[|seen| - 1];
      DealtEach(before, init, fates, i);
      DealtKeepsIds(before, init, fates);
      DealtNext(before, init, t, fates, Dealt(before, init, fates), i);
      assert seen == init + [t];
    }
  }

  lemma PassEach(tasks: seq<Task>, fates: Fates, i: nat)
    requires i < |tasks|
    ensures SameIds(LedgerPass(tasks, fates), tasks)
    ensures !IsFirst(tasks, i) ==> LedgerPass(tasks, fates)[i] == tasks[i]
    ensures IsFirst(tasks, i) && (tasks[i].status != Pending || Executes(tasks, tasks[i])) ==>
              LedgerPass(tasks, fates)[i].status != Pending
  {
    PendingIsSorted(tasks);
    DealtKeepsIds(tasks, PendingInOrder(tasks), fates);
    DealtEach(tasks, PendingInOrder(tasks), fates, i);
  }

  // ----- any number of passes -----

  lemma {:induction false} FirstStays(tasks: seq<Task>, fates: nat -> Fates, n: nat, i: nat)
    requires i < |tasks|
    ensures SameIds(LedgerPasses(tasks, fates, n), tasks)
    ensures IsFirst(LedgerPasses(tasks, fates, n), i) <==> IsFirst(tasks, i)
  {
    if n > 0 {
      FirstStays(tasks, fates, n - 1, i);
      PassEach(LedgerPasses(tasks, fates, n - 1), fates(n - 1), i);
    }
  }

  ghost predicate OverAt(tasks: seq<Task>, fates: nat -> Fates, n: nat, i: nat)
    requires i < |tasks|
  {
    LedgerPasses(tasks, fates, n)[i].status != Pending
  }

  /** What one more pass makes of a record. */
  lemma NextPass(tasks: seq<Task>, fates: nat -> Fates, n: nat, i: nat)
    requires i < |tasks|
    ensures !IsFirst(tasks, i) ==> LedgerPasses(tasks, fates, n + 1)[i] == LedgerPasses(tasks, fates, n)[i]
    ensures IsFirst(tasks, i) && (OverAt(tasks, fates, n, i) || RunsIn(tasks, fates, n, i)) ==> OverAt(tasks, fates, n + 1, i)
  {
    FirstStays(tasks, fates, n, i);
    PassEach(LedgerPasses(tasks, fates, n), fates(n), i);
    assert LedgerPasses(tasks, fates, n + 1) == LedgerPass(LedgerPasses(tasks, fates, n), fates(n));
  }

  ghost predicate Keeps(at: nat -> Task, k: nat) {
    at(k + 1) == at(k)
  }

  lemma {:induction false} KeptForever(at: nat -> Task, n: nat)
    requires forall k: nat :: Keeps(at, k)
    ensures at(n) == at(0)
  {
    if n > 0 {
      KeptForever(at, n - 1);
      assert Keeps(at, n - 1);
    }
  }

  /** A record behind another one with its id is never changed. */
  lemma ShadowedStays(tasks: seq<Task>, fates: nat -> Fates, n: nat, i: nat)
    requires i < |tasks| && !IsFirst(tasks, i)
    ensures LedgerPasses(tasks, fates, n)[i] == tasks[i]
  {
    var at: nat -> Task := (k: nat) => LedgerPasses(tasks, fates, k)[i];
    forall k: nat ensures Keeps(at, k) {
      NextPass(tasks, fates, k, i);
    }
    KeptForever(at, n);
  }

  /** The first record with an id never returns to `Pending` once it has been executed. */
  lemma FirstIsOver(tasks: seq<Task>, fates: nat -> Fates, m: nat, n: nat, i: nat)
    requires i < |tasks| && IsFirst(tasks, i) && m < n && RunsIn(tasks, fates, m, i)
    ensures OverAt(tasks, fates, n, i)
  {
    var over: nat -> bool := (k: nat) => OverAt(tasks, fates, k, i);
    forall k: nat ensures StaysTrue(over, k) {
      NextPass(tasks, fates, k, i);
    }
    NextPass(tasks, fates, m, i);
    HoldsForever(over, m + 1, n);
  }

  /** In every run over any ledger: a record is executed in two passes exactly when it is pending behind
      another record with its id and its dependencies have completed before both. */
  lemma ExecutedTwiceIff(tasks: seq<Task>, fates: nat -> Fates, m: nat, n: nat, i: nat)
    requires i < |tasks| && m < n
    ensures RunsIn(tasks, fates, m, i) && RunsIn(tasks, fates, n, i) <==>
            && !IsFirst(tasks, i) && tasks[i].status == Pending
            && DependenciesCompleted(LedgerPasses(tasks, fates, m), tasks[i])
            && DependenciesCompleted(LedgerPasses(tasks, fates, n), tasks[i])
  {
    if IsFirst(tasks, i) {
      if RunsIn(tasks, fates, m, i) {
        FirstIsOver(tasks, fates, m, n, i);
      }
    } else {
      ShadowedRuns(tasks, fates, m, i);
      ShadowedRuns(tasks, fates, n, i);
    }
  }

  lemma ShadowedRuns(tasks: seq<Task>, fates: nat -> Fates, n: nat, i: nat)
    requires i < |tasks| && !IsFirst(tasks, i)
    ensures RunsIn(tasks, fates, n, i) <==>
            tasks[i].status == Pending && DependenciesCompleted(LedgerPasses(tasks, fates, n), tasks[i])
  {
    ShadowedStays(tasks, fates, n, i);
    assert CompletedIds(LedgerPasses(tasks, fates, n)) <= Ids(LedgerPasses(tasks, fates, n));
  }

  /** No run executes the record at position `i` in two passes. */
  ghost predicate RunsAtMostOnce(tasks: seq<Task>, i: nat)
    requires i < |tasks|
  {
    forall fates: nat -> Fates, m: nat, n: nat :: m < n ==> !(RunsIn(tasks, fates, m, i) && RunsIn(tasks, fates, n, i))
  }

  /** A record that is the first with its id is executed at most once in every run; a pending record
      without dependencies only then. */
  lemma RunsAtMostOnceIff(tasks: seq<Task>, i: nat)
    requires i < |tasks|
    ensures IsFirst(tasks, i) ==> RunsAtMostOnce(tasks, i)
    ensures tasks[i].status == Pending && tasks[i].dependsOn == [] ==> (RunsAtMostOnce(tasks, i) <==> IsFirst(tasks, i))
  {
    if IsFirst(tasks, i) {
      forall fates: nat -> Fates, m: nat, n: nat | m < n
        ensures !(RunsIn(tasks, fates, m, i) && RunsIn(tasks, fates, n, i))
      {
        ExecutedTwiceIff(tasks, fates, m, n, i);
      }
    } else if tasks[i].status == Pending && tasks[i].dependsOn == [] {
      var fates: nat -> Fates := _ => _ => Fate(true, false, Harness.Ok, true, 0, 0);
      ExecutedTwiceIff(tasks, fates, 0, 1, i);
      assert RunsIn(tasks, fates, 0, i) && RunsIn(tasks, fates, 1, i);
    }
  }

  const TWIN := Task("t", Pending, 0, None, None, None, None, [])

  /** Two pending records with one id: the second is executed in every pass, however the runs turn out. */
  lemma TwinRunsInEveryPass(fates: nat -> Fates, n: nat)
    ensures RunsIn([TWIN, TWIN], fates, n, 1)
  {
    assert !IsFirst([TWIN, TWIN], 1) by {
      assert [TWIN, TWIN][0].id == [TWIN, TWIN][1].id;
    }
    ShadowedRuns([TWIN, TWIN], fates, n, 1);
  }
}
