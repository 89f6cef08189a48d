/** The stream of adds and the stream of deletes as two goroutines whose reads and writes interleave.
    Each query to Mongo is one atomic step. */
module OutputRaces {
  import opened SpendableOutputs
  import opened OutputTheorems

  /** Where the goroutine of the adds is, and the message it is working on. */
  datatype AddPc =
    | AddIdle
    | ReadSpent(out: SpOut)
    | ReadSpendable(out: SpOut)
    | Insert(out: SpOut)
    | UpdateStatus(out: SpOut)

  /** Where the goroutine of the deletes is; `attempt` counts the rounds of its loop. */
  datatype DeletePc =
    | DeleteIdle
    | InsertSpent(key: Key, attempt: nat)
    | Remove(key: Key, attempt: nat)

  datatype State = State(spendable: seq<SpOut>, spent: set<Key>, add: AddPc, del: DeletePc)

  datatype Action = ReceiveAdd(out: SpOut) | AddStep | ReceiveDelete(key: Key) | DeleteStep

  predicate DeletePending(s: State, k: Key) {
    !s.del.DeleteIdle? && s.del.key == k
  }

  function WithStatus(outs: seq<SpOut>, out: SpOut): seq<SpOut> {
    var i := IndexOfKey(outs, out.key);
    if i == |outs| then outs else outs[i := outs[i].(txStatus := out.txStatus)]
  }

  function StepAdd(s: State): State {
    match s.add
    case AddIdle => s
    case ReadSpent(out) => s.(add := if out.key in s.spent then AddIdle else ReadSpendable(out))
    case ReadSpendable(out) =>
      s.(add := if IndexOfKey(s.spendable, out.key) == |s.spendable| then Insert(out) else UpdateStatus(out))
    case Insert(out) =>
      s.(spendable := s.spendable + [out], add := AddIdle)
    case UpdateStatus(out) => s.(spendable := WithStatus(s.spendable, out), add := AddIdle)
  }

  function StepDelete(s: State): State {
    match s.del
    case DeleteIdle => s
    case InsertSpent(k, n) => s.(spent := s.spent + {k}, del := Remove(k, n))
    case Remove(k, n) =>
      var i := IndexOfKey(s.spendable, k);
      if i < |s.spendable| then
        s.(spendable := s.spendable[..i] + s.spendable[i + 1..], del := DeleteIdle)
      else if n + 1 >= DELETE_ATTEMPTS then s.(del := DeleteIdle)
      else s.(del := InsertSpent(k, n + 1))
  }

  /** A goroutine receives its next message only when it is idle; the scheduler picks any action. */
  function Next(s: State, a: Action): State {
    match a
    case ReceiveAdd(out) => if s.add.AddIdle? then s.(add := ReadSpent(out)) else s
    case AddStep => StepAdd(s)
    case ReceiveDelete(k) => if s.del.DeleteIdle? then s.(del := InsertSpent(k, 0)) else s
    case DeleteStep => StepDelete(s)
  }

  function After(s: State, actions: seq<Action>): State {
    if actions == [] then s else Next(After(s, actions[..|actions| - 1]), actions[|actions| - 1])
  }

  ghost predicate Quiet(s: State) { s.add.AddIdle? && s.del.DeleteIdle? }

  ghost function Overlap(s: State): set<Key> { KeysOf(s.spendable) * s.spent }

  ghost predicate Orderly(s: State) {
    && OneRecordPerKey(s.spendable)
    && (s.add.Insert? ==> s.add.out.key !in KeysOf(s.spendable))
    && (!s.del.DeleteIdle? ==> s.del.attempt < DELETE_ATTEMPTS)
    && (s.del.Remove? ==> s.del.key in s.spent)
  }

  /** A state to start from: a key that is spendable and spent is about to be removed. */
  ghost predicate Clean(s: State) {
    Orderly(s) && forall k :: k in Overlap(s) ==> DeletePending(s, k)
  }

  // ---------------------------------------------------------------- late inserts and removals in a schedule

  /** The action inserts k although its tombstone is there and no delete of it is under way. */
  ghost predicate InsertsLate(s: State, a: Action, k: Key) {
    a.AddStep? && s.add.Insert? && s.add.out.key == k && k in s.spent && !DeletePending(s, k)
  }

  /** The action is a remove attempt that finds k. */
  ghost predicate Removes(s: State, a: Action, k: Key) {
    a.DeleteStep? && s.del.Remove? && s.del.key == k && k in KeysOf(s.spendable)
  }

  ghost predicate InsertedLateAt(s: State, actions: seq<Action>, k: Key, n: nat) {
    n < |actions| && InsertsLate(After(s, actions[..n]), actions[n], k)
  }

  /** No action of the schedule from number `from` on removes k. */
  ghost predicate NotRemovedFrom(s: State, actions: seq<Action>, k: Key, from: nat) {
    |actions| <= from || (
      var n := |actions| - 1;
      NotRemovedFrom(s, actions[..n], k, from) && !Removes(After(s, actions[..n]), actions[n], k))
  }

  /** Action n inserts k late, and no later one removes it. */
  ghost predicate LeftBehindAt(s: State, actions: seq<Action>, k: Key, n: nat) {
    InsertedLateAt(s, actions, k, n) && NotRemovedFrom(s, actions, k, n + 1)
  }

  ghost predicate LeftBehind(s: State, actions: seq<Action>, k: Key) {
    exists n :: LeftBehindAt(s, actions, k, n)
  }

  lemma LastActionDecides(s: State, actions: seq<Action>, k: Key)
    requires actions != []
    ensures var before, last := After(s, actions[..|actions| - 1]), actions[|actions| - 1];
            LeftBehind(s, actions, k) <==>
              InsertsLate(before, last, k) || (LeftBehind(s, actions[..|actions| - 1], k) && !Removes(before, last, k))
  {
    var m := |actions| - 1;
    var init := actions[..m];
    if InsertsLate(After(s, init), actions[m], k) { assert LeftBehindAt(s, actions, k, m); }
    if LeftBehind(s, init, k) && !Removes(After(s, init), actions[m], k) {
      var n: nat :| LeftBehindAt(s, init, k, n);
      LeftBehindSplits(s, actions, k, n);
    }
    if LeftBehind(s, actions, k) && !InsertsLate(After(s, init), actions[m], k) {
      var n: nat :| LeftBehindAt(s, actions, k, n);
      LeftBehindSplits(s, actions, k, n);
    }
  }

  lemma LeftBehindSplits(s: State, actions: seq<Action>, k: Key, n: nat)
    requires n + 1 < |actions|
    ensures LeftBehindAt(s, actions, k, n) <==>
            LeftBehindAt(s, actions[..|actions| - 1], k, n)
              && !Removes(After(s, actions[..|actions| - 1]), actions[|actions| - 1], k)
  {
    assert actions[..|actions| - 1][..n] == actions[..n];
  }

  // ---------------------------------------------------------------- every step

  lemma AddStepOrderly(s: State)
    requires Orderly(s)
    ensures Orderly(StepAdd(s))
    ensures KeysOf(StepAdd(s).spendable) == KeysOf(s.spendable) + (if s.add.Insert? then {s.add.out.key} else {})
  {
    match s.add
    case AddIdle =>
    case ReadSpent(out) =>
    case ReadSpendable(out) => IndexFinds(s.spendable, out.key);
    case Insert(out) =>
    case UpdateStatus(out) => SameKeys(s.spendable, StepAdd(s).spendable);
  }

  lemma DeleteStepOrderly(s: State)
    requires Orderly(s)
    ensures Orderly(StepDelete(s))
    ensures KeysOf(StepDelete(s).spendable) == KeysOf(s.spendable) - (if s.del.Remove? then {s.del.key} else {})
    ensures s.del.Remove? && s.del.key in KeysOf(s.spendable) ==> StepDelete(s).del.DeleteIdle?
  {
    match s.del
    case DeleteIdle =>
    case InsertSpent(k, n) =>
    case Remove(k, n) =>
      var i := IndexOfKey(s.spendable, k);
      IndexFinds(s.spendable, k);
      if i < |s.spendable| { RemoveAt(s.spendable, i); }
  }

  lemma {:induction false} AlwaysOrderly(s: State, actions: seq<Action>)
    requires Orderly(s)
    ensures Orderly(After(s, actions))
  {
    if actions != [] {
      AlwaysOrderly(s, actions[..|actions| - 1]);
      NextOrderly(After(s, actions[..|actions| - 1]), actions[|actions| - 1]);
    }
  }

  lemma NextOrderly(s: State, a: Action)
    requires Orderly(s)
    ensures Orderly(Next(s, a))
  {
    match a
    case AddStep => AddStepOrderly(s);
    case DeleteStep => DeleteStepOrderly(s);
    case ReceiveAdd(_) =>
    case ReceiveDelete(_) =>
  }

  /** What one action does to a key that is spendable and spent without a delete under way. */
  lemma AbandonedStep(s: State, a: Action, k: Key)
    requires Orderly(s)
    ensures var t := Next(s, a);
            && (InsertsLate(s, a, k) ==> k in Overlap(t))
            && (k in Overlap(s) && !Removes(s, a, k) ==> k in Overlap(t))
            && (Removes(s, a, k) ==> k !in Overlap(t))
            && (k in Overlap(t) && !DeletePending(t, k) ==>
                   InsertsLate(s, a, k) || (k in Overlap(s) && !DeletePending(s, k)))
  {
    match a
    case AddStep => AddStepOrderly(s);
    case DeleteStep => DeleteStepOrderly(s);
    case ReceiveAdd(_) =>
    case ReceiveDelete(_) =>
  }

  /** In every interleaving a key that was left behind is spendable and spent, and a key that is both was left
      behind or is about to be removed. */
  lemma {:induction false} OverlapExplained(s: State, actions: seq<Action>, k: Key)
    requires Clean(s)
    ensures LeftBehind(s, actions, k) ==> k in Overlap(After(s, actions))
    ensures k in Overlap(After(s, actions)) ==> LeftBehind(s, actions, k) || DeletePending(After(s, actions), k)
  {
    if actions != [] {
      var init := actions[..|actions| - 1];
      OverlapExplained(s, init, k);
      AlwaysOrderly(s, init);
      LastActionDecides(s, actions, k);
      AbandonedStep(After(s, init), actions[|actions| - 1], k);
    }
  }

  /** When both goroutines are idle again, whatever the interleaving, the collections are disjoint exactly
      when the schedule left no key behind: every insert of a key whose tombstone is there and whose delete is
      over is followed by a successful remove of another delete of the key. */
  lemma DisjointIff(s: State, actions: seq<Action>)
    requires Clean(s) && Quiet(After(s, actions))
    ensures KeysOf(After(s, actions).spendable) !! After(s, actions).spent <==> forall k :: !LeftBehind(s, actions, k)
  {
    var t := After(s, actions);
    forall k ensures k in KeysOf(t.spendable) && k in t.spent <==> LeftBehind(s, actions, k) {
      OverlapExplained(s, actions, k);
      assert k in Overlap(t) <==> k in KeysOf(t.spendable) && k in t.spent;
    }
  }

  /** No insert happens after the last remove attempt of the delete it races with. */
  ghost predicate NoLateInsert(s: State, actions: seq<Action>) {
    forall n, k :: !InsertedLateAt(s, actions, k, n)
  }

  /** If every insert precedes a remove attempt of the delete it races with, the collections end disjoint. */
  lemma InsertBeforeLastRemoveIsEnough(s: State, actions: seq<Action>)
    requires Clean(s) && NoLateInsert(s, actions) && Quiet(After(s, actions))
    ensures KeysOf(After(s, actions).spendable) !! After(s, actions).spent
  {
    DisjointIff(s, actions);
  }

  // ---------------------------------------------------------------- the retry loop ends

  /** Steps the delete loop can still take. */
  function StepsLeft(d: DeletePc): int {
    match d
    case DeleteIdle => 0
    case InsertSpent(_, n) => 2 * (DELETE_ATTEMPTS - n)
    case Remove(_, n) => 2 * (DELETE_ATTEMPTS - n) - 1
  }

  function DeleteSteps(actions: seq<Action>): nat {
    if actions == [] then 0
    else DeleteSteps(actions[..|actions| - 1]) + (if actions[|actions| - 1].DeleteStep? then 1 else 0)
  }

  /** Eight steps of its own, among any steps of the adder, finish a delete that started: at most four
      rounds of insert and remove. */
  lemma {:induction false} DeleteEnds(s: State, actions: seq<Action>)
    requires Orderly(s) && !s.del.DeleteIdle?
    requires forall a :: a in actions ==> !a.ReceiveDelete?
    ensures StepsLeft(After(s, actions).del) <= StepsLeft(s.del) - DeleteSteps(actions)
            || After(s, actions).del.DeleteIdle?
    ensures DeleteSteps(actions) >= 2 * DELETE_ATTEMPTS ==> After(s, actions).del.DeleteIdle?
  {
    if actions != [] {
      var init := actions[..|actions| - 1];
      DeleteEnds(s, init);
      AlwaysOrderly(s, init);
      assert actions[|actions| - 1] in actions;
    }
    AlwaysOrderly(s, actions);
  }

  /** Once the key of a pending remove attempt is spendable, the attempt succeeds whatever the adder does
      before it: the delete ends, and the key is spent and not spendable. */
  lemma RemoveAfterInsertSucceeds(s: State, actions: seq<Action>)
    requires Orderly(s) && s.del.Remove? && s.del.key in KeysOf(s.spendable)
    requires forall a :: a in actions ==> !a.DeleteStep?
    ensures var t := StepDelete(After(s, actions));
            After(s, actions).del == s.del && t.del.DeleteIdle? && s.del.key !in KeysOf(t.spendable)
              && s.del.key in t.spent
  {
    DeleteWaits(s, actions);
    DeleteStepOrderly(After(s, actions));
  }

  /** The adder neither moves the delete on nor takes its key away. */
  lemma {:induction false} DeleteWaits(s: State, actions: seq<Action>)
    requires Orderly(s) && s.del.Remove? && s.del.key in KeysOf(s.spendable)
    requires forall a :: a in actions ==> !a.DeleteStep?
    ensures Orderly(After(s, actions)) && After(s, actions).del == s.del
            && s.del.key in KeysOf(After(s, actions).spendable)
  {
    if actions != [] {
      var init, last := actions[..|actions| - 1], actions[|actions| - 1];
      assert actions == init + [last];
      DeleteWaits(s, init);
      DeleteWaitsOnce(After(s, init), last);
    }
  }

  lemma DeleteWaitsOnce(s: State, a: Action)
    requires Orderly(s) && s.del.Remove? && s.del.key in KeysOf(s.spendable) && !a.DeleteStep?
    ensures Orderly(Next(s, a)) && Next(s, a).del == s.del && s.del.key in KeysOf(Next(s, a).spendable)
  {
    NextOrderly(s, a);
    if a.AddStep? { AddStepOrderly(s); }
  }

  // ---------------------------------------------------------------- the bad schedule

  const START := State([], {}, AddIdle, DeleteIdle)

  /** The add reads the tombstones, the delete runs through its four rounds, then the add inserts. */
  function SlowAdd(out: SpOut): seq<Action> {
    [ReceiveAdd(out), AddStep, ReceiveDelete(out.key),
     DeleteStep, DeleteStep, DeleteStep, DeleteStep, DeleteStep, DeleteStep, DeleteStep, DeleteStep,
     AddStep, AddStep]
  }

  lemma OneMore(s: State, actions: seq<Action>, n: nat)
    requires n < |actions|
    ensures After(s, actions[..n + 1]) == Next(After(s, actions[..n]), actions[n])
  {
    assert actions[..n + 1][..n] == actions[..n];
  }

  function Iterated(s: State, n: nat): State {
    if n == 0 then s else StepDelete(Iterated(s, n - 1))
  }

  /** A round that finds nothing to remove. */
  lemma EmptyRound(s: State, k: Key, n: nat)
    requires s.del == InsertSpent(k, n) && k !in KeysOf(s.spendable)
    ensures Iterated(s, 2) == s.(spent := s.spent + {k},
                                  del := if n + 1 >= DELETE_ATTEMPTS then DeleteIdle else InsertSpent(k, n + 1))
  {
    IndexFinds(s.spendable, k);
    assert Iterated(s, 1) == StepDelete(s);
  }

  lemma {:induction false} IteratedTwice(s: State, m: nat, n: nat)
    ensures Iterated(s, m + n) == Iterated(Iterated(s, m), n)
  {
    if n > 0 { IteratedTwice(s, m, n - 1); }
  }

  lemma FourEmptyRounds(s: State, k: Key)
    requires s.del == InsertSpent(k, 0) && k !in KeysOf(s.spendable)
    ensures Iterated(s, 8) == s.(spent := s.spent + {k}, del := DeleteIdle)
  {
    var t := s.(spent := s.spent + {k});
    EmptyRound(s, k, 0);
    EmptyRound(t.(del := InsertSpent(k, 1)), k, 1);
    EmptyRound(t.(del := InsertSpent(k, 2)), k, 2);
    EmptyRound(t.(del := InsertSpent(k, 3)), k, 3);
    IteratedTwice(s, 2, 2);
    IteratedTwice(s, 4, 2);
    IteratedTwice(s, 6, 2);
    assert t.spent + {k} == t.spent;
  }

  lemma {:induction false} RunOfDeletes(s: State, actions: seq<Action>, from: nat, n: nat)
    requires from + n <= |actions| && forall i :: from <= i < from + n ==> actions[i] == DeleteStep
    ensures After(s, actions[..from + n]) == Iterated(After(s, actions[..from]), n)
  {
    if n > 0 {
      RunOfDeletes(s, actions, from, n - 1);
      OneMore(s, actions, from + n - 1);
    }
  }

  function Raced(out: SpOut): State {
    START.(add := ReadSpendable(out), del := InsertSpent(out.key, 0))
  }

  lemma RaceStarts(out: SpOut)
    ensures After(START, SlowAdd(out)[..3]) == Raced(out)
  {
    var a := SlowAdd(out);
    OneMore(START, a, 0);
    OneMore(START, a, 1);
    OneMore(START, a, 2);
  }

  lemma RaceEnds(out: SpOut)
    requires After(START, SlowAdd(out)[..11]) == Raced(out).(spent := {out.key}, del := DeleteIdle)
    ensures var end := After(START, SlowAdd(out)); end.spendable == [out] && end.spent == {out.key} && Quiet(end)
  {
    var a := SlowAdd(out);
    OneMore(START, a, 11);
    OneMore(START, a, 12);
    assert a[..13] == a;
  }

  /** Not every schedule is good: this schedule leaves a spent output spendable. */
  lemma SlowAddLeavesSpentOutput(out: SpOut)
    ensures Clean(START) && Quiet(After(START, SlowAdd(out)))
    ensures out.key in KeysOf(After(START, SlowAdd(out)).spendable) && out.key in After(START, SlowAdd(out)).spent
  {
    RaceStarts(out);
    RunOfDeletes(START, SlowAdd(out), 3, 8);
    FourEmptyRounds(Raced(out), out.key);
    assert {} + {out.key} == {out.key};
    RaceEnds(out);
    assert out in After(START, SlowAdd(out)).spendable;
  }

  // ---------------------------------------------------------------- alone, the steps are the atomic events

  /** Three steps of the adder that nothing comes between are one atomic add. */
  lemma AddAloneIsAtomic(s: State, out: SpOut, o: Outputs)
    requires s.add == ReadSpent(out) && o.spendable == s.spendable && SpentKeys(o.spent) == s.spent
    ensures var t := StepAdd(StepAdd(StepAdd(s)));
            && t.add == AddIdle && t.del == s.del
            && t.spendable == AddOut(o, out).spendable && t.spent == SpentKeys(AddOut(o, out).spent)
  {
    assert out.key in o.spent <==> out.key in s.spent;
  }

  /** Eight steps of the deleter that nothing comes between are one atomic delete. */
  lemma DeleteAloneIsAtomic(s: State, k: Key, o: Outputs)
    requires Orderly(s) && s.del == InsertSpent(k, 0) && o.spendable == s.spendable && SpentKeys(o.spent) == s.spent
    ensures var t := Iterated(s, 8);
            && t.del == DeleteIdle && t.add == s.add
            && t.spendable == DeleteOut(o, k).spendable && t.spent == SpentKeys(DeleteOut(o, k).spent)
  {
    IndexFinds(s.spendable, k);
    if k in KeysOf(s.spendable) {
      FoundRound(s, k);
      IteratedTwice(s, 2, 6);
      IdleStays(Iterated(s, 2), 6);
      assert SpentKeys(o.spent + [k]) == s.spent + {k};
    } else {
      FourEmptyRounds(s, k);
      assert SpentKeys(o.spent + Repeated(k, DELETE_ATTEMPTS)) == s.spent + {k} by {
        assert Repeated(k, DELETE_ATTEMPTS)[0] == k;
      }
    }
  }

  lemma FoundRound(s: State, k: Key)
    requires s.del == InsertSpent(k, 0) && k in KeysOf(s.spendable)
    ensures var i := IndexOfKey(s.spendable, k);
            && i < |s.spendable|
            && Iterated(s, 2) == s.(spendable := s.spendable[..i] + s.spendable[i + 1..],
                                    spent := s.spent + {k}, del := DeleteIdle)
  {
    IndexFinds(s.spendable, k);
    assert Iterated(s, 1) == StepDelete(s);
  }

  lemma {:induction false} IdleStays(s: State, n: nat)
    requires s.del == DeleteIdle
    ensures Iterated(s, n) == s
  {
    if n > 0 { IdleStays(s, n - 1); }
  }
}
