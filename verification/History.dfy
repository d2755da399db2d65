/** What a state says about the history that led to it: a fact that some steps
    make true and others make false holds exactly if it was made true and has
    not been made false since. */
module History {

  /** Step `i` made the fact true, and no later step made it false. */
  ghost predicate SetLast<S, O>(run: seq<O> -> S, ops: seq<O>, sets: (S, O) -> bool, clears: (S, O) -> bool, i: nat)
  {
    && i < |ops| && sets(run(ops[..i]), ops[i])
    && forall j :: i < j < |ops| ==> !clears(run(ops[..j]), ops[j])
  }

  ghost predicate Since<S, O>(run: seq<O> -> S, ops: seq<O>, sets: (S, O) -> bool, clears: (S, O) -> bool)
  {
    exists i :: SetLast(run, ops, sets, clears, i)
  }

  ghost predicate Never<S, O>(run: seq<O> -> S, ops: seq<O>, clears: (S, O) -> bool)
  {
    forall j :: 0 <= j < |ops| ==> !clears(run(ops[..j]), ops[j])
  }

  /** One step makes the fact true, or leaves it true, or it is false. */
  ghost predicate Follows<S, O>(before: S, op: O, after: S, fact: S -> bool,
                                sets: (S, O) -> bool, clears: (S, O) -> bool)
  {
    fact(after) <==> sets(before, op) || (fact(before) && !clears(before, op))
  }

  lemma {:induction false} SinceLaw<S, O>(run: seq<O> -> S, ops: seq<O>, fact: S -> bool,
                                          sets: (S, O) -> bool, clears: (S, O) -> bool)
    requires forall k :: 0 <= k < |ops| ==> Follows(run(ops[..k]), ops[k], run(ops[..k + 1]), fact, sets, clears)
    ensures fact(run(ops)) <==> Since(run, ops, sets, clears) || (fact(run([])) && Never(run, ops, clears))
  {
    if ops == [] {
      assert !Since(run, ops, sets, clears);
    } else {
      var n := |ops| - 1;
      var front, last := ops[..n], ops[n];
      assert ops[..n + 1] == ops;
      forall k | 0 <= k < n ensures Follows(run(front[..k]), front[k], run(front[..k + 1]), fact, sets, clears) {
        assert front[..k] == ops[..k] && front[..k + 1] == ops[..k + 1];
      }
      SinceLaw(run, front, fact, sets, clears);
      Extended(run, ops, sets, clears);
      assert Follows(run(front), last, run(ops), fact, sets, clears);
    }
  }

  /** How both conditions change with one more step. */
  lemma Extended<S, O>(run: seq<O> -> S, ops: seq<O>, sets: (S, O) -> bool, clears: (S, O) -> bool)
    requires ops != []
    ensures var front, last := ops[..|ops| - 1], ops[|ops| - 1];
      && (Since(run, ops, sets, clears) <==>
            sets(run(front), last) || (Since(run, front, sets, clears) && !clears(run(front), last)))
      && (Never(run, ops, clears) <==> Never(run, front, clears) && !clears(run(front), last))
  {
    var n := |ops| - 1;
    var front, last := ops[..n], ops[n];
    forall j | 0 <= j < n ensures front[..j] == ops[..j] && front[j] == ops[j] {
    }
    if sets(run(front), last) {
      assert SetLast(run, ops, sets, clears, n);
    }
    forall i | 0 <= i < n
      ensures SetLast(run, ops, sets, clears, i) <==>
              SetLast(run, front, sets, clears, i) && !clears(run(front), last)
    {
      ExtendedAt(run, ops, sets, clears, i);
    }
    if Since(run, front, sets, clears) && !clears(run(front), last) {
      var i :| SetLast(run, front, sets, clears, i);
      assert SetLast(run, ops, sets, clears, i);
    }
  }

  lemma ExtendedAt<S, O>(run: seq<O> -> S, ops: seq<O>, sets: (S, O) -> bool, clears: (S, O) -> bool, i: nat)
    requires i < |ops| - 1
    ensures var front := ops[..|ops| - 1];
      SetLast(run, ops, sets, clears, i) <==>
      SetLast(run, front, sets, clears, i) && !clears(run(front), ops[|ops| - 1])
  {
    var n := |ops| - 1;
    var front := ops[..n];
    forall j | 0 <= j < n ensures front[..j] == ops[..j] && front[j] == ops[j] {
    }
    if SetLast(run, front, sets, clears, i) && !clears(run(front), ops[n]) {
      forall j | i < j < |ops| ensures !clears(run(ops[..j]), ops[j]) {
        if j < n { assert front[..j] == ops[..j] && !clears(run(front[..j]), front[j]); }
      }
    }
    if SetLast(run, ops, sets, clears, i) {
      forall j | i < j < n ensures !clears(run(front[..j]), front[j]) {
        assert front[..j] == ops[..j];
      }
      assert ops[..n] == front && i < n < |ops|;
    }
  }
}
