/** The outer retry loop of backend/agents/workflow.py (lines 29-62), for any
    way of running one attempt. An attempt ends in one of four ways; an
    export error or an unverified file consumes the attempt and the next one
    starts where it stopped, a verified file or an uncaught error ends the
    loop, and after the last attempt the loop gives up. The loop itself is
    independent of what an attempt does, so its facts are proved once here
    for every step function. */
module Retry {
  /** `max_retries` */
  const MaxRetries: nat := 3

  /** How one attempt ended. */
  datatype AttemptEnd =
    | Aborted(error: string)       // analysis, images or formatting raised
    | ExportFailed(error: string)  // `create_pdf` raised
    | Unverified(path: string)     // the file is missing or empty
    | Verified(path: string)       // the file exists and is not empty

  /** Where the next attempt starts: the next model call, the next
      generator call, and the disk as the previous attempts left it. */
  datatype Cursor = Cursor(llm: nat, svg: nat, disk: map<string, nat>)

  datatype Step = Step(end: AttemptEnd, next: Cursor)

  /** How the loop ended: returning the verified path, propagating an
      error, or falling out of the `for` after the last attempt. */
  datatype Outcome = Succeeded(path: string) | Raised(error: string) | OutOfAttempts

  /** The loop's outcome, how each attempt ended, and the disk afterwards. */
  datatype Trace = Trace(outcome: Outcome, trail: seq<AttemptEnd>, disk: map<string, nat>)

  /** An attempt that ends this way ends the loop. */
  predicate Final(end: AttemptEnd) {
    end.Aborted? || end.Verified?
  }

  /** The loop from attempt `attempt` on. */
  function Loop(step: (nat, Cursor) -> Step, attempt: nat, at: Cursor): (r: Trace)
    requires attempt <= MaxRetries
    ensures |r.trail| <= MaxRetries - attempt
    ensures attempt < MaxRetries ==> |r.trail| >= 1
    decreases MaxRetries - attempt
  {
    if attempt == MaxRetries then Trace(OutOfAttempts, [], at.disk)
    else
      var s := step(attempt, at);
      match s.end
      case Aborted(e) => Trace(Raised(e), [s.end], s.next.disk)
      case Verified(path) => Trace(Succeeded(path), [s.end], s.next.disk)
      case _ =>
        var rest := Loop(step, attempt + 1, s.next);
        Trace(rest.outcome, [s.end] + rest.trail, rest.disk)
  }

  /** Only the last attempt of a trail can be final, and the first is
      `first`. */
  predicate Leads(r: Trace, first: AttemptEnd) {
    && |r.trail| > 0
    && r.trail[0] == first
    && (forall i :: 0 <= i < |r.trail| - 1 ==> !Final(r.trail[i]))
  }

  /** The outcome is the one the last attempt decided: its verified path,
      its error, or giving up once all `budget` attempts were spent. */
  predicate EndsByLast(r: Trace, budget: nat) {
    && |r.trail| > 0
    && var last := r.trail[|r.trail| - 1];
    && (last.Verified? <==> r.outcome.Succeeded?)
    && (last.Verified? ==> r.outcome == Succeeded(last.path))
    && (last.Aborted? ==> r.outcome == Raised(last.error))
    && (!Final(last) ==> r.outcome == OutOfAttempts && |r.trail| == budget)
  }

  /** What the loop promises whatever an attempt does: the first attempt
      is the step run from the starting cursor; only the last attempt can be
      final; the loop returns a path exactly when the last attempt verified,
      and it is that attempt's path; an aborted attempt's error propagates;
      otherwise every attempt was spent and the loop gives up. */
  lemma LoopFacts(step: (nat, Cursor) -> Step, attempt: nat, at: Cursor)
    requires attempt < MaxRetries
    ensures Leads(Loop(step, attempt, at), step(attempt, at).end)
    ensures EndsByLast(Loop(step, attempt, at), MaxRetries - attempt)
  {
    LoopLeads(step, attempt, at);
    LoopEndsByLast(step, attempt, at);
  }

  lemma {:induction false} LoopLeads(step: (nat, Cursor) -> Step, attempt: nat, at: Cursor)
    requires attempt < MaxRetries
    ensures Leads(Loop(step, attempt, at), step(attempt, at).end)
    decreases MaxRetries - attempt
  {
    var s := step(attempt, at);
    var r := Loop(step, attempt, at);
    if !Final(s.end) && attempt + 1 < MaxRetries {
      LoopLeads(step, attempt + 1, s.next);
      var rest := Loop(step, attempt + 1, s.next);
      assert r.trail == [s.end] + rest.trail;
      forall i | 0 <= i < |r.trail| - 1 ensures !Final(r.trail[i]) {
        if i > 0 {
          assert r.trail[i] == rest.trail[i - 1];
        }
      }
    }
  }

  lemma {:induction false} LoopEndsByLast(step: (nat, Cursor) -> Step, attempt: nat, at: Cursor)
    requires attempt < MaxRetries
    ensures EndsByLast(Loop(step, attempt, at), MaxRetries - attempt)
    decreases MaxRetries - attempt
  {
    var s := step(attempt, at);
    var r := Loop(step, attempt, at);
    if Final(s.end) {
      assert r.trail == [s.end];
    } else if attempt + 1 == MaxRetries {
      var rest := Loop(step, attempt + 1, s.next);
      assert rest.trail == [] && rest.outcome == OutOfAttempts;
      assert r.outcome == rest.outcome && r.trail == [s.end] + rest.trail;
    } else {
      LoopEndsByLast(step, attempt + 1, s.next);
      var rest := Loop(step, attempt + 1, s.next);
      assert r.outcome == rest.outcome && r.trail == [s.end] + rest.trail;
      assert r.trail[|r.trail| - 1] == rest.trail[|rest.trail| - 1];
    }
  }

  /** The cursor attempt `attempt + k` starts from. */
  function CursorAt(step: (nat, Cursor) -> Step, attempt: nat, at: Cursor, k: nat): Cursor
    decreases k
  {
    if k == 0 then at else CursorAt(step, attempt + 1, step(attempt, at).next, k - 1)
  }

  /** Attempt `k` of the trail is the step run from the cursor the attempts
      before it handed over. */
  lemma {:induction false} LoopTrailAt(step: (nat, Cursor) -> Step, attempt: nat, at: Cursor, k: nat)
    requires attempt <= MaxRetries
    requires k < |Loop(step, attempt, at).trail|
    ensures Loop(step, attempt, at).trail[k] == step(attempt + k, CursorAt(step, attempt, at, k)).end
    decreases k
  {
    var s := step(attempt, at);
    var r := Loop(step, attempt, at);
    if k == 0 {
      assert r.trail[0] == s.end;
      assert CursorAt(step, attempt, at, 0) == at;
    } else {
      var rest := Loop(step, attempt + 1, s.next);
      assert r.trail == [s.end] + rest.trail;
      LoopTrailAt(step, attempt + 1, s.next, k - 1);
      assert r.trail[k] == rest.trail[k - 1];
      assert CursorAt(step, attempt, at, k) == CursorAt(step, attempt + 1, s.next, k - 1);
    }
  }

  /** The cursor after attempt `k` is what that attempt handed over. */
  lemma {:induction false} CursorAtNext(step: (nat, Cursor) -> Step, attempt: nat, at: Cursor, k: nat)
    ensures CursorAt(step, attempt, at, k + 1) == step(attempt + k, CursorAt(step, attempt, at, k)).next
    decreases k
  {
    if k > 0 {
      CursorAtNext(step, attempt + 1, step(attempt, at).next, k - 1);
    }
  }

  /** The disk the loop leaves is the one its last attempt handed over. */
  lemma {:induction false} LoopDisk(step: (nat, Cursor) -> Step, attempt: nat, at: Cursor)
    requires attempt <= MaxRetries
    ensures var r := Loop(step, attempt, at); r.disk == CursorAt(step, attempt, at, |r.trail|).disk
    decreases MaxRetries - attempt
  {
    var r := Loop(step, attempt, at);
    if attempt < MaxRetries {
      var s := step(attempt, at);
      if !Final(s.end) {
        var rest := Loop(step, attempt + 1, s.next);
        assert r.disk == rest.disk && |r.trail| == |rest.trail| + 1;
        LoopDisk(step, attempt + 1, s.next);
        assert CursorAt(step, attempt, at, |r.trail|) == CursorAt(step, attempt + 1, s.next, |rest.trail|);
      } else {
        assert r.disk == s.next.disk && |r.trail| == 1;
        assert CursorAt(step, attempt, at, 1) == CursorAt(step, attempt + 1, s.next, 0);
      }
    } else {
      assert r.trail == [] && r.disk == at.disk;
    }
  }

  /** If no attempt removes a file, no file present before the loop is
      missing after it. */
  lemma {:induction false} LoopKeepsFiles(step: (nat, Cursor) -> Step, attempt: nat, at: Cursor)
    requires attempt <= MaxRetries
    requires forall k: nat, c: Cursor :: step(k, c).next.disk.Keys >= c.disk.Keys
    ensures Loop(step, attempt, at).disk.Keys >= at.disk.Keys
    decreases MaxRetries - attempt
  {
    var r := Loop(step, attempt, at);
    if attempt < MaxRetries {
      var s := step(attempt, at);
      assert s.next.disk.Keys >= at.disk.Keys;
      if !Final(s.end) {
        assert r.disk == Loop(step, attempt + 1, s.next).disk;
        LoopKeepsFiles(step, attempt + 1, s.next);
      } else {
        assert r.disk == s.next.disk;
      }
    }
  }

  /** The last attempt of the trail is the step run from the cursor the
      attempts before it handed over, and the disk the loop leaves is the
      one that step handed over. */
  lemma LastStep(step: (nat, Cursor) -> Step, attempt: nat, at: Cursor)
    requires attempt < MaxRetries
    ensures var t := Loop(step, attempt, at);
      var k := |t.trail| - 1;
      var s := step(attempt + k, CursorAt(step, attempt, at, k));
      t.trail[k] == s.end && t.disk == s.next.disk
  {
    var t := Loop(step, attempt, at);
    var k := |t.trail| - 1;
    LoopTrailAt(step, attempt, at, k);
    LoopDisk(step, attempt, at);
    CursorAtNext(step, attempt, at, k);
  }

  /** A loop that succeeds does so with the path of its last step, which
      verified, and ends on the disk that step left. */
  lemma SucceededLast(step: (nat, Cursor) -> Step, attempt: nat, at: Cursor)
    requires attempt < MaxRetries
    ensures var t := Loop(step, attempt, at);
      var k := |t.trail| - 1;
      var s := step(attempt + k, CursorAt(step, attempt, at, k));
      t.outcome.Succeeded? ==> s.end.Verified? && t.outcome.path == s.end.path && t.disk == s.next.disk
  {
    LoopFacts(step, attempt, at);
    LastStep(step, attempt, at);
  }

  /** Every attempt that verifies names the file `path(k)` for its attempt
      number `k` and leaves that file on the disk, not empty. */
  ghost predicate Writes(step: (nat, Cursor) -> Step, path: nat -> string) {
    forall k: nat, c: Cursor :: step(k, c).end.Verified? ==>
      && step(k, c).end.path == path(k)
      && path(k) in step(k, c).next.disk && step(k, c).next.disk[path(k)] > 0
  }

  /** A trace that, if it succeeded, did so with the file `path(k)` of its
      last attempt `k`, left on its final disk and not empty. */
  predicate WroteLast(t: Trace, path: nat -> string) {
    t.outcome.Succeeded? ==>
      && |t.trail| > 0
      && t.outcome.path == path(|t.trail| - 1)
      && t.outcome.path in t.disk && t.disk[t.outcome.path] > 0
  }

  /** A run whose verified attempts write their files succeeds with the
      file of its last attempt, which is on the final disk and not empty. */
  lemma LoopWritesLast(step: (nat, Cursor) -> Step, path: nat -> string, at: Cursor)
    requires Writes(step, path)
    ensures WroteLast(Loop(step, 0, at), path)
  {
    SucceededLast(step, 0, at);
    var t := Loop(step, 0, at);
    var c := CursorAt(step, 0, at, |t.trail| - 1);
    if t.outcome.Succeeded? {
      assert 0 + |t.trail| - 1 == |t.trail| - 1;
      assert step(|t.trail| - 1, c).end.Verified?;
    }
  }
}
