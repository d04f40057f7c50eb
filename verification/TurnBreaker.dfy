/** When and how a chat turn ends, in terms of the calls themselves (orchestrator.py `turn`). */
module TurnBreaker {
  import opened Text
  import opened Wrappers
  import opened TurnLoop

  // ------------------------------------------------------- what a call came to

  /** The note names the number of characters that were not shown. */
  function Missing(n: nat): string {
    "\n\U{2026}[truncated: " + Decimal(n) + " more chars of this result were NOT shown. Do not describe what is "
    + "not visible above; narrow the request or page with offset/limit.]"
  }

  /** The result the model is shown: at most 12000 characters of it, and a note of how many more there were. */
  lemma ShownExact(c: ToolCall)
    ensures |c.observation| <= 12000 ==> Shown(c) == c.observation
    ensures |c.observation| > 12000 ==> Shown(c) == c.observation[..12000] + Missing(|c.observation| - 12000)
  {
    hide Decimal;
    if |c.observation| > 12000 {
      assert TruncationNote(|c.observation| - 12000) == Missing(|c.observation| - 12000);
    }
  }

  /** The handler raised something, or returned a text that says so. */
  predicate Failing(c: ToolCall) {
    || (c.failed.Some? && c.failed.value != "")
    || "error:" <= Shown(c)
  }

  /** What a call came to: the exception it raised, else the result shown. */
  function Result(c: ToolCall): string {
    if c.failed.Some? && c.failed.value != "" then c.failed.value else Shown(c)
  }

  /** Same tool, same arguments in any order, same result. */
  predicate Alike(a: ToolCall, b: ToolCall) {
    a.tool == b.tool && a.sortedArgs == b.sortedArgs && Result(a) == Result(b)
  }

  /** The calls up to step i that are like the one at i, itself included. */
  function AlikeUpTo(steps: seq<Step>, i: nat): set<nat>
    requires i < |steps| && steps[i].Invoke?
  {
    set j: nat | 0 <= j <= i && steps[j].Invoke? && Alike(steps[j].call, steps[i].call)
  }

  /** The call at step i is the second of its kind and failed, or the third. */
  predicate Trips(steps: seq<Step>, i: nat)
    requires i < |steps|
  {
    steps[i].Invoke? && |AlikeUpTo(steps, i)| >= if Failing(steps[i].call) then 2 else 3
  }

  /** The turn has made it to step i: only calls before it, and none of them tripped. */
  predicate Reaches(steps: seq<Step>, i: nat)
    requires i <= |steps|
  {
    forall j :: 0 <= j < i ==> steps[j].Invoke? && !Trips(steps, j)
  }

  // ------------------------------------------------------------- both agree

  lemma AlikeIsSig(a: ToolCall, b: ToolCall)
    ensures Alike(a, b) <==> Sig(a) == Sig(b)
    ensures Failing(a) <==> Outcome(a).Some?
  {
    hide Shown;
  }

  /** The first n steps with this signature. */
  function Having(steps: seq<Step>, n: nat, sig: Signature): set<nat>
    requires n <= |steps|
  {
    set j: nat | 0 <= j < n && steps[j].Invoke? && Sig(steps[j].call) == sig
  }

  lemma {:induction false} CountIsSize(steps: seq<Step>, n: nat, sig: Signature)
    requires n <= |steps|
    ensures Count(steps, n, sig) == |Having(steps, n, sig)|
  {
    hide Sig;
    if n > 0 {
      CountIsSize(steps, n - 1, sig);
      var has := steps[n - 1].Invoke? && Sig(steps[n - 1].call) == sig;
      assert Having(steps, n, sig) == Having(steps, n - 1, sig) + if has then {n - 1} else {};
    } else {
      assert Having(steps, 0, sig) == {};
    }
  }

  lemma AlikeCount(steps: seq<Step>, i: nat)
    requires i < |steps| && steps[i].Invoke?
    ensures Count(steps, i + 1, Sig(steps[i].call)) == |AlikeUpTo(steps, i)|
  {
    hide Sig, Alike;
    forall j: nat | j <= i && steps[j].Invoke?
      ensures Alike(steps[j].call, steps[i].call) <==> Sig(steps[j].call) == Sig(steps[i].call) {
      AlikeIsSig(steps[j].call, steps[i].call);
    }
    assert AlikeUpTo(steps, i) == Having(steps, i + 1, Sig(steps[i].call));
    CountIsSize(steps, i + 1, Sig(steps[i].call));
  }

  lemma TripsIsEnds(steps: seq<Step>, i: nat)
    requires i < |steps|
    ensures Ends(steps, i) <==> !steps[i].Invoke? || Trips(steps, i)
  {
    hide Sig, Outcome, Failing, AlikeUpTo;
    if steps[i].Invoke? {
      AlikeCount(steps, i);
      AlikeIsSig(steps[i].call, steps[i].call);
    }
  }

  lemma ReachesIsEnd(steps: seq<Step>, i: nat)
    requires i <= |steps| && Reaches(steps, i)
    ensures i <= EndFrom(steps, 0)
  {
    hide Ends, Trips;
    if EndFrom(steps, 0) < i {
      TripsIsEnds(steps, EndFrom(steps, 0));
    }
  }

  // --------------------------------------------------------------- main result

  /** The reply of a turn, by its steps. The turn stops at a call exactly when it is the second failure, or the third
      result, with the same tool, arguments and outcome, and says how often that was; before that the first step that is
      no call decides; and when every step is a call and none trips, the cap does. */
  lemma ReplyExact(steps: seq<Step>, i: nat)
    requires i <= |steps| && Reaches(steps, i)
    ensures i < |steps| && Trips(steps, i) ==>
      var c := steps[i].call;
      ReplyOf(steps) == Some(Stopped(c.tool, Failing(c), |AlikeUpTo(steps, i)|, Shown(c))) && CallsMade(steps) == i + 1
    ensures i < |steps| && steps[i].Raise? ==> ReplyOf(steps) == None && CallsMade(steps) == i
    ensures i < |steps| && steps[i].Respond? ==>
      ReplyOf(steps) == Some(Answer(if steps[i].message == "" then "(empty reply)" else steps[i].message))
      && CallsMade(steps) == i
    ensures i == |steps| ==> ReplyOf(steps) == Some(StepLimit(Evidence(steps, i))) && CallsMade(steps) == i
  {
    hide Ends, EndFrom, ReplyOf, CallsMade, Count, Sig, Trips, Outcome, Shown, Failing, AlikeUpTo;
    ReachesIsEnd(steps, i);
    EndsAt(steps, i);
    if i < |steps| {
      TripsIsEnds(steps, i);
      TripsIsCall(steps, i);
      if steps[i].Invoke? {
        AlikeCount(steps, i);
        AlikeIsSig(steps[i].call, steps[i].call);
      }
    }
  }

  lemma TripsIsCall(steps: seq<Step>, i: nat)
    requires i < |steps|
    ensures Trips(steps, i) ==> steps[i].Invoke?
  {
  }

  /** A turn is stopped at a call exactly when it gets that far and the call trips. */
  lemma StoppedAtExact(steps: seq<Step>)
    ensures ReplyOf(steps).Some? && ReplyOf(steps).value.Stopped?
       <==> exists i :: 0 <= i < |steps| && Reaches(steps, i) && Trips(steps, i)
  {
    hide Ends, Trips, ReplyOf, CallsMade;
    var n := EndFrom(steps, 0);
    forall j | 0 <= j < n ensures steps[j].Invoke? && !Trips(steps, j) {
      TripsIsEnds(steps, j);
    }
    ReplyExact(steps, n);
    if n < |steps| {
      TripsIsEnds(steps, n);
    }
    if i :| 0 <= i < |steps| && Reaches(steps, i) && Trips(steps, i) {
      ReplyExact(steps, i);
    }
  }

  /** Calls alike in tool and arguments that differ pairwise in what they came to never stop a turn: polling goes on as
      long as something moves. */
  lemma ChangingResultsGoOn(steps: seq<Step>)
    requires forall i, j :: 0 <= i < j < |steps| && steps[i].Invoke? && steps[j].Invoke?
                            && steps[i].call.tool == steps[j].call.tool
                            && steps[i].call.sortedArgs == steps[j].call.sortedArgs
                            ==> Result(steps[i].call) != Result(steps[j].call)
    ensures !(ReplyOf(steps).Some? && ReplyOf(steps).value.Stopped?)
  {
    hide Result, ReplyOf, Failing;
    StoppedAtExact(steps);
    if i :| 0 <= i < |steps| && Reaches(steps, i) && Trips(steps, i) {
      forall j: nat | j in AlikeUpTo(steps, i) ensures j == i {
      }
      SizeOfOne(AlikeUpTo(steps, i), i);
    }
  }

  lemma SizeOfOne(s: set<nat>, i: nat)
    requires forall j :: j in s ==> j == i
    ensures |s| <= 1
  {
    if i in s {
      assert s == {i};
    } else {
      assert s == {};
    }
  }

  /** What a turn leaves in the history: one tool entry for each call made, with tool, arguments and result shown, in
      order, then the message and the reply; a raise leaves nothing. */
  lemma EntriesExact(steps: seq<Step>, userMsg: string)
    ensures ReplyOf(steps) == None ==> TurnEntries(steps, userMsg) == []
    ensures ReplyOf(steps).Some? ==>
      var es, n := TurnEntries(steps, userMsg), CallsMade(steps);
      && |es| == n + 2 && es[n] == Operator(userMsg) && es[n + 1] == Orbit8(ReplyOf(steps).value)
      && forall i :: 0 <= i < n ==>
           steps[i].Invoke?
           && es[i] == Tool("[tool] " + steps[i].call.tool + "(" + steps[i].call.args + ") -> " + Shown(steps[i].call))
  {
    hide ReplyOf, CallsMade, Shown;
  }
}
