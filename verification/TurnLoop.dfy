/** One chat turn: tool calls until the model replies, a repeated call trips the breaker, or the step cap is met
    (orchestrator.py `turn`, `_retire_evidence`, `max_steps_per_turn`). What the model decides and what the tools
    return is an arbitrary stream of steps. */
module TurnLoop {
  import opened Text
  import opened Wrappers

  const MAX_STEPS_PER_TURN := 20
  const REPEAT_FAILURE_LIMIT := 2
  const REPEAT_SUCCESS_LIMIT := 3
  const OBSERVATION_LIMIT := 12000

  /** A tool call with its outcome: `args` and `sortedArgs` are its arguments as the evidence and the breaker
      print them, `failed` is the exception the handler raised. */
  datatype ToolCall = ToolCall(tool: string, args: string, sortedArgs: string, failed: Option<string>,
      observation: string)

  /** What the model answers: a reply, a tool call, or nothing at all when the provider raises. */
  datatype Step = Respond(message: string) | Invoke(call: ToolCall) | Raise

  datatype Reply =
    | Answer(text: string)
    | Stopped(tool: string, failing: bool, times: nat, observation: string)
    | StepLimit(evidence: seq<string>)

  datatype Entry = Tool(item: string) | Operator(message: string) | Orbit8(reply: Reply)

  /** `$ORBIT8_MAX_STEPS` once parsed; None when it is unset or no integer. */
  function MaxSteps(setting: Option<int>): (n: nat)
    ensures n >= 1
    ensures n != 20 ==> setting == Some(n)
    ensures setting.Some? && setting.value > 0 ==> n == setting.value
  {
    if setting.Some? && setting.value > 0 then setting.value else MAX_STEPS_PER_TURN
  }

  function TruncationNote(dropped: nat): string {
    "\n\U{2026}[truncated: " + Decimal(dropped) + " more chars of this result were NOT shown. Do not describe what is "
    + "not visible above; narrow the request or page with offset/limit.]"
  }

  /** What is kept of a result: a tail past the limit is cut, and the cut is announced. */
  function Shown(c: ToolCall): string {
    if |c.observation| <= OBSERVATION_LIMIT then c.observation
    else c.observation[..OBSERVATION_LIMIT] + TruncationNote(|c.observation| - OBSERVATION_LIMIT)
  }

  function EvidenceText(c: ToolCall): string {
    "[tool] " + c.tool + "(" + c.args + ") -> " + Shown(c)
  }

  /** A failure is raised, or returned as text. */
  function Outcome(c: ToolCall): Option<string> {
    if c.failed.Some? && c.failed.value != "" then c.failed
    else if "error:" <= Shown(c) then Some(Shown(c))
    else None
  }

  type Signature = (string, string, string)

  function Sig(c: ToolCall): Signature {
    (c.tool, c.sortedArgs, if Outcome(c).Some? then Outcome(c).value else Shown(c))
  }

  function Limit(c: ToolCall): nat {
    if Outcome(c).Some? then REPEAT_FAILURE_LIMIT else REPEAT_SUCCESS_LIMIT
  }

  // ------------------------------------------------------ when a turn ends

  /** How many of the first n steps are calls with this signature. */
  function Count(steps: seq<Step>, n: nat, sig: Signature): nat
    requires n <= |steps|
  {
    if n == 0 then 0
    else Count(steps, n - 1, sig) + if steps[n - 1].Invoke? && Sig(steps[n - 1].call) == sig then 1 else 0
  }

  /** Step i ends the turn: a reply, a raise, or a call that has now come back the same way too often. */
  predicate Ends(steps: seq<Step>, i: nat)
    requires i < |steps|
  {
    !steps[i].Invoke? || Count(steps, i + 1, Sig(steps[i].call)) >= Limit(steps[i].call)
  }

  /** The first step from i on that ends the turn, or the cap. */
  function EndFrom(steps: seq<Step>, i: nat): (n: nat)
    requires i <= |steps|
    ensures i <= n <= |steps| && (n < |steps| ==> Ends(steps, n)) && forall j :: i <= j < n ==> !Ends(steps, j)
    ensures forall j :: i <= j < n ==> steps[j].Invoke?
    decreases |steps| - i
  {
    hide Sig, Limit, Count;
    if i == |steps| || Ends(steps, i) then i else EndFrom(steps, i + 1)
  }

  function CallsMade(steps: seq<Step>): (n: nat)
    ensures n <= |steps|
    ensures forall i :: 0 <= i < n ==> steps[i].Invoke?
  {
    hide *;
    var n := EndFrom(steps, 0);
    if n == |steps| then n else if steps[n].Invoke? then n + 1 else n
  }

  function Evidence(steps: seq<Step>, n: nat): (e: seq<string>)
    requires n <= |steps| && forall i :: 0 <= i < n ==> steps[i].Invoke?
    ensures |e| == n && forall i :: 0 <= i < n ==> e[i] == EvidenceText(steps[i].call)
  {
    seq(n, i requires 0 <= i < n => EvidenceText(steps[i].call))
  }

  /** The reply; None when the provider raises, and `turn` with it. */
  function ReplyOf(steps: seq<Step>): Option<Reply> {
    hide Ends, EndFrom, Shown, Sig, Outcome, Evidence;
    var n := EndFrom(steps, 0);
    if n == |steps| then Some(StepLimit(Evidence(steps, n)))
    else if steps[n].Raise? then None
    else if steps[n].Respond? then Some(Answer(if steps[n].message == "" then "(empty reply)" else steps[n].message))
    else
      var c := steps[n].call;
      Some(Stopped(c.tool, Outcome(c).Some?, Count(steps, n + 1, Sig(c)), Shown(c)))
  }

  function Retired(evidence: seq<string>): (r: seq<Entry>)
    ensures |r| == |evidence| && forall i :: 0 <= i < |r| ==> r[i] == Tool(evidence[i])
  {
    seq(|evidence|, i requires 0 <= i < |evidence| => Tool(evidence[i]))
  }

  function TurnEntries(steps: seq<Step>, userMsg: string): seq<Entry> {
    if ReplyOf(steps).None? then []
    else Retired(Evidence(steps, CallsMade(steps))) + [Operator(userMsg), Orbit8(ReplyOf(steps).value)]
  }

  // ------------------------------------------------------------- the history

  /** Entry i is a reply exactly when an operator message stands right before it. */
  ghost predicate PairedAt(h: seq<Entry>, i: int)
    requires 0 <= i < |h|
  {
    h[i].Orbit8? <==> i > 0 && h[i - 1].Operator?
  }

  /** Every reply answers the operator message right before it, and every message is answered. */
  ghost predicate Answered(h: seq<Entry>) {
    && (forall i :: 0 <= i < |h| ==> PairedAt(h, i))
    && (h != [] ==> h[|h| - 1].Orbit8?)
  }

  ghost function Replies(h: seq<Entry>): nat {
    if h == [] then 0 else Replies(h[..|h| - 1]) + if h[|h| - 1].Orbit8? then 1 else 0
  }

  class ChatOrchestrator {
    var history: seq<Entry>
    var turnNo: nat

    ghost predicate Valid()
      reads this
    {
      Answered(history) && Replies(history) <= turnNo
    }

    constructor ()
      ensures Valid() && history == [] && turnNo == 0
    {
      history, turnNo := [], 0;
    }

    method RetireEvidence(evidence: seq<string>)
      modifies this`history
      ensures history == old(history) + Retired(evidence)
    {
      for i := 0 to |evidence|
        invariant history == old(history) + Retired(evidence[..i])
      {
        assert Retired(evidence[..i + 1]) == Retired(evidence[..i]) + [Tool(evidence[i])];
        history := history + [Tool(evidence[i])];
      }
      assert evidence[..|evidence|] == evidence;
    }

    /** One operator message, tool calls up to the cap, one reply; whichever way the turn ends, its evidence retires
        into the history in order, then the message and the reply. Only a raise leaves no trace but the count. */
    method Turn(userMsg: string, setting: Option<int>, stream: seq<Step>) returns (reply: Option<Reply>)
      requires Valid() && |stream| >= MaxSteps(setting)
      modifies this
      ensures Valid() && turnNo == old(turnNo) + 1
      ensures reply == ReplyOf(stream[..MaxSteps(setting)])
      ensures history == old(history) + TurnEntries(stream[..MaxSteps(setting)], userMsg)
      ensures Replies(history) == old(Replies(history)) + if reply.Some? then 1 else 0
      ensures |history| <= old(|history|) + MaxSteps(setting) + 2
    {
      hide Shown, EvidenceText, Sig, Outcome, Limit, Evidence, Retired, Answered, Replies, MaxSteps, Count, ReplyOf;
      turnNo := turnNo + 1;
      var evidence: seq<string>, repeats: map<Signature, nat> := [], map[];
      var cap := MaxSteps(setting);
      ghost var steps := stream[..cap];
      ghost var end := EndFrom(steps, 0);
      NoCalls(steps);
      for i := 0 to cap
        invariant i <= end && evidence == Evidence(steps, i)
        invariant forall sig :: Count(steps, i, sig) == if sig in repeats then repeats[sig] else 0
        invariant history == old(history) && turnNo == old(turnNo) + 1
      {
        assert steps[i] == stream[i] && (i < end ==> !Ends(steps, i));
        if !stream[i].Invoke? {
          EndsAt(steps, i);
          if stream[i].Raise? {
            assert history == old(history) + [];
            return None;
          }
          reply := Some(Answer(if stream[i].message == "" then "(empty reply)" else stream[i].message));
          Close(userMsg, evidence, reply.value, steps);
          return;
        }
        var c := stream[i].call;
        EvidenceNext(steps, i);
        CountNext(steps, i);
        evidence := evidence + [EvidenceText(c)];
        var times := (if Sig(c) in repeats then repeats[Sig(c)] else 0) + 1;
        repeats := repeats[Sig(c) := times];
        if times >= Limit(c) {
          EndsAt(steps, i);
          reply := Some(Stopped(c.tool, Outcome(c).Some?, times, Shown(c)));
          Close(userMsg, evidence, reply.value, steps);
          return;
        }
      }
      EndsAt(steps, cap);
      reply := Some(StepLimit(evidence));
      Close(userMsg, evidence, reply.value, steps);
    }

    /** The three lines every return of `turn` shares. */
    method Close(userMsg: string, evidence: seq<string>, reply: Reply, ghost steps: seq<Step>)
      requires Answered(history) && Replies(history) < turnNo
      requires evidence == Evidence(steps, CallsMade(steps)) && Some(reply) == ReplyOf(steps)
      modifies this`history
      ensures Valid() && history == old(history) + TurnEntries(steps, userMsg)
      ensures Replies(history) == old(Replies(history)) + 1
      ensures |history| == old(|history|) + |evidence| + 2
    {
      hide Evidence, Replies, Answered, ReplyOf, CallsMade;
      TurnKeepsAnswered(history, evidence, userMsg, reply);
      RetireEvidence(evidence);
      history := history + [Operator(userMsg)];
      history := history + [Orbit8(reply)];
      assert history == old(history) + (Retired(evidence) + [Operator(userMsg), Orbit8(reply)]);
    }
  }

  /** A turn that has come to step i without ending ends there, or goes on. */
  lemma EndsAt(steps: seq<Step>, i: nat)
    requires i <= EndFrom(steps, 0)
    ensures i == |steps| || Ends(steps, i) ==>
      EndFrom(steps, 0) == i && CallsMade(steps) == if i < |steps| && steps[i].Invoke? then i + 1 else i
    ensures i == |steps| ==> ReplyOf(steps) == Some(StepLimit(Evidence(steps, i)))
    ensures i < |steps| && Ends(steps, i) && steps[i].Raise? ==> ReplyOf(steps) == None
    ensures i < |steps| && Ends(steps, i) && steps[i].Respond? ==>
      ReplyOf(steps) == Some(Answer(if steps[i].message == "" then "(empty reply)" else steps[i].message))
    ensures i < |steps| && Ends(steps, i) && steps[i].Invoke? ==>
      var c := steps[i].call;
      ReplyOf(steps) == Some(Stopped(c.tool, Outcome(c).Some?, Count(steps, i + 1, Sig(c)), Shown(c)))
  {
    hide Ends, Shown, Sig, Outcome, Evidence, Count;
  }

  lemma CountNext(steps: seq<Step>, i: nat)
    requires i < |steps| && steps[i].Invoke?
    ensures forall sig :: Count(steps, i + 1, sig) == Count(steps, i, sig) + if Sig(steps[i].call) == sig then 1 else 0
    ensures Ends(steps, i) <==> Count(steps, i, Sig(steps[i].call)) + 1 >= Limit(steps[i].call)
  {
    hide Sig, Limit;
  }

  lemma NoCalls(steps: seq<Step>)
    ensures forall sig :: Count(steps, 0, sig) == 0
    ensures Evidence(steps, 0) == []
  {
  }

  lemma EvidenceNext(steps: seq<Step>, n: nat)
    requires n < |steps| && forall i :: 0 <= i <= n ==> steps[i].Invoke?
    ensures Evidence(steps, n + 1) == Evidence(steps, n) + [EvidenceText(steps[n].call)]
  {
    hide *;
  }

  lemma {:induction false} RepliesConcat(a: seq<Entry>, b: seq<Entry>)
    ensures Replies(a + b) == Replies(a) + Replies(b)
  {
    if b == [] {
      assert a + b == a;
    } else {
      assert (a + b)[..|a + b| - 1] == a + b[..|b| - 1];
      RepliesConcat(a, b[..|b| - 1]);
    }
  }

  lemma {:induction false} NoReplies(h: seq<Entry>)
    requires forall i :: 0 <= i < |h| ==> h[i].Tool?
    ensures Replies(h) == 0
  {
    if h != [] {
      NoReplies(h[..|h| - 1]);
    }
  }

  /** A turn's entries keep replies and messages paired, and add one reply. */
  lemma TurnKeepsAnswered(h: seq<Entry>, evidence: seq<string>, userMsg: string, reply: Reply)
    requires Answered(h)
    ensures var g := h + (Retired(evidence) + [Operator(userMsg), Orbit8(reply)]);
      Answered(g) && Replies(g) == Replies(h) + 1
  {
    var tools, pair := Retired(evidence), [Operator(userMsg), Orbit8(reply)];
    RepliesConcat(h, tools + pair);
    RepliesConcat(tools, pair);
    NoReplies(tools);
    assert pair[..1] == [pair[0]] && [pair[0]][..0] == [];
    assert Replies([pair[0]]) == Replies([]) + 0;
    assert Replies(pair) == 1;
    AnsweredConcat(h, tools + pair);
  }

  lemma AnsweredConcat(h: seq<Entry>, t: seq<Entry>)
    requires Answered(h) && Answered(t)
    ensures Answered(h + t)
  {
    var g := h + t;
    forall i | 0 <= i < |g| ensures PairedAt(g, i) {
      if i < |h| {
        assert PairedAt(h, i);
      } else {
        assert PairedAt(t, i - |h|);
      }
    }
  }

  // ------------------------------------------------------------------- bounds

  /** The distinct signatures among the first n steps. */
  ghost function Signatures(steps: seq<Step>, n: nat): set<Signature>
    requires n <= |steps|
  {
    if n == 0 then {}
    else Signatures(steps, n - 1) + if steps[n - 1].Invoke? then {Sig(steps[n - 1].call)} else {}
  }

  /** The signatures met more than once. */
  ghost function Repeated(steps: seq<Step>, n: nat): set<Signature>
    requires n <= |steps|
  {
    set s | s in Signatures(steps, n) && Count(steps, n, s) >= 2
  }

  lemma {:induction false} CountListed(steps: seq<Step>, n: nat, s: Signature)
    requires n <= |steps|
    ensures s in Signatures(steps, n) <==> Count(steps, n, s) >= 1
  {
    hide Sig, Shown, Outcome;
    if n > 0 {
      CountListed(steps, n - 1, s);
    }
  }

  /** A call that does not end the turn has come up at most once before, and never before if it failed. */
  lemma NotEnded(steps: seq<Step>, i: nat)
    requires i < |steps| && !Ends(steps, i)
    ensures steps[i].Invoke? && Count(steps, i, Sig(steps[i].call)) <= 1
    ensures Outcome(steps[i].call).Some? ==> Count(steps, i, Sig(steps[i].call)) == 0
  {
  }

  lemma SignaturesNext(steps: seq<Step>, n: nat)
    requires n < |steps| && steps[n].Invoke?
    ensures Signatures(steps, n + 1) == Signatures(steps, n) + {Sig(steps[n].call)}
  {
  }

  lemma RepeatedNext(steps: seq<Step>, n: nat)
    requires n < |steps| && steps[n].Invoke?
    ensures var s := Sig(steps[n].call);
      Repeated(steps, n + 1) == Repeated(steps, n) + if Count(steps, n, s) >= 1 then {s} else {}
  {
  }

  lemma Tally(n: nat, all: set<Signature>, twice: set<Signature>, s: Signature)
    requires n <= |all| + |twice|
    ensures s !in all ==> n + 1 <= |all + {s}| + |twice|
    ensures s in all && s !in twice ==> n + 1 <= |all + {s}| + |twice + {s}|
  {
    if s in all {
      assert all + {s} == all;
    }
  }

  lemma CallCounted(steps: seq<Step>, n: nat)
    requires n < |steps| && !Ends(steps, n)
    requires n <= |Signatures(steps, n)| + |Repeated(steps, n)|
    ensures n + 1 <= |Signatures(steps, n + 1)| + |Repeated(steps, n + 1)|
  {
    hide *;
    NotEnded(steps, n);
    var s := Sig(steps[n].call);
    CountListed(steps, n, s);
    SignaturesNext(steps, n);
    RepeatedNext(steps, n);
    RepeatedIs(steps, n, s);
    Tally(n, Signatures(steps, n), Repeated(steps, n), s);
  }

  lemma {:induction false} CallsCounted(steps: seq<Step>, n: nat)
    requires n <= |steps| && forall i :: 0 <= i < n ==> !Ends(steps, i)
    ensures n <= |Signatures(steps, n)| + |Repeated(steps, n)|
  {
    hide *;
    if n > 0 {
      CallsCounted(steps, n - 1);
      CallCounted(steps, n - 1);
    }
  }

  lemma RepeatedIs(steps: seq<Step>, n: nat, s: Signature)
    requires n <= |steps|
    ensures s in Repeated(steps, n) <==> s in Signatures(steps, n) && Count(steps, n, s) >= 2
    ensures Repeated(steps, n) <= Signatures(steps, n)
  {
  }

  lemma {:induction false} SubsetSize<T>(a: set<T>, b: set<T>)
    requires a <= b
    ensures |a| <= |b|
  {
    if x :| x in a {
      SubsetSize(a - {x}, b - {x});
    }
  }

  /** The calls made are the steps before the one that ends the turn, and that one when it is a call itself. */
  lemma MadeBy(steps: seq<Step>) returns (n: nat)
    ensures n <= |steps| && forall i :: 0 <= i < n ==> !Ends(steps, i)
    ensures CallsMade(steps) <= |steps| && n <= CallsMade(steps) <= n + 1
    ensures |Signatures(steps, n)| <= |Signatures(steps, CallsMade(steps))|
  {
    hide Ends, Signatures, Sig;
    n := EndFrom(steps, 0);
    if CallsMade(steps) == n + 1 {
      SignaturesNext(steps, n);
      SubsetSize(Signatures(steps, n), Signatures(steps, n + 1));
    }
  }

  /** A turn whose calls have k distinct signatures makes at most 2k + 1 calls, and never more than the cap. */
  lemma CallBound(steps: seq<Step>)
    ensures CallsMade(steps) <= |steps|
    ensures CallsMade(steps) <= 2 * |Signatures(steps, CallsMade(steps))| + 1
  {
    hide Signatures, Repeated, CallsMade;
    var n := MadeBy(steps);
    CallsCounted(steps, n);
    RepeatedIs(steps, n, ([], [], []));
    SubsetSize(Repeated(steps, n), Signatures(steps, n));
  }

  lemma {:induction false} FailuresCounted(steps: seq<Step>, n: nat)
    requires n <= |steps|
    requires forall i :: 0 <= i < n ==> !Ends(steps, i) && steps[i].Invoke? && Outcome(steps[i].call).Some?
    ensures n == |Signatures(steps, n)|
  {
    hide Sig, Outcome, Ends;
    if n > 0 {
      hide Count, Signatures;
      FailuresCounted(steps, n - 1);
      NotEnded(steps, n - 1);
      CountListed(steps, n - 1, Sig(steps[n - 1].call));
      SignaturesNext(steps, n - 1);
    } else {
      assert Signatures(steps, 0) == {};
    }
  }

  /** When every call fails, k distinct failures are met within k + 1 calls. */
  lemma FailureBound(steps: seq<Step>)
    requires forall i :: 0 <= i < CallsMade(steps) ==> Outcome(steps[i].call).Some?
    ensures CallsMade(steps) <= |Signatures(steps, CallsMade(steps))| + 1
  {
    hide Signatures, CallsMade, Outcome, Ends;
    var n := MadeBy(steps);
    FailuresCounted(steps, n);
  }

  lemma {:induction false} CountBelow(steps: seq<Step>, n: nat, s: Signature)
    requires n <= |steps| && forall i :: 0 <= i < n ==> !Ends(steps, i)
    ensures Count(steps, n, s) <= 2
  {
    hide Sig, Ends;
    if n > 0 {
      CountBelow(steps, n - 1, s);
      NotEnded(steps, n - 1);
    }
  }

  /** The breaker trips at the second or the third identical result; on a success always at the third. */
  lemma StoppedExactly(steps: seq<Step>)
    requires ReplyOf(steps).Some? && ReplyOf(steps).value.Stopped?
    ensures var r := ReplyOf(steps).value; 2 <= r.times <= 3 && (!r.failing ==> r.times == 3)
  {
    hide Sig, Outcome, Shown, Evidence;
    var n := EndFrom(steps, 0);
    CountBelow(steps, n, Sig(steps[n].call));
  }

  // ------------------------------------------------------ the bound is attained

  /** Every call comes back twice the same, each pair with arguments of its own; then the first one again. */
  function Pairs(k: nat): (s: seq<Step>)
    ensures |s| == 2 * k + 1
    ensures forall i :: 0 <= i < |s| ==> s[i] == PairStep(k, i)
  {
    seq(2 * k + 1, i requires 0 <= i <= 2 * k => PairStep(k, i))
  }

  function PairStep(k: nat, i: nat): Step {
    Invoke(ToolCall([], [], if i < 2 * k then Ones(i / 2) else [], None, []))
  }

  function Ones(n: nat): (s: string)
    ensures |s| == n
  {
    seq(n, _ => '1')
  }

  function PairSig(j: nat): Signature {
    ([], Ones(j), [])
  }

  lemma PairStepIs(k: nat, i: nat)
    ensures PairStep(k, i).Invoke?
    ensures Sig(PairStep(k, i).call) == PairSig(if i < 2 * k then i / 2 else 0) && Limit(PairStep(k, i).call) == 3
  {
  }

  lemma PairSigsDiffer(i: nat, j: nat)
    requires PairSig(i) == PairSig(j)
    ensures i == j
  {
  }

  lemma {:induction false} PairCount(k: nat, n: nat, j: nat)
    requires n <= 2 * k
    ensures Count(Pairs(k), n, PairSig(j)) == if n <= 2 * j then 0 else if n == 2 * j + 1 then 1 else 2
  {
    hide Sig, Limit, PairSig, Pairs;
    if n > 0 {
      PairCount(k, n - 1, j);
      PairStepIs(k, n - 1);
      if (n - 1) / 2 != j && PairSig((n - 1) / 2) == PairSig(j) {
        PairSigsDiffer((n - 1) / 2, j);
      }
    }
  }

  lemma {:induction false} PairSignatures(k: nat, n: nat)
    requires n <= 2 * k
    ensures |Signatures(Pairs(k), n)| == (n + 1) / 2
  {
    hide *;
    if n == 0 {
      NoSignatures(Pairs(k));
    } else {
      var j := (n - 1) / 2;
      assert Pairs(k)[n - 1] == PairStep(k, n - 1);
      PairSignatures(k, n - 1);
      PairStepIs(k, n - 1);
      PairCount(k, n - 1, j);
      CountListed(Pairs(k), n - 1, PairSig(j));
      SignaturesNext(Pairs(k), n - 1);
      SizeWith(Signatures(Pairs(k), n - 1), PairSig(j));
    }
  }

  lemma NoSignatures(steps: seq<Step>)
    ensures Signatures(steps, 0) == {}
  {
  }

  lemma SizeWith(all: set<Signature>, s: Signature)
    ensures |all + {s}| == |all| + if s in all then 0 else 1
  {
    if s in all {
      assert all + {s} == all;
    }
  }

  /** The bound is attained: k signatures, 2k + 1 calls. */
  lemma BoundAttained(k: nat)
    requires k >= 1
    ensures CallsMade(Pairs(k)) == 2 * k + 1 && |Signatures(Pairs(k), 2 * k + 1)| == k
  {
    hide Sig, Limit, PairSig, Pairs, PairStep, Signatures;
    var steps := Pairs(k);
    forall i | 0 <= i < 2 * k ensures !Ends(steps, i) {
      assert steps[i] == PairStep(k, i);
      PairStepIs(k, i);
      PairCount(k, i, i / 2);
    }
    assert steps[2 * k] == PairStep(k, 2 * k);
    PairStepIs(k, 2 * k);
    PairCount(k, 2 * k, 0);
    assert Ends(steps, 2 * k);
    PairSignatures(k, 2 * k);
    CountListed(steps, 2 * k, PairSig(0));
    SignaturesNext(steps, 2 * k);
    assert Signatures(steps, 2 * k) + {PairSig(0)} == Signatures(steps, 2 * k);
  }
}
