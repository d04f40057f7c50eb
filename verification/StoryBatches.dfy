/** Batching story text so that a conversation stays in one call (grouping.py `plan_story_batches`). */
module StoryBatches {
  import opened StableSort
  import opened Grouping
  import opened Wrappers

  /** A segment: its uid, its conversation ("" when it has none), its position in it, and its text. */
  datatype Segment = Segment(uid: string, group: string, seqNo: Option<int>, text: string)

  function SeqOf(s: Segment): int {
    if s.seqNo.Some? then s.seqNo.value else 0
  }

  /** Position first, uid second. */
  predicate Earlier(a: Segment, b: Segment) {
    SeqOf(a) < SeqOf(b) || (SeqOf(a) == SeqOf(b) && StrLe(a.uid, b.uid))
  }

  predicate Longer(a: seq<Segment>, b: seq<Segment>) {
    |a| >= |b|
  }

  function GroupOf(s: Segment): string {
    s.group
  }

  predicate InConversation(s: Segment) {
    s.group != ""
  }

  predicate Alone(s: Segment) {
    s.group == ""
  }

  function Convo(segments: seq<Segment>, g: string): seq<Segment> {
    Sort(Members(Where(segments, InConversation), GroupOf, g), Earlier)
  }

  function Conversations(segments: seq<Segment>): seq<string> {
    Sort(KeysOf(Where(segments, InConversation), GroupOf), StrLe)
  }

  /** The chunks of the conversations too long for a batch, and the conversations that fit. */
  function Oversized(segments: seq<Segment>, gs: seq<string>, max: nat): seq<seq<Segment>>
    requires max >= 1
  {
    if gs == [] then []
    else (if |Convo(segments, gs[0])| > max then Chunks(Convo(segments, gs[0]), max) else [])
         + Oversized(segments, gs[1..], max)
  }

  function Intact(segments: seq<Segment>, gs: seq<string>, max: nat): seq<seq<Segment>>
  {
    if gs == [] then []
    else (if |Convo(segments, gs[0])| > max then [] else [Convo(segments, gs[0])]) + Intact(segments, gs[1..], max)
  }

  /** Conversations packed largest first. */
  function Packed(segments: seq<Segment>, max: nat): seq<seq<Segment>>
    requires max >= 1
  {
    Pack([], Sort(Intact(segments, Conversations(segments), max), Longer), max)
  }

  /** The part of the plan that comes from conversations. */
  function Grouped(segments: seq<Segment>, max: nat): seq<seq<Segment>>
    requires max >= 1
  {
    Oversized(segments, Conversations(segments), max) + Packed(segments, max)
  }

  function Plan(segments: seq<Segment>, max: nat): seq<seq<Segment>>
    requires max >= 1
  {
    Grouped(segments, max) + Chunks(Where(segments, Alone), max)
  }

  method LayOut(buckets: map<string, seq<Segment>>, gids: seq<string>, max: nat, ghost segments: seq<Segment>)
    returns (oversized: seq<seq<Segment>>, intact: seq<seq<Segment>>)
    requires max >= 1
    requires forall g :: g in gids ==>
      g in buckets && buckets[g] == Members(Where(segments, InConversation), GroupOf, g)
    ensures oversized == Oversized(segments, gids, max) && intact == Intact(segments, gids, max)
  {
    hide Sort, Chunks, Members, Where, Oversized, Intact;
    oversized, intact := [], [];
    assert gids[0..] == gids;
    for i := 0 to |gids|
      invariant oversized + Oversized(segments, gids[i..], max) == Oversized(segments, gids, max)
      invariant intact + Intact(segments, gids[i..], max) == Intact(segments, gids, max)
    {
      Unfold(segments, gids, i, max, oversized, intact);
      var convo := Sort(buckets[gids[i]], Earlier);
      if |convo| > max {
        var cut := Slice(convo, max);
        oversized := oversized + cut;
      } else {
        intact := intact + [convo];
      }
    }
    assert gids[|gids|..] == [];
    NothingLeft(segments, max);
  }

  lemma NothingLeft(segments: seq<Segment>, max: nat)
    requires max >= 1
    ensures Oversized(segments, [], max) == [] && Intact(segments, [], max) == []
  {
  }

  lemma Unfold(segments: seq<Segment>, gids: seq<string>, i: nat, max: nat,
               over: seq<seq<Segment>>, whole: seq<seq<Segment>>)
    requires max >= 1 && i < |gids|
    ensures var c := Convo(segments, gids[i]);
      && over + Oversized(segments, gids[i..], max)
         == (if |c| > max then over + Chunks(c, max) else over) + Oversized(segments, gids[i + 1..], max)
      && whole + Intact(segments, gids[i..], max)
         == (if |c| > max then whole else whole + [c]) + Intact(segments, gids[i + 1..], max)
  {
    hide Convo, Chunks;
    assert gids[i..][0] == gids[i] && gids[i..][1..] == gids[i + 1..];
  }

  /** `plan_story_batches`. */
  method PlanStoryBatches(segments: seq<Segment>, max: nat) returns (batches: seq<seq<Segment>>)
    requires max >= 1
    ensures batches == Plan(segments, max)
  {
    hide Sort, Chunks, KeysOf, Members, Where, Pack, Distinct;
    var grouped, ungrouped := Separate(segments, InConversation, Alone);
    var order, buckets := Bucket(grouped, GroupOf);
    KeysFacts(grouped, GroupOf);
    SortKeepsDistinct(order);
    var oversized, intact := LayOut(buckets, Sort(order, StrLe), max, segments);
    var packed := PackGroups(Sort(intact, Longer), max);
    var rest := Slice(ungrouped, max);
    batches := oversized + packed + rest;
  }

  // -------------------------------------------------------------- properties

  lemma EarlierIsPreorder()
    ensures TotalPreorder(Earlier)
  {
    StrLeIsPreorder();
  }

  lemma LongerIsPreorder()
    ensures TotalPreorder(Longer)
  {
  }

  lemma ConvoFacts(segments: seq<Segment>, g: string)
    ensures multiset(Convo(segments, g)) == multiset(Members(Where(segments, InConversation), GroupOf, g))
    ensures Sorted(Convo(segments, g), Earlier)
  {
    hide TotalPreorder, Members, Where;
    EarlierIsPreorder();
    SortSorts(Members(Where(segments, InConversation), GroupOf, g), Earlier);
  }

  lemma OversizedCons(segments: seq<Segment>, gs: seq<string>, max: nat)
    requires max >= 1 && gs != []
    ensures var c := Convo(segments, gs[0]);
      Flatten(Oversized(segments, gs, max))
          == (if |c| > max then c else []) + Flatten(Oversized(segments, gs[1..], max))
  {
    hide Convo, Flatten, Chunks;
    var c, rest := Convo(segments, gs[0]), Oversized(segments, gs[1..], max);
    ChunksFacts(c, max);
    if |c| > max {
      FlattenConcat(Chunks(c, max), rest);
    } else {
      assert [] + rest == rest;
    }
  }

  lemma IntactCons(segments: seq<Segment>, gs: seq<string>, max: nat)
    requires gs != []
    ensures var c := Convo(segments, gs[0]);
      Flatten(Intact(segments, gs, max)) == (if |c| > max then [] else c) + Flatten(Intact(segments, gs[1..], max))
  {
    hide Convo;
    var c, rest := Convo(segments, gs[0]), Intact(segments, gs[1..], max);
    assert [] + rest == rest && ([c] + rest)[1..] == rest;
  }

  lemma {:induction false} ConversationsSplit(segments: seq<Segment>, gs: seq<string>, max: nat)
    requires max >= 1
    ensures multiset(Flatten(Oversized(segments, gs, max))) + multiset(Flatten(Intact(segments, gs, max)))
         == multiset(Flatten(Groups(Where(segments, InConversation), GroupOf, gs)))
  {
    if gs == [] {
      NoGroups(Where(segments, InConversation), GroupOf);
    } else {
      hide Convo, Members, Where, Groups, Flatten, Oversized, Intact;
      ConversationsSplit(segments, gs[1..], max);
      GroupsCons(Where(segments, InConversation), GroupOf, gs);
      ConvoFacts(segments, gs[0]);
      OversizedCons(segments, gs, max);
      IntactCons(segments, gs, max);
    }
  }

  lemma AllConversations(segments: seq<Segment>)
    ensures var gs := Conversations(segments);
      Distinct(gs) && forall x :: x in Where(segments, InConversation) ==> GroupOf(x) in gs
  {
    KeysFacts(Where(segments, InConversation), GroupOf);
    SortKeepsDistinct(KeysOf(Where(segments, InConversation), GroupOf));
  }

  /** Every segment is in the plan exactly as often as it was handed in. */
  lemma PlanPermutes(segments: seq<Segment>, max: nat)
    requires max >= 1
    ensures multiset(Flatten(Plan(segments, max))) == multiset(segments)
  {
    hide Oversized, Intact, Where, Members, Groups, Chunks, Pack, Sort, KeysOf, Flatten, Distinct;
    var gs, rest := Conversations(segments), Where(segments, Alone);
    var over, whole := Oversized(segments, gs, max), Intact(segments, gs, max);
    AllConversations(segments);
    GroupsPermute(Where(segments, InConversation), GroupOf, gs);
    ConversationsSplit(segments, gs, max);
    LongerIsPreorder();
    SortSorts(whole, Longer);
    FlattenPermute(whole, Sort(whole, Longer));
    PackFlattens([], Sort(whole, Longer), max);
    assert [] + Flatten(Sort(whole, Longer)) == Flatten(Sort(whole, Longer));
    FlattenConcat(over, Packed(segments, max));
    FlattenConcat(over + Packed(segments, max), Chunks(rest, max));
    ChunksFacts(rest, max);
    WhereSplits(segments, InConversation, Alone);
  }

  lemma {:induction false} OversizedSizes(segments: seq<Segment>, gs: seq<string>, max: nat)
    requires max >= 1
    ensures forall b :: b in Oversized(segments, gs, max) ==> 1 <= |b| <= max
  {
    if gs != [] {
      OversizedSizes(segments, gs[1..], max);
      ChunksFacts(Convo(segments, gs[0]), max);
    }
  }

  lemma {:induction false} IntactSizes(segments: seq<Segment>, gs: seq<string>, max: nat)
    requires forall g :: g in gs ==> Members(Where(segments, InConversation), GroupOf, g) != []
    ensures forall c :: c in Intact(segments, gs, max) ==> 1 <= |c| <= max
    ensures forall g :: g in gs && |Convo(segments, g)| <= max ==> Convo(segments, g) in Intact(segments, gs, max)
  {
    if gs != [] {
      hide Convo, Members, Where;
      IntactSizes(segments, gs[1..], max);
      assert gs[0] in gs;
      ConvoFacts(segments, gs[0]);
      assert |multiset(Convo(segments, gs[0]))| == |Convo(segments, gs[0])|;
      var rows := Members(Where(segments, InConversation), GroupOf, gs[0]);
      assert |multiset(rows)| == |rows|;
      assert forall g :: g in gs <==> g == gs[0] || g in gs[1..];
    }
  }

  lemma NoEmptyConversation(segments: seq<Segment>)
    ensures forall g :: g in Conversations(segments) ==> Members(Where(segments, InConversation), GroupOf, g) != []
  {
    var s := Where(segments, InConversation);
    KeysFacts(s, GroupOf);
    SortKeepsDistinct(KeysOf(s, GroupOf));
    forall g | g in Conversations(segments) ensures Members(s, GroupOf, g) != [] {
      var x :| x in s && GroupOf(x) == g;
      MembersFacts(s, GroupOf, g);
    }
  }

  /** No batch is empty and none exceeds max. */
  lemma PlanSizes(segments: seq<Segment>, max: nat)
    requires max >= 1
    ensures forall b :: b in Plan(segments, max) ==> 1 <= |b| <= max
  {
    hide Oversized, Intact, Where, Chunks, Pack, Sort, Conversations;
    var gs := Conversations(segments);
    OversizedSizes(segments, gs, max);
    PackSizes([], Sort(Intact(segments, gs, max), Longer), max);
    ChunksFacts(Where(segments, Alone), max);
  }

  /** Sorted conversations that fit a batch. */
  lemma PackedGroups(segments: seq<Segment>, max: nat)
    requires max >= 1
    ensures var cs := Sort(Intact(segments, Conversations(segments), max), Longer);
      && (forall c :: c in cs ==> 1 <= |c| <= max)
      && (forall g :: g in Conversations(segments) && |Convo(segments, g)| <= max ==> Convo(segments, g) in cs)
  {
    hide Intact, Conversations, Convo, Sort, Members, Where;
    NoEmptyConversation(segments);
    IntactSizes(segments, Conversations(segments), max);
    LongerIsPreorder();
    SortSorts(Intact(segments, Conversations(segments), max), Longer);
    SameElements(Intact(segments, Conversations(segments), max),
        Sort(Intact(segments, Conversations(segments), max), Longer));
  }

  /** A conversation that fits stands whole in one batch, in sequence order. */
  lemma ConversationKeptWhole(segments: seq<Segment>, max: nat, g: string)
    requires max >= 1 && g in Conversations(segments) && |Convo(segments, g)| <= max
    ensures InOneBatch(Convo(segments, g), Plan(segments, max)) && Sorted(Convo(segments, g), Earlier)
  {
    hide Oversized, Intact, Conversations, Convo, Sort, Pack, Chunks, Where, Within;
    ConvoFacts(segments, g);
    PackedGroups(segments, max);
    var cs := Sort(Intact(segments, Conversations(segments), max), Longer);
    PackKeepsWhole([], cs, max, Convo(segments, g));
    var b :| b in Packed(segments, max) && Within(Convo(segments, g), b);
    assert b in Plan(segments, max);
  }

  lemma {:induction false} OversizedHas(segments: seq<Segment>, gs: seq<string>, max: nat, g: string) returns (i: nat)
    requires max >= 1 && g in gs && |Convo(segments, g)| > max
    ensures var cut := Chunks(Convo(segments, g), max);
      i + |cut| <= |Oversized(segments, gs, max)| && Oversized(segments, gs, max)[i..i + |cut|] == cut
  {
    hide Convo, Chunks;
    var cut := Chunks(Convo(segments, g), max);
    var rest := Oversized(segments, gs[1..], max);
    var first := if |Convo(segments, gs[0])| > max then Chunks(Convo(segments, gs[0]), max) else [];
    if gs[0] == g {
      i := 0;
      Stretch(cut, rest, 0, |cut|);
      assert cut[0..|cut|] == cut;
    } else {
      var j := OversizedHas(segments, gs[1..], max, g);
      i := |first| + j;
      Stretch(first, rest, j, |cut|);
    }
  }

  /** A longer one is split along its own sequence: its chunks, each but the last of exactly max segments,
      are consecutive batches that read together as the conversation. */
  lemma LongConversationSplit(segments: seq<Segment>, max: nat, g: string) returns (i: nat)
    requires max >= 1 && g in Conversations(segments) && |Convo(segments, g)| > max
    ensures var cut := Chunks(Convo(segments, g), max);
      && i + |cut| <= |Plan(segments, max)| && Plan(segments, max)[i..i + |cut|] == cut
      && Flatten(cut) == Convo(segments, g) && forall j :: 0 <= j < |cut| - 1 ==> |cut[j]| == max
  {
    hide Convo, Chunks, Pack, Sort, Conversations, Oversized, Where, Flatten;
    ChunksFacts(Convo(segments, g), max);
    i := OversizedHas(segments, Conversations(segments), max, g);
    var cut, over := Chunks(Convo(segments, g), max), Oversized(segments, Conversations(segments), max);
    var rest := Packed(segments, max) + Chunks(Where(segments, Alone), max);
    assert Plan(segments, max) == over + rest;
    Stretch(over, rest, i, |cut|);
  }

  /** Any two adjacent packed batches together exceed max, which bounds their number. */
  lemma PackedIsTight(segments: seq<Segment>, max: nat)
    requires max >= 1
    ensures Tight(Packed(segments, max), max)
    ensures (|Packed(segments, max)| / 2) * (max + 1) <= |Flatten(Packed(segments, max))|
  {
    hide Intact, Conversations, Sort, Pack, Convo;
    PackedGroups(segments, max);
    PackTight([], Sort(Intact(segments, Conversations(segments), max), Longer), max);
    TightBound(Packed(segments, max), max);
  }

  // ----------------------------------------------------- order independence

  /** Within a conversation, (seq, uid) names one segment. */
  predicate PositionsDistinct(s: seq<Segment>) {
    forall x, y :: x in s && y in s && x.group == y.group && SeqOf(x) == SeqOf(y) && x.uid == y.uid ==> x == y
  }

  lemma ConvoOrderFree(a: seq<Segment>, b: seq<Segment>, g: string)
    requires multiset(a) == multiset(b) && PositionsDistinct(a)
    ensures Convo(a, g) == Convo(b, g)
  {
    WherePermutes(a, b, InConversation);
    MembersPermute(Where(a, InConversation), Where(b, InConversation), GroupOf, g);
    ConvoFacts(a, g);
    ConvoFacts(b, g);
    var c := Convo(a, g);
    SameElements(c, Members(Where(a, InConversation), GroupOf, g));
    MembersFacts(Where(a, InConversation), GroupOf, g);
    forall x, y | x in c && y in c && Earlier(x, y) && Earlier(y, x) ensures x == y {
      StrTotal(x.uid, y.uid);
      WhereFacts(a, InConversation, x);
      WhereFacts(a, InConversation, y);
    }
    hide Convo, Members, Where, PositionsDistinct, Earlier;
    SortedUnique(c, Convo(b, g), Earlier);
  }

  lemma ConversationsOrderFree(a: seq<Segment>, b: seq<Segment>)
    requires multiset(a) == multiset(b)
    ensures Conversations(a) == Conversations(b)
  {
    WherePermutes(a, b, InConversation);
    var x, y := Where(a, InConversation), Where(b, InConversation);
    SameElements(x, y);
    KeysFacts(x, GroupOf);
    KeysFacts(y, GroupOf);
    SortedKeys(KeysOf(x, GroupOf), KeysOf(y, GroupOf));
  }

  lemma {:induction false} PartsOrderFree(a: seq<Segment>, b: seq<Segment>, gs: seq<string>, max: nat)
    requires max >= 1 && multiset(a) == multiset(b) && PositionsDistinct(a)
    ensures Oversized(a, gs, max) == Oversized(b, gs, max) && Intact(a, gs, max) == Intact(b, gs, max)
  {
    if gs != [] {
      hide Convo, PositionsDistinct;
      ConvoOrderFree(a, b, gs[0]);
      PartsOrderFree(a, b, gs[1..], max);
    }
  }

  /** The conversation part of the plan does not depend on the order the segments arrive in. */
  lemma GroupedOrderFree(a: seq<Segment>, b: seq<Segment>, max: nat)
    requires max >= 1 && multiset(a) == multiset(b) && PositionsDistinct(a)
    ensures Grouped(a, max) == Grouped(b, max)
  {
    hide Conversations, Oversized, Intact, Pack, Sort, PositionsDistinct;
    ConversationsOrderFree(a, b);
    PartsOrderFree(a, b, Conversations(a), max);
  }
}
