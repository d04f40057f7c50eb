/** The story plan read off the segments themselves: which of two planned segments stands first (grouping.py
    `plan_story_batches`). */
module StoryOrder {
  import opened StableSort
  import opened Grouping
  import opened StoryBatches

  /** How many segments a conversation has. */
  function Size(segments: seq<Segment>, g: string): nat {
    if segments == [] then 0
    else Size(segments[..|segments| - 1], g) + if segments[|segments| - 1].group == g then 1 else 0
  }

  function Position(s: Segment): int {
    if s.seqNo.None? then 0 else s.seqNo.value
  }

  /** Conversations longer than a batch come first, by name; then the others, longest first, by name among those of one
      length. */
  predicate ComesFirst(segments: seq<Segment>, max: nat, g: string, h: string) {
    var m, n := Size(segments, g), Size(segments, h);
    if m > max then n <= max || StrLe(g, h)
    else n <= max && (m > n || (m == n && StrLe(g, h)))
  }

  /** x may stand in front of y: segments without a conversation stand behind all others, conversations one after the
      other, and the segments of one by position, uids deciding ties. */
  predicate InOrder(segments: seq<Segment>, max: nat, x: Segment, y: Segment) {
    if y.group == "" then true
    else if x.group == "" then false
    else if x.group == y.group then
      Position(x) < Position(y) || (Position(x) == Position(y) && StrLe(x.uid, y.uid))
    else ComesFirst(segments, max, x.group, y.group)
  }

  ghost predicate AllInOrder(segments: seq<Segment>, max: nat, flat: seq<Segment>) {
    forall i, j :: 0 <= i < j < |flat| ==> InOrder(segments, max, flat[i], flat[j])
  }

  // ------------------------------------------------------ the conversations in plan order

  function Long(segments: seq<Segment>, gs: seq<string>, max: nat): seq<seq<Segment>> {
    if gs == [] then []
    else (if |Convo(segments, gs[0])| > max then [Convo(segments, gs[0])] else []) + Long(segments, gs[1..], max)
  }

  /** The conversations in the order in which they are planned. */
  function Laid(segments: seq<Segment>, max: nat): seq<seq<Segment>> {
    Long(segments, Conversations(segments), max) + Sort(Intact(segments, Conversations(segments), max), Longer)
  }

  lemma {:induction false} LongFlattens(segments: seq<Segment>, gs: seq<string>, max: nat)
    requires max >= 1
    ensures Flatten(Oversized(segments, gs, max)) == Flatten(Long(segments, gs, max))
  {
    if gs != [] {
      hide Convo, Oversized, Flatten;
      LongFlattens(segments, gs[1..], max);
      OversizedCons(segments, gs, max);
      LongCons(Convo(segments, gs[0]), Long(segments, gs[1..], max));
      assert [] + Flatten(Long(segments, gs[1..], max)) == Flatten(Long(segments, gs[1..], max));
      assert [] + Long(segments, gs[1..], max) == Long(segments, gs[1..], max);
    } else {
      assert Oversized(segments, gs, max) == [];
    }
  }

  lemma LongCons(c: seq<Segment>, rest: seq<seq<Segment>>)
    ensures Flatten([c] + rest) == c + Flatten(rest)
  {
    assert ([c] + rest)[1..] == rest;
  }

  lemma PlanIs(segments: seq<Segment>, max: nat)
    requires max >= 1
    ensures Flatten(Plan(segments, max)) == Flatten(Laid(segments, max)) + Where(segments, Alone)
  {
    hide Oversized, Intact, Where, Chunks, Pack, Sort, Conversations, Flatten, Long;
    var gs, rest := Conversations(segments), Where(segments, Alone);
    var cs := Sort(Intact(segments, gs, max), Longer);
    LongFlattens(segments, gs, max);
    PackFlattens([], cs, max);
    assert [] + Flatten(cs) == Flatten(cs);
    FlattenConcat(Oversized(segments, gs, max), Packed(segments, max));
    FlattenConcat(Grouped(segments, max), Chunks(rest, max));
    FlattenConcat(Long(segments, gs, max), cs);
    ChunksFacts(rest, max);
  }

  /** A conversation as it is planned: not empty, of one name, complete, and in its own order. */
  ghost predicate Conversation(segments: seq<Segment>, c: seq<Segment>) {
    && c != [] && c[0].group != "" && (forall x :: x in c ==> x.group == c[0].group)
    && |c| == Size(segments, c[0].group) && Sorted(c, Earlier)
  }

  ghost predicate AreConversations(segments: seq<Segment>, cs: seq<seq<Segment>>) {
    forall c :: c in cs ==> Conversation(segments, c)
  }

  lemma {:induction false} MembersSize(segments: seq<Segment>, g: string)
    requires g != ""
    ensures |Members(Where(segments, InConversation), GroupOf, g)| == Size(segments, g)
  {
    if segments != [] {
      var t, x := segments[..|segments| - 1], segments[|segments| - 1];
      MembersSize(t, g);
      var s := Where(t, InConversation);
      if x.group != "" {
        MembersSnoc(s, x, GroupOf, g);
      } else {
        assert s + [] == s;
      }
    }
  }

  lemma ConvoIs(segments: seq<Segment>, g: string)
    requires g in StoryBatches.Conversations(segments)
    ensures Conversation(segments, Convo(segments, g)) && Convo(segments, g)[0].group == g
  {
    hide Members, Where, Sort;
    var s := Where(segments, InConversation);
    NoEmptyConversation(segments);
    NamesFacts(segments, g);
    ConvoFacts(segments, g);
    MembersFacts(s, GroupOf, g);
    SameElements(Convo(segments, g), Members(s, GroupOf, g));
    MembersSize(segments, g);
    hide Convo, StoryBatches.Conversations;
    var c := Convo(segments, g);
    assert |c| == Size(segments, g) && c != [];
    forall x | x in c ensures x.group == g {
      assert x in Members(s, GroupOf, g) && GroupOf(x) == g;
    }
    assert c[0] in c;
  }

  lemma NamesFacts(segments: seq<Segment>, g: string)
    requires g in StoryBatches.Conversations(segments)
    ensures g != ""
  {
    var s := Where(segments, InConversation);
    KeysFacts(s, GroupOf);
    SortKeepsDistinct(KeysOf(s, GroupOf));
    var x :| x in s && GroupOf(x) == g;
    WhereFacts(segments, InConversation, x);
  }

  /** Sorted by name, no name twice. */
  predicate ByName(c: seq<Segment>, d: seq<Segment>) {
    c != [] && d != [] && c[0].group != d[0].group && StrLe(c[0].group, d[0].group)
  }

  lemma NamesSorted(segments: seq<Segment>)
    ensures NamesAscend(StoryBatches.Conversations(segments))
  {
    hide Where, KeysOf, Sort;
    var keys := KeysOf(Where(segments, InConversation), GroupOf);
    KeysFacts(Where(segments, InConversation), GroupOf);
    StrLeIsPreorder();
    SortSorts(keys, StrLe);
    SortKeepsDistinct(keys);
  }

  /** The conversations are of the names gs, of the lengths that pass, and by name. */
  ghost predicate Named(segments: seq<Segment>, cs: seq<seq<Segment>>, gs: seq<string>, max: nat, long: bool) {
    && Pairwise(cs, ByName)
    && forall c: seq<Segment> :: c in cs ==> Conversation(segments, c) && (|c| > max <==> long) && c[0].group in gs
  }

  lemma NamedGrows(segments: seq<Segment>, cs: seq<seq<Segment>>, gs: seq<string>, max: nat, long: bool)
    requires gs != [] && NamesAscend(gs) && gs[0] in StoryBatches.Conversations(segments)
    requires Named(segments, cs, gs[1..], max, long)
    ensures Named(segments, (if |Convo(segments, gs[0])| > max <==> long then [Convo(segments, gs[0])] else [])
                            + cs, gs, max, long)
  {
    hide Convo, StoryBatches.Conversations, StrLe, Conversation, Pairwise;
    var c := Convo(segments, gs[0]);
    ConvoIs(segments, gs[0]);
    NotEmpty(segments, c);
    forall d | d in cs ensures d != [] {
      NotEmpty(segments, d);
    }
    OneMore(segments, c, cs, gs);
    assert [] + cs == cs;
  }

  lemma NotEmpty(segments: seq<Segment>, c: seq<Segment>)
    requires Conversation(segments, c)
    ensures c != []
  {
  }

  lemma NothingNamed(segments: seq<Segment>, max: nat, long: bool)
    ensures Named(segments, [], [], max, long)
  {
  }

  lemma {:induction false} PartsByName(segments: seq<Segment>, gs: seq<string>, max: nat)
    requires NamesAscend(gs) && forall g :: g in gs ==> g in StoryBatches.Conversations(segments)
    ensures Named(segments, Long(segments, gs, max), gs, max, true)
    ensures Named(segments, Intact(segments, gs, max), gs, max, false)
  {
    hide Convo, StoryBatches.Conversations, StrLe, Named;
    if gs == [] {
      NothingNamed(segments, max, true);
      NothingNamed(segments, max, false);
    } else {
      var rest := gs[1..];
      assert forall i :: 0 <= i < |rest| ==> rest[i] == gs[i + 1];
      assert forall g :: g in rest ==> g in gs;
      PartsByName(segments, rest, max);
      NamedGrows(segments, Long(segments, rest, max), gs, max, true);
      NamedGrows(segments, Intact(segments, rest, max), gs, max, false);
    }
  }

  lemma OneMore(segments: seq<Segment>, c: seq<Segment>, cs: seq<seq<Segment>>, gs: seq<string>)
    requires gs != [] && NamesAscend(gs) && c != [] && c[0].group == gs[0]
    requires Pairwise(cs, ByName) && forall d: seq<Segment> :: d in cs ==> d != [] && d[0].group in gs[1..]
    ensures Pairwise([c] + cs, ByName)
  {
    forall d: seq<Segment> | d in cs ensures ByName(c, d) {
      var j :| 0 <= j < |gs[1..]| && gs[1..][j] == d[0].group;
      assert gs[j + 1] == d[0].group;
    }
  }

  ghost predicate Precedes(segments: seq<Segment>, max: nat, c: seq<Segment>, d: seq<Segment>) {
    c != [] && d != [] && c[0].group != d[0].group && ComesFirst(segments, max, c[0].group, d[0].group)
  }

  ghost predicate AllPrecede(segments: seq<Segment>, max: nat, cs: seq<seq<Segment>>) {
    forall i, j :: 0 <= i < j < |cs| ==> Precedes(segments, max, cs[i], cs[j])
  }

  lemma LaidInOrder(segments: seq<Segment>, max: nat)
    ensures AreConversations(segments, Laid(segments, max)) && AllPrecede(segments, max, Laid(segments, max))
  {
    hide StoryBatches.Conversations, Long, Intact, Sort, StrLe, Size, Sorted;
    var gs := StoryBatches.Conversations(segments);
    var long, whole := Long(segments, gs, max), Intact(segments, gs, max);
    var packed := Sort(whole, Longer);
    NamesSorted(segments);
    PartsByName(segments, gs, max);
    LongerIsPreorder();
    SortSorts(whole, Longer);
    SameElements(whole, packed);
    SortStable(whole, Longer, ByName);
    forall i, j | 0 <= i < j < |long| ensures Precedes(segments, max, long[i], long[j]) {
      assert ByName(long[i], long[j]) && long[i] in long && long[j] in long;
    }
    forall i, j | 0 <= i < j < |packed| ensures Precedes(segments, max, packed[i], packed[j]) {
      assert Stably(packed[i], packed[j], Longer, ByName) && packed[i] in packed && packed[j] in packed;
    }
    forall i, j | 0 <= i < |long| && 0 <= j < |packed| ensures Precedes(segments, max, long[i], packed[j]) {
      assert long[i] in long && packed[j] in packed;
    }
  }

  lemma FirstInOrder(segments: seq<Segment>, max: nat, c: seq<Segment>)
    requires Conversation(segments, c)
    ensures AllInOrder(segments, max, c)
  {
    hide Size, ComesFirst, StrLe;
  }

  lemma ThenInOrder(segments: seq<Segment>, max: nat, a: seq<Segment>, b: seq<Segment>)
    requires AllInOrder(segments, max, a) && AllInOrder(segments, max, b)
    requires forall x, y :: x in a && y in b ==> InOrder(segments, max, x, y)
    ensures AllInOrder(segments, max, a + b)
  {
    hide InOrder;
    var ab := a + b;
    forall i, j | 0 <= i < j < |ab| ensures InOrder(segments, max, ab[i], ab[j]) {
      if i < |a| <= j {
        assert ab[i] == a[i] && ab[j] == b[j - |a|];
      } else if j < |a| {
        assert ab[i] == a[i] && ab[j] == a[j];
      } else {
        assert ab[i] == b[i - |a|] && ab[j] == b[j - |a|];
      }
    }
  }

  lemma AcrossInOrder(segments: seq<Segment>, max: nat, c: seq<Segment>, d: seq<Segment>, x: Segment, y: Segment)
    requires Conversation(segments, c) && Conversation(segments, d) && Precedes(segments, max, c, d)
    requires x in c && y in d
    ensures InOrder(segments, max, x, y)
  {
    hide ComesFirst, StrLe, Size, Sorted;
  }

  lemma HeadInOrder(segments: seq<Segment>, max: nat, cs: seq<seq<Segment>>, x: Segment, y: Segment)
    requires cs != [] && AreConversations(segments, cs) && AllPrecede(segments, max, cs)
    requires x in cs[0] && y in Flatten(cs[1..])
    ensures InOrder(segments, max, x, y)
  {
    hide InOrder, Precedes, Conversation;
    FlattenHas(cs[1..], y);
    var d :| d in cs[1..] && y in d;
    var k :| 0 <= k < |cs[1..]| && cs[1..][k] == d;
    assert Precedes(segments, max, cs[0], cs[k + 1]);
    AcrossInOrder(segments, max, cs[0], d, x, y);
  }

  lemma RestToo(segments: seq<Segment>, max: nat, cs: seq<seq<Segment>>)
    requires cs != [] && AreConversations(segments, cs) && AllPrecede(segments, max, cs)
    ensures Conversation(segments, cs[0])
    ensures AreConversations(segments, cs[1..]) && AllPrecede(segments, max, cs[1..])
  {
    hide Precedes, Conversation;
    var rest := cs[1..];
    assert cs[0] in cs && forall i :: 0 <= i < |rest| ==> rest[i] == cs[i + 1];
  }

  lemma NothingInOrder(segments: seq<Segment>, max: nat)
    ensures AllInOrder(segments, max, Flatten([]))
  {
  }

  lemma {:induction false} FlattenInOrder(segments: seq<Segment>, max: nat, cs: seq<seq<Segment>>)
    requires AreConversations(segments, cs) && AllPrecede(segments, max, cs)
    ensures AllInOrder(segments, max, Flatten(cs))
  {
    hide *;
    if cs == [] {
      NothingInOrder(segments, max);
    } else {
      var c, rest := cs[0], cs[1..];
      RestToo(segments, max, cs);
      FlattenInOrder(segments, max, rest);
      FirstInOrder(segments, max, c);
      forall x, y | x in c && y in Flatten(rest) ensures InOrder(segments, max, x, y) {
        HeadInOrder(segments, max, cs, x, y);
      }
      ThenInOrder(segments, max, c, Flatten(rest));
      LongCons(c, rest);
      assert cs == [c] + rest;
    }
  }

  /** The plan, segment by segment: whichever of two planned segments stands first, it may. Conversations stand one
      after the other, those longer than a batch first and by name, then the others, longest first; within one, the
      smaller position comes first, and on one position the smaller uid; segments without a conversation come last. */
  lemma PlanInOrder(segments: seq<Segment>, max: nat)
    requires max >= 1
    ensures AllInOrder(segments, max, Flatten(Plan(segments, max)))
  {
    hide Laid, Plan, Flatten, AreConversations, AllPrecede, Where;
    PlanIs(segments, max);
    LaidInOrder(segments, max);
    FlattenInOrder(segments, max, Laid(segments, max));
    var loners := Where(segments, Alone);
    forall y | y in loners ensures y.group == "" {
      WhereFacts(segments, Alone, y);
    }
    assert AllInOrder(segments, max, loners) by {
      forall i, j | 0 <= i < j < |loners| ensures InOrder(segments, max, loners[i], loners[j]) {
        assert loners[j] in loners;
      }
    }
    ThenInOrder(segments, max, Flatten(Laid(segments, max)), loners);
  }

  /** The segments without a conversation keep the order they came in. */
  lemma LonersInOrder(segments: seq<Segment>, max: nat)
    requires max >= 1
    ensures Where(Flatten(Plan(segments, max)), Alone) == Where(segments, Alone)
  {
    hide Laid, Plan, Flatten, Where, AllPrecede;
    var talk, loners := Flatten(Laid(segments, max)), Where(segments, Alone);
    PlanIs(segments, max);
    LaidInOrder(segments, max);
    forall x | x in talk ensures !Alone(x) {
      FlattenHas(Laid(segments, max), x);
    }
    forall y | y in loners ensures Alone(y) {
      WhereFacts(segments, Alone, y);
    }
    WhereTail(talk, loners, Alone);
  }
}
