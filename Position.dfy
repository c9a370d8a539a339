/** The "1.3.2" position label of a page in the localization view. The code
    is modelled as written: the sibling filter keeps every tab whose culture
    is null, whatever its parent, and every segment is the index of the page
    itself (not of the ancestor) in that ancestor's filtered child list. */
module Position {
  import opened Wrappers
  import opened Entities
  import opened Sequences
  import opened Text

  /** The sibling filter `t.ParentId == p && t.CultureCode == c || t.CultureCode == null`,
      grouped as C# groups it (`&&` binds tighter than `||`). */
  predicate InSiblingList(t: Tab, parentId: int, culture: CultureCode)
  {
    (t.parentId == parentId && t.cultureCode == culture) || t.cultureCode == NullCode
  }

  function SiblingCandidates(tabs: seq<Tab>, parentId: int, culture: CultureCode): (r: seq<Tab>)
  {
    Filter(tabs, (t: Tab) => InSiblingList(t, parentId, culture))
  }

  function TabOrderKey(t: Tab): (r: int)
  {
    t.tabOrder
  }

  /** The filtered list, `OrderBy(t => t.TabOrder)`. */
  function SiblingList(tabs: seq<Tab>, parentId: int, culture: CultureCode): (r: seq<Tab>)
  {
    SortBy(SiblingCandidates(tabs, parentId, culture), TabOrderKey)
  }

  /** `siblingTabs.IndexOf(tab) + 1` for the list under `parentId`; 0 when the
      tab is not in that list. */
  function Segment(tabs: seq<Tab>, parentId: int, tab: Tab): (r: nat)
  {
    IndexOf(SiblingList(tabs, parentId, tab.cultureCode), tab) + 1
  }

  function WithTabId(tabs: seq<Tab>, id: int): (r: seq<Tab>)
  {
    Filter(tabs, (t: Tab) => t.tabId == id)
  }

  /** `tabs.Single(t => t.TabID == id)`: the one tab with that id, or `None`
      where `Single` throws (no such tab, or several). */
  function SingleById(tabs: seq<Tab>, id: int): (r: Option<Tab>)
    ensures r.Some? <==> |WithTabId(tabs, id)| == 1
    ensures r.Some? ==> r.value in tabs && r.value.tabId == id
  {
    var matching := WithTabId(tabs, id);
    if |matching| == 1 then
      assert matching[0] in matching;
      Some(matching[0])
    else None
  }

  /** Why the label cannot be computed: `Single` threw on an ancestor id, or
      the parent chain cycles, so that the loop never ends. */
  datatype PositionError = ParentNotUnique(id: int) | AncestorCycle

  /** The ids `parentTabId` takes inside the loop, nearest first: starting
      from `id`, each positive id is looked up and replaced by its tab's
      `ParentId`. More than `fuel` steps are reported as a cycle. */
  function Ancestry(tabs: seq<Tab>, id: int, fuel: nat): (r: Result<seq<int>, PositionError>)
    ensures r.Ok? ==> forall j :: 0 <= j < |r.value| ==> r.value[j] > 0
    decreases fuel
  {
    if id <= 0 then Ok([])
    else if fuel == 0 then Err(AncestorCycle)
    else
      match SingleById(tabs, id)
      case None => Err(ParentNotUnique(id))
      case Some(p) =>
        match Ancestry(tabs, p.parentId, fuel - 1)
        case Err(e) => Err(e)
        case Ok(rest) => Ok([id] + rest)
  }

  /** The segments the loop prepends for the visited ancestor ids, outermost first. */
  function SegmentsBy(f: int -> nat, ancestry: seq<int>): (r: seq<nat>)
    ensures |r| == |ancestry|
  {
    if ancestry == [] then []
    else SegmentsBy(f, ancestry[1..]) + [f(ancestry[0])]
  }

  /** The page's segment under each ancestor id. */
  function SegmentOf(tabs: seq<Tab>, tab: Tab): (r: int -> nat)
  {
    id => Segment(tabs, id, tab)
  }

  function Segments(tabs: seq<Tab>, tab: Tab, ancestry: seq<int>): (r: seq<nat>)
    ensures |r| == |ancestry|
  {
    SegmentsBy(SegmentOf(tabs, tab), ancestry)
  }

  /** The label's segments: one per positive ancestor id, then the page's own. */
  function PositionSegments(tabs: seq<Tab>, tab: Tab): (r: Result<seq<nat>, PositionError>)
  {
    match Ancestry(tabs, tab.parentId, |tabs| + 1)
    case Err(e) => Err(e)
    case Ok(ancestry) => Ok(Segments(tabs, tab, ancestry) + [Segment(tabs, tab.parentId, tab)])
  }

  function Labels(segments: seq<nat>): (r: seq<string>)
    ensures |r| == |segments|
    ensures forall i :: 0 <= i < |r| ==> r[i] == NatToString(segments[i])
  {
    seq(|segments|, i requires 0 <= i < |segments| => NatToString(segments[i]))
  }

  /** `dnnPage.Position`. */
  function PositionLabel(tabs: seq<Tab>, tab: Tab): (r: Result<string, PositionError>)
  {
    match PositionSegments(tabs, tab)
    case Err(e) => Err(e)
    case Ok(segments) => Ok(JoinDots(Labels(segments)))
  }

  function Prepend(visited: seq<int>, r: Result<seq<int>, PositionError>): (res: Result<seq<int>, PositionError>)
  {
    match r
    case Err(e) => Err(e)
    case Ok(rest) => Ok(visited + rest)
  }

  lemma PrependNothing(r: Result<seq<int>, PositionError>)
    ensures Prepend([], r) == r
  {
    if r.Ok? {
      assert [] + r.value == r.value;
    }
  }

  lemma PrependTwice(visited: seq<int>, id: int, r: Result<seq<int>, PositionError>)
    ensures Prepend(visited, Prepend([id], r)) == Prepend(visited + [id], r)
  {
    if r.Ok? {
      assert visited + ([id] + r.value) == (visited + [id]) + r.value;
    }
  }

  lemma AncestryStep(tabs: seq<Tab>, id: int, fuel: nat, p: Tab)
    requires id > 0 && fuel > 0 && SingleById(tabs, id) == Some(p)
    ensures Ancestry(tabs, id, fuel) == Prepend([id], Ancestry(tabs, p.parentId, fuel - 1))
  {
  }

  lemma JoinDotsCons(part: string, rest: seq<string>)
    requires |rest| >= 1
    ensures JoinDots([part] + rest) == part + "." + JoinDots(rest)
  {
    assert ([part] + rest)[1..] == rest;
  }

  lemma {:induction false} SegmentsBySnoc(f: int -> nat, visited: seq<int>, id: int)
    ensures SegmentsBy(f, visited + [id]) == [f(id)] + SegmentsBy(f, visited)
  {
    if visited == [] {
      assert [id][1..] == [];
    } else {
      assert (visited + [id])[1..] == visited[1..] + [id];
      SegmentsBySnoc(f, visited[1..], id);
    }
  }

  lemma SegmentsSnoc(tabs: seq<Tab>, tab: Tab, visited: seq<int>, id: int)
    ensures Segments(tabs, tab, visited + [id]) == [Segment(tabs, id, tab)] + Segments(tabs, tab, visited)
  {
    SegmentsBySnoc(SegmentOf(tabs, tab), visited, id);
  }

  lemma LabelsCons(s: nat, rest: seq<nat>)
    ensures Labels([s] + rest) == [NatToString(s)] + Labels(rest)
  {
  }

  /** What holds at the head of the position loop after the ids `visited`
      have been handled: the label so far is made of their segments and the
      page's own, and the rest of the walk starts at `parentTabId`. */
  ghost predicate LoopState(tabs: seq<Tab>, tab: Tab, visited: seq<int>, parentTabId: int, steps: nat, position: string)
  {
    && steps == |visited| <= |tabs| + 1
    && Ancestry(tabs, tab.parentId, |tabs| + 1)
       == Prepend(visited, Ancestry(tabs, parentTabId, |tabs| + 1 - steps))
    && position == JoinDots(Labels(Segments(tabs, tab, visited) + [Segment(tabs, tab.parentId, tab)]))
  }

  lemma LoopStart(tabs: seq<Tab>, tab: Tab)
    ensures LoopState(tabs, tab, [], tab.parentId, 0, NatToString(Segment(tabs, tab.parentId, tab)))
  {
    PrependNothing(Ancestry(tabs, tab.parentId, |tabs| + 1));
    assert Segments(tabs, tab, []) + [Segment(tabs, tab.parentId, tab)] == [Segment(tabs, tab.parentId, tab)];
  }

  lemma AncestryLoopStep(tabs: seq<Tab>, tab: Tab, visited: seq<int>, id: int, steps: nat, p: Tab)
    requires steps < |tabs| + 1
    requires Ancestry(tabs, tab.parentId, |tabs| + 1) == Prepend(visited, Ancestry(tabs, id, |tabs| + 1 - steps))
    requires id > 0 && SingleById(tabs, id) == Some(p)
    ensures Ancestry(tabs, tab.parentId, |tabs| + 1)
         == Prepend(visited + [id], Ancestry(tabs, p.parentId, |tabs| + 1 - (steps + 1)))
  {
    AncestryStep(tabs, id, |tabs| + 1 - steps, p);
    PrependTwice(visited, id, Ancestry(tabs, p.parentId, |tabs| - steps));
  }

  /** Prepending a segment prepends its printed form and a dot. */
  lemma PrependLabel(segment: nat, s: seq<nat>, own: nat)
    ensures NatToString(segment) + "." + JoinDots(Labels(s + [own])) == JoinDots(Labels(([segment] + s) + [own]))
  {
    assert ([segment] + s) + [own] == [segment] + (s + [own]);
    LabelsCons(segment, s + [own]);
    JoinDotsCons(NatToString(segment), Labels(s + [own]));
  }

  lemma LabelLoopStep(tabs: seq<Tab>, tab: Tab, visited: seq<int>, id: int, position: string)
    requires position == JoinDots(Labels(Segments(tabs, tab, visited) + [Segment(tabs, tab.parentId, tab)]))
    ensures NatToString(Segment(tabs, id, tab)) + "." + position
         == JoinDots(Labels(Segments(tabs, tab, visited + [id]) + [Segment(tabs, tab.parentId, tab)]))
  {
    SegmentsSnoc(tabs, tab, visited, id);
    PrependLabel(Segment(tabs, id, tab), Segments(tabs, tab, visited), Segment(tabs, tab.parentId, tab));
  }

  lemma LoopStep(tabs: seq<Tab>, tab: Tab, visited: seq<int>, id: int, steps: nat, position: string, p: Tab)
    requires LoopState(tabs, tab, visited, id, steps, position)
    requires id > 0 && steps < |tabs| + 1 && SingleById(tabs, id) == Some(p)
    ensures LoopState(tabs, tab, visited + [id], p.parentId, steps + 1,
                      NatToString(Segment(tabs, id, tab)) + "." + position)
  {
    AncestryLoopStep(tabs, tab, visited, id, steps, p);
    LabelLoopStep(tabs, tab, visited, id, position);
  }

  lemma LoopDone(tabs: seq<Tab>, tab: Tab, visited: seq<int>, id: int, steps: nat, position: string)
    requires LoopState(tabs, tab, visited, id, steps, position) && id <= 0
    ensures PositionLabel(tabs, tab) == Ok(position)
  {
    assert visited + [] == visited;
  }

  lemma LoopCycle(tabs: seq<Tab>, tab: Tab, visited: seq<int>, id: int, steps: nat, position: string)
    requires LoopState(tabs, tab, visited, id, steps, position) && id > 0 && steps == |tabs| + 1
    ensures PositionLabel(tabs, tab) == Err(AncestorCycle)
  {
  }

  lemma LoopMissing(tabs: seq<Tab>, tab: Tab, visited: seq<int>, id: int, steps: nat, position: string)
    requires LoopState(tabs, tab, visited, id, steps, position) && id > 0 && steps < |tabs| + 1
    requires SingleById(tabs, id).None?
    ensures PositionLabel(tabs, tab) == Err(ParentNotUnique(id))
  {
  }

  /** The position loop as written, with a step count standing for the
      source's unbounded `while (parentTabId > 0)`; each `Segment` call is
      one filtered, ordered sibling list and the page's index in it. */
  method ComputePosition(tabs: seq<Tab>, tab: Tab) returns (r: Result<string, PositionError>)
    ensures r == PositionLabel(tabs, tab)
  {
    var position := NatToString(Segment(tabs, tab.parentId, tab));
    var parentTabId := tab.parentId;
    ghost var visited: seq<int> := [];
    var steps: nat := 0;
    LoopStart(tabs, tab);
    while parentTabId > 0
      invariant LoopState(tabs, tab, visited, parentTabId, steps, position)
      decreases |tabs| + 1 - steps
    {
      if steps == |tabs| + 1 {
        LoopCycle(tabs, tab, visited, parentTabId, steps, position);
        return Err(AncestorCycle);
      }
      var parentTab := SingleById(tabs, parentTabId);
      if parentTab.None? {
        LoopMissing(tabs, tab, visited, parentTabId, steps, position);
        return Err(ParentNotUnique(parentTabId));
      }
      var id := parentTabId;
      LoopStep(tabs, tab, visited, id, steps, position, parentTab.value);
      position := NatToString(Segment(tabs, id, tab)) + "." + position;
      parentTabId := parentTab.value.parentId;
      visited := visited + [id];
      steps := steps + 1;
    }
    LoopDone(tabs, tab, visited, parentTabId, steps, position);
    r := Ok(position);
  }

  /** A tab whose parent id is not positive gets exactly one segment: its
      1-based index among the filtered siblings. */
  lemma RootTabHasOneSegment(tabs: seq<Tab>, tab: Tab)
    requires tab.parentId <= 0
    ensures PositionSegments(tabs, tab) == Ok([Segment(tabs, tab.parentId, tab)])
    ensures PositionLabel(tabs, tab) == Ok(NatToString(Segment(tabs, tab.parentId, tab)))
  {
    assert Segments(tabs, tab, []) + [Segment(tabs, tab.parentId, tab)] == [Segment(tabs, tab.parentId, tab)];
  }

  lemma {:induction false} SegmentByAt(f: int -> nat, ancestry: seq<int>, j: nat)
    requires j < |ancestry|
    ensures SegmentsBy(f, ancestry)[|ancestry| - 1 - j] == f(ancestry[j])
  {
    if j > 0 {
      SegmentByAt(f, ancestry[1..], j - 1);
    }
  }

  /** Each positive ancestor id adds one segment in front, and that segment is
      the index of the page itself in that ancestor's filtered child list. */
  lemma SegmentPerAncestor(tabs: seq<Tab>, tab: Tab, ancestry: seq<int>, segments: seq<nat>)
    requires Ancestry(tabs, tab.parentId, |tabs| + 1) == Ok(ancestry)
    requires PositionSegments(tabs, tab) == Ok(segments)
    ensures |segments| == |ancestry| + 1
    ensures segments[|ancestry|] == IndexOf(SiblingList(tabs, tab.parentId, tab.cultureCode), tab) + 1
    ensures forall j :: 0 <= j < |ancestry| ==>
      segments[|ancestry| - 1 - j] == IndexOf(SiblingList(tabs, ancestry[j], tab.cultureCode), tab) + 1
  {
    forall j | 0 <= j < |ancestry| {
      SegmentByAt(SegmentOf(tabs, tab), ancestry, j);
    }
    assert segments == Segments(tabs, tab, ancestry) + [Segment(tabs, tab.parentId, tab)];
  }

  lemma SegmentsOne(tabs: seq<Tab>, tab: Tab, id: int)
    ensures Segments(tabs, tab, [id]) == [Segment(tabs, id, tab)]
  {
    assert [id][1..] == [];
  }

  lemma TwoLabels(k: nat)
    ensures JoinDots(Labels([k, k])) == NatToString(k) + "." + NatToString(k)
  {
    assert Labels([k, k]) == [NatToString(k)] + [NatToString(k)];
    JoinDotsCons(NatToString(k), [NatToString(k)]);
  }

  /** The child of a root tab gets the label "k.k": both segments come from
      the same list. */
  lemma ChildOfRootRepeatsIndex(tabs: seq<Tab>, tab: Tab)
    requires tab.parentId > 0
    requires SingleById(tabs, tab.parentId).Some? && SingleById(tabs, tab.parentId).value.parentId <= 0
    ensures var k := NatToString(Segment(tabs, tab.parentId, tab));
      PositionLabel(tabs, tab) == Ok(k + "." + k)
  {
    var p := SingleById(tabs, tab.parentId).value;
    var k := Segment(tabs, tab.parentId, tab);
    AncestryStep(tabs, tab.parentId, |tabs| + 1, p);
    assert [tab.parentId] + [] == [tab.parentId];
    assert Ancestry(tabs, tab.parentId, |tabs| + 1) == Ok([tab.parentId]);
    SegmentsOne(tabs, tab, tab.parentId);
    assert Segments(tabs, tab, [tab.parentId]) + [k] == [k, k];
    assert PositionSegments(tabs, tab) == Ok([k, k]);
    TwoLabels(k);
  }

  /** A tab belongs to every filtered list when its culture is null, and to
      the list under `p` for culture `c` otherwise only when both match. */
  lemma SiblingListMembers(tabs: seq<Tab>, p: int, c: CultureCode, t: Tab)
    ensures t in SiblingList(tabs, p, c)
        <==> t in tabs && (t.cultureCode == NullCode || (t.parentId == p && t.cultureCode == c))
  {
    SortByMembership(SiblingCandidates(tabs, p, c), TabOrderKey, t);
  }

  /** So a page with a culture gets segment 0 ("0" in the label) from every
      list other than its own parent's. */
  lemma ForeignListGivesZero(tabs: seq<Tab>, a: int, tab: Tab)
    requires tab.cultureCode != NullCode && a != tab.parentId
    ensures Segment(tabs, a, tab) == 0
  {
    SiblingListMembers(tabs, a, tab.cultureCode, tab);
  }

  /** A page of the list is found in its own parent's list: its last segment
      is at least 1. */
  lemma OwnSegmentPositive(tabs: seq<Tab>, tab: Tab)
    requires tab in tabs
    ensures Segment(tabs, tab.parentId, tab) >= 1
  {
    SiblingListMembers(tabs, tab.parentId, tab.cultureCode, tab);
  }

  /** The label reads back: split at its dots, its parts are the printed
      segments, each of which parses back to its number. */
  lemma LabelReadsBack(tabs: seq<Tab>, tab: Tab)
    requires PositionSegments(tabs, tab).Ok?
    ensures var segments := PositionSegments(tabs, tab).value;
      && PositionLabel(tabs, tab).Ok?
      && SplitDots(PositionLabel(tabs, tab).value) == Labels(segments)
      && forall i :: 0 <= i < |segments| ==> DigitsValue(Labels(segments)[i]) == segments[i]
  {
    var segments := PositionSegments(tabs, tab).value;
    SplitJoinDots(Labels(segments));
    forall i | 0 <= i < |segments| ensures DigitsValue(Labels(segments)[i]) == segments[i] {
      NatToStringRoundTrip(segments[i]);
    }
  }
}
