/** The format adapter of `src/utils/storyAdapter.ts`: conversion of a page
    record into node/connection form, connection resolution, the adapter's
    own start-page choice and its ending test. */
module StoryAdapter {
  import opened Js
  import opened Types
  import opened StoryDataHook

  /** What `normalizeStoryData` can be handed. */
  datatype AdapterInput =
    | GraphInput(data: StoryData)          // already has `nodes` and `connections`
    | PageRecordInput(pages: Record<Page>) // any other non-null, non-array object
    | ArrayOrPrimitive                     // an array, a number, a string, a boolean
    | Nullish                              // `null` or `undefined`

  /** Reading `data.nodes` off `null` or `undefined` throws a `TypeError`. */
  datatype AdapterError = NullishInput

  // ---------------------------------------------------------------------
  // Page record -> nodes
  // ---------------------------------------------------------------------

  /** The type tag a converted page gets: its `endingType` (or `'badEnding'`)
      when it is an ending, `'story'` otherwise. */
  function ConvertedTag(p: Page): (tag: string)
    ensures tag == "story" <==> !IsTrue(p.isEnding)
    ensures IsEndingTag(Some(tag)) <==> IsTrue(p.isEnding) && p.endingType.None?
  {
    if IsTrue(p.isEnding) then (if p.endingType.Some? then EndingName(p.endingType.value) else BadEndingTag)
    else "story"
  }

  /** A choice becomes a decision that remembers its `nextPage` and has no target yet. */
  function ChoiceToDecision(c: Choice): (d: Choice)
    ensures d.text == c.text && d.nextPage == c.nextPage && d.targetId.None?
  {
    Choice(c.text, c.nextPage, None)
  }

  /** One page of the record as a node. */
  function ConvertPage(p: Page): (n: Page)
    ensures n.id == p.id && n.content == p.content
    ensures n.typeTag == Some(ConvertedTag(p))
    ensures n.title.Some? && (Truthy(p.title) ==> n.title == p.title) && (!Truthy(p.title) ==> n.title == Some(""))
    ensures n.pageNumber == Some("") && n.choices.None?
    ensures n.isEnding == p.isEnding && n.endingType == p.endingType
    ensures n.images == Some(if p.images.Some? then p.images.value else [])
    ensures n.decisions.Some? && |n.decisions.value| == (if p.choices.Some? then |p.choices.value| else 0)
    ensures p.choices.Some? ==> forall j :: 0 <= j < |p.choices.value| ==>
              n.decisions.value[j] == ChoiceToDecision(p.choices.value[j])
  {
    Page(p.id,
         Some(ConvertedTag(p)),
         Some(if Truthy(p.title) then p.title.value else ""),
         p.content,
         None,
         Some(if p.choices.Some? then seq(|p.choices.value|, j requires 0 <= j < |p.choices.value| => ChoiceToDecision(p.choices.value[j])) else []),
         Some(if p.images.Some? then p.images.value else []),
         Some(""),
         p.isEnding,
         p.endingType)
  }

  function ConvertAll(ps: seq<Page>): (ns: seq<Page>)
    ensures |ns| == |ps| && forall i :: 0 <= i < |ps| ==> ns[i] == ConvertPage(ps[i])
  {
    seq(|ps|, i requires 0 <= i < |ps| => ConvertPage(ps[i]))
  }

  // ---------------------------------------------------------------------
  // Linking decisions to nodes
  // ---------------------------------------------------------------------

  /** A decision after the linking pass: a truthy `nextPage` that names a
      node becomes its `targetId`, and a truthy `nextPage` is removed. */
  function LinkDecision(ids: seq<string>, d: Choice): (r: Choice)
    ensures r.text == d.text
    ensures !Truthy(d.nextPage) ==> r == d
    ensures Truthy(d.nextPage) ==> r.nextPage.None?
    ensures Truthy(d.nextPage) && d.nextPage.value in ids ==> r.targetId == d.nextPage
    ensures !(Truthy(d.nextPage) && d.nextPage.value in ids) ==> r.targetId == d.targetId
  {
    if !Truthy(d.nextPage) then d
    else if d.nextPage.value in ids then d.(targetId := d.nextPage, nextPage := None)
    else d.(nextPage := None)
  }

  function LinkDecisions(ids: seq<string>, ds: seq<Choice>): (r: seq<Choice>)
    ensures |r| == |ds| && forall j :: 0 <= j < |ds| ==> r[j] == LinkDecision(ids, ds[j])
  {
    seq(|ds|, j requires 0 <= j < |ds| => LinkDecision(ids, ds[j]))
  }

  function LinkNode(ids: seq<string>, n: Page): (r: Page)
    ensures r.id == n.id
    ensures r.decisions.Some? <==> n.decisions.Some?
    ensures n.decisions.None? ==> r == n
    ensures n.decisions.Some? ==> r == n.(decisions := Some(LinkDecisions(ids, n.decisions.value)))
  {
    if n.decisions.Some? then n.(decisions := Some(LinkDecisions(ids, n.decisions.value))) else n
  }

  function LinkNodes(ids: seq<string>, ns: seq<Page>): (r: seq<Page>)
    ensures |r| == |ns| && forall i :: 0 <= i < |ns| ==> r[i] == LinkNode(ids, ns[i])
  {
    seq(|ns|, i requires 0 <= i < |ns| => LinkNode(ids, ns[i]))
  }

  /** The connection the linking pass emits for decision `j`, if any. */
  predicate Emits(ids: seq<string>, d: Choice)
  {
    Truthy(d.nextPage) && d.nextPage.value in ids
  }

  /** The connections emitted for the decisions `ds` of node `src`, in order. */
  function DecisionLinks(src: string, ids: seq<string>, ds: seq<Choice>): (cs: seq<Connection>)
    ensures forall c :: c in cs ==> c.sourceId == src && c.sourceHandle.Index? && 0 <= c.sourceHandle.index < |ds|
    decreases |ds|
  {
    if ds == [] then []
    else
      var d := ds[|ds| - 1];
      DecisionLinks(src, ids, ds[..|ds| - 1]) +
      (if Emits(ids, d) then [Connection(src, d.nextPage.value, Index(|ds| - 1))] else [])
  }

  function NodeLinks(ids: seq<string>, n: Page): (cs: seq<Connection>)
    ensures forall c :: c in cs ==> c.sourceId == n.id
  {
    if n.decisions.Some? then DecisionLinks(n.id, ids, n.decisions.value) else []
  }

  /** The connections emitted for the nodes `ns`, node by node. */
  function AllLinks(ids: seq<string>, ns: seq<Page>): (cs: seq<Connection>)
    decreases |ns|
  {
    if ns == [] then [] else AllLinks(ids, ns[..|ns| - 1]) + NodeLinks(ids, ns[|ns| - 1])
  }

  /** What `normalizeStoryData` returns, or the error it throws. */
  function Normalize(input: AdapterInput): (r: Result<StoryData, AdapterError>)
    ensures r.Err? <==> input.Nullish?
    ensures input.GraphInput? ==> r == Ok(input.data)
    ensures input.ArrayOrPrimitive? ==> r == Ok(StoryData([], []))
    ensures input.PageRecordInput? ==> |r.value.nodes| == |Values(input.pages)|
  {
    match input
    case GraphInput(data) => Ok(data)
    case Nullish => Err(NullishInput)
    case ArrayOrPrimitive => Ok(StoryData([], []))
    case PageRecordInput(pages) =>
      var nodes := ConvertAll(Values(pages));
      var ids := Ids(nodes);
      Ok(StoryData(LinkNodes(ids, nodes), AllLinks(ids, nodes)))
  }

  /** A lookup of a node by id finds one exactly when the id is among the
      nodes' ids, and what it finds carries that id. */
  lemma FindById(nodes: seq<Page>, x: string)
    ensures Find(nodes, (n: Page) => n.id == x).Some? <==> x in Ids(nodes)
    ensures Find(nodes, (n: Page) => n.id == x).Some? ==> Find(nodes, (n: Page) => n.id == x).value.id == x
  {
    if x in Ids(nodes) {
      var k :| 0 <= k < |nodes| && Ids(nodes)[k] == x;
      assert nodes[k].id == x;
    }
  }

  /** The inner loop of the linking pass over the decisions `ds0` of node
      `src`: returns the rewritten decisions and the connections pushed. */
  method LinkNodeDecisions(nodes: seq<Page>, src: string, ds0: seq<Choice>)
    returns (ds: seq<Choice>, pushed: seq<Connection>)
    ensures ds == LinkDecisions(Ids(nodes), ds0)
    ensures pushed == DecisionLinks(src, Ids(nodes), ds0)
  {
    ghost var ids := Ids(nodes);
    ds := ds0;
    pushed := [];
    var j := 0;
    while j < |ds|
      invariant 0 <= j <= |ds| == |ds0|
      invariant forall k :: 0 <= k < j ==> ds[k] == LinkDecision(ids, ds0[k])
      invariant forall k :: j <= k < |ds| ==> ds[k] == ds0[k]
      invariant pushed == DecisionLinks(src, ids, ds0[..j])
    {
      var decision := ds[j];
      assert ds0[..j + 1][..j] == ds0[..j];
      if Truthy(decision.nextPage) {
        var target := Find(nodes, (n: Page) => n.id == decision.nextPage.value);
        FindById(nodes, decision.nextPage.value);
        if target.Some? {
          pushed := pushed + [Connection(src, target.value.id, Index(j))];
          decision := decision.(targetId := Some(target.value.id));
        }
        decision := decision.(nextPage := None);
        ds := ds[j := decision];
      }
      j := j + 1;
    }
    assert ds0[..j] == ds0;
  }

  /** The outer loop of the linking pass: every node's decisions are
      rewritten in place and the connections they emit are pushed in node
      order. */
  method LinkPass(nodes0: seq<Page>) returns (nodes: seq<Page>, connections: seq<Connection>)
    ensures nodes == LinkNodes(Ids(nodes0), nodes0)
    ensures connections == AllLinks(Ids(nodes0), nodes0)
  {
    ghost var ids := Ids(nodes0);
    nodes := nodes0;
    connections := [];
    var i := 0;
    while i < |nodes|
      invariant 0 <= i <= |nodes| == |nodes0|
      invariant forall k :: 0 <= k < i ==> nodes[k] == LinkNode(ids, nodes0[k])
      invariant forall k :: i <= k < |nodes| ==> nodes[k] == nodes0[k]
      invariant Ids(nodes) == ids
      invariant connections == AllLinks(ids, nodes0[..i])
    {
      var node := nodes[i];
      assert nodes0[..i + 1][..i] == nodes0[..i] && nodes0[..i + 1][i] == node;
      assert AllLinks(ids, nodes0[..i + 1]) == AllLinks(ids, nodes0[..i]) + NodeLinks(ids, node);
      if node.decisions.Some? {
        var ds, pushed := LinkNodeDecisions(nodes, node.id, node.decisions.value);
        connections := connections + pushed;
        IdsOfUpdate(nodes, i, node.(decisions := Some(ds)));
        nodes := nodes[i := node.(decisions := Some(ds))];
      }
      i := i + 1;
    }
    assert nodes0[..i] == nodes0;
  }

  /** Replacing a node by one with the same id keeps the id list. */
  lemma IdsOfUpdate(nodes: seq<Page>, i: nat, n: Page)
    requires i < |nodes| && n.id == nodes[i].id
    ensures Ids(nodes[i := n]) == Ids(nodes)
  {
    assert forall k :: 0 <= k < |nodes| ==> Ids(nodes[i := n])[k] == Ids(nodes)[k];
  }

  /** `normalizeStoryData(data)`: graph input is returned as it is, a page
      record is converted and linked, anything else becomes an empty graph,
      and `null`/`undefined` throws. */
  method NormalizeStoryData(input: AdapterInput) returns (r: Result<StoryData, AdapterError>)
    ensures r == Normalize(input)
  {
    if input.Nullish? {
      return Err(NullishInput);
    }
    if input.GraphInput? {
      return Ok(input.data);
    }
    var nodes: seq<Page> := [];
    var connections: seq<Connection> := [];
    if input.PageRecordInput? {
      nodes := ConvertAll(Values(input.pages));
      nodes, connections := LinkPass(nodes);
    }
    return Ok(StoryData(nodes, connections));
  }

  // ---------------------------------------------------------------------
  // processConnections, findStartingPage, isEndingNode
  // ---------------------------------------------------------------------

  /** `processConnections(storyData)`: every node with decisions gets them
      resolved against the connection list; nothing else changes. */
  function ProcessConnections(d: StoryData): (r: StoryData)
    ensures r.connections == d.connections && |r.nodes| == |d.nodes|
    ensures forall i :: 0 <= i < |d.nodes| ==>
              && (d.nodes[i].decisions.None? ==> r.nodes[i] == d.nodes[i])
              && (d.nodes[i].decisions.Some? ==>
                    r.nodes[i] == d.nodes[i].(decisions := Some(ResolveDecisions(d.nodes[i].id, d.nodes[i].decisions.value, d.connections))))
  {
    StoryData(seq(|d.nodes|, i requires 0 <= i < |d.nodes| =>
                if d.nodes[i].decisions.None? then d.nodes[i]
                else d.nodes[i].(decisions := Some(ResolveDecisions(d.nodes[i].id, d.nodes[i].decisions.value, d.connections)))),
              d.connections)
  }

  predicate IdHasStart(n: Page)
  {
    Includes(n.id, "start")
  }

  /** `findStartingPage(storyData)`: the first `intro` node, else the first
      node numbered `'1'`, else the first node whose id contains `"start"`,
      else the first node; `''` when there are no nodes. */
  function FindStartingPage(nodes: seq<Page>): (id: string)
    ensures nodes == [] ==> id == ""
    ensures (exists i :: 0 <= i < |nodes| && IsIntro(nodes[i])) ==>
              exists i :: 0 <= i < |nodes| && IsIntro(nodes[i]) && nodes[i].id == id &&
                          forall j :: 0 <= j < i ==> !IsIntro(nodes[j])
    ensures (forall i :: 0 <= i < |nodes| ==> !IsIntro(nodes[i])) &&
            (exists i :: 0 <= i < |nodes| && HasPageNumberOne(nodes[i])) ==>
              exists i :: 0 <= i < |nodes| && HasPageNumberOne(nodes[i]) && nodes[i].id == id &&
                          forall j :: 0 <= j < i ==> !HasPageNumberOne(nodes[j])
    ensures (forall i :: 0 <= i < |nodes| ==> !IsIntro(nodes[i]) && !HasPageNumberOne(nodes[i])) &&
            (exists i :: 0 <= i < |nodes| && IdHasStart(nodes[i])) ==>
              exists i :: 0 <= i < |nodes| && IdHasStart(nodes[i]) && nodes[i].id == id &&
                          forall j :: 0 <= j < i ==> !IdHasStart(nodes[j])
    ensures nodes != [] &&
            (forall i :: 0 <= i < |nodes| ==> !IsIntro(nodes[i]) && !HasPageNumberOne(nodes[i]) && !IdHasStart(nodes[i])) ==>
              id == nodes[0].id
  {
    var intro := Find(nodes, IsIntro);
    if intro.Some? then intro.value.id
    else
      var numbered := Find(nodes, HasPageNumberOne);
      if numbered.Some? then numbered.value.id
      else
        var start := Find(nodes, IdHasStart);
        if start.Some? then start.value.id
        else if nodes != [] then nodes[0].id
        else ""
  }

  /** `isEndingNode(node)`: an explicit flag, an ending tag, or an empty
      decision list (a missing one does not count). */
  predicate IsEndingNode(n: Page): (b: bool)
    ensures b <==> IsTrue(n.isEnding) || EndingOfTag(n.typeTag).Some? || n.decisions == Some([])
  {
    IsTrue(n.isEnding) || IsEndingTag(n.typeTag) || (n.decisions.Some? && |n.decisions.value| == 0)
  }

  // ---------------------------------------------------------------------
  // Properties
  // ---------------------------------------------------------------------

  /** Decision `j` of `ds` emits exactly the connection `c`. */
  predicate EmitsAt(src: string, ids: seq<string>, ds: seq<Choice>, j: int, c: Connection)
  {
    0 <= j < |ds| && Emits(ids, ds[j]) && c == Connection(src, ds[j].nextPage.value, Index(j))
  }

  /** Exactly the decisions whose `nextPage` names a node emit a connection,
      carrying their index as handle. */
  lemma {:induction false} DecisionLinksExact(src: string, ids: seq<string>, ds: seq<Choice>, c: Connection)
    ensures c in DecisionLinks(src, ids, ds) <==> exists j :: EmitsAt(src, ids, ds, j, c)
    decreases |ds|
  {
    if ds != [] {
      var n := |ds| - 1;
      var init := ds[..n];
      DecisionLinksExact(src, ids, init, c);
      assert DecisionLinks(src, ids, ds) ==
             DecisionLinks(src, ids, init) + (if Emits(ids, ds[n]) then [Connection(src, ds[n].nextPage.value, Index(n))] else []);
      assert EmitsAt(src, ids, ds, n, c) <==> Emits(ids, ds[n]) && c == Connection(src, ds[n].nextPage.value, Index(n));
      assert forall j :: EmitsAt(src, ids, init, j, c) <==> EmitsAt(src, ids, ds, j, c) && j < n;
      if exists j :: EmitsAt(src, ids, ds, j, c) {
        var j :| EmitsAt(src, ids, ds, j, c);
        if j < n {
          assert EmitsAt(src, ids, init, j, c);
        }
      }
    }
  }

  /** Every emitted connection comes from one of the nodes. */
  lemma {:induction false} AllLinksFrom(ids: seq<string>, ns: seq<Page>, c: Connection)
    requires c in AllLinks(ids, ns)
    ensures exists i :: 0 <= i < |ns| && c in NodeLinks(ids, ns[i])
    decreases |ns|
  {
    var init := ns[..|ns| - 1];
    if c in AllLinks(ids, init) {
      AllLinksFrom(ids, init, c);
      var i :| 0 <= i < |init| && c in NodeLinks(ids, init[i]);
      assert init[i] == ns[i];
    }
  }

  /** The converted nodes of a page record, linked, and their connections. */
  function RecordNodes(pages: Record<Page>): seq<Page>
  {
    ConvertAll(Values(pages))
  }

  /** With distinct ids, resolving the adapter's output against its own
      connections changes nothing: the adapter already did all the work. */
  lemma AdapterOutputIsResolved(pages: Record<Page>)
    requires UniqueIds(RecordNodes(pages))
    ensures ProcessConnections(Normalize(PageRecordInput(pages)).value) == Normalize(PageRecordInput(pages)).value
  {
    var nodes := RecordNodes(pages);
    var ids := Ids(nodes);
    var out := Normalize(PageRecordInput(pages)).value;
    forall i | 0 <= i < |nodes|
      ensures ProcessConnections(out).nodes[i] == out.nodes[i]
    {
      LinkedNodeResolved(ids, nodes, i);
    }
  }

  /** One node of the adapter's output is unchanged by `processConnections`. */
  lemma LinkedNodeResolved(ids: seq<string>, nodes: seq<Page>, i: nat)
    requires ids == Ids(nodes) && UniqueIds(nodes)
    requires i < |nodes| && nodes[i].decisions.Some?
    requires forall k :: 0 <= k < |nodes[i].decisions.value| ==> nodes[i].decisions.value[k].targetId.None?
    ensures var lds := LinkDecisions(ids, nodes[i].decisions.value);
            ResolveDecisions(nodes[i].id, lds, AllLinks(ids, nodes)) == lds
  {
    var conns := AllLinks(ids, nodes);
    var lds := LinkDecisions(ids, nodes[i].decisions.value);
    forall j | 0 <= j < |lds|
      ensures ResolveDecision(nodes[i].id, j, lds[j], conns) == lds[j]
    {
      if !Truthy(lds[j].targetId) {
        NoMatchForUnlinked(ids, nodes, i, j);
      }
    }
  }

  /** No connection matches decision `j` of node `i` when that decision
      emitted none and node ids are distinct. */
  lemma NoMatchForUnlinked(ids: seq<string>, nodes: seq<Page>, i: nat, j: nat)
    requires ids == Ids(nodes) && UniqueIds(nodes)
    requires i < |nodes| && nodes[i].decisions.Some? && j < |nodes[i].decisions.value|
    requires forall k :: 0 <= k < |nodes[i].decisions.value| ==> nodes[i].decisions.value[k].targetId.None?
    requires !Truthy(LinkDecision(ids, nodes[i].decisions.value[j]).targetId)
    ensures ResolveDecision(nodes[i].id, j, LinkDecision(ids, nodes[i].decisions.value[j]), AllLinks(ids, nodes)).targetId.None?
  {
    var conns := AllLinks(ids, nodes);
    var ds := nodes[i].decisions.value;
    assert !Emits(ids, ds[j]);
    forall k | 0 <= k < |conns| ensures !Matches(conns[k], nodes[i].id, j) {
      var c := conns[k];
      AllLinksFrom(ids, nodes, c);
      var i' :| 0 <= i' < |nodes| && c in NodeLinks(ids, nodes[i']);
      if Matches(c, nodes[i].id, j) {
        assert i' == i;
        DecisionLinksExact(nodes[i].id, ids, ds, c);
        assert false;
      }
    }
  }

  /** `processConnections` applies the hook's rule: on a node with
      decisions it produces the decisions the hook's normaliser produces. */
  lemma ProcessConnectionsAgreesWithHook(d: StoryData, i: nat)
    requires i < |d.nodes| && d.nodes[i].decisions.Some?
    ensures NormalizeNode(d.nodes[i], Some(d.connections)).value.decisions == ProcessConnections(d).nodes[i].decisions
  {
  }

  /** Running `processConnections` twice is running it once. */
  lemma ProcessConnectionsIdempotent(d: StoryData)
    ensures ProcessConnections(ProcessConnections(d)) == ProcessConnections(d)
  {
    var once := ProcessConnections(d);
    forall i | 0 <= i < |d.nodes| && d.nodes[i].decisions.Some?
      ensures ProcessConnections(once).nodes[i] == once.nodes[i]
    {
      ResolveDecisionsIdempotent(d.nodes[i].id, d.nodes[i].decisions.value, d.connections);
    }
  }

  /** A converted ending page keeps its ending tag only when it had no
      `endingType`: `'good'`, `'best'` and `'bad'` are not the tags
      `goodEnding`, `bestEnding`, `badEnding`, so the hook's normaliser,
      which reads the tag, no longer treats such a page as an ending. */
  lemma ConvertedEndingTags(p: Page)
    requires IsTrue(p.isEnding)
    ensures IsEndingNode(ConvertPage(p))
    ensures p.endingType.Some? ==> NormalizeNode(ConvertPage(p), Some([])).value.isEnding == Some(false)
    ensures p.endingType.None? ==> NormalizeNode(ConvertPage(p), Some([])).value.isEnding == Some(true)
  {
  }

  /** The adapter and the hooks pick different start pages when an `intro`
      node follows a node numbered `'1'`. */
  lemma StartPoliciesDiffer(a: Page, b: Page)
    requires a.id == "a" && a.pageNumber == Some("1") && a.typeTag.None?
    requires b.id == "b" && b.typeTag == Some("intro")
    ensures FindStartingPage([a, b]) == "b"
    ensures PageNumberOneFirst([a, b]) == Some(a)
  {
    assert IsIntro([a, b][1]) && !IsIntro([a, b][0]);
  }

  /** A node whose id contains `"start"` is chosen over the first node. */
  lemma StartIdChosen(a: Page, b: Page)
    requires a.id == "a" && a.pageNumber.None? && a.typeTag.None?
    requires b.id == "the-start" && b.pageNumber.None? && b.typeTag.None?
    ensures FindStartingPage([a, b]) == "the-start"
  {
    assert OccursAt(b.id, "start", 4);
    assert !IsIntro([a, b][0]) && !IsIntro([a, b][1]);
    assert !HasPageNumberOne([a, b][0]) && !HasPageNumberOne([a, b][1]);
    assert IdHasStart([a, b][1]) && !IdHasStart([a, b][0]);
  }

  /** The adapter's ending test also counts a node with an empty decision
      list, so it accepts nodes the readers do not treat as endings. */
  lemma EmptyDecisionsIsEnding(n: Page)
    requires n.decisions == Some([])
    ensures IsEndingNode(n)
  {
  }
}
