/** The standalone story page of `src/pages/StoryPage.tsx`: its own
    node-to-page loop, which pairs decisions with connections by position,
    its `intro`-first start page, and its choice and restart handlers. */
module StoryPage {
  import opened Js
  import opened Types
  import opened StoryDataHook

  // ---------------------------------------------------------------------
  // The per-node rewrite
  // ---------------------------------------------------------------------

  /** An ending tag sets `isEnding` and `endingType`; any other tag leaves
      the node as it is (an incoming `isEnding` survives). */
  function TagEnding(n: Page): (r: Page)
    ensures r.id == n.id && r.typeTag == n.typeTag && r.decisions == n.decisions
    ensures IsEndingTag(n.typeTag) ==> r == n.(isEnding := Some(true), endingType := EndingOfTag(n.typeTag))
    ensures !IsEndingTag(n.typeTag) ==> r == n
  {
    if n.typeTag == Some(BadEndingTag) then n.(isEnding := Some(true), endingType := Some(Bad))
    else if n.typeTag == Some(GoodEndingTag) then n.(isEnding := Some(true), endingType := Some(Good))
    else if n.typeTag == Some(BestEndingTag) then n.(isEnding := Some(true), endingType := Some(Best))
    else n
  }

  predicate LeavesFrom(src: string, c: Connection)
  {
    c.sourceId == src
  }

  /** The connections leaving `src`, in list order. */
  function Outgoing(src: string, conns: seq<Connection>): (out: seq<Connection>)
    ensures forall c :: c in out ==> c.sourceId == src && c in conns
  {
    Filter(conns, c => LeavesFrom(src, c))
  }

  /** Decision `j` takes the target of the `j`-th connection leaving the
      node (or `null` when there is none or its target is empty); handles
      and any target the decision already had play no part. */
  function IndexedDecisions(src: string, ds: seq<Choice>, conns: seq<Connection>): (r: seq<Choice>)
    ensures |r| == |ds|
    ensures forall j :: 0 <= j < |ds| ==> r[j].text == ds[j].text && r[j].nextPage == ds[j].nextPage
    ensures forall j :: 0 <= j < |ds| ==>
              r[j].targetId == (if j < |Outgoing(src, conns)| then OrNull(Some(Outgoing(src, conns)[j].targetId)) else None)
  {
    var out := Outgoing(src, conns);
    seq(|ds|, j requires 0 <= j < |ds| =>
          ds[j].(targetId := OrNull(if j < |out| then Some(out[j].targetId) else None)))
  }

  /** What one iteration of the loop leaves in the node: `None` when the node
      has no `decisions` array, where `node.decisions.map` throws. */
  function ConvertNode(n: Page, conns: seq<Connection>): (r: Option<Page>)
    ensures r.None? <==> n.decisions.None?
    ensures r.Some? ==> r.value == TagEnding(n).(decisions := Some(IndexedDecisions(n.id, n.decisions.value, conns)))
  {
    if n.decisions.None? then None
    else Some(TagEnding(n).(decisions := Some(IndexedDecisions(n.id, n.decisions.value, conns))))
  }

  function ConvertNodes(ns: seq<Page>, conns: seq<Connection>): (rs: seq<Option<Page>>)
    ensures |rs| == |ns| && forall i :: 0 <= i < |ns| ==> rs[i] == ConvertNode(ns[i], conns)
  {
    seq(|ns|, i requires 0 <= i < |ns| => ConvertNode(ns[i], conns))
  }

  /** `find(intro) || first`: the start page of this component. */
  function IntroOrFirst(ps: seq<Page>): (r: Option<Page>)
    ensures r.None? <==> ps == []
    ensures r.Some? ==> r.value in ps
    ensures (exists i :: 0 <= i < |ps| && IsIntro(ps[i])) ==>
              exists i :: 0 <= i < |ps| && IsIntro(ps[i]) && r == Some(ps[i]) &&
                          forall j :: 0 <= j < i ==> !IsIntro(ps[j])
    ensures ps != [] && (forall i :: 0 <= i < |ps| ==> !IsIntro(ps[i])) ==> r == Some(ps[0])
  {
    var intro := Find(ps, IsIntro);
    if intro.Some? then intro else if ps != [] then Some(ps[0]) else None
  }

  /** Where a `loadProject` call stops: after the last line, at a node
      without decisions, or at `startNode.id` on an empty node list. Each
      failure is caught and only logged. */
  datatype LoadOutcome = Loaded | NodeWithoutDecisions | NoNodes

  /** The `forEach` loop of `loadProject`: every node of `nodes` is
      rewritten in place and stored under its id in a fresh page map. At a
      node without decisions the loop throws after tagging that node, leaving
      the earlier nodes rewritten and the later ones untouched. */
  method RewriteNodes(nodes: array<Page>, connections: seq<Connection>) returns (r: Option<PageMap>)
    modifies nodes
    ensures var rs := ConvertNodes(old(nodes[..]), connections);
            && (r.Some? <==> KeyPages(rs).Ok?)
            && (r.Some? ==> r == Some(KeyPages(rs).value))
            && (r.Some? ==> forall i :: 0 <= i < nodes.Length ==> rs[i].Some? && nodes[i] == rs[i].value)
            && (r.None? ==>
                  exists k :: 0 <= k < nodes.Length && rs[k].None? &&
                    (forall i :: 0 <= i < k ==> rs[i].Some? && nodes[i] == rs[i].value) &&
                    nodes[k] == TagEnding(old(nodes[k])) &&
                    (forall i :: k < i < nodes.Length ==> nodes[i] == old(nodes[i])))
  {
    ghost var ns := nodes[..];
    ghost var rs := ConvertNodes(ns, connections);
    var pagesMap := EmptyRecord();
    var i := 0;
    while i < nodes.Length
      invariant 0 <= i <= nodes.Length
      invariant forall k :: 0 <= k < i ==> rs[k].Some? && nodes[k] == rs[k].value
      invariant forall k :: i <= k < nodes.Length ==> nodes[k] == ns[k]
      invariant KeyPages(rs[..i]) == Ok(pagesMap)
    {
      KeyPagesStep(rs, i);
      var node := RewriteAt(nodes, i, connections);
      if node.None? {
        KeyPagesFails(rs);
        return None;
      }
      pagesMap := Assign(pagesMap, node.value.id, node.value);
      i := i + 1;
    }
    assert rs[..i] == rs;
    KeyPagesFails(rs);
    return Some(pagesMap);
  }

  /** The `forEach` callback on `nodes[i]`: tag the node, then, if it has
      decisions, re-target them; throws (`None`) after tagging otherwise. */
  method RewriteAt(nodes: array<Page>, i: int, connections: seq<Connection>) returns (r: Option<Page>)
    requires 0 <= i < nodes.Length
    modifies nodes
    ensures r == ConvertNode(old(nodes[i]), connections)
    ensures nodes[i] == if r.Some? then r.value else TagEnding(old(nodes[i]))
    ensures forall k :: 0 <= k < nodes.Length && k != i ==> nodes[k] == old(nodes[k])
  {
    var node := TagEnding(nodes[i]);
    if node.decisions.None? {
      nodes[i] := node;
      return None;
    }
    node := node.(decisions := Some(IndexedDecisions(node.id, node.decisions.value, connections)));
    nodes[i] := node;
    return Some(node);
  }

  /** Rewriting keeps ids and type tags, so the start page of the rewritten
      nodes has the id of the start page of the fetched ones. */
  lemma IntroOrFirstIds(a: seq<Page>, b: seq<Page>)
    requires |a| == |b|
    requires forall i :: 0 <= i < |a| ==> a[i].id == b[i].id && a[i].typeTag == b[i].typeTag
    ensures IntroOrFirst(a).Some? <==> IntroOrFirst(b).Some?
    ensures IntroOrFirst(a).Some? ==> IntroOrFirst(a).value.id == IntroOrFirst(b).value.id
  {
    FindCorresponds(a, IsIntro, b, IsIntro, (x: Page, y: Page) => x.id == y.id);
  }

  // ---------------------------------------------------------------------
  // The component
  // ---------------------------------------------------------------------

  class StoryPageReader {
    var pages: PageMap
    var currentPage: string
    var history: seq<string>

    /** Nothing loaded yet, or `currentPage` is the top of a non-empty
        history; every page is stored under its own id. */
    ghost predicate Valid()
      reads this
    {
      && KeyedById(pages)
      && ((history == [] && currentPage == "") || (history != [] && currentPage == history[|history| - 1]))
    }

    /** The component shows its loading placeholder. */
    predicate Loading()
      reads this
    {
      currentPage !in pages.entries
    }

    constructor ()
      ensures Valid() && Loading()
      ensures pages == EmptyRecord() && currentPage == "" && history == []
    {
      pages := EmptyRecord();
      currentPage := "";
      history := [];
    }

    /** `loadProject` once the fetch has delivered `storyData`: the node
        loop, `setPages`, then the start page and the seeded history. A
        throw in the loop leaves the component's state as it was; a throw at
        `startNode.id` comes after `setPages`. */
    method LoadProject(nodes: array<Page>, connections: seq<Connection>) returns (outcome: LoadOutcome)
      requires Valid()
      modifies this, nodes
      ensures Valid()
      ensures var rs := ConvertNodes(old(nodes[..]), connections);
              && (outcome == NodeWithoutDecisions <==> KeyPages(rs).Err?)
              && (outcome == Loaded ==>
                    && KeyPages(rs).Ok? && pages == KeyPages(rs).value
                    && nodes.Length > 0 && currentPage == IntroOrFirst(old(nodes[..])).value.id
                    && history == [currentPage]
                    && !Loading())
              && (outcome == NoNodes ==>
                    nodes.Length == 0 && pages == EmptyRecord() &&
                    currentPage == old(currentPage) && history == old(history))
              && (outcome == NodeWithoutDecisions ==>
                    pages == old(pages) && currentPage == old(currentPage) && history == old(history))
    {
      ghost var ns := nodes[..];
      ghost var rs := ConvertNodes(ns, connections);
      var pagesMap := RewriteNodes(nodes, connections);
      if pagesMap.None? {
        return NodeWithoutDecisions;
      }
      KeyPagesKeyedById(rs);
      pages := pagesMap.value;
      var start := IntroOrFirst(nodes[..]);
      IntroOrFirstIds(nodes[..], ns);
      if start.None? {
        return NoNodes;
      }
      StartIsStored(ns, connections, IntroOrFirst(ns).value);
      currentPage := start.value.id;
      history := [start.value.id];
      return Loaded;
    }

    /** `handleChoice`: any truthy target is followed, whether or not a page
        of that id exists. */
    method HandleChoice(choice: Choice)
      requires Valid()
      modifies this
      ensures Valid()
      ensures pages == old(pages)
      ensures Truthy(choice.targetId) ==>
                currentPage == choice.targetId.value && history == old(history) + [choice.targetId.value]
      ensures !Truthy(choice.targetId) ==> currentPage == old(currentPage) && history == old(history)
      ensures Truthy(choice.targetId) && choice.targetId.value !in pages.entries ==> Loading()
    {
      if Truthy(choice.targetId) {
        currentPage := choice.targetId.value;
        history := history + [choice.targetId.value];
      }
    }

    /** `handleRestart`: the first `intro` page, else the first page, of
        `Object.values(pages)`; on an empty map `startNode.id` throws and
        nothing changes. */
    method HandleRestart() returns (threw: bool)
      requires Valid()
      modifies this
      ensures Valid()
      ensures pages == old(pages)
      ensures threw <==> Values(pages) == []
      ensures threw ==> currentPage == old(currentPage) && history == old(history)
      ensures !threw ==> currentPage == IntroOrFirst(Values(pages)).value.id && history == [currentPage]
    {
      var values := Values(pages);
      var start := IntroOrFirst(values);
      if start.None? {
        return true;
      }
      currentPage := start.value.id;
      history := [start.value.id];
      return false;
    }
  }

  // ---------------------------------------------------------------------
  // Properties
  // ---------------------------------------------------------------------

  /** The page a load starts on is stored in the page map. */
  lemma StartIsStored(ns: seq<Page>, conns: seq<Connection>, start: Page)
    requires KeyPages(ConvertNodes(ns, conns)).Ok?
    requires start in ns
    ensures start.id in KeyPages(ConvertNodes(ns, conns)).value.entries
  {
    var rs := ConvertNodes(ns, conns);
    KeyPagesFails(rs);
    KeyPagesDomain(rs);
    IdSetMembers(rs);
    var k :| 0 <= k < |ns| && ns[k] == start;
    assert rs[k].Some? && rs[k].value.id == start.id;
  }

  /** Only the connection at position `j` among those leaving `src` has
      handle `j` when each has its position as handle. */
  lemma PositionalFind(src: string, conns: seq<Connection>, j: nat)
    requires forall k :: 0 <= k < |Outgoing(src, conns)| ==> Outgoing(src, conns)[k].sourceHandle == Index(k)
    ensures Find(conns, c => Matches(c, src, j)) ==
              (if j < |Outgoing(src, conns)| then Some(Outgoing(src, conns)[j]) else None)
  {
    var out := Outgoing(src, conns);
    var p := c => Matches(c, src, j);
    FindInFilter(conns, c => LeavesFrom(src, c), p);
    assert forall m :: 0 <= m < |out| ==> (p(out[m]) <==> m == j);
    if j < |out| {
      FindUnique(out, p, j);
    }
  }

  /** Pairing by position gives the hook's result when no decision carries
      its own target and the connections leaving the node are listed in
      handle order `0, 1, 2, …`. */
  lemma IndexedAgreesWithHook(src: string, ds: seq<Choice>, conns: seq<Connection>)
    requires forall j :: 0 <= j < |ds| ==> !Truthy(ds[j].targetId)
    requires forall k :: 0 <= k < |Outgoing(src, conns)| ==> Outgoing(src, conns)[k].sourceHandle == Index(k)
    ensures IndexedDecisions(src, ds, conns) == ResolveDecisions(src, ds, conns)
  {
    forall j | 0 <= j < |ds|
      ensures IndexedDecisions(src, ds, conns)[j] == ResolveDecisions(src, ds, conns)[j]
    {
      PositionalFind(src, conns, j);
    }
  }

  /** An explicit target survives the hook but not this loop. */
  lemma ExplicitTargetDropped(d: Choice)
    requires d.targetId == Some("x")
    ensures ResolveDecisions("a", [d], [])[0].targetId == Some("x")
    ensures IndexedDecisions("a", [d], [])[0].targetId == None
  {
  }

  /** Handles are ignored: a connection meant for the second decision is
      given to the first. */
  lemma HandleIgnored(d0: Choice, d1: Choice, c: Connection)
    requires d0.targetId.None? && d1.targetId.None?
    requires c == Connection("a", "b", Index(1))
    ensures IndexedDecisions("a", [d0, d1], [c])[0].targetId == Some("b")
    ensures IndexedDecisions("a", [d0, d1], [c])[1].targetId == None
    ensures ResolveDecisions("a", [d0, d1], [c])[0].targetId == None
    ensures ResolveDecisions("a", [d0, d1], [c])[1].targetId == Some("b")
  {
    assert Outgoing("a", [c]) == [c] by {
      assert [c][1..] == [];
    }
    assert !Matches(c, "a", 0) && Matches(c, "a", 1);
  }

  /** With an `intro` node, this component, the adapter and `findStartingPage`
      all start on the first `intro` node. */
  lemma IntroStartAgrees(ps: seq<Page>)
    requires exists i :: 0 <= i < |ps| && IsIntro(ps[i])
    ensures IntroOrFirst(ps).value == Find(ps, IsIntro).value
  {
  }

  /** The hooks prefer a page numbered `'1'`; this component prefers `intro`. */
  lemma StartDiffersFromHook(a: Page, b: Page)
    requires a.pageNumber == Some("1") && a.typeTag.None?
    requires b.typeTag == Some("intro")
    ensures IntroOrFirst([a, b]) == Some(b)
    ensures PageNumberOneFirst([a, b]) == Some(a)
  {
    assert IsIntro([a, b][1]) && !IsIntro([a, b][0]);
  }
}
