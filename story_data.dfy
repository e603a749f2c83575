/** The graph normaliser and start-page selection of the `useStoryData` hook
    (`src/components/hooks/useStoryData.ts`). The top-level reader component
    (`src/components/StoryReader.tsx`, lines 27-120) repeats the same code
    line for line, so this module stands for both. */
module StoryDataHook {
  import opened Js
  import opened Types

  /** The story data the hook receives, as untrusted input: either list may
      be missing or not an array (`None`). */
  datatype RawStory = RawStory(nodes: Option<seq<Page>>, connections: Option<seq<Connection>>)

  /** The three ways the hook's effect ends in its `error` state. */
  datatype LoadError =
    | MissingNodes        // no `nodes` array: the effect throws its own error
    | MissingConnections  // a decision needs a connection lookup but there is no `connections` array
    | NoStartNode         // the node list is empty

  /** The four pieces of state the hook owns. */
  datatype HookState = HookState(pages: PageMap, currentPageId: string, history: seq<string>, error: Option<LoadError>)

  // ---------------------------------------------------------------------
  // Decision resolution
  // ---------------------------------------------------------------------

  /** A connection may supply the target of decision `idx` of page `nodeId`:
      it leaves that page, and its handle is `undefined` or that very index.
      A `null` handle matches no decision. */
  predicate Matches(c: Connection, nodeId: string, idx: nat)
  {
    c.sourceId == nodeId && (c.sourceHandle.Undefined? || c.sourceHandle == Index(idx))
  }

  /** One decision of the `decisions` format: an explicit truthy target is
      kept as it is; otherwise the first matching connection in list order
      supplies the target, and a decision with no (truthy) match gets `null`. */
  function ResolveDecision(nodeId: string, idx: nat, d: Choice, conns: seq<Connection>): (r: Choice)
    ensures r.text == d.text && r.nextPage == d.nextPage
    ensures Truthy(d.targetId) ==> r == d
    ensures !Truthy(d.targetId) ==>
              forall k :: 0 <= k < |conns| && Matches(conns[k], nodeId, idx) &&
                          (forall j :: 0 <= j < k ==> !Matches(conns[j], nodeId, idx)) ==>
                            r.targetId == OrNull(Some(conns[k].targetId))
    ensures !Truthy(d.targetId) && (forall k :: 0 <= k < |conns| ==> !Matches(conns[k], nodeId, idx)) ==>
              r.targetId == None
  {
    if Truthy(d.targetId) then d
    else
      var c := Find(conns, c => Matches(c, nodeId, idx));
      d.(targetId := OrNull(if c.Some? then Some(c.value.targetId) else None))
  }

  /** `node.decisions.map((decision, idx) => …)`: one resolved decision per
      source decision, at the same index. */
  function ResolveDecisions(nodeId: string, ds: seq<Choice>, conns: seq<Connection>): (r: seq<Choice>)
    ensures |r| == |ds|
    ensures forall i :: 0 <= i < |ds| ==> r[i] == ResolveDecision(nodeId, i, ds[i], conns)
  {
    seq(|ds|, i requires 0 <= i < |ds| => ResolveDecision(nodeId, i, ds[i], conns))
  }

  /** The `choices` format: each choice becomes `{text, targetId: nextPage || null}`;
      the connection list plays no part. */
  function ChoicesToDecisions(cs: seq<Choice>): (r: seq<Choice>)
    ensures |r| == |cs|
    ensures forall i :: 0 <= i < |cs| ==>
              && r[i].text == cs[i].text
              && r[i].nextPage == None
              && (r[i].targetId.Some? <==> Truthy(cs[i].nextPage))
              && (Truthy(cs[i].nextPage) ==> r[i].targetId == cs[i].nextPage)
  {
    seq(|cs|, i requires 0 <= i < |cs| => Choice(cs[i].text, None, OrNull(cs[i].nextPage)))
  }

  /** Resolving the node's decisions reads `storyData.connections`. */
  predicate NeedsConnections(node: Page)
  {
    node.decisions.Some? &&
    exists i :: 0 <= i < |node.decisions.value| && !Truthy(node.decisions.value[i].targetId)
  }

  /** The canonical page the hook builds from one raw node (`{...node,
      decisions, images, isEnding, endingType}`), or `None` when building it
      throws because the connection list is missing. */
  function NormalizeNode(node: Page, conns: Option<seq<Connection>>): (r: Option<Page>)
    ensures r.None? <==> conns.None? && NeedsConnections(node)
    ensures r.Some? ==>
              && r.value.id == node.id
              && r.value.typeTag == node.typeTag
              && r.value.title == node.title
              && r.value.content == node.content
              && r.value.pageNumber == node.pageNumber
              && r.value.choices == node.choices
    // the ending flag and kind come from the type tag alone, whatever the node said
    ensures r.Some? ==> r.value.isEnding == Some(IsEndingTag(node.typeTag))
    ensures r.Some? ==> r.value.endingType == EndingOfTag(node.typeTag)
    ensures r.Some? ==> r.value.images == Some(if node.images.Some? then node.images.value else [])
    ensures r.Some? ==> (r.value.decisions.Some? &&
              |r.value.decisions.value| == (if node.decisions.Some? then |node.decisions.value|
                                            else if node.choices.Some? then |node.choices.value|
                                            else 0))
    // `decisions` wins over `choices`, which wins over the empty list
    ensures r.Some? && node.decisions.Some? ==>
              r.value.decisions == Some(ResolveDecisions(node.id, node.decisions.value, if conns.Some? then conns.value else []))
    ensures node.decisions.None? && node.choices.Some? ==>
              r.Some? && r.value.decisions == Some(ChoicesToDecisions(node.choices.value))
    ensures node.decisions.None? && node.choices.None? ==> r.Some? && r.value.decisions == Some([])
  {
    var decisions :=
      if node.decisions.Some? then
        if conns.None? && NeedsConnections(node) then None
        else Some(ResolveDecisions(node.id, node.decisions.value, if conns.Some? then conns.value else []))
      else if node.choices.Some? then Some(ChoicesToDecisions(node.choices.value))
      else Some([]);
    if decisions.None? then None
    else
      Some(node.(decisions := decisions,
                 images := Some(if node.images.Some? then node.images.value else []),
                 isEnding := Some(IsEndingTag(node.typeTag)),
                 endingType := EndingOfTag(node.typeTag)))
  }

  // ---------------------------------------------------------------------
  // The page map
  // ---------------------------------------------------------------------

  /** The canonical page of every node, or `None` where normalising it throws. */
  function NormalizeAll(nodes: seq<Page>, conns: Option<seq<Connection>>): (rs: seq<Option<Page>>)
    ensures |rs| == |nodes|
    ensures forall i :: 0 <= i < |nodes| ==> rs[i] == NormalizeNode(nodes[i], conns)
  {
    seq(|nodes|, i requires 0 <= i < |nodes| => NormalizeNode(nodes[i], conns))
  }

  /** Stores normalised pages one after the other under their ids, stopping
      at the first node whose normalisation threw. A later page with an id
      already seen replaces the earlier page but keeps its place. */
  function KeyPages(rs: seq<Option<Page>>): (r: Result<PageMap, LoadError>)
    ensures r.Err? ==> r.error == MissingConnections
    decreases |rs|
  {
    if rs == [] then Ok(EmptyRecord())
    else
      match KeyPages(rs[..|rs| - 1])
      case Err(e) => Err(e)
      case Ok(pm) =>
        match rs[|rs| - 1]
        case None => Err(MissingConnections)
        case Some(p) => Ok(Assign(pm, p.id, p))
  }

  /** One more iteration of the page-map loop. */
  lemma KeyPagesStep(rs: seq<Option<Page>>, i: nat)
    requires i < |rs| && KeyPages(rs[..i]).Ok?
    ensures rs[i].None? ==> KeyPages(rs[..i + 1]).Err?
    ensures rs[i].Some? ==>
              KeyPages(rs[..i + 1]) == Ok(Assign(KeyPages(rs[..i]).value, rs[i].value.id, rs[i].value))
  {
    assert rs[..i + 1][..i] == rs[..i] && rs[..i + 1][i] == rs[i];
  }

  /** The page map after the `forEach` over the nodes has run, or the error
      that stopped it. */
  function BuildPages(nodes: seq<Page>, conns: Option<seq<Connection>>): (r: Result<PageMap, LoadError>)
    ensures r.Err? ==> r.error == MissingConnections
  {
    KeyPages(NormalizeAll(nodes, conns))
  }

  /** Every page is stored under its own id. */
  lemma {:induction false} KeyPagesKeyedById(rs: seq<Option<Page>>)
    requires KeyPages(rs).Ok?
    ensures KeyedById(KeyPages(rs).value)
    decreases |rs|
  {
    if rs != [] {
      KeyPagesKeyedById(rs[..|rs| - 1]);
      var p := rs[|rs| - 1].value;
      AssignValid(KeyPages(rs[..|rs| - 1]).value, p.id, p);
    }
  }

  /** Storing pages fails exactly when one of them is missing. */
  lemma {:induction false} KeyPagesFails(rs: seq<Option<Page>>)
    ensures KeyPages(rs).Err? <==> exists i :: 0 <= i < |rs| && rs[i].None?
    decreases |rs|
  {
    if rs != [] {
      var init := rs[..|rs| - 1];
      KeyPagesFails(init);
      if exists i :: 0 <= i < |init| && init[i].None? {
        var i :| 0 <= i < |init| && init[i].None?;
        assert rs[i] == init[i];
      }
      if exists i :: 0 <= i < |rs| && rs[i].None? {
        var i :| 0 <= i < |rs| && rs[i].None?;
        if i < |init| {
          assert init[i] == rs[i];
        }
      }
    }
  }

  /** The ids of the present pages. */
  function IdSet(rs: seq<Option<Page>>): (ids: set<string>)
    decreases |rs|
  {
    if rs == [] then {}
    else IdSet(rs[..|rs| - 1]) + (if rs[|rs| - 1].Some? then {rs[|rs| - 1].value.id} else {})
  }

  lemma {:induction false} IdSetMembers(rs: seq<Option<Page>>)
    ensures forall k :: k in IdSet(rs) <==> exists i :: 0 <= i < |rs| && rs[i].Some? && rs[i].value.id == k
    decreases |rs|
  {
    if rs != [] {
      var init := rs[..|rs| - 1];
      IdSetMembers(init);
      assert forall i :: 0 <= i < |init| ==> init[i] == rs[i];
    }
  }

  /** The stored keys are exactly the ids of the pages. */
  lemma {:induction false} KeyPagesDomain(rs: seq<Option<Page>>)
    requires KeyPages(rs).Ok?
    ensures KeyPages(rs).value.entries.Keys == IdSet(rs)
    decreases |rs|
  {
    if rs != [] {
      KeyPagesDomain(rs[..|rs| - 1]);
    }
  }

  /** The page stored under an id is the last page with that id. */
  lemma {:induction false} KeyPagesLastWins(rs: seq<Option<Page>>, i: nat)
    requires KeyPages(rs).Ok?
    requires i < |rs| && rs[i].Some?
    requires forall j :: i < j < |rs| && rs[j].Some? ==> rs[j].value.id != rs[i].value.id
    ensures rs[i].value.id in KeyPages(rs).value.entries
    ensures KeyPages(rs).value.entries[rs[i].value.id] == rs[i].value
    decreases |rs|
  {
    var init := rs[..|rs| - 1];
    if i < |rs| - 1 {
      assert init[i] == rs[i];
      assert forall j :: i < j < |init| ==> init[j] == rs[j];
      KeyPagesLastWins(init, i);
    }
  }

  /** The ids of the pages, in order. */
  function PageIds(rs: seq<Option<Page>>): (ids: seq<string>)
    requires forall i :: 0 <= i < |rs| ==> rs[i].Some?
    ensures |ids| == |rs| && forall i :: 0 <= i < |rs| ==> ids[i] == rs[i].value.id
  {
    seq(|rs|, i requires 0 <= i < |rs| => rs[i].value.id)
  }

  /** With distinct ids the keys are listed in page order. */
  lemma {:induction false} KeyPagesKeyOrder(rs: seq<Option<Page>>)
    requires forall i :: 0 <= i < |rs| ==> rs[i].Some?
    requires forall i, j :: 0 <= i < j < |rs| ==> rs[i].value.id != rs[j].value.id
    ensures KeyPages(rs).Ok? && KeyPages(rs).value.keys == PageIds(rs)
    decreases |rs|
  {
    if rs != [] {
      var init := rs[..|rs| - 1];
      var last := rs[|rs| - 1].value;
      assert forall i :: 0 <= i < |init| ==> init[i] == rs[i];
      KeyPagesKeyOrder(init);
      var pm := KeyPages(init).value;
      LastIdFresh(rs);
      KeyPagesDomain(init);
      assert last.id !in pm.entries;
      assert KeyPages(rs) == Ok(Assign(pm, last.id, last));
      assert PageIds(rs) == PageIds(init) + [last.id];
    }
  }

  lemma LastIdFresh(rs: seq<Option<Page>>)
    requires rs != [] && rs[|rs| - 1].Some?
    requires forall i :: 0 <= i < |rs| - 1 && rs[i].Some? ==> rs[i].value.id != rs[|rs| - 1].value.id
    ensures rs[|rs| - 1].value.id !in IdSet(rs[..|rs| - 1])
  {
    var init := rs[..|rs| - 1];
    IdSetMembers(init);
    assert forall i :: 0 <= i < |init| ==> init[i] == rs[i];
  }

  /** The imperative page-map loop of the hook's effect. */
  method NormalizePages(nodes: seq<Page>, conns: Option<seq<Connection>>) returns (r: Result<PageMap, LoadError>)
    ensures r == BuildPages(nodes, conns)
  {
    ghost var rs := NormalizeAll(nodes, conns);
    var pagesMap: PageMap := EmptyRecord();
    var i := 0;
    while i < |nodes|
      invariant 0 <= i <= |nodes|
      invariant KeyPages(rs[..i]) == Ok(pagesMap)
    {
      assert rs[..i + 1][..i] == rs[..i];
      var page := NormalizeNode(nodes[i], conns);
      if page.None? {
        KeyPagesFails(rs);
        return Err(MissingConnections);
      }
      pagesMap := Assign(pagesMap, nodes[i].id, page.value);
      i := i + 1;
    }
    assert rs[..i] == rs;
    return Ok(pagesMap);
  }

  /** Loading fails exactly when some node needs the connection list and
      there is none. */
  lemma BuildPagesFails(nodes: seq<Page>, conns: Option<seq<Connection>>)
    ensures BuildPages(nodes, conns).Err? <==>
              conns.None? && exists i :: 0 <= i < |nodes| && NeedsConnections(nodes[i])
  {
    var rs := NormalizeAll(nodes, conns);
    KeyPagesFails(rs);
    if BuildPages(nodes, conns).Err? {
      var i :| 0 <= i < |rs| && rs[i].None?;
      assert NormalizeNode(nodes[i], conns).None?;
    }
  }

  /** The page map holds exactly the ids of the nodes. */
  lemma BuildPagesDomain(nodes: seq<Page>, conns: Option<seq<Connection>>)
    requires BuildPages(nodes, conns).Ok?
    ensures forall k :: k in BuildPages(nodes, conns).value.entries <==>
                          exists i :: 0 <= i < |nodes| && nodes[i].id == k
  {
    var rs := NormalizeAll(nodes, conns);
    KeyPagesDomain(rs);
    IdSetMembers(rs);
    KeyPagesFails(rs);
    forall i | 0 <= i < |nodes| ensures rs[i].Some? && rs[i].value.id == nodes[i].id {
    }
  }

  /** The page stored under a node's id is that node's canonical page unless
      a later node has the same id. */
  lemma BuildPagesLastWins(nodes: seq<Page>, conns: Option<seq<Connection>>, i: nat)
    requires BuildPages(nodes, conns).Ok?
    requires i < |nodes|
    requires forall j :: i < j < |nodes| ==> nodes[j].id != nodes[i].id
    ensures NormalizeNode(nodes[i], conns).Some?
    ensures nodes[i].id in BuildPages(nodes, conns).value.entries
    ensures BuildPages(nodes, conns).value.entries[nodes[i].id] == NormalizeNode(nodes[i], conns).value
  {
    var rs := NormalizeAll(nodes, conns);
    KeyPagesFails(rs);
    assert rs[i].Some?;
    KeyPagesLastWins(rs, i);
  }

  /** Ids are pairwise distinct. */
  predicate UniqueIds(nodes: seq<Page>)
  {
    forall i, j :: 0 <= i < j < |nodes| ==> nodes[i].id != nodes[j].id
  }

  function Ids(nodes: seq<Page>): (ids: seq<string>)
    ensures |ids| == |nodes| && forall i :: 0 <= i < |nodes| ==> ids[i] == nodes[i].id
  {
    seq(|nodes|, i requires 0 <= i < |nodes| => nodes[i].id)
  }

  /** With distinct ids the page map lists its keys in node order. */
  lemma BuildPagesKeyOrder(nodes: seq<Page>, conns: Option<seq<Connection>>)
    requires BuildPages(nodes, conns).Ok?
    requires UniqueIds(nodes)
    ensures BuildPages(nodes, conns).value.keys == Ids(nodes)
  {
    var rs := NormalizeAll(nodes, conns);
    KeyPagesFails(rs);
    KeyPagesKeyOrder(rs);
    assert PageIds(rs) == Ids(nodes);
  }

  /** With distinct ids none of which looks like an array index,
      `Object.values` of the page map lists the canonical pages in node order. */
  lemma BuildPagesValues(nodes: seq<Page>, conns: Option<seq<Connection>>)
    requires BuildPages(nodes, conns).Ok?
    requires UniqueIds(nodes)
    requires forall i :: 0 <= i < |nodes| ==> !IsArrayIndex(nodes[i].id)
    ensures |Values(BuildPages(nodes, conns).value)| == |nodes|
    ensures forall i :: 0 <= i < |nodes| ==>
              NormalizeNode(nodes[i], conns).Some? &&
              Values(BuildPages(nodes, conns).value)[i] == NormalizeNode(nodes[i], conns).value
  {
    var pm := BuildPages(nodes, conns).value;
    BuildPagesKeyOrder(nodes, conns);
    OwnKeysWithoutIndices(pm.keys);
    forall i | 0 <= i < |nodes|
      ensures NormalizeNode(nodes[i], conns).Some?
      ensures nodes[i].id in pm.entries && pm.entries[nodes[i].id] == NormalizeNode(nodes[i], conns).value
    {
      BuildPagesLastWins(nodes, conns, i);
    }
    assert Values(pm) == ValuesAt(Ids(nodes), pm.entries);
  }

  // ---------------------------------------------------------------------
  // Start page
  // ---------------------------------------------------------------------

  /** `pageWithNumber1 || introNode || firstNode`: the first page numbered
      `'1'`, else the first `intro` page, else the first page. */
  function PageNumberOneFirst(ps: seq<Page>): (r: Option<Page>)
    ensures r.None? <==> ps == []
    ensures r.Some? ==> r.value in ps
    ensures (exists i :: 0 <= i < |ps| && HasPageNumberOne(ps[i])) ==>
              r.Some? && IsFirstMatch(ps, HasPageNumberOne, r.value)
    ensures (forall i :: 0 <= i < |ps| ==> !HasPageNumberOne(ps[i])) &&
            (exists i :: 0 <= i < |ps| && IsIntro(ps[i])) ==>
              r.Some? && IsFirstMatch(ps, IsIntro, r.value)
    ensures (forall i :: 0 <= i < |ps| ==> !HasPageNumberOne(ps[i]) && !IsIntro(ps[i])) && ps != [] ==>
              r == Some(ps[0])
  {
    var numbered := Find(ps, HasPageNumberOne);
    if numbered.Some? then numbered
    else
      var intro := Find(ps, IsIntro);
      if intro.Some? then intro
      else if ps != [] then Some(ps[0])
      else None
  }

  /** The effect of the hook on its state, for a given story. */
  function LoadStory(data: RawStory): (s: HookState)
    ensures s.error.None? <==>
              data.nodes.Some? && data.nodes.value != [] && BuildPages(data.nodes.value, data.connections).Ok?
    ensures s.error.None? ==>
              && s.history == [s.currentPageId]
              && s.currentPageId == PageNumberOneFirst(data.nodes.value).value.id
              && s.pages == BuildPages(data.nodes.value, data.connections).value
    ensures s.error.Some? ==> s.history == [] && s.currentPageId == "" && s.pages.entries == map[]
  {
    match data.nodes
    case None => HookState(EmptyRecord(), "", [], Some(MissingNodes))
    case Some(nodes) =>
      match BuildPages(nodes, data.connections)
      case Err(e) => HookState(EmptyRecord(), "", [], Some(e))
      case Ok(pm) =>
        match PageNumberOneFirst(nodes)
        case None => HookState(pm, "", [], Some(NoStartNode))
        case Some(start) => HookState(pm, start.id, [start.id], None)
  }

  /** After a successful load the pages are keyed by id and the reader stands
      on a page that exists; after a failed one there is nothing to show. */
  lemma LoadStoryConsistent(data: RawStory)
    ensures KeyedById(LoadStory(data).pages)
    ensures LoadStory(data).error.None? ==> LoadStory(data).currentPageId in LoadStory(data).pages.entries
  {
    var s := LoadStory(data);
    if data.nodes.Some? && BuildPages(data.nodes.value, data.connections).Ok? {
      var nodes := data.nodes.value;
      KeyPagesKeyedById(NormalizeAll(nodes, data.connections));
      if s.error.None? {
        BuildPagesDomain(nodes, data.connections);
        var start := PageNumberOneFirst(nodes).value;
        var i :| 0 <= i < |nodes| && nodes[i] == start;
        assert nodes[i].id == s.currentPageId;
      }
    } else {
      assert s.pages == EmptyRecord();
    }
  }

  // ---------------------------------------------------------------------
  // Properties
  // ---------------------------------------------------------------------

  /** Resolving an already resolved decision list changes nothing. */
  lemma ResolveDecisionsIdempotent(nodeId: string, ds: seq<Choice>, conns: seq<Connection>)
    ensures ResolveDecisions(nodeId, ResolveDecisions(nodeId, ds, conns), conns) == ResolveDecisions(nodeId, ds, conns)
  {
    var once := ResolveDecisions(nodeId, ds, conns);
    forall i | 0 <= i < |ds| ensures ResolveDecision(nodeId, i, once[i], conns) == once[i] {
      if !Truthy(once[i].targetId) {
      }
    }
  }

  /** A connection whose handle is `null` or any other value that is not an
      index of the node's decision list never supplies a target: dropping it
      changes nothing. */
  lemma OutOfRangeHandleIgnored(nodeId: string, ds: seq<Choice>, conns: seq<Connection>, c: Connection)
    requires c.sourceHandle.NonIndex? || (c.sourceHandle.Index? && !(0 <= c.sourceHandle.index < |ds|))
    ensures ResolveDecisions(nodeId, ds, conns + [c]) == ResolveDecisions(nodeId, ds, conns)
  {
    forall i | 0 <= i < |ds|
      ensures ResolveDecision(nodeId, i, ds[i], conns + [c]) == ResolveDecision(nodeId, i, ds[i], conns)
    {
      FindIgnoresFailingSuffix(conns, c, (x: Connection) => Matches(x, nodeId, i));
    }
  }

  lemma {:induction false} FindIgnoresFailingSuffix<T>(s: seq<T>, x: T, p: T -> bool)
    requires !p(x)
    ensures Find(s + [x], p) == Find(s, p)
  {
    if s != [] {
      assert (s + [x])[0] == s[0];
      assert (s + [x])[1..] == s[1..] + [x];
      FindIgnoresFailingSuffix(s[1..], x, p);
    } else {
      assert ([x])[1..] == [];
    }
  }

  /** The `choices` format never consults the connection list. */
  lemma ChoicesIgnoreConnections(node: Page, c1: Option<seq<Connection>>, c2: Option<seq<Connection>>)
    requires node.decisions.None?
    ensures NormalizeNode(node, c1) == NormalizeNode(node, c2)
  {
  }
}
