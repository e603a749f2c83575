/** The reader's navigation controller: `useStoryNavigation`
    (`src/components/hooks/useStoryNavigation.ts`) and the identical handlers
    of the top-level reader (`src/components/StoryReader.tsx`, lines 122-177).
    Each handler is one atomic step; the fade and the 300 ms timer around it
    are not part of the model. */
module Navigation {
  import opened Js
  import opened Types
  import opened StoryDataHook

  /** What the handlers read and write: the current page, the stack of
      visited pages and the index of the image on show. */
  datatype NavState = NavState(currentPageId: string, history: seq<string>, imageIndex: int)

  /** The reader stands on the last page of a non-empty history of existing
      pages, showing one of that page's images. */
  predicate Inv(pages: PageMap, s: NavState)
  {
    && |s.history| >= 1
    && s.currentPageId == s.history[|s.history| - 1]
    && (forall i :: 0 <= i < |s.history| ==> s.history[i] in pages.entries)
    && 0 <= s.imageIndex
    && (s.imageIndex == 0 || s.imageIndex < ImageCount(pages.entries[s.currentPageId]))
  }

  // ---------------------------------------------------------------------
  // The handlers as state transitions
  // ---------------------------------------------------------------------

  /** `targetId && pages[targetId]`: the choice names a page that exists. */
  predicate Accepted(pages: PageMap, targetId: Option<string>)
  {
    Truthy(targetId) && targetId.value in pages.entries
  }

  /** `handleChoice(targetId)` */
  function Choose(pages: PageMap, s: NavState, targetId: Option<string>): (r: NavState)
    ensures r != s ==> Accepted(pages, targetId)
    ensures Accepted(pages, targetId) ==>
              && r.currentPageId == targetId.value
              && r.history == s.history + [targetId.value]
              && r.imageIndex == 0
  {
    if Accepted(pages, targetId) then NavState(targetId.value, s.history + [targetId.value], 0)
    else s
  }

  /** `handleGoBack()` */
  function GoBack(s: NavState): (r: NavState)
    ensures |s.history| <= 1 ==> r == s
    ensures |s.history| > 1 ==>
              && s.history == r.history + [s.history[|s.history| - 1]]
              && r.currentPageId == r.history[|r.history| - 1]
              && r.imageIndex == 0
    ensures |r.history| >= 1 <==> |s.history| >= 1
  {
    if |s.history| > 1 then
      var h := s.history[..|s.history| - 1];
      assert s.history == h + [s.history[|s.history| - 1]];
      NavState(h[|h| - 1], h, 0)
    else s
  }

  /** The page `handleRestart` starts again from: the first page numbered
      `'1'`, else the first `intro` page, else the first page, searched in
      `Object.values(pages)` order. */
  function RestartPage(pages: PageMap): (r: Option<Page>)
    ensures r.Some? ==> r.value in Values(pages)
    ensures r.None? <==> Values(pages) == []
  {
    PageNumberOneFirst(Values(pages))
  }

  /** `handleRestart()`: nothing happens when there is no page. */
  function Restart(pages: PageMap, s: NavState): (r: NavState)
    ensures RestartPage(pages).None? ==> r == s
    ensures RestartPage(pages).Some? ==>
              r.history == [r.currentPageId] && r.currentPageId == RestartPage(pages).value.id && r.imageIndex == 0
  {
    match RestartPage(pages)
    case None => s
    case Some(start) => NavState(start.id, [start.id], 0)
  }

  /** `handleImageChange()`: the next image, wrapping round, when the
      current page has more than one. */
  function CycleImage(pages: PageMap, s: NavState): (r: NavState)
    ensures r.currentPageId == s.currentPageId && r.history == s.history
    ensures s.currentPageId !in pages.entries || ImageCount(pages.entries[s.currentPageId]) <= 1 ==> r == s
    ensures s.currentPageId in pages.entries && ImageCount(pages.entries[s.currentPageId]) > 1 ==>
              r.imageIndex == Rem(s.imageIndex + 1, ImageCount(pages.entries[s.currentPageId]))
    ensures s.currentPageId in pages.entries && 0 <= s.imageIndex < ImageCount(pages.entries[s.currentPageId]) ==>
              0 <= r.imageIndex < ImageCount(pages.entries[s.currentPageId])
    ensures s.currentPageId in pages.entries && 0 <= s.imageIndex < ImageCount(pages.entries[s.currentPageId]) ==>
              r.imageIndex == if s.imageIndex + 1 < ImageCount(pages.entries[s.currentPageId]) then s.imageIndex + 1 else 0
  {
    if s.currentPageId in pages.entries && ImageCount(pages.entries[s.currentPageId]) > 1 then
      s.(imageIndex := Rem(s.imageIndex + 1, ImageCount(pages.entries[s.currentPageId])))
    else s
  }

  /** One user action. */
  datatype Op = ChooseOp(targetId: Option<string>) | GoBackOp | RestartOp | ImageOp

  function Apply(pages: PageMap, s: NavState, op: Op): NavState
  {
    match op
    case ChooseOp(t) => Choose(pages, s, t)
    case GoBackOp => GoBack(s)
    case RestartOp => Restart(pages, s)
    case ImageOp => CycleImage(pages, s)
  }

  /** The state after a sequence of actions. */
  function Run(pages: PageMap, s: NavState, ops: seq<Op>): NavState
    decreases |ops|
  {
    if ops == [] then s else Run(pages, Apply(pages, s, ops[0]), ops[1..])
  }

  // ---------------------------------------------------------------------
  // Properties of the handlers
  // ---------------------------------------------------------------------

  lemma ChoosePreservesInv(pages: PageMap, s: NavState, targetId: Option<string>)
    requires Inv(pages, s)
    ensures Inv(pages, Choose(pages, s, targetId))
  {
    var r := Choose(pages, s, targetId);
    if Accepted(pages, targetId) {
      assert forall i :: 0 <= i < |s.history| ==> r.history[i] == s.history[i];
    }
  }

  lemma GoBackPreservesInv(pages: PageMap, s: NavState)
    requires Inv(pages, s)
    ensures Inv(pages, GoBack(s))
  {
    var r := GoBack(s);
    if |s.history| > 1 {
      assert forall i :: 0 <= i < |r.history| ==> r.history[i] == s.history[i];
    }
  }

  /** The page restart picks exists, under its own id. */
  lemma RestartPageExists(pages: PageMap)
    requires KeyedById(pages)
    requires RestartPage(pages).Some?
    ensures RestartPage(pages).value.id in pages.entries
    ensures pages.entries[RestartPage(pages).value.id] == RestartPage(pages).value
  {
    var p := RestartPage(pages).value;
    var k :| k in pages.entries && pages.entries[k] == p;
  }

  lemma RestartPreservesInv(pages: PageMap, s: NavState)
    requires KeyedById(pages)
    requires Inv(pages, s)
    ensures Inv(pages, Restart(pages, s))
  {
    if RestartPage(pages).Some? {
      RestartPageExists(pages);
    }
  }

  lemma CycleImagePreservesInv(pages: PageMap, s: NavState)
    requires Inv(pages, s)
    ensures Inv(pages, CycleImage(pages, s))
  {
  }

  /** No sequence of actions empties the history, leaves the current page
      off the top of it, or lands on a page that does not exist. */
  lemma {:induction false} RunPreservesInv(pages: PageMap, s: NavState, ops: seq<Op>)
    requires KeyedById(pages)
    requires Inv(pages, s)
    ensures Inv(pages, Run(pages, s, ops))
    decreases |ops|
  {
    if ops != [] {
      match ops[0] {
        case ChooseOp(t) => ChoosePreservesInv(pages, s, t);
        case GoBackOp => GoBackPreservesInv(pages, s);
        case RestartOp => RestartPreservesInv(pages, s);
        case ImageOp => CycleImagePreservesInv(pages, s);
      }
      RunPreservesInv(pages, Apply(pages, s, ops[0]), ops[1..]);
    }
  }

  /** Going back right after an accepted choice returns to where the reader
      was, on the first image. */
  lemma GoBackUndoesChoose(pages: PageMap, s: NavState, targetId: Option<string>)
    requires Inv(pages, s)
    requires Accepted(pages, targetId)
    ensures GoBack(Choose(pages, s, targetId)) == s.(imageIndex := 0)
  {
    var r := Choose(pages, s, targetId);
    assert r.history[..|r.history| - 1] == s.history;
  }

  /** Restart lands on the same page however deep the history was, and
      restarting twice is restarting once. */
  lemma RestartForgetsHistory(pages: PageMap, s1: NavState, s2: NavState)
    requires RestartPage(pages).Some?
    ensures Restart(pages, s1) == Restart(pages, s2)
    ensures Restart(pages, Restart(pages, s1)) == Restart(pages, s1)
  {
  }

  /** Once the pages are non-empty, restart always acts. */
  lemma RestartActsOnNonEmptyPages(pages: PageMap, s: NavState)
    requires RecordValid(pages) && pages.entries != map[]
    ensures |Restart(pages, s).history| == 1
  {
    ValuesCount(pages);
  }

  /** `k` image changes on a page with `n > 1` images move the index `k`
      steps round the circle; in particular `n` of them change nothing. */
  lemma {:induction false} CycleImageSteps(pages: PageMap, s: NavState, k: nat)
    requires s.currentPageId in pages.entries
    requires ImageCount(pages.entries[s.currentPageId]) > 1
    requires 0 <= s.imageIndex < ImageCount(pages.entries[s.currentPageId])
    ensures Run(pages, s, ImageOps(k)) ==
              s.(imageIndex := (s.imageIndex + k) % ImageCount(pages.entries[s.currentPageId]))
    decreases k
  {
    var n := ImageCount(pages.entries[s.currentPageId]);
    var i := s.imageIndex;
    if k == 0 {
      ModUnique(i, n, 0, i);
    } else {
      var ops := ImageOps(k);
      assert ops[0] == ImageOp && ops[1..] == ImageOps(k - 1);
      var s' := CycleImage(pages, s);
      assert Run(pages, s, ops) == Run(pages, s', ImageOps(k - 1));
      ModStep(i, n);
      CycleImageSteps(pages, s', k - 1);
      if i + 1 == n {
        assert s'.imageIndex == 0;
        ModAddN(k - 1, n);
        assert (s'.imageIndex + (k - 1)) % n == (i + k) % n;
      } else {
        assert s'.imageIndex == i + 1;
      }
    }
  }

  /** `k` image changes in a row. */
  function ImageOps(k: nat): (ops: seq<Op>)
    ensures |ops| == k
  {
    if k == 0 then [] else [ImageOp] + ImageOps(k - 1)
  }

  lemma ModStep(i: int, n: int)
    requires 0 <= i < n
    ensures (i + 1) % n == if i + 1 < n then i + 1 else 0
  {
  }

  lemma ModAddN(x: int, n: int)
    requires n > 0
    ensures (x + n) % n == x % n
  {
    ModUnique(x + n, n, x / n + 1, x % n);
  }

  lemma CyclePeriod(pages: PageMap, s: NavState)
    requires s.currentPageId in pages.entries
    requires ImageCount(pages.entries[s.currentPageId]) > 1
    requires 0 <= s.imageIndex < ImageCount(pages.entries[s.currentPageId])
    ensures Run(pages, s, ImageOps(ImageCount(pages.entries[s.currentPageId]))) == s
  {
    var n := ImageCount(pages.entries[s.currentPageId]);
    CycleImageSteps(pages, s, n);
    ModAddN(s.imageIndex, n);
    ModUnique(s.imageIndex, n, 0, s.imageIndex);
  }

  // ---------------------------------------------------------------------
  // Restart against the start chosen at load time
  // ---------------------------------------------------------------------

  /** Pages that agree on id, page number and type tag, index by index. */
  predicate SameStartFields(ps: seq<Page>, qs: seq<Page>)
  {
    && |ps| == |qs|
    && forall i :: 0 <= i < |ps| ==>
         ps[i].id == qs[i].id && ps[i].pageNumber == qs[i].pageNumber && ps[i].typeTag == qs[i].typeTag
  }

  lemma StartCorresponds(ps: seq<Page>, qs: seq<Page>)
    requires SameStartFields(ps, qs)
    ensures PageNumberOneFirst(ps).Some? <==> PageNumberOneFirst(qs).Some?
    ensures PageNumberOneFirst(ps).Some? ==> PageNumberOneFirst(ps).value.id == PageNumberOneFirst(qs).value.id
  {
    var sameId := (a: Page, b: Page) => a.id == b.id;
    FindCorresponds(ps, HasPageNumberOne, qs, HasPageNumberOne, sameId);
    FindCorresponds(ps, IsIntro, qs, IsIntro, sameId);
  }

  /** With distinct ids none of which looks like an array index, restart
      lands on the page the story opened on. */
  lemma RestartLandsOnLoadStart(data: RawStory, s: NavState)
    requires LoadStory(data).error.None?
    requires UniqueIds(data.nodes.value)
    requires forall i :: 0 <= i < |data.nodes.value| ==> !IsArrayIndex(data.nodes.value[i].id)
    ensures Restart(LoadStory(data).pages, s).currentPageId == LoadStory(data).currentPageId
  {
    var nodes, conns := data.nodes.value, data.connections;
    var vs := Values(BuildPages(nodes, conns).value);
    BuildPagesValues(nodes, conns);
    assert SameStartFields(vs, nodes);
    StartCorresponds(vs, nodes);
  }

  /** A page with no fields but its id. */
  function Bare(id: string): (p: Page)
    ensures p.id == id && p.pageNumber.None? && p.typeTag.None? && p.decisions.None?
  {
    Page(id, None, None, "", None, None, None, None, None, None)
  }

  lemma DigitKeys()
    ensures IsArrayIndex("1") && IndexValue("1") == 1
    ensures IsArrayIndex("2") && IndexValue("2") == 2
  {
    assert DigitsValue("1") == 1 by { assert "1"[..0] == ""; }
    assert DigitsValue("2") == 2 by { assert "2"[..0] == ""; }
  }

  lemma IndexKeysFiltered()
    ensures Filter(["2", "1"], IsArrayIndex) == ["2", "1"]
    ensures Filter(["2", "1"], NotArrayIndex) == []
  {
    DigitKeys();
    FilterKeepsAll(["2", "1"], IsArrayIndex);
    FilterDropsAll(["2", "1"], NotArrayIndex);
  }

  lemma IndexKeysSorted()
    ensures SortBy(["2", "1"], IndexValue) == ["1", "2"]
  {
    DigitKeys();
    var ks := ["2", "1"];
    assert ks[1..] == ["1"] && ["1"][1..] == [];
    assert SortBy(["1"], IndexValue) == ["1"];
    assert InsertBy("2", ["1"], IndexValue) == ["1", "2"] by {
      assert ["1"][1..] == [];
    }
  }

  /** `Object.keys` lists the keys `"2"`, `"1"` (created in that order) as `"1"`, `"2"`. */
  lemma NumericKeysSorted()
    ensures OwnKeys(["2", "1"]) == ["1", "2"]
  {
    IndexKeysFiltered();
    IndexKeysSorted();
  }

  /** The page map of the story `"2"`, `"1"`. */
  lemma IndexIdsPages() returns (pm: PageMap)
    ensures BuildPages([Bare("2"), Bare("1")], Some([])) == Ok(pm)
    ensures pm.keys == ["2", "1"]
    ensures "1" in pm.entries && "2" in pm.entries
    ensures pm.entries["1"].id == "1" && pm.entries["2"].id == "2"
    ensures !HasPageNumberOne(pm.entries["1"]) && !IsIntro(pm.entries["1"])
    ensures !HasPageNumberOne(pm.entries["2"]) && !IsIntro(pm.entries["2"])
  {
    var nodes := [Bare("2"), Bare("1")];
    BuildPagesFails(nodes, Some([]));
    pm := BuildPages(nodes, Some([])).value;
    assert UniqueIds(nodes);
    BuildPagesKeyOrder(nodes, Some([]));
    BuildPagesLastWins(nodes, Some([]), 0);
    BuildPagesLastWins(nodes, Some([]), 1);
  }

  /** `Object.values` of an object whose keys `"2"`, `"1"` were created in that order. */
  lemma IndexKeysValues(pm: PageMap)
    requires pm.keys == ["2", "1"]
    requires "1" in pm.entries && "2" in pm.entries
    ensures Values(pm) == [pm.entries["1"], pm.entries["2"]]
  {
    NumericKeysSorted();
    ValuesOfTwoKeys(pm, "1", "2");
  }

  lemma ValuesOfTwoKeys(pm: PageMap, a: string, b: string)
    requires OwnKeys(pm.keys) == [a, b]
    requires a in pm.entries && b in pm.entries
    ensures Values(pm) == [pm.entries[a], pm.entries[b]]
  {
    var vs := Values(pm);
    assert |vs| == 2 && vs[0] == pm.entries[a] && vs[1] == pm.entries[b];
  }

  /** Integer-like ids are listed in numeric order by `Object.values`, so the
      story opens on page "2" but restart goes to page "1". */
  lemma RestartDiffersForIndexIds(data: RawStory)
    requires data == RawStory(Some([Bare("2"), Bare("1")]), Some([]))
    ensures LoadStory(data).currentPageId == "2"
    ensures Restart(LoadStory(data).pages, NavState("2", ["2"], 0)).currentPageId == "1"
  {
    var nodes := data.nodes.value;
    var pm := IndexIdsPages();
    assert PageNumberOneFirst(nodes) == Some(nodes[0]);
    assert LoadStory(data) == HookState(pm, "2", ["2"], None);
    IndexKeysValues(pm);
    var vs := Values(pm);
    assert PageNumberOneFirst(vs) == Some(vs[0]);
  }

  /** The page map of the story `a` (numbered `'1'`), `b` (numbered `'1'`), `a`. */
  lemma DuplicateIdsPages() returns (pm: PageMap)
    ensures BuildPages([Numbered("a"), Numbered("b"), Bare("a")], Some([])) == Ok(pm)
    ensures pm.keys == ["a", "b"]
    ensures "a" in pm.entries && "b" in pm.entries
    ensures !HasPageNumberOne(pm.entries["a"]) && !IsIntro(pm.entries["a"])
    ensures HasPageNumberOne(pm.entries["b"]) && pm.entries["b"].id == "b"
  {
    var nodes := [Numbered("a"), Numbered("b"), Bare("a")];
    BuildPagesFails(nodes, Some([]));
    var rs := NormalizeAll(nodes, Some([]));
    pm := KeyPages(rs).value;
    var pm2 := KeyPages(rs[..2]).value;
    KeyPagesKeyOrder(rs[..2]);
    assert pm2.keys == ["a", "b"];
    KeyPagesDomain(rs[..2]);
    assert "a" in pm2.entries;
    assert rs[..3] == rs && rs[..3][..2] == rs[..2];
    assert pm.keys == pm2.keys;
    BuildPagesLastWins(nodes, Some([]), 2);
    BuildPagesLastWins(nodes, Some([]), 1);
  }

  /** A later duplicate id replaces the page numbered `'1'` that the story
      opened on, so restart goes to another page. */
  lemma RestartDiffersForDuplicateIds(data: RawStory)
    requires data == RawStory(Some([Numbered("a"), Numbered("b"), Bare("a")]), Some([]))
    ensures LoadStory(data).currentPageId == "a"
    ensures Restart(LoadStory(data).pages, NavState("a", ["a"], 0)).currentPageId == "b"
  {
    var nodes := data.nodes.value;
    var pm := DuplicateIdsPages();
    assert PageNumberOneFirst(nodes).value.id == "a" by {
      assert HasPageNumberOne(nodes[0]);
    }
    assert LoadStory(data).pages == pm;
    DuplicateIdsRestart(pm);
  }

  /** The restart half of the example above: in a map holding `"a"` then
      `"b"`, where only `"b"` is numbered `'1'`, restart picks `"b"`. */
  lemma DuplicateIdsRestart(pm: PageMap)
    requires pm.keys == ["a", "b"]
    requires "a" in pm.entries && "b" in pm.entries
    requires !HasPageNumberOne(pm.entries["a"]) && !IsIntro(pm.entries["a"])
    requires HasPageNumberOne(pm.entries["b"]) && pm.entries["b"].id == "b"
    ensures RestartPage(pm).Some? && RestartPage(pm).value.id == "b"
  {
    assert !IsArrayIndex("a") && !IsArrayIndex("b") by {
      assert !IsDigit("a"[0]) && !IsDigit("b"[0]);
    }
    OwnKeysWithoutIndices(pm.keys);
    ValuesOfTwoKeys(pm, "a", "b");
    var vs := Values(pm);
    assert !HasPageNumberOne(vs[0]) && HasPageNumberOne(vs[1]);
  }

  function Numbered(id: string): (p: Page)
    ensures p.id == id && p.pageNumber == Some("1")
  {
    Bare(id).(pageNumber := Some("1"))
  }

  // ---------------------------------------------------------------------
  // The reader object
  // ---------------------------------------------------------------------

  /** Whatever state a valid reader is in, restarting leads to a valid one. */
  lemma RestartKeepsValid(r: Reader)
    requires r.Valid()
    ensures r.error.None? ==> Inv(r.pages, Restart(r.pages, r.State()))
    ensures r.error.Some? ==> RestartPage(r.pages).None?
  {
    if r.error.None? {
      RestartPreservesInv(r.pages, r.State());
    } else {
      ValuesCount(r.pages);
    }
  }

  /** The state the reader keeps between renders: the page map and error
      produced when the story was loaded, and the navigation state. */
  class Reader {
    const pages: PageMap
    const error: Option<LoadError>
    var currentPageId: string
    var history: seq<string>
    var imageIndex: int

    function State(): NavState
      reads this
    {
      NavState(currentPageId, history, imageIndex)
    }

    /** A loaded story satisfies the navigation invariant; a failed load
        leaves nothing to navigate. */
    ghost predicate Valid()
      reads this
    {
      && KeyedById(pages)
      && (error.None? ==> Inv(pages, State()))
      && (error.Some? ==> pages.entries == map[] && State() == NavState("", [], 0))
    }

    /** The hook's effect for a story. */
    constructor Load(data: RawStory)
      ensures Valid()
      ensures pages == LoadStory(data).pages && error == LoadStory(data).error
      ensures State() == NavState(LoadStory(data).currentPageId, LoadStory(data).history, 0)
    {
      LoadStoryConsistent(data);
      if data.nodes.None? {
        pages, error := EmptyRecord(), Some(MissingNodes);
        currentPageId, history, imageIndex := "", [], 0;
      } else {
        var nodes := data.nodes.value;
        var built := NormalizePages(nodes, data.connections);
        if built.Err? {
          pages, error := EmptyRecord(), Some(built.error);
          currentPageId, history, imageIndex := "", [], 0;
        } else {
          var start := PageNumberOneFirst(nodes);
          if start.None? {
            pages, error := built.value, Some(NoStartNode);
            currentPageId, history, imageIndex := "", [], 0;
          } else {
            pages, error := built.value, None;
            currentPageId, history, imageIndex := start.value.id, [start.value.id], 0;
          }
        }
      }
    }

    method HandleChoice(targetId: Option<string>)
      requires Valid()
      modifies this
      ensures Valid()
      ensures State() == Choose(pages, old(State()), targetId)
    {
      if Truthy(targetId) && targetId.value in pages.entries {
        currentPageId := targetId.value;
        history := history + [targetId.value];
        imageIndex := 0;
      }
      if error.None? {
        ChoosePreservesInv(pages, old(State()), targetId);
      }
    }

    method HandleGoBack()
      requires Valid()
      modifies this
      ensures Valid()
      ensures State() == GoBack(old(State()))
    {
      if |history| > 1 {
        var newHistory := history;
        newHistory := newHistory[..|newHistory| - 1];
        currentPageId := newHistory[|newHistory| - 1];
        history := newHistory;
        imageIndex := 0;
      }
      if error.None? {
        GoBackPreservesInv(pages, old(State()));
      }
    }

    method HandleRestart()
      requires Valid()
      modifies this
      ensures Valid()
      ensures State() == Restart(pages, old(State()))
    {
      var start := RestartPage(pages);
      RestartKeepsValid(this);
      if start.None? {
        return;
      }
      currentPageId, history, imageIndex := start.value.id, [start.value.id], 0;
    }

    /** The top-level reader's restart, which has no guard: with no page it
        fails on `startNode.id` and changes nothing. */
    method HandleRestartUnguarded() returns (threw: bool)
      requires Valid()
      modifies this
      ensures Valid()
      ensures threw <==> RestartPage(pages).None?
      ensures State() == Restart(pages, old(State()))
    {
      var start := RestartPage(pages);
      RestartKeepsValid(this);
      threw := start.None?;
      if !threw {
        currentPageId, history, imageIndex := start.value.id, [start.value.id], 0;
      }
    }

    method HandleImageChange()
      requires Valid()
      modifies this
      ensures Valid()
      ensures State() == CycleImage(pages, old(State()))
    {
      if currentPageId in pages.entries {
        var currentPage := pages.entries[currentPageId];
        if currentPage.images.Some? && |currentPage.images.value| > 1 {
          imageIndex := (imageIndex + 1) % |currentPage.images.value|;
        }
      }
    }
  }
}
