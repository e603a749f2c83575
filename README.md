# Story-graph engine of comic-creator2, in Dafny

This project models the story-graph engine of the comic-creator2 interactive
comic reader and proves properties of the model. A story is a graph of pages
(`nodes`) joined by `connections`. Each page offers `decisions` (or, in an
older format, `choices`) that lead to other pages. The engine has four parts:

- **Normalising the graph.** The graph is turned into a page map keyed by
  page id, and each decision gets its target. The `useStoryData` hook does
  this, the top-level `StoryReader` component repeats it line for line, and
  `processConnections` in the adapter applies the same rule. The standalone
  `StoryPage` has its own variant that pairs decisions with connections by
  position. The adapter also converts a page record into node/connection
  form.
- **Choosing the start page.** There are three priority orders: page number
  `'1'` first (the hooks and the top-level reader), `intro` first with a
  fallback to ids containing `start` (`findStartingPage`), and `intro`, else
  the first page (`StoryPage`).
- **Navigating.** The reader holds a current page, a history stack and an
  image index. Choices, going back, restarting and cycling images update
  them.
- **Rendering decisions.** The view decides which page is an ending and
  which label it carries, which choices are shown or disabled, whether the
  back control works, and how many image panels are drawn.

Modules, one per file:

| file | module | models |
|---|---|---|
| `js.dfy` | `Js` | JavaScript semantics the code relies on: `null`/`undefined`, string truthiness, `find`, `filter`, `includes`, and the key order of a plain object used as a dictionary (`Object.values`) |
| `types.dfy` | `Types` | `src/types.ts` |
| `story_data.dfy` | `StoryDataHook` | `src/components/hooks/useStoryData.ts` and lines 27-120 of `src/components/StoryReader.tsx` |
| `navigation.dfy` | `Navigation` | `src/components/hooks/useStoryNavigation.ts` and the handlers of `src/components/StoryReader.tsx`, as the class `Reader` |
| `story_adapter.dfy` | `StoryAdapter` | `src/utils/storyAdapter.ts` |
| `story_page.dfy` | `StoryPage` | `src/pages/StoryPage.tsx`, as the class `StoryPageReader` |
| `comic_layout.dfy` | `ComicLayout` | the pure helpers of `src/components/story/ComicLayout.tsx` and the view rules of `src/components/StoryReader.tsx` |

How the model is built:

- Absent optional fields and `null` are `None`. In the `useStoryData` hook
  (and its copy in `StoryReader.tsx`), a field that `Array.isArray` rejects
  counts as absent, because the hook tests each list with it. The adapter
  and `StoryPage.tsx` have no such test; the model takes their list fields
  to be arrays or absent (see "## Left out").
- A connection's `sourceHandle` is the exception. The code compares it with
  `=== undefined`, so `null` differs from absent there. It is modelled as
  `Undefined`, an `Index`, or a `NonIndex` value such as `null`, and only
  `Undefined` matches every decision.
- Code that throws becomes a `Result` or an outcome value.
- Loops that change state are methods. Each is proved equal to a
  specification function, and the properties are proved about that function.
- Objects that the source updates in place are classes: the navigation
  state, and the state of the `StoryPage` component.

## Model

| member | source | states |
|---|---|---|
| Js.Rem | src/components/hooks/useStoryNavigation.ts:78 | JavaScript's `%` with a positive divisor `n`: for a non-negative dividend it is the Euclidean remainder; for a negative dividend `a` it is `-((-a) % n)`, in `(-n, 0]`; in every case the dividend minus the result is a multiple of `n` |
| Js.OrNull | src/components/hooks/useStoryData.ts:54 | `x \|\| null` yields a value exactly when `x` is a non-empty string, and then that string |
| Js.Find | src/components/hooks/useStoryData.ts:47-50 | `find` returns nothing iff no element satisfies the predicate; otherwise it returns the first element that does |
| Js.FindCorresponds | src/components/hooks/useStoryNavigation.ts:55-57 | two searches over sequences that agree pointwise on the predicate succeed together, and they find related elements |
| Js.FindUnique | src/utils/storyAdapter.ts:49 | when exactly one element satisfies the predicate, `find` returns that element |
| Js.Filter | src/pages/StoryPage.tsx:45 | `filter` keeps exactly the elements that satisfy the predicate, drawn from the input |
| Js.FilterAppend | src/components/StoryReader.tsx:366-368 | filtering distributes over concatenation, so it keeps relative order |
| Js.FindInFilter | src/pages/StoryPage.tsx:45 | searching for a stronger predicate inside a filtered list finds the same element as searching the whole list |
| Js.Includes | src/utils/storyAdapter.ts:119 | `s.includes(t)` iff `t` occurs in `s` at some index |
| Js.Assign | src/components/hooks/useStoryData.ts:68 | `obj[k] = v` maps `k` to `v` and leaves other keys alone; a new key goes to the end of the creation order, while an existing key keeps its place |
| Js.AssignValid | src/components/hooks/useStoryData.ts:68 | assigning keeps the creation order duplicate-free and in step with the entries |
| Js.InsertBy | src/components/hooks/useStoryNavigation.ts:55 | inserting into an ascending list keeps it ascending, with the same elements plus the new one |
| Js.OwnKeysPermutes | src/components/hooks/useStoryNavigation.ts:55-57 | `Object.values` order lists every key exactly as often as creation order does |
| Js.OwnKeysOrder | src/components/hooks/useStoryNavigation.ts:55-57 | in `Object.values` order, array-index keys come first in ascending numeric order, followed by the other keys in creation order |
| Js.OwnKeysWithoutIndices | src/components/hooks/useStoryNavigation.ts:55-57 | without array-index keys, `Object.values` follows creation order |
| Js.ValuesCount | src/components/hooks/useStoryNavigation.ts:57 | `Object.values(pages)` has one entry per key |
| Types.EndingOfTag | src/components/hooks/useStoryData.ts:26-35 | `badEnding`, `goodEnding` and `bestEnding` map to `bad`, `good` and `best`; any other tag gives no ending |
| StoryDataHook.ResolveDecision | src/components/hooks/useStoryData.ts:40-56 | a truthy explicit target is kept; otherwise the target comes from the first connection in list order that leaves the node with an `undefined` or equal handle (a `null` handle matches nothing), or is `null` when there is none |
| StoryDataHook.ResolveDecisions | src/components/hooks/useStoryData.ts:40 | one resolved decision per source decision, at the same index |
| StoryDataHook.ChoicesToDecisions | src/components/hooks/useStoryData.ts:57-62 | each choice becomes `{text, targetId: nextPage \|\| null}` |
| StoryDataHook.NormalizeNode | src/components/hooks/useStoryData.ts:21-74 | a node fails only when its decisions need connections and there is no connection list. Otherwise: other fields are kept; `isEnding`/`endingType` follow the type tag alone; `images` is always a list. The decisions are the resolved `decisions` when present, else the converted `choices`, else `[]` |
| StoryDataHook.KeyPagesStep | src/components/hooks/useStoryData.ts:21-75 | each iteration of the page-map loop stores one page, or stops at a failing node |
| StoryDataHook.KeyPagesKeyedById | src/components/hooks/useStoryData.ts:68 | every page is stored under its own id |
| StoryDataHook.KeyPagesFails | src/components/hooks/useStoryData.ts:21-75 | the loop fails iff some node fails |
| StoryDataHook.IdSetMembers | src/components/hooks/useStoryData.ts:68 | the ids stored are exactly the ids of the normalised nodes |
| StoryDataHook.KeyPagesDomain | src/components/hooks/useStoryData.ts:68 | the map's keys are exactly the node ids |
| StoryDataHook.KeyPagesLastWins | src/components/hooks/useStoryData.ts:68 | a node with no later duplicate id is the page stored under its id |
| StoryDataHook.KeyPagesKeyOrder | src/components/hooks/useStoryData.ts:68 | with distinct ids, creation order is node order |
| StoryDataHook.NormalizePages | src/components/hooks/useStoryData.ts:15-75 | the `forEach` loop that fills `pagesMap` computes `BuildPages` |
| StoryDataHook.BuildPagesFails | src/components/hooks/useStoryData.ts:47 | the loop throws iff there is no connection list and some node has a decision without a truthy target |
| StoryDataHook.BuildPagesDomain | src/components/hooks/useStoryData.ts:68 | the page map is keyed by exactly the node ids |
| StoryDataHook.BuildPagesLastWins | src/components/hooks/useStoryData.ts:68 | a later node with a duplicate id overwrites the earlier one |
| StoryDataHook.BuildPagesKeyOrder | src/components/hooks/useStoryData.ts:68 | with distinct ids, the map's creation order is node order |
| StoryDataHook.BuildPagesValues | src/components/hooks/useStoryData.ts:68 | with distinct ids that are not array indices, `Object.values` of the map is the normalised nodes in order |
| StoryDataHook.PageNumberOneFirst | src/components/hooks/useStoryData.ts:80-85 | the start is the first page numbered `'1'`, else the first `intro`, else the first page; nothing only for an empty list |
| StoryDataHook.LoadStory | src/components/hooks/useStoryData.ts:10-113 | the load succeeds iff `nodes` is an array, it is non-empty and the loop does not throw. Success seeds history `[start]`. Failure gives the error state with no pages and empty history |
| StoryDataHook.LoadStoryConsistent | src/components/hooks/useStoryData.ts:87-90 | after a successful load the current page exists, and every page is stored under its id |
| StoryDataHook.ResolveDecisionsIdempotent | src/components/hooks/useStoryData.ts:40-56 | resolving resolved decisions changes nothing |
| StoryDataHook.OutOfRangeHandleIgnored | src/components/hooks/useStoryData.ts:47-50 | a connection whose handle is `null`, or any other value that is not an index of the decision list, never supplies a target |
| StoryDataHook.FindIgnoresFailingSuffix | src/components/hooks/useStoryData.ts:47-50 | appending a non-matching connection does not change the match |
| StoryDataHook.ChoicesIgnoreConnections | src/components/hooks/useStoryData.ts:57-62 | in the `choices` format the connection list plays no part |
| Navigation.Choose | src/components/hooks/useStoryNavigation.ts:14-36 | a choice changes the state only when its target is truthy and names a page; then current := target, the target is pushed, image index := 0 |
| Navigation.GoBack | src/components/hooks/useStoryNavigation.ts:38-51 | back acts only when history has more than one entry; then it removes exactly the last entry, current becomes the new last entry, and the image index is reset |
| Navigation.RestartPage | src/components/hooks/useStoryNavigation.ts:55-59 | the restart page is one of `Object.values(pages)`; there is none only for an empty map |
| Navigation.Restart | src/components/hooks/useStoryNavigation.ts:53-73 | with no page nothing changes; otherwise history := `[start]`, current := start, image index := 0 |
| Navigation.CycleImage | src/components/hooks/useStoryNavigation.ts:75-80 | with more than one image the index becomes `(i + 1) % n` with JavaScript's truncating `%`; otherwise nothing changes. From an index in `[0, n)` that is `i + 1`, wrapping to `0` after the last image, and the index stays in `[0, n)` |
| Navigation.ChoosePreservesInv | src/components/hooks/useStoryNavigation.ts:22-24 | a choice keeps the invariant: non-empty history of existing pages, current == last entry, valid image index |
| Navigation.GoBackPreservesInv | src/components/hooks/useStoryNavigation.ts:42-47 | going back keeps the invariant; history never becomes empty |
| Navigation.RestartPageExists | src/components/hooks/useStoryNavigation.ts:55-59 | the restart page is stored under its own id |
| Navigation.RestartPreservesInv | src/components/hooks/useStoryNavigation.ts:68-70 | restart keeps the invariant |
| Navigation.CycleImagePreservesInv | src/components/hooks/useStoryNavigation.ts:77-78 | image cycling keeps the invariant |
| Navigation.RunPreservesInv | src/components/hooks/useStoryNavigation.ts:14-80 | any sequence of handler calls keeps the invariant |
| Navigation.GoBackUndoesChoose | src/components/hooks/useStoryNavigation.ts:22-23 | going back right after an accepted choice returns to the previous state on image 0 |
| Navigation.RestartForgetsHistory | src/components/hooks/useStoryNavigation.ts:68-70 | restart lands on the same state whatever the history was, and is idempotent |
| Navigation.RestartActsOnNonEmptyPages | src/components/hooks/useStoryNavigation.ts:61-64 | with at least one page, restart always acts and leaves a one-entry history |
| Navigation.CycleImageSteps | src/components/hooks/useStoryNavigation.ts:78 | `k` image changes move the index to `(i + k) mod n` |
| Navigation.CyclePeriod | src/components/hooks/useStoryNavigation.ts:78 | `n` image changes on a page with `n > 1` images change nothing |
| Navigation.StartCorresponds | src/components/hooks/useStoryNavigation.ts:55-59 | the start rule depends only on ids, page numbers and type tags |
| Navigation.RestartLandsOnLoadStart | src/components/hooks/useStoryNavigation.ts:55-59 | with distinct ids that are not array indices, restart lands on the page the story opened on |
| Navigation.RestartDiffersForIndexIds | src/components/hooks/useStoryNavigation.ts:55-57 | with ids `"2"`, `"1"` the story opens on `"2"`, but `Object.values` sorts integer keys, so restart goes to `"1"` |
| Navigation.RestartDiffersForDuplicateIds | src/components/hooks/useStoryData.ts:68 | a later duplicate id replaces the page numbered `'1'` that the story opened on, so restart goes elsewhere |
| Navigation.DuplicateIdsRestart | src/components/hooks/useStoryNavigation.ts:55-59 | in a map holding `"a"` then `"b"`, where only `"b"` is numbered `'1'`, restart picks `"b"` |
| Navigation.RestartKeepsValid | src/components/StoryReader.tsx:157-169 | restarting a valid reader gives a valid state, and a reader whose load failed has no restart page |
| Navigation.Reader.Load | src/components/hooks/useStoryData.ts:10-113 | the reader's fields after loading are the load result, with image index 0 |
| Navigation.Reader.HandleChoice | src/components/StoryReader.tsx:122-128 | the new state is `Choose` of the old one, and the reader stays valid |
| Navigation.Reader.HandleGoBack | src/components/StoryReader.tsx:140-151 | the new state is `GoBack` of the old one, through the copy-then-pop of history |
| Navigation.Reader.HandleRestart | src/components/hooks/useStoryNavigation.ts:53-73 | the new state is `Restart` of the old one |
| Navigation.Reader.HandleRestartUnguarded | src/components/StoryReader.tsx:157-169 | the top-level reader's restart has no guard: it throws iff there is no page, and otherwise acts as `Restart` |
| Navigation.Reader.HandleImageChange | src/components/hooks/useStoryNavigation.ts:75-80 | the new state is `CycleImage` of the old one |
| StoryAdapter.ConvertedTag | src/utils/storyAdapter.ts:25 | the tag is `'story'` iff the page is not an ending. It is an ending tag iff the page is an ending with no `endingType`, because `'good'` is not `'goodEnding'` |
| StoryAdapter.ConvertPage | src/utils/storyAdapter.ts:22-41 | a page becomes a node: id and content kept; title or `''`; pageNumber `''`; images or `[]`; `isEnding`/`endingType` copied; one decision per choice with its `nextPage` and no target |
| StoryAdapter.LinkDecision | src/utils/storyAdapter.ts:46-63 | a truthy `nextPage` that names a node becomes the target; a truthy `nextPage` is always deleted; any other decision is unchanged |
| StoryAdapter.LinkNode | src/utils/storyAdapter.ts:45-65 | only nodes with decisions are rewritten, decision by decision |
| StoryAdapter.DecisionLinks | src/utils/storyAdapter.ts:46-56 | each emitted connection leaves this node with a handle inside the decision list |
| StoryAdapter.Normalize | src/utils/storyAdapter.ts:7-73 | it throws iff the input is null or undefined. Graph input is returned unchanged. An array or primitive gives an empty graph. A page record gives one node per page |
| StoryAdapter.FindById | src/utils/storyAdapter.ts:49-50 | `nodes.find(n => n.id === x)` succeeds iff `x` is a node id, and finds a node with that id |
| StoryAdapter.LinkNodeDecisions | src/utils/storyAdapter.ts:46-64 | the inner loop rewrites the decisions as `LinkDecisions` and pushes `DecisionLinks` |
| StoryAdapter.LinkPass | src/utils/storyAdapter.ts:44-66 | the nested loops rewrite every node as `LinkNode` and push `AllLinks`, in node order |
| StoryAdapter.IdsOfUpdate | src/utils/storyAdapter.ts:58 | rewriting a node's decisions in place keeps the id list that `find` searches |
| StoryAdapter.NormalizeStoryData | src/utils/storyAdapter.ts:7-73 | the imperative conversion computes `Normalize` |
| StoryAdapter.ProcessConnections | src/utils/storyAdapter.ts:78-109 | nodes without decisions and the connection list are unchanged; every other node gets the hook's resolution rule per decision index |
| StoryAdapter.FindStartingPage | src/utils/storyAdapter.ts:114-123 | the first `intro`, else the first page numbered `'1'`, else the first id containing `start`, else the first node; `''` for no nodes |
| StoryAdapter.IsEndingNode | src/utils/storyAdapter.ts:128-136 | a node is an ending iff `isEnding` is true, its type announces an ending kind, or its decision list is present and empty |
| StoryAdapter.DecisionLinksExact | src/utils/storyAdapter.ts:46-56 | a connection is emitted iff a decision's `nextPage` names an existing node; it carries that decision's index as handle |
| StoryAdapter.AllLinksFrom | src/utils/storyAdapter.ts:44-45 | every emitted connection comes from one of the nodes |
| StoryAdapter.AdapterOutputIsResolved | src/utils/storyAdapter.ts:84-97 | with distinct ids, `processConnections` on the adapter's output changes nothing |
| StoryAdapter.LinkedNodeResolved | src/utils/storyAdapter.ts:84-97 | each linked node's decisions are already resolved against the emitted connections |
| StoryAdapter.NoMatchForUnlinked | src/utils/storyAdapter.ts:88-91 | with distinct ids, a decision that emitted no connection matches none |
| StoryAdapter.ProcessConnectionsAgreesWithHook | src/utils/storyAdapter.ts:84-97 | on a node with decisions, `processConnections` gives the hook's decisions |
| StoryAdapter.ProcessConnectionsIdempotent | src/utils/storyAdapter.ts:78-109 | running `processConnections` twice is running it once |
| StoryAdapter.ConvertedEndingTags | src/utils/storyAdapter.ts:25 | a converted ending is always an adapter ending. The hook's normaliser loses the ending when an `endingType` was present, and keeps it when there was none |
| StoryAdapter.StartPoliciesDiffer | src/utils/storyAdapter.ts:116-120 | for `[page numbered '1', intro]` the adapter starts on the intro, the hooks on the numbered page |
| StoryAdapter.StartIdChosen | src/utils/storyAdapter.ts:119 | with no intro and no page `'1'`, a node whose id contains `start` beats the first node |
| StoryAdapter.EmptyDecisionsIsEnding | src/utils/storyAdapter.ts:134 | a node with an empty decision list is an ending for the adapter |
| StoryPage.TagEnding | src/pages/StoryPage.tsx:33-42 | an ending tag sets `isEnding` and the matching `endingType`; any other tag leaves the node unchanged |
| StoryPage.Outgoing | src/pages/StoryPage.tsx:45 | the connections leaving the node, taken from the list |
| StoryPage.IndexedDecisions | src/pages/StoryPage.tsx:46-49 | decision `j` takes the target of the `j`-th connection leaving the node, or `null`; count, order, text and `nextPage` are kept |
| StoryPage.ConvertNode | src/pages/StoryPage.tsx:31-51 | a node without `decisions` makes the loop throw; otherwise it is tagged and its decisions re-targeted |
| StoryPage.IntroOrFirst | src/pages/StoryPage.tsx:56 | the first `intro` page, else the first page; nothing only for an empty list |
| StoryPage.RewriteNodes | src/pages/StoryPage.tsx:30-52 | the loop rewrites the fetched nodes in place and returns the page map. On a node without decisions, the earlier nodes are rewritten, that node only tagged, and the later ones untouched |
| StoryPage.RewriteAt | src/pages/StoryPage.tsx:31-50 | one callback run on `nodes[i]` rewrites only that node: it becomes its `ConvertNode` image, or, when it has no decisions, is only tagged and the call throws |
| StoryPage.IntroOrFirstIds | src/pages/StoryPage.tsx:56 | the start page of the rewritten nodes has the id of the start of the fetched ones |
| StoryPage.StoryPageReader.constructor | src/pages/StoryPage.tsx:9-11 | the component starts with no pages, current `''` and an empty history |
| StoryPage.StoryPageReader.LoadProject | src/pages/StoryPage.tsx:27-61 | on success the pages are the rewritten nodes by id, history is `[start]` and the start page exists. A throw in the loop changes no state. With no nodes only the (empty) page map is set |
| StoryPage.StoryPageReader.HandleChoice | src/pages/StoryPage.tsx:64-69 | any truthy target is pushed, with no existence check; a missing page leaves the view on its loading placeholder |
| StoryPage.StoryPageReader.HandleRestart | src/pages/StoryPage.tsx:71-75 | restart goes to the first `intro` of `Object.values(pages)`, else the first page, with history `[start]`; on an empty map it throws and changes nothing |
| StoryPage.StartIsStored | src/pages/StoryPage.tsx:51-58 | the page a load starts on is in the page map |
| StoryPage.PositionalFind | src/pages/StoryPage.tsx:45-48 | when the connections leaving a node carry handles `0, 1, 2, …` in order, the hook's first match for decision `j` is the `j`-th of them |
| StoryPage.IndexedAgreesWithHook | src/pages/StoryPage.tsx:45-49 | positional pairing gives the hook's result when no decision has its own target and handles follow list order |
| StoryPage.ExplicitTargetDropped | src/pages/StoryPage.tsx:48 | an explicit target survives the hook but is overwritten here |
| StoryPage.HandleIgnored | src/pages/StoryPage.tsx:45-48 | a connection with handle 1 goes to decision 0 here and to decision 1 in the hook |
| StoryPage.IntroStartAgrees | src/pages/StoryPage.tsx:56 | when an `intro` exists this component starts on the first one, as `findStartingPage` does |
| StoryPage.StartDiffersFromHook | src/pages/StoryPage.tsx:56 | for `[page numbered '1', intro]` this component starts on the intro, the hooks on the numbered page |
| ComicLayout.EndingLabel | src/components/story/ComicLayout.tsx:59-68 | the label is bad, good or best, tested in that order, each by type tag or `endingType`; `''` iff there is neither an ending tag nor an `endingType` |
| ComicLayout.NormalizedEndingLabel | src/components/StoryReader.tsx:228-240 | on a page the hook has normalised, the ending test holds iff the tag is an ending tag. A label is shown iff the page is an ending, and it names the page's `endingType` |
| ComicLayout.LabelPrecedence | src/components/story/ComicLayout.tsx:59-68 | a `bestEnding` tag with `endingType` `good` is labelled "Good Ending" |
| ComicLayout.ReaderEndingsAreAdapterEndings | src/utils/storyAdapter.ts:128-135 | every ending for the reader is one for `isEndingNode`; a page with an empty decision list is an ending only for the adapter |
| ComicLayout.IsEnding | src/components/StoryReader.tsx:228-229 | a page is an ending iff `isEnding` is true or its type announces an ending kind; every such page is an ending for `isEndingNode` too |
| ComicLayout.ChoiceDisabled | src/components/story/ComicLayout.tsx:249 | a choice button is disabled exactly when its click would forward nothing |
| ComicLayout.VisibleChoices | src/components/StoryReader.tsx:366-368 | the buttons are exactly the decisions with non-empty text other than `'N/A'` |
| ComicLayout.PageControls | src/components/story/ComicLayout.tsx:231-257 | an ending page offers only the restart button; any other page offers exactly its visible choices, in decision order |
| ComicLayout.OnChoiceClick | src/components/story/ComicLayout.tsx:33-44 | the click reaches `handleChoice` iff the target is truthy, and then with that target |
| ComicLayout.ClickIsChoose | src/components/story/ComicLayout.tsx:33-44 | a click through `onChoiceClick` (or through `handleChoice(targetId \|\| null)`) is `handleChoice` on the target, and a disabled choice changes nothing |
| ComicLayout.BackDisabledIffNoOp | src/components/StoryReader.tsx:386 | the back control is disabled exactly when going back would do nothing |
| ComicLayout.Panels | src/components/story/ComicLayout.tsx:71-195 | no images give the placeholder; otherwise the first `min(n, 4)` images are drawn, in order |
| ComicLayout.SelectedImageMayBeHidden | src/components/story/ComicLayout.tsx:82-85 | with five images only four panels are drawn, while the navigation hook's image index can still reach `4` |

## Left out

- The fade, the 300 ms timers, `scrollIntoView` and `document` access are
  not modelled. Each handler is one atomic step.
- The code has no busy flag. A second choice made before the timer fires is
  not rejected by the source, so the model has no single-flight guard.
- The hook's restart returns silently when there is no page. The model
  follows the code, not a "fails loudly" restart.
- The Supabase fetch of `StoryPage.tsx` (lines 17-27) is network I/O.
  `LoadProject` receives the fetched `nodes` array and `connections` list. A
  missing `story_data`, `nodes` or `connections` also throws and is only
  logged; the model does not represent those inputs.
- Authentication, routing and project storage are not modelled:
  `Dashboard.tsx`, `Login.tsx` and `App.tsx`.
- The presentation components `DebugPanel.tsx`, `StoryHero.tsx` and
  `ComicPanel.tsx` are not modelled, nor are the CSS strings of
  `getEndingStyle` or the JSX layout.
- `StoryTest.tsx` is file reading and `JSON.parse` plumbing, and is not
  modelled.
- `StoryControls.tsx` is not modelled. Its ending branch refers to
  undefined variables, so it has no coherent behaviour.
- `components/story/StoryReader.tsx` only wires the hooks together. Its page
  number display (`pageNumber || indexOf + 1`) and the page count are not
  modelled.
- `console.log`, `console.warn` and `console.error` are not modelled; they
  never affect control flow.
- The hook's error messages are not modelled. Only which error occurred is.
- The editor-only `position` field of a page is not modelled.
- In the hook, a field that is present but not an array is treated as
  absent, which is what `Array.isArray` gives the code. For `StoryPage.tsx`,
  a non-array `decisions` (which would make `.map` throw) is treated the
  same way.
- `StoryAdapter.ConvertPage`: the model takes a page's `choices` and
  `images` to be arrays or absent. A truthy non-array `choices` makes
  `page.choices?.map` throw (`storyAdapter.ts` line 28), and a truthy
  non-array `images` is copied unchanged (line 34); neither is modelled.
- `StoryAdapter.ProcessConnections`: the model takes a node's `decisions` to
  be an array or absent. A truthy non-array `decisions` passes the
  `!node.decisions` test (line 81) and then makes `.map` throw (line 84);
  this is not modelled.
- Properties inherited from `Object.prototype` are not modelled. In the
  source, `pages["constructor"]` finds one; the model looks up own keys only.
- `Js.Assign`: a node whose id is `"__proto__"` sets the prototype of
  `pagesMap` in the source (`useStoryData.ts` line 68) and is not stored as
  an own key. The model stores it like any other id.
- The hook returns the setters `setCurrentPageId`, `setHistory` and
  `setImageIndex`, which can write arbitrary values. They are not modelled,
  and the navigation invariant assumes only the handlers change state.
- The model does not re-run the hook's effect on the same reader when
  `storyData` changes. `Reader.Load` models one effect run on fresh state.
- `StoryAdapter.Normalize`: an object that has only one of `nodes` and
  `connections` is converted as a page record in the source. Its values are
  then not pages. The model's page-record input holds pages only.
- `StoryAdapter.Normalize`: a page record that stores pages under the keys
  `"nodes"` and `"connections"` passes the `data.nodes && data.connections`
  test (`storyAdapter.ts` line 9) and is returned unchanged (line 10). The
  model converts every page record.
- `StoryAdapter.Normalize`: its own contract fixes only the node count for
  page-record input. The conversion and linking are stated by `ConvertPage`,
  `LinkDecision`, `DecisionLinksExact` and `LinkPass`.
- `StoryPage.StoryPageReader.LoadProject`: the node objects are shared
  between `storyData.nodes` and `pagesMap` in the source. The model stores
  copies. Each node is written only in its own iteration, before it is
  stored, so the two agree.
- `StoryPage.StoryPageReader.LoadProject`: the partial rewriting of the
  fetched nodes after a throw is stated by `RewriteNodes`, not by the
  method itself.
