/** The story data model of `src/types.ts`. Optional properties are `Option`s.
    A list property that is present but not an array is modelled as absent,
    which is how the `useStoryData` hook and its copy in
    `src/components/StoryReader.tsx` treat it (they test with
    `Array.isArray`). The adapter and `StoryPage.tsx` have no such test; the
    non-array cases they handle differently are listed in the README under
    "Left out". The editor-only `position` of a page is not modelled. */
module Types {
  import opened Js

  /** A reader choice: its label and its target, either as `nextPage` (the
      page-record format) or as `targetId` (the node/connection format). */
  datatype Choice = Choice(text: string, nextPage: Option<string>, targetId: Option<string>)

  /** `endingType`, when present, is one of `'bad'`, `'good'`, `'best'`. */
  datatype EndingType = Bad | Good | Best

  /** One story screen. Only `id` and `content` are required; `typeTag` is
      the page's `type` property. */
  datatype Page = Page(
    id: string,
    typeTag: Option<string>,
    title: Option<string>,
    content: string,
    choices: Option<seq<Choice>>,
    decisions: Option<seq<Choice>>,
    images: Option<seq<string>>,
    pageNumber: Option<string>,
    isEnding: Option<bool>,
    endingType: Option<EndingType>)

  /** A connection's `sourceHandle`: absent (`undefined`), an index into the
      source's decisions, or some other value stored with the connection
      (`null`, a string, a fraction), which `===` never equates with an index. */
  datatype Handle = Undefined | Index(index: int) | NonIndex

  /** An edge from a source page to a target page. */
  datatype Connection = Connection(sourceId: string, targetId: string, sourceHandle: Handle)

  datatype StoryData = StoryData(nodes: seq<Page>, connections: seq<Connection>)

  /** The pages of a story keyed by id, as a plain object. */
  type PageMap = Record<Page>

  /** Every entry is stored under its own id. */
  ghost predicate KeyedById(pages: PageMap)
  {
    && RecordValid(pages)
    && forall k :: k in pages.entries ==> pages.entries[k].id == k
  }

  const BadEndingTag := "badEnding"
  const GoodEndingTag := "goodEnding"
  const BestEndingTag := "bestEnding"

  /** The type tag is one of the three ending tags. */
  predicate IsEndingTag(tag: Option<string>)
  {
    tag == Some(BadEndingTag) || tag == Some(GoodEndingTag) || tag == Some(BestEndingTag)
  }

  /** The ending kind a type tag announces. */
  function EndingOfTag(tag: Option<string>): (e: Option<EndingType>)
    ensures e.Some? <==> IsEndingTag(tag)
    ensures e == Some(Bad) <==> tag == Some(BadEndingTag)
    ensures e == Some(Good) <==> tag == Some(GoodEndingTag)
    ensures e == Some(Best) <==> tag == Some(BestEndingTag)
  {
    if tag == Some(BadEndingTag) then Some(Bad)
    else if tag == Some(GoodEndingTag) then Some(Good)
    else if tag == Some(BestEndingTag) then Some(Best)
    else None
  }

  /** The string form of an `endingType` value. */
  function EndingName(e: EndingType): string
  {
    match e
    case Bad => "bad"
    case Good => "good"
    case Best => "best"
  }

  /** A JavaScript truthiness test on an optional boolean. */
  predicate IsTrue(b: Option<bool>)
  {
    b == Some(true)
  }

  predicate HasPageNumberOne(p: Page)
  {
    p.pageNumber == Some("1")
  }

  predicate IsIntro(p: Page)
  {
    p.typeTag == Some("intro")
  }

  /** The number of images attached to a page (`images?.length`, 0 when absent). */
  function ImageCount(p: Page): nat
  {
    if p.images.Some? then |p.images.value| else 0
  }

  /** The decision list of a page, empty when it has none. */
  function DecisionsOf(p: Page): seq<Choice>
  {
    if p.decisions.Some? then p.decisions.value else []
  }
}
