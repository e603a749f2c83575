/** The decisions the reader's page view makes, in
    `src/components/story/ComicLayout.tsx` and in the view of the top-level
    reader (`src/components/StoryReader.tsx`): which page counts as an
    ending, which label an ending carries, which choices are shown and which
    of them can be clicked, whether the back control works, and how many
    image panels are drawn. */
module ComicLayout {
  import opened Js
  import opened Types
  import opened StoryDataHook
  import opened Navigation
  import opened StoryAdapter

  // ---------------------------------------------------------------------
  // Endings
  // ---------------------------------------------------------------------

  /** The reader's ending test: `isEnding` is true or the type is one of the
      three ending tags. */
  predicate IsEnding(p: Page): (b: bool)
    ensures b <==> IsTrue(p.isEnding) || EndingOfTag(p.typeTag).Some?
    ensures b ==> IsEndingNode(p)
  {
    IsTrue(p.isEnding) || IsEndingTag(p.typeTag)
  }

  /** `getEndingLabel()`: bad is tested first, then good, then best, each by
      its type tag or by `endingType`. */
  function EndingLabel(p: Page): (text: string)
    ensures text == "Bad Ending" <==> p.typeTag == Some(BadEndingTag) || p.endingType == Some(Bad)
    ensures text == "Good Ending" <==>
              !(p.typeTag == Some(BadEndingTag) || p.endingType == Some(Bad)) &&
              (p.typeTag == Some(GoodEndingTag) || p.endingType == Some(Good))
    ensures text == "Best Ending" <==>
              !(p.typeTag == Some(BadEndingTag) || p.endingType == Some(Bad)) &&
              !(p.typeTag == Some(GoodEndingTag) || p.endingType == Some(Good)) &&
              (p.typeTag == Some(BestEndingTag) || p.endingType == Some(Best))
    ensures text == "" ==> !IsEndingTag(p.typeTag) && p.endingType.None?
    ensures !IsEndingTag(p.typeTag) && p.endingType.None? ==> text == ""
  {
    if p.typeTag == Some(BadEndingTag) || p.endingType == Some(Bad) then "Bad Ending"
    else if p.typeTag == Some(GoodEndingTag) || p.endingType == Some(Good) then "Good Ending"
    else if p.typeTag == Some(BestEndingTag) || p.endingType == Some(Best) then "Best Ending"
    else
      EndingTypeCases(p.endingType);
      ""
  }

  lemma EndingTypeCases(e: Option<EndingType>)
    ensures e.None? || e == Some(Bad) || e == Some(Good) || e == Some(Best)
  {
    match e
    case None =>
    case Some(Bad) =>
    case Some(Good) =>
    case Some(Best) =>
  }

  /** On a page the hook has normalised, the reader's ending test, the
      presence of a label and the ending tag all agree, and the label names
      the page's `endingType`. */
  lemma NormalizedEndingLabel(node: Page, conns: Option<seq<Connection>>)
    requires NormalizeNode(node, conns).Some?
    ensures var p := NormalizeNode(node, conns).value;
            && (IsEnding(p) <==> IsEndingTag(node.typeTag))
            && (EndingLabel(p) != "" <==> IsEnding(p))
            && (IsEnding(p) ==> EndingLabel(p) == EndingTitle(p.endingType.value))
  {
  }

  /** The label text of an ending kind. */
  function EndingTitle(e: EndingType): string
  {
    match e
    case Bad => "Bad Ending"
    case Good => "Good Ending"
    case Best => "Best Ending"
  }

  /** A page whose tag says one ending and whose `endingType` another is
      labelled by whichever comes first in the order bad, good, best. */
  lemma LabelPrecedence(p: Page)
    requires p.typeTag == Some(BestEndingTag) && p.endingType == Some(Good)
    ensures EndingLabel(p) == "Good Ending"
  {
  }

  /** Every page the reader treats as an ending is one for the adapter's
      `isEndingNode`; the adapter also counts a page with an empty decision
      list, which the reader does not. */
  lemma ReaderEndingsAreAdapterEndings(p: Page)
    ensures IsEnding(p) ==> IsEndingNode(p)
    ensures !IsTrue(p.isEnding) && !IsEndingTag(p.typeTag) && p.decisions == Some([]) ==>
              IsEndingNode(p) && !IsEnding(p)
  {
  }

  // ---------------------------------------------------------------------
  // Choices
  // ---------------------------------------------------------------------

  /** `choice.text && choice.text !== 'N/A'` */
  predicate IsVisible(c: Choice)
  {
    Truthy(Some(c.text)) && c.text != "N/A"
  }

  /** The choice buttons drawn for a page, in decision order. */
  function VisibleChoices(p: Page): (cs: seq<Choice>)
    ensures forall c :: c in cs ==> IsVisible(c) && c in DecisionsOf(p)
    ensures forall c :: c in DecisionsOf(p) && IsVisible(c) ==> c in cs
  {
    if p.decisions.Some? then Filter(p.decisions.value, IsVisible) else []
  }

  /** `disabled={!choice.targetId}`: a button is disabled exactly when its
      click would forward nothing. */
  predicate ChoiceDisabled(c: Choice): (b: bool)
    ensures b <==> OnChoiceClick(c.targetId).None?
  {
    !Truthy(c.targetId)
  }

  /** What the bottom of the page offers: only the restart button on an
      ending, the visible choices otherwise. */
  datatype Controls = RestartOnly | ChoiceButtons(choices: seq<Choice>)

  function PageControls(p: Page): (r: Controls)
    ensures IsEnding(p) <==> r.RestartOnly?
    ensures r.ChoiceButtons? ==> r.choices == VisibleChoices(p)
    ensures r.ChoiceButtons? ==> forall c :: c in r.choices ==> IsVisible(c) && c in DecisionsOf(p)
    ensures r.ChoiceButtons? ==> forall c :: c in DecisionsOf(p) && IsVisible(c) ==> c in r.choices
  {
    if IsEnding(p) then RestartOnly else ChoiceButtons(VisibleChoices(p))
  }

  /** `onChoiceClick(targetId)`: what reaches `handleChoice`, if anything;
      its `if (targetId)` guard lets through what `targetId || null` keeps. */
  function OnChoiceClick(targetId: Option<string>): (forwarded: Option<string>)
    ensures forwarded.Some? <==> Truthy(targetId)
    ensures forwarded.Some? ==> forwarded == targetId
  {
    OrNull(targetId)
  }

  /** The state after a click on choice `c`, through `onChoiceClick`. */
  function Click(pages: PageMap, s: NavState, c: Choice): NavState
  {
    match OnChoiceClick(c.targetId)
    case None => s
    case Some(t) => Choose(pages, s, Some(t))
  }

  /** The click guard adds nothing to the handler's own guard: clicking
      choice `c` through `onChoiceClick`, or through the top-level reader's
      `handleChoice(choice.targetId || null)`, is `handleChoice` on its
      target; and a disabled choice changes nothing. */
  lemma ClickIsChoose(pages: PageMap, s: NavState, c: Choice)
    ensures Click(pages, s, c) == Choose(pages, s, c.targetId)
    ensures Choose(pages, s, OrNull(c.targetId)) == Choose(pages, s, c.targetId)
    ensures ChoiceDisabled(c) ==> Click(pages, s, c) == s
  {
  }

  // ---------------------------------------------------------------------
  // Back control and panels
  // ---------------------------------------------------------------------

  /** `disabled={history.length <= 1}` (the top-level reader) and
      `disabled={!hasHistory}` with `hasHistory = history.length > 1`. */
  predicate BackDisabled(history: seq<string>)
  {
    |history| <= 1
  }

  /** The back control is disabled exactly when going back would do nothing. */
  lemma BackDisabledIffNoOp(s: NavState)
    ensures BackDisabled(s.history) <==> GoBack(s) == s
  {
    if !BackDisabled(s.history) {
      assert |GoBack(s).history| == |s.history| - 1;
    }
  }

  /** `renderComicPanels()`: `None` stands for the "no images" placeholder;
      otherwise the images drawn, one panel each, chosen by the `switch` on
      the number of images. */
  function Panels(images: Option<seq<string>>): (r: Option<seq<string>>)
    ensures r.None? <==> images.None? || |images.value| == 0
    ensures r.Some? ==> r.value == images.value[..Min(|images.value|, 4)]
  {
    if images.None? || |images.value| == 0 then None
    else
      var imgs := images.value;
      if |imgs| == 1 then Some([imgs[0]])
      else if |imgs| == 2 then Some(imgs)
      else if |imgs| == 3 then Some([imgs[0], imgs[1], imgs[2]])
      else Some(imgs[..4])
  }

  function Min(a: int, b: int): int
  {
    if a <= b then a else b
  }

  /** With five images only four panels are drawn, while the navigation
      hook's image index can still reach the fifth image. */
  lemma SelectedImageMayBeHidden(p: Page, imgs: seq<string>)
    requires p.images == Some(imgs) && |imgs| == 5
    ensures |Panels(p.images).value| == 4
    ensures CycleImage(Record(map[p.id := p], [p.id]), NavState(p.id, [p.id], 3)).imageIndex == 4
  {
  }
}
