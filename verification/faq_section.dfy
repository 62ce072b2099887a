/** The FAQ accordion: a single `openIndex` (an item index or none) shared
    by the desktop and the mobile accordion; clicking a question opens it,
    or closes it when it was the open one. */
module FaqSection {
  import opened Common

  /** `useState<number | null>(0)`: the first item starts open. */
  const Initial: Option<int> := Some(0)

  /** `openIndex === i` */
  predicate IsOpen(openIndex: Option<int>, i: int) {
    openIndex == Some(i)
  }

  /** Before any click exactly the first item is open. */
  lemma InitiallyFirstOpen()
    ensures IsOpen(Initial, 0)
    ensures forall j :: j != 0 ==> !IsOpen(Initial, j)
  {
  }

  /** The click handler of item `i`: `setOpenIndex(isOpen ? null : i)`. */
  function Click(openIndex: Option<int>, i: int): (r: Option<int>)
    ensures IsOpen(r, i) <==> !IsOpen(openIndex, i)
    ensures forall j :: j != i ==> !IsOpen(r, j)
  {
    if IsOpen(openIndex, i) then None else Some(i)
  }

  /** Two clicks on the same item: an open item comes back open (and the
      state is restored); a closed item ends up with everything closed. */
  lemma ClickTwice(openIndex: Option<int>, i: int)
    ensures IsOpen(openIndex, i) ==> Click(Click(openIndex, i), i) == openIndex
    ensures !IsOpen(openIndex, i) ==> Click(Click(openIndex, i), i) == None
  {
  }

  function RunClicks(openIndex: Option<int>, clicks: seq<int>): Option<int>
    decreases |clicks|
  {
    if |clicks| == 0 then openIndex else RunClicks(Click(openIndex, clicks[0]), clicks[1..])
  }

  /** After any sequence of clicks on existing items, the open item, if any,
      is an existing item, and it is either the initially open item or one
      that was clicked. That at most one item is open follows from the
      state's type, a single optional index, and is restated here only for
      the reader. */
  lemma {:induction false} AtMostOneOpen(openIndex: Option<int>, clicks: seq<int>, n: nat)
    requires openIndex.Some? ==> 0 <= openIndex.value < n
    requires forall k :: 0 <= k < |clicks| ==> 0 <= clicks[k] < n
    ensures var r := RunClicks(openIndex, clicks);
      && (forall i, j :: IsOpen(r, i) && IsOpen(r, j) ==> i == j)
      && (r.Some? ==> 0 <= r.value < n)
      && (r.Some? ==> r == openIndex || r.value in clicks)
    decreases |clicks|
  {
    if |clicks| > 0 {
      var next := Click(openIndex, clicks[0]);
      AtMostOneOpen(next, clicks[1..], n);
      var r := RunClicks(openIndex, clicks);
      if r.Some? && r != next {
        assert r.value in clicks[1..];
      }
    }
  }

  /** How one accordion item is rendered. */
  datatype ItemView = ItemView(ariaExpanded: bool, gridRows: string, answerOpacity: string)

  function ViewOf(openIndex: Option<int>, i: int): ItemView {
    var isOpen := IsOpen(openIndex, i);
    ItemView(isOpen, if isOpen then "1fr" else "0fr", if isOpen then "opacity-100" else "opacity-0")
  }

  /** The `Accordion` component over `n` items. */
  function Accordion(openIndex: Option<int>, n: nat): (r: seq<ItemView>)
    ensures |r| == n
  {
    seq(n, i requires 0 <= i < n => ViewOf(openIndex, i))
  }

  /** Every indicator of an item agrees with whether it is open. */
  lemma IndicatorsAgree(openIndex: Option<int>, n: nat, i: int)
    requires 0 <= i < n
    ensures Accordion(openIndex, n)[i].ariaExpanded <==> IsOpen(openIndex, i)
    ensures Accordion(openIndex, n)[i].gridRows == "1fr" <==> IsOpen(openIndex, i)
    ensures Accordion(openIndex, n)[i].answerOpacity == "opacity-100" <==> IsOpen(openIndex, i)
  {
  }

  /** The section renders the accordion twice (desktop and mobile) from the
      one shared state. */
  datatype Section = Section(desktop: seq<ItemView>, mobile: seq<ItemView>)

  function FaqSectionView(openIndex: Option<int>, n: nat): Section {
    Section(Accordion(openIndex, n), Accordion(openIndex, n))
  }

  /** Both layouts show the same open item, and at most one is expanded. */
  lemma LayoutsAgree(openIndex: Option<int>, n: nat)
    ensures FaqSectionView(openIndex, n).desktop == FaqSectionView(openIndex, n).mobile
    ensures forall i, j ::
      (0 <= i < n && 0 <= j < n
       && FaqSectionView(openIndex, n).desktop[i].ariaExpanded
       && FaqSectionView(openIndex, n).desktop[j].ariaExpanded) ==> i == j
  {
  }
}
