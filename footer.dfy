/**
 * The footer: a stateless function of its props (`remainingCount`,
 * `currentFilter`, `setFilter`). Rendering is reduced to the values the
 * markup shows and the handler each control carries.
 */
module Footer {
  import opened Todos

  /** What a footer control asks of the root component when clicked. */
  datatype Intent = SetFilter(filter: Filter)

  /** One filter link: the filter it stands for, whether it carries the
      `selected` class, and its click handler. */
  datatype FilterLink = FilterLink(filter: Filter, selected: bool, onClick: Intent)

  /** What the footer shows: the counter, the three links, and the
      clear-completed button's click handler (it has none). */
  datatype FooterView = FooterView(
    remainingCount: nat,
    counterWord: string,
    links: seq<FilterLink>,
    clearCompletedOnClick: Option<Intent>)

  /** The noun after the count: singular for exactly one item, plural
      otherwise, zero included. */
  function CounterWord(remainingCount: nat): (w: string)
    ensures w == "item" <==> remainingCount == 1
    ensures w == "items" <==> remainingCount != 1
  {
    if remainingCount == 1 then "item" else "items"
  }

  /** `handleFilter`: the clicked filter goes to `setFilter` as it is. */
  function HandleFilter(filter: Filter): (i: Intent)
    ensures i.filter == filter
  {
    SetFilter(filter)
  }

  /** The link for `filter`, selected when it is the current filter. */
  function Link(filter: Filter, currentFilter: Filter): (l: FilterLink)
    ensures l.filter == filter
    ensures l.selected <==> currentFilter == filter
    ensures l.onClick == SetFilter(filter)
  {
    FilterLink(filter, currentFilter == filter, HandleFilter(filter))
  }

  /** The footer for the given props. */
  function Render(remainingCount: nat, currentFilter: Filter): (v: FooterView)
    ensures v.remainingCount == remainingCount
    ensures v.counterWord == CounterWord(remainingCount)
    ensures |v.links| == 3
    ensures v.links[0].filter == All && v.links[1].filter == Active && v.links[2].filter == Completed
    ensures forall i :: 0 <= i < |v.links| ==> (v.links[i].selected <==> v.links[i].filter == currentFilter)
    ensures forall i :: 0 <= i < |v.links| ==> v.links[i].onClick == SetFilter(v.links[i].filter)
    ensures v.clearCompletedOnClick == None
  {
    FooterView(
      remainingCount,
      CounterWord(remainingCount),
      [Link(All, currentFilter), Link(Active, currentFilter), Link(Completed, currentFilter)],
      None)
  }

  /** Exactly one of the three links is selected: the current filter's. */
  lemma {:induction false} ExactlyOneSelected(remainingCount: nat, currentFilter: Filter)
    ensures var links := Render(remainingCount, currentFilter).links;
      exists i :: 0 <= i < |links| && links[i].selected && links[i].filter == currentFilter
            && forall j :: 0 <= j < |links| && j != i ==> !links[j].selected
  {
    var links := Render(remainingCount, currentFilter).links;
    var i := if currentFilter == All then 0 else if currentFilter == Active then 1 else 2;
    assert links[i].filter == currentFilter;
    forall j | 0 <= j < |links| && j != i ensures !links[j].selected {
      assert links[j].filter != links[i].filter;
    }
  }
}
