/** The menu page's category buttons. A click makes the clicked button the
    only active one and shows or hides every menu card by its category. */
module FilterButtons {
  import opened MenuCategory

  /** A `.filter-btn` element: its `data-filter` value and whether it
      carries the `active` class. */
  class FilterButton {
    const filter: string
    var active: bool

    constructor (filter: string, active: bool)
      ensures this.filter == filter && this.active == active
    {
      this.filter := filter;
      this.active := active;
    }
  }

  /** A `.menu-card` element: its `data-category` value and whether it
      carries the `hidden` class. */
  class MenuCard {
    const category: string
    var hidden: bool

    constructor (category: string, hidden: bool)
      ensures this.category == category && this.hidden == hidden
    {
      this.category := category;
      this.hidden := hidden;
    }
  }

  /** The click handler: every button loses `active`, the clicked one gains
      it, then each card is hidden exactly when its category does not match
      the clicked button's filter. Only those two flags change. */
  method Click(buttons: seq<FilterButton>, clicked: FilterButton, cards: seq<MenuCard>)
    requires clicked in buttons
    modifies buttons, cards
    ensures forall b :: b in buttons ==> b.active == (b == clicked)
    ensures forall c :: c in cards ==> c.hidden == !CategoryMatches(clicked.filter, c.category)
  {
    for i := 0 to |buttons|
      invariant forall j :: 0 <= j < i ==> !buttons[j].active
    {
      buttons[i].active := false;
    }
    clicked.active := true;
    var filter := clicked.filter;
    for i := 0 to |cards|
      invariant forall j :: 0 <= j < i ==> cards[j].hidden == !CategoryMatches(filter, cards[j].category)
      invariant forall b :: b in buttons ==> b.active == (b == clicked)
    {
      cards[i].hidden := !CategoryMatches(filter, cards[i].category);
    }
  }
}
