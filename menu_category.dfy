/** The category choice the menu filters share: the filter value "gjitha"
    ("all") shows every item, any other value shows the items of exactly
    that category. */
module MenuCategory {

  const ShowAll := "gjitha"

  /** `filter === 'gjitha' || category === filter`. */
  predicate CategoryMatches(filter: string, category: string)
  {
    filter == ShowAll || category == filter
  }
}
