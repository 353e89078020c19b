/** The two records the calendar stores: events and categories. */
module Entities {
  import opened Wrappers

  /**
   * An event as stored: dates are "YYYY-MM-DD" text, the colour is a CSS
   * colour string and `categoryId` is null (None) when uncategorised.
   */
  datatype Event = Event(
    id: string,
    title: string,
    startDate: string,
    endDate: string,
    color: string,
    categoryId: Option<string>,
    description: string)

  datatype Category = Category(id: string, name: string, color: string)

  /** JavaScript truthiness of a string that may be null: neither null nor "". */
  predicate Truthy(s: Option<string>) {
    s.Some? && s.value != ""
  }
}
