/** Questions as the search sees them. */
module Catalogue {
  import opened Wrappers

  datatype Status = Pending | Approved | Rejected

  /** One row of `questions q LEFT JOIN categories c`; the name is NULL when the
      category has no translation in the question's language. */
  datatype Row = Row(id: int, text: string, language: string, categoryId: int, specialCategory: string,
                     minAge: int, status: Status, categoryName: Option<string>)
}
