/** The record type of the editable cost table (`DataSourceType`). */
module DataSource {
  import opened Wrappers

  /** The value of a record's optional `currency` field; `None` is an
      undefined currency, which both `indexOf` and `===` treat as an
      ordinary value. */
  type Currency = Option<string>

  /** The optional `children` field. A missing field and a field set to
      `undefined` behave alike (the code only tests the field's truth), so
      both are `Absent`; an empty array is `Present([])`, which is truthy. */
  datatype Children<Id> = Absent | Present(nodes: seq<Rec<Id>>)

  /** One row of the table. `Id` stands for `React.Key`; the code only ever
      compares ids for (in)equality. `miniCost` and `flat` are JavaScript
      numbers that are carried along and never computed on. */
  datatype Rec<Id> = Rec(
    id: Id,
    miniCost: Option<real>,
    flat: Option<real>,
    currency: Currency,
    children: Children<Id>,
    rowSpan: Option<int>,
    index: Option<int>)
}
