/**
 * An abstract view of the parsed HTML pages the scrapers read.
 *
 * Only what the extractors look at is kept: a page is the list of its tables
 * in document order, a table is its id and the rows of its body, and a row is
 * its set of CSS classes plus the text of its addressable cells.
 */
module Html {
  import opened Wrappers
  import opened Numbers

  /** Addresses a cell the way `tag[data-stat="stat"]` does. */
  datatype CellKey = CellKey(tag: string, stat: string)

  /**
   * One `tbody tr` row.
   * `cells` maps an address to the text of the first cell with that address;
   * `anchors` maps an address to the text of the first `a` inside such a cell.
   */
  datatype Row = Row(classes: set<string>, cells: map<CellKey, string>, anchors: map<CellKey, string>)

  /** A `table` element: its `id` attribute and its body rows in document order. */
  datatype Table = Table(id: string, body: seq<Row>)

  /** A parsed page: its tables in document order. */
  type Page = seq<Table>

  /** The first table of the page whose id is `id`, or None when there is none. */
  function FindTable(page: Page, id: string): (r: Option<Table>)
    ensures r.None? <==> forall i :: 0 <= i < |page| ==> page[i].id != id
    ensures r.Some? ==>
      exists i :: 0 <= i < |page| && page[i] == r.value && r.value.id == id
        && forall j :: 0 <= j < i ==> page[j].id != id
  {
    if page == [] then None
    else if page[0].id == id then Some(page[0])
    else
      FindTable(page[1..], id)
  }

  /** `el.text if el else ''` for the cell at `key`. */
  function TextCell(row: Row, key: CellKey): (text: string)
    ensures key !in row.cells ==> text == ""
  {
    if key in row.cells then row.cells[key] else ""
  }

  /** `int(el.text) if el else None` for the cell at `key`. */
  function IntCell(row: Row, key: CellKey): (r: Result<Option<int>, IntError>)
    ensures key !in row.cells ==> r == Ok(None)
    ensures key in row.cells ==> (r.Ok? <==> IsIntLiteral(row.cells[key]))
    ensures key in row.cells && r.Ok? ==> r.value == ParseInt(row.cells[key])
    ensures r.Err? ==> key in row.cells && r.error == InvalidLiteral(row.cells[key])
  {
    if key !in row.cells then Ok(None)
    else match ParseIntOrRaise(row.cells[key])
      case Ok(n) => Ok(Some(n))
      case Err(e) => Err(e)
  }

  /** `cells` with the spelling of `v` added at `key` when `v` is present: how a page shows an optional integer. */
  function WithIntCell(cells: map<CellKey, string>, key: CellKey, v: Option<int>): map<CellKey, string> {
    if v.Some? then cells[key := IntToString(v.value)] else cells
  }

  /** The cell at `key`, when present, is an integer literal. */
  predicate IntCellOk(row: Row, key: CellKey) {
    key in row.cells ==> IsIntLiteral(row.cells[key])
  }

  /** `v` is what the cell at `key` reads as: None when absent, the parsed integer when present. */
  predicate ReadsAs(row: Row, key: CellKey, v: Option<int>) {
    if key in row.cells then ParseInt(row.cells[key]) == v else v == None
  }
}
