/** The values the dashboard's callbacks hand to the page, as plain data:
    table cells, labelled rows, the auction slots, and the two ways a
    callback can fail in the code that is modelled here. */
module Widgets {

  /** The content of one table cell. `SimTime(raw)` stands for
      `format_simulation_time(raw)`, which is not modelled; `Agents` is the
      set of awarded participants, whose printed order Python leaves open. */
  datatype Cell =
    | Text(text: string)
    | Int(n: int)
    | Number(x: real)
    | SimTime(raw: string)
    | Agents(names: set<string>)

  /** A two-cell table row: a title and its value. */
  datatype Row = Row(title: string, value: Cell)

  /** What one auction region shows: a literal placeholder or a card table. */
  datatype Slot = Placeholder(text: string) | Card(rows: seq<Row>)

  /** The exceptions the modelled code can raise on well-formed payloads. */
  datatype Error =
    | IndexOutOfRange(index: int)         // list assignment index out of range
    | UnhashableList(agents: seq<string>) // a list put into a set

  datatype Result<T> = Ok(value: T) | Err(error: Error)
}
