/** The decoded shortcuts store, as the binary key-value codec hands it to the
    script: a top-level dictionary whose "shortcuts" key maps slot ids to
    shortcut records. */
module Vdf {
  import opened Wrappers

  /** A leaf value of the binary format: text or an integer. */
  datatype Field = Str(s: string) | Num(n: int)

  /** One shortcut record: field name to value. */
  type Record = map<string, Field>

  /** One entry of the "shortcuts" dictionary; ids are kept as the codec gives them. */
  datatype Slot = Slot(id: string, record: Record)

  /** A decoded store file. Slots are kept in dictionary (insertion) order;
      `shortcuts` is None when the file has no top-level "shortcuts" key. */
  datatype Document = Document(shortcuts: Option<seq<Slot>>)

  /** `{"shortcuts": {}}`, what loading yields when there is nothing to read. */
  const EmptyStore: Document := Document(Some([]))

  /** The slots of a document, none when the "shortcuts" key is absent. */
  function Slots(d: Document): seq<Slot> {
    d.shortcuts.GetOr([])
  }
}
