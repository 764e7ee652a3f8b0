/** The note records shared by the synthesizer and the store. */
module Types {

  datatype Option<+T> = None | Some(value: T)

  /** The kinds of block a note can hold. */
  datatype BlockType = Paragraph | Heading | List | Todo | Code | Quote | Image | Embed

  /** One block of a note. `metadata` is the optional free-form record; its values are kept as text. */
  datatype Block = Block(
    id: string,
    kind: BlockType,
    content: string,
    metadata: Option<map<string, string>>,
    order: int)

  /** Where a note came from. */
  datatype Source = Voice | Manual | Ai

  /** A note. `title` is `None` where the record holds `null`, `draft` is `None` where the field is absent. */
  datatype Note = Note(
    id: string,
    title: Option<string>,
    blocks: seq<Block>,
    tags: seq<string>,
    createdAt: string,
    updatedAt: string,
    source: Source,
    draft: Option<bool>)
}
