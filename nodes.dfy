/** The stored record: one node of the legislation forest. Its definition lives in
    `src/utils/pydanticModels`, which is not part of this model; the field set
    below is the one the node constructors in `src/utils/data/factories.py` fill
    in, and `optional` fields of the record are `Option`s. */
module Nodes {
  import opened Wrappers

  /** The coarse paragraph tags the paragraph classifier assigns. */
  datatype Classification = Definition | Subsection | Numbered | Lettered | Custom

  /** One paragraph of a node's text body. */
  datatype Paragraph = Paragraph(text: string, paragraphId: string, classification: Option<Classification>)

  /** The ordered paragraphs of a content node. */
  datatype NodeText = NodeText(paragraphs: seq<Paragraph>)

  /** `NodeText.add_paragraph`: appends one paragraph at the end. */
  function AddParagraph(t: NodeText, p: Paragraph): (r: NodeText)
    ensures |r.paragraphs| == |t.paragraphs| + 1 && r.paragraphs[|t.paragraphs|] == p
    ensures r.paragraphs[..|t.paragraphs|] == t.paragraphs
  {
    NodeText(t.paragraphs + [p])
  }

  /** `AddendumType`: the historical kind is the default of the text helpers; the
      other members of the enumeration are not named in the core. */
  datatype AddendumType = Historical | OtherKind(tag: string)

  /** Legislative history or source notes kept apart from the paragraphs. */
  datatype Addendum = Addendum(addendumType: AddendumType, addendumText: string, sourceText: string)

  /** A node of the forest. `id` is the raw identifier string (`NodeID.raw_id`). */
  datatype Node = Node(
    id: string,
    citation: Option<string>,
    link: Option<string>,
    status: Option<string>,
    nodeType: string,
    topLevelTitle: Option<string>,
    levelClassifier: string,
    number: Option<string>,
    nodeName: string,
    parent: Option<string>,
    nodeText: Option<NodeText>,
    addendum: Option<Addendum>,
    coreMetadata: Option<map<string, string>>)

  const StructureType := "structure"
  const ContentType := "content"

  /** `NodeID(raw_id=parent).add_level(level, number)`: the identifier of a child.
      Its definition is not part of this model, so the functions that derive an
      identifier take it as a parameter. */
  type AddLevel = (string, string, string) -> string
}
