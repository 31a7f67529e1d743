/** The records of the workspace (types.ts). The `metadata` a message may
    carry is the grounding metadata of a reply, typed here instead of `any`. */
module Types {
  import opened Optional

  /** A file attached to a message as it is composed. */
  datatype Attachment = Attachment(
    id: Option<string>,
    name: string,
    mimeType: string,   // the `type` field
    data: string,       // a data URL: header, comma, base64 payload
    size: Option<int>)

  /** The durable copy of an uploaded file. Declared, never read or written by the core. */
  datatype StoredBlob = StoredBlob(
    id: Option<string>,
    projectId: nat,
    sessionId: nat,
    name: string,
    mimeType: string,
    data: string,
    timestamp: int)

  /** A message's role: exactly one of the two. */
  datatype Role = User | Assistant

  /** One conversational turn. `sessionId` is declared mandatory, but the
      controller never sets it, so it is optional here and always absent in
      the messages the controller writes. */
  datatype Message = Message(
    id: Option<nat>,
    projectId: nat,
    sessionId: Option<nat>,
    role: Role,
    content: string,
    timestamp: int,
    attachments: Option<seq<Attachment>>,
    metadata: Option<GroundingMetadata>)

  /** A sub-conversation of a project. Declared, never read or written by the core. */
  datatype Session = Session(
    id: Option<nat>,
    projectId: nat,
    name: string,
    createdAt: int,
    lastActiveAt: int,
    isCommitted: bool)

  /** A top-level unit of work. */
  datatype Project = Project(
    id: Option<nat>,
    name: string,
    createdAt: int,
    lastMessageAt: int)

  /** The `{uri, title}` of a source a reply was grounded on. */
  datatype Source = Source(uri: string, title: string)

  /** A grounding reference: `web`, `maps`, both or neither may be present. */
  datatype GroundingChunk = GroundingChunk(web: Option<Source>, maps: Option<Source>)

  /** The part of a candidate's grounding metadata the workspace reads. */
  datatype GroundingMetadata = GroundingMetadata(groundingChunks: Option<seq<GroundingChunk>>)

  /** The two model variants and the model names they stand for. */
  datatype ModelType = Reasoning | Vision {
    function Name(): string {
      match this
      case Reasoning => "gemini-3-pro-preview"
      case Vision => "gemini-3-flash-preview"
    }
  }
}
