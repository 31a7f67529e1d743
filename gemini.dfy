/** What `GeminiService.chat` sends and what it hands back (geminiService.ts):
    the model it picks, the request parts it builds and the shape of its
    result. The network call itself is the caller's outcome parameter. */
module Gemini {
  import opened Optional
  import opened Types
  import JsString

  /** One part of the request contents: the turn's text or an inline file. */
  datatype Part = TextPart(text: string) | InlineData(data: Option<string>, mimeType: string)

  datatype Tool = GoogleSearch

  /** The generation settings every request carries. */
  datatype Config = Config(tools: seq<Tool>, thinkingBudget: nat, temperature: real)

  const RequestConfig := Config([GoogleSearch], 16384, 0.15)

  datatype Request = Request(model: ModelType, parts: seq<Part>, config: Config)

  /** A PDF or an image, judged by its mime type. */
  predicate IsDocument(a: Attachment) {
    JsString.Includes(a.mimeType, "pdf") || JsString.Includes(a.mimeType, "image")
  }

  /** `attachments.some(isDocument)`. */
  function HasDocuments(attachments: seq<Attachment>): (b: bool)
    ensures b <==> exists k :: 0 <= k < |attachments| && IsDocument(attachments[k])
  {
    if attachments == [] then false
    else IsDocument(attachments[0]) || HasDocuments(attachments[1..])
  }

  /** The vision variant exactly when some attachment is a document. */
  function SelectModel(attachments: seq<Attachment>): (m: ModelType)
    ensures m == Vision <==> exists k :: 0 <= k < |attachments| && IsDocument(attachments[k])
    ensures m == Reasoning <==> forall k :: 0 <= k < |attachments| ==> !IsDocument(attachments[k])
  {
    if HasDocuments(attachments) then Vision else Reasoning
  }

  /** The inline part for one attachment: the data URL's field after its
      first comma (`data.split(',')[1]`), which is `undefined` when there is
      no comma, under the attachment's own mime type. */
  function InlinePart(a: Attachment): Part {
    InlineData(JsString.Field(a.data, ',', 1), a.mimeType)
  }

  /** The request for a turn: the text first, then one inline part per
      attachment in attachment order. */
  function RequestFor(message: string, attachments: seq<Attachment>): Request {
    Request(SelectModel(attachments),
            [TextPart(message)] + seq(|attachments|, k requires 0 <= k < |attachments| => InlinePart(attachments[k])),
            RequestConfig)
  }

  /** `chat(message, history, attachments)` up to the network call. The
      history is accepted and not used: the request depends on the text and
      the attachments alone. */
  method Chat(message: string, history: seq<Message>, attachments: seq<Attachment>) returns (request: Request)
    ensures request == RequestFor(message, attachments)
  {
    var model := SelectModel(attachments);
    var parts := [TextPart(message)];
    for i := 0 to |attachments|
      invariant |parts| == i + 1 && parts[0] == TextPart(message)
      invariant forall k :: 0 <= k < i ==> parts[k + 1] == InlinePart(attachments[k])
    {
      parts := parts + [InlinePart(attachments[i])];
    }
    request := Request(model, parts, RequestConfig);
    assert parts == RequestFor(message, attachments).parts;
  }

  /** The request goes to the vision model exactly when some attachment is a
      document, and carries the text and then one inline part per attachment,
      its data the payload after the data URL's first comma. */
  lemma RequestForSpec(message: string, attachments: seq<Attachment>)
    ensures var request := RequestFor(message, attachments);
            (request.model == Vision <==> exists k :: 0 <= k < |attachments| && IsDocument(attachments[k]))
            && |request.parts| == |attachments| + 1 && request.parts[0] == TextPart(message)
            && (forall k :: 0 <= k < |attachments| ==>
                  request.parts[k + 1] == InlineData(JsString.Field(attachments[k].data, ',', 1), attachments[k].mimeType))
            && request.config == Config([GoogleSearch], 16384, 0.15)
  {
  }

  /** For a data URL `header,payload` without further commas, the inline part
      carries exactly the payload. */
  lemma InlinePayload(a: Attachment, header: string, payload: string)
    requires a.data == header + "," + payload
    requires ',' !in header && ',' !in payload
    ensures InlinePart(a) == InlineData(Some(payload), a.mimeType)
  {
    JsString.FieldAfterSeparator(header, payload, ',');
  }

  /** Data without a comma leaves the inline part without data. */
  lemma InlineWithoutComma(a: Attachment)
    requires ',' !in a.data
    ensures InlinePart(a).data == None
  {
    JsString.FieldWithoutSeparator(a.data, ',');
  }

  /** A candidate of the generated response, as far as it is read. */
  datatype Candidate = Candidate(groundingMetadata: Option<GroundingMetadata>)

  /** The generated response: its text and its candidates, if any. */
  datatype Response = Response(text: string, candidates: Option<seq<Candidate>>)

  /** What `chat` resolves to. */
  datatype Reply = Reply(text: string, metadata: Option<GroundingMetadata>)

  /** The reply carries the response text and the first candidate's grounding
      metadata, or null when there is none. */
  function ShapeReply(r: Response): (reply: Reply)
    ensures reply.text == r.text
    ensures reply.metadata.Some? <==>
              r.candidates.Some? && |r.candidates.value| > 0 && r.candidates.value[0].groundingMetadata.Some?
    ensures reply.metadata.Some? ==> reply.metadata == r.candidates.value[0].groundingMetadata
  {
    var first := match r.candidates
      case Some(cs) => if |cs| > 0 then cs[0].groundingMetadata else None
      case None => None;
    Reply(r.text, first)
  }
}
