# A verified model of the budget workspace

The workspace is a single-page chat application for construction budgets.
The user keeps *projects* in a local browser database. Each project holds a
conversation of *messages*. A message may carry file *attachments*, and the
assistant's replies come from a generative-language service, grounded on web
search results. This project models the core of that workspace in Dafny and
proves what it does:

- **The records** (`types.dfy`, module `Types`): attachments, messages,
  projects, the declared but unused sessions and blobs, grounding chunks and
  the two model variants. The declarations alone establish the following.
  - A message's role is exactly `User` or `Assistant`.
  - Its `attachments` and `metadata` are optional; its `projectId` is not.
  - A grounding chunk has `web`, `maps`, both or neither.
  - `ModelType` has two variants.
- **The database** (`db.ts`). The schema and its tables are values in module
  `Store`; class `Database.BudgetDb` changes them in place.
  - The schema has two tables, `messages` and `projects`, with no session or
    blob table.
  - Both are keyed by an auto-increment `id`, starting at 1.
  - Each table is the sequence of its records in key order.
  - The operations are: add, the project update, delete, the cascading
    message delete, the project listing by recency, and the message query by
    project sorted by timestamp.
- **The controller** (`App.tsx`). Module `AppSpec` holds one transition
  function per handler, over the store and the view state (projects, active
  id, messages, input, pending attachments, loading flag). Class
  `App.Workspace` holds that state in fields, with one method per handler,
  each proved to leave exactly the state its transition function gives.
  - The handlers are: loading projects and messages, creating and deleting
    projects, selecting a project, typing, uploading and removing
    attachments, and the chat turn `sendMessage`.
  - The turn's sequenced `try`/`catch`/`finally` is modelled step by step.
    The model's answer, or its failure, is a parameter, and so is the store
    write that may fail.
- **The service** (`geminiService.ts`, module `Gemini`): the model choice,
  the request parts (built by a loop, as in the source), the fixed generation
  settings, and the shape of the returned reply.
- **The previews** (`components/FilePreview.tsx`, module `FilePreview`): the
  four kind predicates, the icon and background priority chains, the
  thumbnail choice and the subtype label.
- **The sources** (`components/GroundingSection.tsx`, module `Grounding`):
  which grounding chunks become links, and each link's target, icon kind
  and text.

Helper modules: `Optional` (absent fields and `null`), `JsString` (the
JavaScript string operations used: `trim`, `startsWith`, `endsWith`,
`includes`, `split`, `substring`, `toLowerCase`) and `Seqs` (filtering,
sorting by a lexicographic key, reversal).

Three React behaviours are modelled as the code has them:

- **Stale closures.** `loadProjects` tests the active id captured when the
  handler was created, not the current one. `AppSpec.LoadProjects` takes that
  captured id as `seen`.
  - `deleteProject` and the end of `sendMessage` reload with the id that was
    active before they ran.
  - So after an implicit project creation, the closing reload still sees no
    active project and selects the most recent one.
- **Keys written back.** Dexie's `add` writes the generated key into the
  object it stores. The user message already shown is that same object, so
  the view shows it with its key once the write succeeds.
- **Falsy id 0.** JavaScript treats an id of `0` as false. `AppSpec.Truthy`
  models this.

## Model

| member | source | states |
|---|---|---|
| JsString.Trim | App.tsx:112 | the trimmed input is the part of the input between a leading and a trailing run of white space, and it neither starts nor ends with white space |
| JsString.TrimEmptyIff | App.tsx:112-113 | the trimmed input is empty exactly when every character of the input is white space, so a blank input counts as no text |
| JsString.Prefix | App.tsx:119 | `substring(0, n)` is a prefix of the text of length min(n, length) |
| JsString.StartsWith | components/FilePreview.tsx:13 | `startsWith(p)`: the text begins with `p` |
| JsString.EndsWith | components/FilePreview.tsx:15-16 | `endsWith(p)`: the text ends with `p` |
| JsString.Includes | geminiService.ts:17 | `includes(t)`: `t` occurs at some position of the text, as in the type tests of geminiService.ts:17 and FilePreview.tsx:15 |
| JsString.Field | geminiService.ts:28 | `split(sep)[k]`: piece `k` of the split, and undefined past the last piece, as in geminiService.ts:28 and FilePreview.tsx:56 |
| JsString.ToLower | components/FilePreview.tsx:16 | lower-casing keeps the length and maps every character through the ASCII lower-case mapping |
| JsString.Split | geminiService.ts:28 | `split` yields at least one piece, and no piece contains the separator |
| JsString.JoinOfSplit | geminiService.ts:28 | joining the pieces of a split with the separator gives back the string |
| JsString.SplitOfJoin | geminiService.ts:28 | splitting a join of separator-free pieces gives back the pieces |
| JsString.SplitOfPiece | geminiService.ts:28 | a separator-free prefix only extends the first piece of a split |
| JsString.FieldAfterSeparator | geminiService.ts:28 | for `a,b` with one separator, field 1 is `b` and field 2 is undefined |
| JsString.FieldWithoutSeparator | components/FilePreview.tsx:56 | without a separator, field 0 is the whole string and field 1 is undefined |
| JsString.TrimStart | App.tsx:112 | the leading part dropped is all white space, and what remains is a suffix that does not start with white space |
| JsString.TrimEnd | App.tsx:112 | the trailing part dropped is all white space, and what remains is a prefix that does not end with white space |
| Seqs.Filter | App.tsx:86-87 | the element filter behind `delete(key)`, the cascading delete and the `where('projectId').equals(pid)` query (App.tsx:67-69): the kept elements pass the test and come from the input, and there are no more of them than input elements |
| Seqs.FilterCount | App.tsx:87 | a kept value occurs as often as in the input; a dropped value does not occur at all |
| Seqs.FilterMembership | App.tsx:87 | a value is in the result exactly when it is in the input and passes the test |
| Seqs.FilterIncreasing | db.ts:10-11 | filtering a key-ordered table keeps it key-ordered |
| Seqs.Insert | App.tsx:59 | inserting into a sorted run adds exactly that element |
| Seqs.SortBy | App.tsx:59 | sorting is a permutation of the input |
| Seqs.InsertAscending | App.tsx:59 | insertion into an ascending run with distinct keys keeps it ascending, one longer, headed by the new element or the old head |
| Seqs.HeadThenAscending | App.tsx:59 | an element below all others followed by an ascending run drawn from them is ascending |
| Seqs.SortAscending | App.tsx:59 | sorting rows with distinct keys yields strictly ascending keys |
| Seqs.Reverse | App.tsx:59 | reversal puts element `k` at position `length-1-k` |
| Seqs.ReverseMultiset | App.tsx:59 | reversal is a permutation |
| Seqs.ReverseDescending | App.tsx:59 | reversing an ascending run gives a descending one |
| Types.ModelType.Name | types.ts:58-61 | the two model variants stand for `gemini-3-pro-preview` (reasoning) and `gemini-3-flash-preview` (vision) |
| Store.SchemaShape | db.ts:7-12 | the database is `BudgetDB` at version 1; its schema has exactly the tables `messages` and `projects`, both keyed by an auto-increment `id`; it indexes `projectId` and `timestamp` for messages and `lastMessageAt` for projects |
| Store.Empty | db.ts:7-12 | a freshly opened database is well keyed and has no records |
| Store.AddMessage | db.ts:10 | `messages.add`: the message is stored under the next generated key, which is written into it and returned; Store.AddMessageFresh proves the key fresh and the store well keyed |
| Store.AddProject | db.ts:11 | `projects.add`: the project is stored under the next generated key, which is written into it and returned; Store.AddProjectFresh proves the key fresh and the store well keyed |
| Store.UpdateLastMessageAt | App.tsx:140 | `projects.update(key, {lastMessageAt: time})`: that field of the keyed project changes, with the count of records changed; Store.UpdateKeepsRest proves nothing else changes |
| Store.DeleteProject | App.tsx:86 | `projects.delete(key)`: the projects without that key remain; Store.DeleteProjectSpec proves exactly that record goes |
| Store.DeleteMessagesOf | App.tsx:87 | `messages.where('projectId').equals(pid).delete()`: the messages of other projects remain, with the number deleted; Store.DeleteMessagesOfSpec proves the cascade |
| Store.ProjectsByRecency | App.tsx:59 | `orderBy('lastMessageAt').reverse()`: the projects sorted by (`lastMessageAt`, key), reversed; Store.ProjectsByRecencySpec proves it a permutation, newest first |
| Store.MessagesOf | App.tsx:67-70 | `where('projectId').equals(pid).sortBy('timestamp')`: the project's messages sorted by (`timestamp`, key); Store.MessagesOfSpec proves it exactly those messages, ascending |
| Store.AddMessageFresh | db.ts:10 | `messages.add` stores the message, with its key written in, under a key at least 1 that no stored message has; it keeps the store well keyed and leaves projects alone |
| Store.AddProjectFresh | db.ts:11 | `projects.add` stores the project under a key at least 1 that no stored project has; it keeps the store well keyed and leaves messages alone |
| Store.UpdateKeepsRest | App.tsx:140 | `projects.update(key, {lastMessageAt})` changes that one field of the keyed project only, and reports 1 exactly when the key exists |
| Store.DeleteProjectSpec | App.tsx:86 | `projects.delete(key)` removes exactly the record with that key |
| Store.DeleteMessagesOfSpec | App.tsx:87 | the cascading delete removes every message of the project and keeps every other message as often as stored; it reports how many it removed |
| Store.DistinctOrderKeys | db.ts:10-11 | ordering by (field, key) gives distinct sort keys, because generated keys are distinct |
| Store.ProjectsByRecencySpec | App.tsx:59 | the listing holds every stored project once, in descending (`lastMessageAt`, key) order, so its head has the largest `lastMessageAt` |
| Store.NewestHeadsListing | App.tsx:59 | a project above every other in that order heads the listing |
| Store.MessagesOfSpec | App.tsx:67-70 | the query returns exactly the stored messages of the project, each as often as stored, in ascending (`timestamp`, key) order |
| Database.BudgetDb.constructor | db.ts:7-12 | the opened database is empty and well keyed |
| Database.BudgetDb.AddMessage | db.ts:10 | the in-place add leaves the tables and returns the key that `Store.AddMessage` gives |
| Database.BudgetDb.AddProject | db.ts:11 | the in-place add leaves the tables and returns the key that `Store.AddProject` gives |
| Database.BudgetDb.UpdateLastMessageAt | App.tsx:140 | the in-place update leaves the tables that `Store.UpdateLastMessageAt` gives |
| Database.BudgetDb.DeleteProject | App.tsx:86 | the in-place delete leaves the tables that `Store.DeleteProject` gives |
| Database.BudgetDb.DeleteMessagesOf | App.tsx:87 | the in-place cascade leaves the tables that `Store.DeleteMessagesOf` gives |
| Database.BudgetDb.ProjectsByRecency | App.tsx:59 | the rows read are a permutation of the projects, in listing order |
| Database.BudgetDb.MessagesOf | App.tsx:67-70 | the rows read are exactly the project's messages, in query order |
| Gemini.HasDocuments | geminiService.ts:17 | true exactly when some attachment's type contains `pdf` or `image` |
| Gemini.IsDocument | geminiService.ts:17 | an attachment is a document when its type contains `pdf` or `image` |
| Gemini.InlinePart | geminiService.ts:26-31 | an attachment becomes an inline part holding `data.split(',')[1]` under the attachment's own type; Gemini.InlinePayload and Gemini.InlineWithoutComma give its data |
| Gemini.RequestFor | geminiService.ts:17-45 | the request of a turn: the selected model, the text part and then one inline part per attachment, and the fixed settings; Gemini.RequestForSpec states each part |
| Gemini.SelectModel | geminiService.ts:17-18 | the vision model exactly when some attachment is a document, otherwise the reasoning model |
| Gemini.Chat | geminiService.ts:12-45 | the loop builds the request that `RequestFor` describes; the history argument does not enter it |
| Gemini.RequestForSpec | geminiService.ts:17-45 | the request goes to the vision model exactly when some attachment is a document; its parts are the text and then one inline part per attachment, in order, each with the field after the first comma of the data and the attachment's own type; it always carries search grounding, a thinking budget of 16384 and temperature 0.15 |
| Gemini.InlinePayload | geminiService.ts:28-29 | for data `header,payload` with no other comma, the inline part carries exactly the payload |
| Gemini.InlineWithoutComma | geminiService.ts:28 | data without a comma gives an inline part with undefined data |
| Gemini.ShapeReply | geminiService.ts:49-52 | the reply carries the response text, and the metadata is the first candidate's grounding metadata, or null when there is none |
| FilePreview.SubtypeLabel | components/FilePreview.tsx:56 | the label is never empty |
| FilePreview.IsImage | components/FilePreview.tsx:13 | the type starts with `image/` |
| FilePreview.IsPdf | components/FilePreview.tsx:14 | the type is exactly `application/pdf` |
| FilePreview.IsExcel | components/FilePreview.tsx:15 | the type contains `spreadsheet` or `excel`, or the name ends with `.xls`, `.xlsx` or `.csv`, case-sensitively (FilePreview.ExtensionCase) |
| FilePreview.IsDwg | components/FilePreview.tsx:16 | the lower-cased name ends with `.dwg` or `.dxf` |
| FilePreview.GetIcon | components/FilePreview.tsx:18-24 | the icon by priority: a compact image, then pdf, then spreadsheet, then drawing, then the generic file; FilePreview.IconMatchesBackground relates it to the background |
| FilePreview.Background | components/FilePreview.tsx:26-31 | the background by priority: pdf, then spreadsheet, then drawing, then the default |
| FilePreview.SubtypeOf | components/FilePreview.tsx:56 | the label of `major/minor` is `minor`, or `FILE` when `minor` is empty; a type without a slash is labelled `FILE` |
| FilePreview.Render | components/FilePreview.tsx:33-64 | a full thumbnail is drawn exactly for an image at normal size, and the remove button appears exactly when a handler is given |
| FilePreview.IconMatchesBackground | components/FilePreview.tsx:18-31 | apart from the compact image, the icon chain (pdf, spreadsheet, drawing, generic) and the background chain pick the same kind |
| FilePreview.PdfIsNotImage | components/FilePreview.tsx:13-14 | a pdf is never an image |
| FilePreview.PdfPreview | components/FilePreview.tsx:14-56 | a pdf always gets the pdf card, the pdf background and the label `pdf` |
| FilePreview.ImagePreview | components/FilePreview.tsx:19-33 | an image is always shown as a picture: the thumbnail, or the image icon when compact |
| FilePreview.ExtensionCase | components/FilePreview.tsx:15-16 | the spreadsheet extension test is case-sensitive, so `PLANTA.XLS` is not one, while the drawing test lower-cases, so `PLANTA.DWG` is one |
| FilePreview.PreviewedDocumentsPickVision | components/FilePreview.tsx:13-14 | what the preview shows as a pdf or an image also sends the request to the vision model (geminiService.ts:17-18) |
| Grounding.LinkOf | components/GroundingSection.tsx:20-39 | a chunk yields a link exactly when it has `web` or `maps`; the data comes from `web` when present, else from `maps`; the map icon is chosen exactly when `maps` is present; the text is that data's title, or its uri when the title is empty |
| Grounding.Links | components/GroundingSection.tsx:20-23 | there are no more links than chunks |
| Grounding.Section | components/GroundingSection.tsx:11 | nothing is drawn exactly when the metadata is null, has no chunk list or an empty one; otherwise the section holds the chunks' links |
| Grounding.LinksAppend | components/GroundingSection.tsx:20 | links keep chunk order: the links of a concatenation are the links of each part, in turn |
| Grounding.LinksComplete | components/GroundingSection.tsx:22-23 | every chunk yields a link exactly when every chunk has `web` or `maps` |
| Grounding.LinksFromChunks | components/GroundingSection.tsx:20-23 | each link is the link of some chunk |
| AppSpec.Truthy | App.tsx:42 | an optional id is truthy when present and not 0 |
| AppSpec.Initial | App.tsx:25-31 | the state on mount: no projects listed, no active id, no messages, empty input, no attachments, no turn in flight, over whatever the store holds |
| AppSpec.LoadProjects | App.tsx:58-64 | `loadProjects`: shows the listing and, when it is non-empty and the captured active id is not truthy, makes its head active; AppSpec.LoadProjectsSpec proves what it shows and selects |
| AppSpec.LoadMessages | App.tsx:66-72 | `loadMessages(pid)`: shows the project's messages from the query; AppSpec.LoadMessagesSpec proves them exactly the stored ones, in order |
| AppSpec.ShowActiveProject | App.tsx:41-47 | the effect on the active id: load that project's messages when the id is truthy, otherwise show none |
| AppSpec.SelectProject | App.tsx:229 | a sidebar click makes that project active and nothing else; the messages are loaded by the separate effect step AppSpec.ShowActiveProject that follows |
| AppSpec.SetInput | App.tsx:377 | typing replaces the input |
| AppSpec.ProjectName | App.tsx:76 | `nameOverride || default`: an absent or empty override gives the default name |
| AppSpec.CreateProject | App.tsx:74-83 | `createProject`: adds the project stamped `now`, reloads with the active id captured before, then makes the new key active and returns it; the new project's messages are loaded by the separate effect step AppSpec.ShowActiveProject that follows; AppSpec.CreateProjectSpec proves its effect |
| AppSpec.DeleteProject | App.tsx:85-90 | `deleteProject`: deletes the project and its messages, clears the active id when it was `id`, and reloads with the id captured before; the messages shown change only in the separate effect step AppSpec.ShowActiveProject that follows; AppSpec.DeleteProjectSpec proves its effect |
| AppSpec.AttachmentOf | App.tsx:99-104 | a successful read gives an attachment with the file's name and size, the read data, and the file's type or `application/octet-stream` when that is empty |
| AppSpec.Loaded | App.tsx:98-106 | one reader appends its attachment when the read succeeds, and nothing otherwise |
| AppSpec.HandleFileUpload | App.tsx:92-109 | `handleFileUpload`: nothing without a file list; otherwise the attachments of the successful reads are appended in order (AppSpec.UploadedAppend, AppSpec.UploadedCount) |
| AppSpec.RemoveAttachment | App.tsx:348 | the remove button drops pending attachment `i`; AppSpec.RemoveAttachmentSpec proves only that one goes |
| AppSpec.Refused | App.tsx:113 | a send is refused when the trimmed input is empty and nothing is attached, or when a turn is in flight |
| AppSpec.UserMessage | App.tsx:122-128 | the user message: the project, the user role, the text, the time, and a snapshot of the attachments only when there are some |
| AppSpec.ReplyMessage | App.tsx:144-150 | the assistant message: the project, the reply text, the time and the reply's metadata |
| AppSpec.ErrorMessage | App.tsx:156-161 | the error message: the project, the assistant role, the fixed error text and the time, without metadata |
| AppSpec.EnsureProject | App.tsx:115-120 | the turn's project: the truthy active id, or a project created and named from the input; AppSpec.EnsureProjectSpec proves its effect |
| AppSpec.Converse | App.tsx:138-162 | the `try`/`catch`: store the user message, touch the project, call the model, store and show the reply, or show the error message at the first failure; AppSpec.ConverseSpec proves its effect |
| AppSpec.Send | App.tsx:111-167 | `sendMessage`: a refused send changes nothing; otherwise the turn runs on the trimmed input; the Send lemmas below prove its effect |
| AppSpec.Accept | App.tsx:115-166 | an accepted send: the project step, the user message shown, the input and attachments cleared, the exchange, and the closing reload with the active id captured before |
| AppSpec.LoadProjectsSpec | App.tsx:58-64 | the list holds every stored project once, newest `lastMessageAt` first; the store is untouched; the head is made active when projects exist and no active id was seen; otherwise the active id is kept |
| AppSpec.LoadMessagesSpec | App.tsx:66-72 | the view shows exactly the project's stored messages, each as often as stored, in ascending `timestamp` order; the store is untouched |
| AppSpec.CreateProjectSpec | App.tsx:74-83 | exactly one project is added, under a key no stored project has; it is named by the non-empty override or else the default, with `createdAt` and `lastMessageAt` both `now`; its key becomes the active id and the list shows it; messages are untouched |
| AppSpec.DeleteProjectSpec | App.tsx:85-90 | project `id` and every message of it go; other projects stay, and other projects' messages stay as often as stored; a non-zero active `id` is cleared, and any other active id is kept; the list is the remaining projects |
| AppSpec.Uploaded | App.tsx:96-105 | at most one attachment per file, each with a non-empty type |
| AppSpec.UploadedAppend | App.tsx:96-105 | read results append in order: the uploads of a concatenation are the uploads of each part, in turn |
| AppSpec.UploadedSnoc | App.tsx:98-105 | one more completed read appends exactly what it loaded |
| AppSpec.UploadedCount | App.tsx:96-107 | there is one attachment per successful read |
| AppSpec.UploadSkipsFailedRead | App.tsx:98-105 | with an unreadable file and then a readable one, only the second file's attachment is added, typed and sized from its file |
| AppSpec.WithoutIndex | App.tsx:348 | filtering out index `i` shifts the later elements down by one and keeps the earlier ones; an index past the end changes nothing |
| AppSpec.RemoveAttachmentSpec | App.tsx:348 | removing pending attachment `i` removes exactly that one element |
| AppSpec.ImplicitName | App.tsx:119 | the implicit name is never empty; for a non-empty input it is the input's first min(30, length) characters; for an empty input it is `Novo Orçamento Direto` |
| AppSpec.ImplicitNameSpec | App.tsx:119 | an input of at most 30 characters names the project whole, a longer one by its first 30, and the name passes the `nameOverride ||` test unchanged |
| AppSpec.SendRefusedIsNoOp | App.tsx:112-113 | with blank input and no attachments, or with a turn in flight, the send changes neither store nor view and makes no request |
| AppSpec.EnsureProjectSpec | App.tsx:115-120 | with a truthy active id the turn uses it and changes nothing; otherwise it adds one project under the next key, named from the input, and the messages are untouched |
| AppSpec.ConverseSpec | App.tsx:138-162 | the user message is stored first, unless that write fails, and then the project is touched. A request goes out exactly when both succeed. A reply is stored only when the model answers and its write succeeds; every failure shows the fixed error and stores nothing more. Only the turn's project gets the new `lastMessageAt` |
| AppSpec.SendShowsOneReply | App.tsx:122-166 | an accepted send shows the user message, holding the trimmed text and a snapshot of the attachments only when there are some, then exactly one assistant message; the input and attachments end cleared and no turn is in flight |
| AppSpec.SendProject | App.tsx:115-128 | both new messages belong to the active project or, with none active, to the project created under the next key; with an active project no project is added |
| AppSpec.SendCreatesProject | App.tsx:115-120 | with no active project, exactly one project is added under a fresh key, named from the input and created when the turn began; its `lastMessageAt` is the update time, unless the turn failed before the update |
| AppSpec.SendStoresUserFirst | App.tsx:138-142 | the model is called exactly when the user write and the update succeed; the turn's first stored record is the user message as shown; the request carries the trimmed text and the pending attachments |
| AppSpec.SendSuccessStoresReply | App.tsx:144-153 | on success the store gains the user message and then the reply, the same records the view shows; the reply holds the model's text and the first candidate's metadata |
| AppSpec.SendFailureShowsError | App.tsx:154-162 | on any failure the fixed error text is shown without metadata and without a key, and no assistant message is stored |
| AppSpec.SendValid | App.tsx:111-167 | the store stays well keyed through any turn |
| AppSpec.SendSelectsNewProject | App.tsx:118-165 | after an implicit creation, the closing reload makes the new project active when no older project has a later timestamp |
| AppSpec.FirstTurnProject | App.tsx:111-167 | a successful first turn on an empty database leaves one project, with key 1, named from the input |
| AppSpec.FirstTurnMessages | App.tsx:111-167 | that turn stores two messages of project 1, the user's first |
| AppSpec.FirstTurnShowsIt | App.tsx:111-167 | after that turn project 1 is active and the view shows exactly the two stored messages |
| App.Workspace.constructor | App.tsx:25-31 | the component starts with no projects, no active id, no messages, empty input, no attachments and no turn in flight |
| App.Workspace.LoadProjects | App.tsx:58-64 | the handler leaves the state `AppSpec.LoadProjects` gives |
| App.Workspace.LoadMessages | App.tsx:66-72 | the handler leaves the state `AppSpec.LoadMessages` gives |
| App.Workspace.ShowActiveProject | App.tsx:41-47 | the effect loads the active project's messages when the id is truthy, and clears them otherwise |
| App.Workspace.SelectProject | App.tsx:229 | a sidebar click makes that project active |
| App.Workspace.SetInput | App.tsx:377 | typing replaces the input |
| App.Workspace.CreateProject | App.tsx:74-83 | the handler leaves the state and returns the key `AppSpec.CreateProject` gives |
| App.Workspace.DeleteProject | App.tsx:85-90 | the handler leaves the state `AppSpec.DeleteProject` gives |
| App.Workspace.HandleFileUpload | App.tsx:92-109 | the loop over the files leaves the state `AppSpec.HandleFileUpload` gives: nothing without a file list, otherwise each successful read's attachment appended in order |
| App.Workspace.RemoveAttachment | App.tsx:348 | the handler leaves the state `AppSpec.RemoveAttachment` gives |
| App.Workspace.EnsureProject | App.tsx:115-120 | the handler leaves the state and returns the project `AppSpec.EnsureProject` gives |
| App.Workspace.Converse | App.tsx:138-162 | the `try`/`catch` leaves the store, the shown messages and the request that `AppSpec.Converse` gives, and no other field changes |
| App.Workspace.SendMessage | App.tsx:111-167 | the handler leaves the state, and makes the request, that `AppSpec.Send` gives |
| App.Workspace.Submit | App.tsx:115-166 | past the guard, the handler leaves the state and makes the request that `AppSpec.Accept` gives |

## Left out

- The Dexie and IndexedDB engine is not modelled. Its asynchronous promises become sequential steps on in-memory tables.
- Interleavings of the asynchronous handlers are not modelled. In particular, the messages reload that the active-id effect starts while a turn is in flight, in App.tsx:41-47, is left out.
- The history passed to the service in App.tsx:142 is the message list from before the send. It is accepted and unused, as in the source.
- `FileReader` and its base64 encoding, in App.tsx:97-107, are a browser API. The result of each read is an input, a failed read adds nothing, and the reads complete in the order the files are given.
- The network call, the SDK, `process.env.API_KEY` and the system instruction (geminiService.ts:14, 34-47) are left out. The model's answer, or the fact that it threw, is a parameter of the turn.
- The locale-formatted default project name in App.tsx:76 is a parameter, `defaultName`.
- `Date.now()` is a parameter. `createProject` uses one reading for both `createdAt` and `lastMessageAt`. The turn's four readings form `AppSpec.TurnClock`.
- A failing store write is a parameter. It covers the user and reply writes and the project update inside the turn. A failing `createProject`, the delete handler, or a load is not modelled, and neither is `console.error`.
- JSX, the CSS classes, upper-casing, the scroll effect (App.tsx:49-56) and the sidebar toggle are display only. The table rendering of `components/BudgetTable.tsx` and the regex table test in App.tsx:184-185 are rendering only. So are `components/PersistenceIndicator.tsx`, `components/ThinkingIndicator.tsx` and the prompt text in `prompts.ts`. None of them is part of this model.
- Sessions, blob storage and sync states are declared as types, but no code implements an operation on them, so none is modelled.
- JsString.Prefix: counts characters, not UTF-16 code units, so text outside the Basic Multilingual Plane may be cut elsewhere than in the source.
- JsString.ToLower: lower-cases ASCII letters only, not the full Unicode mapping of `toLowerCase`.
- AppSpec.DeleteProjectSpec: the active id is cleared when it equals a non-zero `id`. When no project was active, the reload that follows selects the newest remaining project. So "cleared exactly when `id` was active" holds only among truthy ids.
- `Message.sessionId` is declared mandatory, but the controller never sets it. It is optional in the model and always absent.
- A project's `lastMessageAt` becomes the time of the update call, App.tsx:140, and not the assistant message's timestamp. The model follows the code.
- The error message shown on failure is never written to the store. The model follows the code.
