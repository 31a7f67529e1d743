/** The chat workspace controller (App.tsx) as state transitions: its
    transient view state beside the store, one function per handler giving
    the state after it, and what those handlers guarantee. */
module AppSpec {
  import opened Optional
  import opened Types
  import JsString
  import Seqs
  import Store
  import Gemini

  /** The controller's transient state. */
  datatype View = View(
    projects: seq<Project>,
    activeProjectId: Option<nat>,
    messages: seq<Message>,
    input: string,
    attachments: seq<Attachment>,
    isLoading: bool)

  /** The store and the view together. */
  datatype AppState = AppState(store: Store.Tables, view: View)

  /** The state on mount, over whatever the store already holds. */
  function Initial(store: Store.Tables): AppState {
    AppState(store, View([], None, [], [], [], false))
  }

  /** JavaScript truthiness of an optional id: `null` and `0` are false. */
  predicate Truthy(id: Option<nat>) {
    id.Some? && id.value != 0
  }

  ghost predicate Valid(s: AppState) {
    Store.Valid(s.store)
  }

  // ---------------------------------------------------------------------------
  // Reading the store

  /** `loadProjects`: shows every project, newest first, and when some exist
      and the handler saw no active project (`seen`, the value captured when
      the handler was created), makes the first one active. */
  function LoadProjects(s: AppState, seen: Option<nat>): AppState {
    var all := Store.ProjectsByRecency(s.store);
    s.(view := s.view.(
      projects := all,
      activeProjectId := if |all| > 0 && !Truthy(seen) then all[0].id else s.view.activeProjectId))
  }

  /** `loadMessages(pid)`: shows the project's stored messages. */
  function LoadMessages(s: AppState, pid: nat): AppState {
    s.(view := s.view.(messages := Store.MessagesOf(s.store, pid)))
  }

  /** The effect that runs when the active id changes: load that project's
      messages, or show none. */
  function ShowActiveProject(s: AppState): AppState {
    if Truthy(s.view.activeProjectId) then LoadMessages(s, s.view.activeProjectId.value)
    else s.(view := s.view.(messages := []))
  }

  /** A click on a project in the sidebar. */
  function SelectProject(s: AppState, id: nat): AppState {
    s.(view := s.view.(activeProjectId := Some(id)))
  }

  /** Typing into the input box. */
  function SetInput(s: AppState, text: string): AppState {
    s.(view := s.view.(input := text))
  }

  // ---------------------------------------------------------------------------
  // Managing projects

  /** `nameOverride || defaultName`: an empty override counts as none. */
  function ProjectName(nameOverride: Option<string>, defaultName: string): string {
    if nameOverride.Some? && nameOverride.value != [] then nameOverride.value else defaultName
  }

  /** `createProject(nameOverride)`: adds the project stamped `now`, reloads
      the list, makes the new id active and returns it. `defaultName` is the
      name the clock would give. */
  function CreateProject(s: AppState, nameOverride: Option<string>, defaultName: string, now: int): (AppState, nat) {
    var (store', id) := Store.AddProject(s.store, Project(None, ProjectName(nameOverride, defaultName), now, now));
    var loaded := LoadProjects(s.(store := store'), s.view.activeProjectId);
    (loaded.(view := loaded.view.(activeProjectId := Some(id))), id)
  }

  /** `deleteProject(id)`: deletes the project, then its messages, clears the
      active id if it was this one, and reloads the list as seen before. */
  function DeleteProject(s: AppState, id: nat): AppState {
    var store1 := Store.DeleteProject(s.store, id);
    var store2 := Store.DeleteMessagesOf(store1, id).0;
    var active := if s.view.activeProjectId == Some(id) then None else s.view.activeProjectId;
    LoadProjects(AppState(store2, s.view.(activeProjectId := active)), s.view.activeProjectId)
  }

  // ---------------------------------------------------------------------------
  // Pending attachments

  /** An uploaded file and what reading it produced: the data URL, or nothing
      when the read failed. */
  datatype FileRead = FileRead(name: string, mimeType: string, size: int, result: Option<string>)

  const DefaultMimeType := "application/octet-stream"

  /** The attachment a successful read yields; an empty type becomes the default. */
  function AttachmentOf(f: FileRead, data: string): Attachment {
    Attachment(None, f.name, if f.mimeType != [] then f.mimeType else DefaultMimeType, data, Some(f.size))
  }

  /** What one reader appends: its attachment once the read succeeds; a
      failed read never fires `onload`. */
  function Loaded(f: FileRead): seq<Attachment> {
    match f.result
    case Some(data) => [AttachmentOf(f, data)]
    case None => []
  }

  /** The attachments of the files whose reads succeed, in the order given. */
  function Uploaded(files: seq<FileRead>): (r: seq<Attachment>)
    ensures |r| <= |files|
    ensures forall k :: 0 <= k < |r| ==> r[k].mimeType != []
  {
    if files == [] then [] else Loaded(files[0]) + Uploaded(files[1..])
  }

  /** `handleFileUpload`: nothing without a file list; otherwise each read
      that succeeds appends its attachment. */
  function HandleFileUpload(s: AppState, files: Option<seq<FileRead>>): AppState {
    match files
    case None => s
    case Some(fs) => s.(view := s.view.(attachments := s.view.attachments + Uploaded(fs)))
  }

  /** `filter((_, idx) => idx !== i)`. */
  function WithoutIndex<T>(s: seq<T>, i: nat): (r: seq<T>)
    ensures i < |s| ==> |r| == |s| - 1 && forall k :: 0 <= k < |r| ==> r[k] == if k < i then s[k] else s[k + 1]
    ensures i >= |s| ==> r == s
  {
    if i < |s| then s[..i] + s[i + 1..] else s
  }

  /** The remove button of pending attachment `i`. */
  function RemoveAttachment(s: AppState, i: nat): AppState {
    s.(view := s.view.(attachments := WithoutIndex(s.view.attachments, i)))
  }

  // ---------------------------------------------------------------------------
  // A chat turn

  /** Which store write inside the turn fails, if any. */
  datatype StoreFault = NoFault | UserWriteFails | UpdateFails | ReplyWriteFails

  /** The clock readings of one turn: creating a project, the user message,
      the project update, and the reply or error message. */
  datatype TurnClock = TurnClock(created: int, sent: int, touched: int, answered: int)

  const FallbackProjectName := "Novo Orçamento Direto"

  const ErrorText := "Houve um erro técnico no processamento do motor Optimus. Verifique se os arquivos são suportados."

  const NameLength: nat := 30

  /** `trimmed.substring(0, 30) || "Novo Orçamento Direto"`. */
  function ImplicitName(trimmed: string): (name: string)
    ensures name != []
    ensures trimmed != [] ==> JsString.StartsWith(trimmed, name) && |name| == if |trimmed| < NameLength then |trimmed| else NameLength
    ensures trimmed == [] ==> name == FallbackProjectName
  {
    var prefix := JsString.Prefix(trimmed, NameLength);
    if prefix != [] then prefix else FallbackProjectName
  }

  /** The send is refused: nothing to send, or a turn already in flight. */
  predicate Refused(v: View) {
    (JsString.Trim(v.input) == [] && |v.attachments| == 0) || v.isLoading
  }

  function UserMessage(pid: nat, text: string, attachments: seq<Attachment>, time: int): Message {
    Message(None, pid, None, User, text, time, if |attachments| > 0 then Some(attachments) else None, None)
  }

  function ReplyMessage(pid: nat, reply: Gemini.Reply, time: int): Message {
    Message(None, pid, None, Assistant, reply.text, time, None, reply.metadata)
  }

  function ErrorMessage(pid: nat, time: int): Message {
    Message(None, pid, None, Assistant, ErrorText, time, None, None)
  }

  /** The project the turn goes to: the active one, or one created for it. */
  function EnsureProject(s: AppState, trimmed: string, now: int): (AppState, nat) {
    if Truthy(s.view.activeProjectId) then (s, s.view.activeProjectId.value)
    else CreateProject(s, Some(ImplicitName(trimmed)), "", now)
  }

  /** What the `try`/`catch` of a turn leaves: the store, the user message as
      shown (with its key once stored), the assistant message shown after it,
      and the request sent to the model, if it got that far. */
  datatype Exchange = Exchange(store: Store.Tables, shownUser: Message, shownReply: Message, request: Option<Gemini.Request>)

  function Converse(t: Store.Tables, user: Message, attachments: seq<Attachment>,
                    reply: Option<Gemini.Response>, fault: StoreFault, clock: TurnClock): Exchange
  {
    var pid := user.projectId;
    var failure := ErrorMessage(pid, clock.answered);
    if fault == UserWriteFails then Exchange(t, user, failure, None)
    else
      var (t1, userKey) := Store.AddMessage(t, user);
      var shownUser := user.(id := Some(userKey));
      if fault == UpdateFails then Exchange(t1, shownUser, failure, None)
      else
        var t2 := Store.UpdateLastMessageAt(t1, pid, clock.touched).0;
        var request := Some(Gemini.RequestFor(user.content, attachments));
        match reply
        case None => Exchange(t2, shownUser, failure, request)
        case Some(response) =>
          var answer := ReplyMessage(pid, Gemini.ShapeReply(response), clock.answered);
          if fault == ReplyWriteFails then Exchange(t2, shownUser, failure, request)
          else
            var (t3, answerKey) := Store.AddMessage(t2, answer);
            Exchange(t3, shownUser, answer.(id := Some(answerKey)), request)
  }

  /** `sendMessage`, given the model's outcome (`None` when the call throws)
      and the store fault, if any: the state after it and the request sent. */
  function Send(s: AppState, reply: Option<Gemini.Response>, fault: StoreFault, clock: TurnClock): (AppState, Option<Gemini.Request>) {
    if Refused(s.view) then (s, None) else Accept(s, JsString.Trim(s.view.input), reply, fault, clock)
  }

  /** An accepted send whose input trims to `trimmed`: the project step, the
      user message shown at once, the exchange, the cleared input and the
      closing reload. */
  function Accept(s: AppState, trimmed: string, reply: Option<Gemini.Response>, fault: StoreFault, clock: TurnClock): (AppState, Option<Gemini.Request>) {
    var (s1, pid) := EnsureProject(s, trimmed, clock.created);
    var user := UserMessage(pid, trimmed, s.view.attachments, clock.sent);
    var x := Converse(s1.store, user, s.view.attachments, reply, fault, clock);
    var s2 := AppState(x.store, s1.view.(
      messages := s1.view.messages + [x.shownUser, x.shownReply],
      input := [], attachments := [], isLoading := false));
    (LoadProjects(s2, s.view.activeProjectId), x.request)
  }

  /** An accepted send in its stages, named. */
  lemma AcceptInStages(s: AppState, trimmed: string, reply: Option<Gemini.Response>, fault: StoreFault, clock: TurnClock,
                       s1: AppState, pid: nat, x: Exchange)
    requires (s1, pid) == EnsureProject(s, trimmed, clock.created)
    requires x == Converse(s1.store, UserMessage(pid, trimmed, s.view.attachments, clock.sent),
                           s.view.attachments, reply, fault, clock)
    ensures Accept(s, trimmed, reply, fault, clock)
            == (LoadProjects(AppState(x.store, s1.view.(
                  messages := s1.view.messages + [x.shownUser, x.shownReply],
                  input := [], attachments := [], isLoading := false)), s.view.activeProjectId),
                x.request)
  {
  }

  /** The turn succeeds: the model answered and every write went through. */
  predicate Succeeds(reply: Option<Gemini.Response>, fault: StoreFault) {
    reply.Some? && fault == NoFault
  }

  // ---------------------------------------------------------------------------
  // What the handlers guarantee

  /** `loadProjects` lists every stored project once, newest first, creates
      nothing, and selects the newest when none was seen active. */
  lemma LoadProjectsSpec(s: AppState, seen: Option<nat>)
    requires Valid(s)
    ensures var s' := LoadProjects(s, seen);
            s'.store == s.store
            && multiset(s'.view.projects) == multiset(s.store.projects)
            && Seqs.Descending(s'.view.projects, Store.ProjectOrder)
            && (s'.view.projects != [] ==>
                  forall p :: p in s.store.projects ==> p.lastMessageAt <= s'.view.projects[0].lastMessageAt)
            && (s.store.projects != [] && !Truthy(seen) ==>
                  s'.view.activeProjectId.Some? && Store.ProjectKey(s'.view.projects[0]) == s'.view.activeProjectId.value)
            && (s.store.projects == [] || Truthy(seen) ==> s'.view.activeProjectId == s.view.activeProjectId)
  {
    Store.ProjectsByRecencySpec(s.store);
    var all := Store.ProjectsByRecency(s.store);
    if s.store.projects != [] {
      assert s.store.projects[0] in multiset(all);
      assert all[0] in multiset(s.store.projects);
      var k :| 0 <= k < |s.store.projects| && s.store.projects[k] == all[0];
    } else {
      assert |multiset(all)| == 0;
    }
  }

  /** `loadMessages(pid)` shows exactly the project's stored messages, in
      `timestamp` order, and changes nothing else. */
  lemma LoadMessagesSpec(s: AppState, pid: nat)
    requires Valid(s)
    ensures var s' := LoadMessages(s, pid);
            s'.store == s.store
            && (forall m: Message :: m in s'.view.messages <==> m in s.store.messages && m.projectId == pid)
            && (forall m: Message :: m.projectId == pid ==> multiset(s'.view.messages)[m] == multiset(s.store.messages)[m])
            && Seqs.Ascending(s'.view.messages, Store.MessageOrder)
  {
    Store.MessagesOfSpec(s.store, pid);
  }

  /** `createProject` adds exactly one project under a fresh key, named by a
      non-empty override or else the default, stamped `now`, and makes it the
      active one; the messages are untouched and the list shows it. */
  lemma CreateProjectSpec(s: AppState, nameOverride: Option<string>, defaultName: string, now: int)
    requires Valid(s)
    ensures var (s', id) := CreateProject(s, nameOverride, defaultName, now);
            var name := if nameOverride.Some? && nameOverride.value != [] then nameOverride.value else defaultName;
            Valid(s')
            && s'.store.projects == s.store.projects + [Project(Some(id), name, now, now)]
            && (forall k :: 0 <= k < |s.store.projects| ==> Store.ProjectKey(s.store.projects[k]) != id)
            && s'.store.messages == s.store.messages
            && s'.view.activeProjectId == Some(id)
            && Project(Some(id), name, now, now) in s'.view.projects
            && s'.view.messages == s.view.messages && s'.view.attachments == s.view.attachments
  {
    var p := Project(None, ProjectName(nameOverride, defaultName), now, now);
    Store.AddProjectFresh(s.store, p);
    var (store', id) := Store.AddProject(s.store, p);
    Store.ProjectsByRecencySpec(store');
    assert store'.projects[|s.store.projects|] in multiset(Store.ProjectsByRecency(store'));
  }

  /** `deleteProject(id)` removes project `id` and every message of it, keeps
      every other project and every other project's messages (as often as
      they were stored), and clears the active id exactly when it was `id`. */
  lemma DeleteProjectSpec(s: AppState, id: nat)
    requires Valid(s)
    ensures var s' := DeleteProject(s, id);
            Valid(s')
            && (forall p: Project :: p in s'.store.projects <==> p in s.store.projects && Store.ProjectKey(p) != id)
            && (forall k :: 0 <= k < |s'.store.messages| ==> s'.store.messages[k].projectId != id)
            && (forall m: Message :: m.projectId != id ==> multiset(s'.store.messages)[m] == multiset(s.store.messages)[m])
            && (s.view.activeProjectId == Some(id) && id != 0 ==> s'.view.activeProjectId == None)
            && (Truthy(s.view.activeProjectId) && s.view.activeProjectId != Some(id) ==>
                  s'.view.activeProjectId == s.view.activeProjectId)
            && multiset(s'.view.projects) == multiset(s'.store.projects)
  {
    Store.DeleteProjectSpec(s.store, id);
    var store1 := Store.DeleteProject(s.store, id);
    Store.DeleteMessagesOfSpec(store1, id);
    var store2 := Store.DeleteMessagesOf(store1, id).0;
    Store.ProjectsByRecencySpec(store2);
  }

  /** Read results land in the list in order; a failed read adds nothing. */
  lemma {:induction false} UploadedAppend(a: seq<FileRead>, b: seq<FileRead>)
    ensures Uploaded(a + b) == Uploaded(a) + Uploaded(b)
  {
    if a == [] {
      assert a + b == b;
    } else {
      assert (a + b)[1..] == a[1..] + b;
      UploadedAppend(a[1..], b);
    }
  }

  /** One more completed read appends what that reader loaded. */
  lemma UploadedSnoc(files: seq<FileRead>, f: FileRead)
    ensures Uploaded(files + [f]) == Uploaded(files) + Loaded(f)
  {
    UploadedAppend(files, [f]);
    assert Uploaded([f]) == Loaded(f) + Uploaded([]);
  }

  /** One attachment per successful read, each from its file. */
  lemma {:induction false} UploadedCount(files: seq<FileRead>)
    ensures |Uploaded(files)| == |Seqs.Filter(files, (f: FileRead) => f.result.Some?)|
  {
    if files != [] {
      UploadedCount(files[1..]);
    }
  }

  /** Two files, the first unreadable: only the second is pending afterwards. */
  lemma UploadSkipsFailedRead(s: AppState, bad: FileRead, good: FileRead)
    requires bad.result.None? && good.result.Some?
    ensures HandleFileUpload(s, Some([bad, good])).view.attachments
            == s.view.attachments + [AttachmentOf(good, good.result.value)]
  {
    assert [bad, good][1..] == [good];
    assert [good][1..] == [];
    assert Uploaded([good]) == [AttachmentOf(good, good.result.value)] + Uploaded([]);
    assert Uploaded([bad, good]) == [] + Uploaded([good]);
  }

  /** Removing pending attachment `i` removes that one element only. */
  lemma RemoveAttachmentSpec(s: AppState, i: nat)
    requires i < |s.view.attachments|
    ensures var r := RemoveAttachment(s, i).view.attachments;
            multiset(r) + multiset{s.view.attachments[i]} == multiset(s.view.attachments)
  {
    var a := s.view.attachments;
    assert a == a[..i] + [a[i]] + a[i + 1..];
  }

  /** The implicit project name is the first characters of the input, or the
      fallback when the input is empty. */
  lemma ImplicitNameSpec(trimmed: string)
    ensures trimmed != [] && |trimmed| <= NameLength ==> ImplicitName(trimmed) == trimmed
    ensures |trimmed| > NameLength ==> ImplicitName(trimmed) == trimmed[..NameLength]
    ensures ProjectName(Some(ImplicitName(trimmed)), "") == ImplicitName(trimmed)
  {
  }
  /** A refused send changes nothing and calls nothing. */
  lemma SendRefusedIsNoOp(s: AppState, reply: Option<Gemini.Response>, fault: StoreFault, clock: TurnClock)
    requires Refused(s.view)
    ensures Send(s, reply, fault, clock) == (s, None)
  {
  }

  /** The turn's project: the active one untouched, or a new one under the
      next project key, named from the input and stamped `now`. */
  lemma EnsureProjectSpec(s: AppState, trimmed: string, now: int)
    requires Valid(s)
    ensures var (s1, pid) := EnsureProject(s, trimmed, now);
            Valid(s1)
            && s1.store.messages == s.store.messages && s1.store.nextMessageKey == s.store.nextMessageKey
            && s1.view.messages == s.view.messages
            && (Truthy(s.view.activeProjectId) ==> s1 == s && pid == s.view.activeProjectId.value)
            && (!Truthy(s.view.activeProjectId) ==>
                  pid == s.store.nextProjectKey
                  && s1.store.projects == s.store.projects + [Project(Some(pid), ImplicitName(trimmed), now, now)]
                  && (forall k :: 0 <= k < |s.store.projects| ==> Store.ProjectKey(s.store.projects[k]) < pid))
  {
    if !Truthy(s.view.activeProjectId) {
      CreateProjectSpec(s, Some(ImplicitName(trimmed)), "", now);
    }
  }

  /** The exchange: the user message is stored first (unless that write
      fails), then the project is touched, then the model is asked; a reply
      is stored only when everything succeeded, and every failure shows the
      fixed error instead. Projects keep their keys, names and creation
      times; only the turn's project gets the new `lastMessageAt`. */
  lemma ConverseSpec(t: Store.Tables, user: Message, attachments: seq<Attachment>,
                     reply: Option<Gemini.Response>, fault: StoreFault, clock: TurnClock)
    requires Store.Valid(t)
    ensures var x := Converse(t, user, attachments, reply, fault, clock);
            var touches := fault != UserWriteFails && fault != UpdateFails;
            Store.Valid(x.store)
            && x.shownUser == (if fault == UserWriteFails then user else user.(id := Some(t.nextMessageKey)))
            && (x.request.Some? <==> touches)
            && (x.request.Some? ==> x.request.value == Gemini.RequestFor(user.content, attachments))
            && (Succeeds(reply, fault) ==>
                  x.shownReply == ReplyMessage(user.projectId, Gemini.ShapeReply(reply.value), clock.answered).(id := Some(t.nextMessageKey + 1))
                  && x.store.messages == t.messages + [x.shownUser, x.shownReply])
            && (!Succeeds(reply, fault) ==>
                  x.shownReply == ErrorMessage(user.projectId, clock.answered)
                  && x.store.messages == t.messages + (if fault == UserWriteFails then [] else [x.shownUser]))
            && |x.store.projects| == |t.projects| && x.store.nextProjectKey == t.nextProjectKey
            && (forall k :: 0 <= k < |t.projects| ==>
                  x.store.projects[k].id == t.projects[k].id
                  && x.store.projects[k].name == t.projects[k].name
                  && x.store.projects[k].createdAt == t.projects[k].createdAt
                  && x.store.projects[k].lastMessageAt
                     == if touches && Store.ProjectKey(t.projects[k]) == user.projectId then clock.touched
                        else t.projects[k].lastMessageAt)
  {
    if fault != UserWriteFails {
      Store.AddMessageFresh(t, user);
      var (t1, userKey) := Store.AddMessage(t, user);
      if fault != UpdateFails {
        Store.UpdateKeepsRest(t1, user.projectId, clock.touched);
        var t2 := Store.UpdateLastMessageAt(t1, user.projectId, clock.touched).0;
        assert forall k :: 0 <= k < |t1.projects| ==> t2.projects[k].id == t1.projects[k].id by {
          forall k | 0 <= k < |t1.projects| ensures t2.projects[k].id == t1.projects[k].id {
            assert t2.projects[k] == Store.Touched(t1.projects[k], user.projectId, clock.touched);
          }
        }
        if Succeeds(reply, fault) {
          Store.AddMessageFresh(t2, ReplyMessage(user.projectId, Gemini.ShapeReply(reply.value), clock.answered));
        }
      }
    }
  }

  /** An accepted send shows the user's message and then exactly one
      assistant message, whatever happens, and ends with the input and the
      pending attachments cleared and no turn in flight. */
  lemma SendShowsOneReply(s: AppState, reply: Option<Gemini.Response>, fault: StoreFault, clock: TurnClock)
    requires Valid(s) && !Refused(s.view)
    ensures var (s', _) := Send(s, reply, fault, clock);
            var n := |s.view.messages|;
            |s'.view.messages| == n + 2 && s'.view.messages[..n] == s.view.messages
            && s'.view.messages[n].role == User && s'.view.messages[n].content == JsString.Trim(s.view.input)
            && s'.view.messages[n].attachments == (if |s.view.attachments| > 0 then Some(s.view.attachments) else None)
            && s'.view.messages[n + 1].role == Assistant
            && s'.view.input == [] && s'.view.attachments == [] && !s'.view.isLoading
  {
    var trimmed := JsString.Trim(s.view.input);
    EnsureProjectSpec(s, trimmed, clock.created);
    var (s1, pid) := EnsureProject(s, trimmed, clock.created);
    var user := UserMessage(pid, trimmed, s.view.attachments, clock.sent);
    ConverseSpec(s1.store, user, s.view.attachments, reply, fault, clock);
  }

  /** Both new messages belong to the active project, or, with none active,
      to the project created under the next project key; with an active
      project no project is added. */
  lemma SendProject(s: AppState, reply: Option<Gemini.Response>, fault: StoreFault, clock: TurnClock)
    requires Valid(s) && !Refused(s.view)
    ensures var (s', _) := Send(s, reply, fault, clock);
            var n := |s.view.messages|;
            var pid := if Truthy(s.view.activeProjectId) then s.view.activeProjectId.value else s.store.nextProjectKey;
            s'.view.messages[n].projectId == pid && s'.view.messages[n + 1].projectId == pid
            && (Truthy(s.view.activeProjectId) ==> |s'.store.projects| == |s.store.projects|)
  {
    var trimmed := JsString.Trim(s.view.input);
    EnsureProjectSpec(s, trimmed, clock.created);
    var (s1, pid) := EnsureProject(s, trimmed, clock.created);
    var user := UserMessage(pid, trimmed, s.view.attachments, clock.sent);
    ConverseSpec(s1.store, user, s.view.attachments, reply, fault, clock);
  }

  /** With no active project the turn first creates one under a fresh key,
      named from the input and stamped when the turn began; its
      `lastMessageAt` becomes the time of the update that follows the user
      message, unless the turn failed before that update. */
  lemma SendCreatesProject(s: AppState, reply: Option<Gemini.Response>, fault: StoreFault, clock: TurnClock)
    requires Valid(s) && !Refused(s.view) && !Truthy(s.view.activeProjectId)
    ensures var (s', _) := Send(s, reply, fault, clock);
            var before := |s.store.projects|;
            var pid := s.store.nextProjectKey;
            |s'.store.projects| == before + 1
            && s'.store.projects[before].id == Some(pid)
            && s'.store.projects[before].name == ImplicitName(JsString.Trim(s.view.input))
            && s'.store.projects[before].createdAt == clock.created
            && s'.store.projects[before].lastMessageAt
               == (if fault == UserWriteFails || fault == UpdateFails then clock.created else clock.touched)
            && (forall k :: 0 <= k < before ==> Store.ProjectKey(s.store.projects[k]) != pid)
  {
    var trimmed := JsString.Trim(s.view.input);
    EnsureProjectSpec(s, trimmed, clock.created);
    var (s1, pid) := EnsureProject(s, trimmed, clock.created);
    var user := UserMessage(pid, trimmed, s.view.attachments, clock.sent);
    ConverseSpec(s1.store, user, s.view.attachments, reply, fault, clock);
    assert s1.store.projects[|s.store.projects|].id == Some(pid);
  }

  /** The user message is stored before the model is called: a request goes
      out exactly when the user write and the project update succeed, the
      turn's first stored record is then the user message as shown, and the
      request is the user's text with the pending attachments. */
  lemma SendStoresUserFirst(s: AppState, reply: Option<Gemini.Response>, fault: StoreFault, clock: TurnClock)
    requires Valid(s) && !Refused(s.view)
    ensures var (s', request) := Send(s, reply, fault, clock);
            var before := |s.store.messages|;
            (request.Some? <==> fault != UserWriteFails && fault != UpdateFails)
            && (fault != UserWriteFails ==>
                  |s'.store.messages| > before
                  && s'.store.messages[before] == s'.view.messages[|s.view.messages|]
                  && s'.store.messages[before].role == User)
            && (request.Some? ==> request.value == Gemini.RequestFor(JsString.Trim(s.view.input), s.view.attachments))
  {
    var trimmed := JsString.Trim(s.view.input);
    EnsureProjectSpec(s, trimmed, clock.created);
    var (s1, pid) := EnsureProject(s, trimmed, clock.created);
    var user := UserMessage(pid, trimmed, s.view.attachments, clock.sent);
    ConverseSpec(s1.store, user, s.view.attachments, reply, fault, clock);
  }

  /** On success the reply is stored and the same records are shown: the turn
      stores the user message and then the reply, which carries the model's
      text and the first candidate's metadata. */
  lemma SendSuccessStoresReply(s: AppState, response: Gemini.Response, clock: TurnClock)
    requires Valid(s) && !Refused(s.view)
    ensures var (s', _) := Send(s, Some(response), NoFault, clock);
            var n := |s.view.messages|;
            var before := |s.store.messages|;
            |s'.store.messages| == before + 2
            && s'.store.messages[..before] == s.store.messages
            && s'.store.messages[before..] == s'.view.messages[n..]
            && s'.view.messages[n + 1].content == response.text
            && s'.view.messages[n + 1].metadata == Gemini.ShapeReply(response).metadata
  {
    var trimmed := JsString.Trim(s.view.input);
    EnsureProjectSpec(s, trimmed, clock.created);
    var (s1, pid) := EnsureProject(s, trimmed, clock.created);
    var user := UserMessage(pid, trimmed, s.view.attachments, clock.sent);
    ConverseSpec(s1.store, user, s.view.attachments, Some(response), NoFault, clock);
  }

  /** On any failure the fixed error text is shown, without metadata and
      without a key, and no assistant message is stored: the store gains at
      most the user message. */
  lemma SendFailureShowsError(s: AppState, reply: Option<Gemini.Response>, fault: StoreFault, clock: TurnClock)
    requires Valid(s) && !Refused(s.view) && !Succeeds(reply, fault)
    ensures var (s', _) := Send(s, reply, fault, clock);
            var n := |s.view.messages|;
            s'.view.messages[n + 1].content == ErrorText
            && s'.view.messages[n + 1].metadata.None?
            && s'.view.messages[n + 1].id.None?
            && s'.store.messages == s.store.messages + (if fault == UserWriteFails then [] else [s'.view.messages[n]])
  {
    var trimmed := JsString.Trim(s.view.input);
    EnsureProjectSpec(s, trimmed, clock.created);
    var (s1, pid) := EnsureProject(s, trimmed, clock.created);
    var user := UserMessage(pid, trimmed, s.view.attachments, clock.sent);
    ConverseSpec(s1.store, user, s.view.attachments, reply, fault, clock);
  }

  /** The store stays well keyed through a turn. */
  lemma SendValid(s: AppState, reply: Option<Gemini.Response>, fault: StoreFault, clock: TurnClock)
    requires Valid(s)
    ensures Valid(Send(s, reply, fault, clock).0)
  {
    if !Refused(s.view) {
      var trimmed := JsString.Trim(s.view.input);
      EnsureProjectSpec(s, trimmed, clock.created);
      var (s1, pid) := EnsureProject(s, trimmed, clock.created);
      var user := UserMessage(pid, trimmed, s.view.attachments, clock.sent);
      ConverseSpec(s1.store, user, s.view.attachments, reply, fault, clock);
    }
  }

  /** The closing reload still sees no active project after an implicit
      creation, so it selects the most recent project; when the clock never
      goes back, that is the project just created. */
  lemma SendSelectsNewProject(s: AppState, reply: Option<Gemini.Response>, fault: StoreFault, clock: TurnClock)
    requires Valid(s) && !Refused(s.view) && !Truthy(s.view.activeProjectId)
    requires forall p :: p in s.store.projects ==> p.lastMessageAt <= clock.created && p.lastMessageAt <= clock.touched
    ensures Send(s, reply, fault, clock).0.view.activeProjectId == Some(s.store.nextProjectKey)
  {
    var trimmed := JsString.Trim(s.view.input);
    EnsureProjectSpec(s, trimmed, clock.created);
    var (s1, pid) := EnsureProject(s, trimmed, clock.created);
    var user := UserMessage(pid, trimmed, s.view.attachments, clock.sent);
    ConverseSpec(s1.store, user, s.view.attachments, reply, fault, clock);
    var x := Converse(s1.store, user, s.view.attachments, reply, fault, clock);
    var rows := x.store.projects;
    var before := |s.store.projects|;
    // The new project is last and above every other one in the listing order.
    var q := rows[before];
    assert q.id == Some(pid);
    assert forall k :: 0 <= k < before ==> rows[k].lastMessageAt == s.store.projects[k].lastMessageAt by {
      forall k | 0 <= k < before ensures rows[k].lastMessageAt == s.store.projects[k].lastMessageAt {
        assert s1.store.projects[k] == s.store.projects[k];
      }
    }
    assert forall k :: 0 <= k < before ==> Seqs.Below(Store.ProjectOrder(rows[k]), Store.ProjectOrder(q)) by {
      forall k | 0 <= k < before ensures Seqs.Below(Store.ProjectOrder(rows[k]), Store.ProjectOrder(q)) {
        assert s1.store.projects[k] == s.store.projects[k];
        assert s.store.projects[k] in s.store.projects;
      }
    }
    assert forall k :: 0 <= k < |rows| && k != before ==>
             Seqs.Below(Store.ProjectOrder(rows[k]), Store.ProjectOrder(rows[before]));
    Store.NewestHeadsListing(x.store, before);
  }

  /** A first turn on a new store, answered without faults, leaves one
      project, named from the input, whose `lastMessageAt` is the time of the
      update that followed the user message. */
  lemma FirstTurnProject(s: AppState, response: Gemini.Response, clock: TurnClock)
    requires s.store == Store.Empty() && !Truthy(s.view.activeProjectId) && !Refused(s.view)
    ensures Send(s, Some(response), NoFault, clock).0.store.projects
            == [Project(Some(Store.FirstKey), ImplicitName(JsString.Trim(s.view.input)), clock.created, clock.touched)]
  {
    SendCreatesProject(s, Some(response), NoFault, clock);
    var rows := Send(s, Some(response), NoFault, clock).0.store.projects;
    assert rows == [rows[0]];
  }

  /** ... and two messages of that project, the user's first. */
  lemma FirstTurnMessages(s: AppState, response: Gemini.Response, clock: TurnClock)
    requires s.store == Store.Empty() && !Truthy(s.view.activeProjectId) && !Refused(s.view)
    ensures var t := Send(s, Some(response), NoFault, clock).0.store;
            |t.messages| == 2
            && t.messages[0].role == User && t.messages[1].role == Assistant
            && t.messages[0].projectId == Store.FirstKey && t.messages[1].projectId == Store.FirstKey
  {
    SendShowsOneReply(s, Some(response), NoFault, clock);
    SendProject(s, Some(response), NoFault, clock);
    SendSuccessStoresReply(s, response, clock);
    var s' := Send(s, Some(response), NoFault, clock).0;
    var n := |s.view.messages|;
    assert s'.store.messages[0] == s'.view.messages[n] && s'.store.messages[1] == s'.view.messages[n + 1] by {
      assert s'.store.messages[0..] == s'.view.messages[n..];
    }
  }

  /** After that first turn the new project is the active one and the view
      shows exactly the two stored messages. */
  lemma FirstTurnShowsIt(s: AppState, response: Gemini.Response, clock: TurnClock)
    requires s.store == Store.Empty() && s.view.messages == [] && !Truthy(s.view.activeProjectId) && !Refused(s.view)
    ensures var s' := Send(s, Some(response), NoFault, clock).0;
            s'.view.activeProjectId == Some(Store.FirstKey) && s'.view.messages == s'.store.messages
  {
    SendSelectsNewProject(s, Some(response), NoFault, clock);
    SendSuccessStoresReply(s, response, clock);
    var s' := Send(s, Some(response), NoFault, clock).0;
    assert s'.store.messages[0..] == s'.view.messages[0..];
  }
}
