/** The workspace controller (App.tsx) as a stateful object: its view state
    as fields, the database it writes, and one method per handler, each
    proved to leave the state its transition function in `AppSpec` gives. */
module App {
  import opened Optional
  import opened Types
  import JsString
  import Gemini
  import Database
  import AppSpec

  class Workspace {
    const db: Database.BudgetDb
    var projects: seq<Project>
    var activeProjectId: Option<nat>
    var messages: seq<Message>
    var input: string
    var attachments: seq<Attachment>
    var isLoading: bool

    /** The store and the view as a value. */
    function State(): AppSpec.AppState
      reads this, db
    {
      AppSpec.AppState(db.Contents(), AppSpec.View(projects, activeProjectId, messages, input, attachments, isLoading))
    }

    ghost predicate Valid()
      reads this, db
    {
      db.Valid()
    }

    /** The component as first rendered over a database. */
    constructor (store: Database.BudgetDb)
      requires store.Valid()
      ensures Valid() && db == store
      ensures State() == AppSpec.Initial(store.Contents())
    {
      db := store;
      projects, activeProjectId, messages := [], None, [];
      input, attachments, isLoading := [], [], false;
    }

    /** `loadProjects`, with `seen` the active id its closure captured. */
    method LoadProjects(seen: Option<nat>)
      requires Valid()
      modifies this
      ensures Valid() && State() == AppSpec.LoadProjects(old(State()), seen)
    {
      var allProjects := db.ProjectsByRecency();
      projects := allProjects;
      if |allProjects| > 0 && !AppSpec.Truthy(seen) {
        activeProjectId := allProjects[0].id;
      }
    }

    method LoadMessages(projectId: nat)
      requires Valid()
      modifies this
      ensures Valid() && State() == AppSpec.LoadMessages(old(State()), projectId)
    {
      messages := db.MessagesOf(projectId);
    }

    /** The effect that follows a change of the active id. */
    method ShowActiveProject()
      requires Valid()
      modifies this
      ensures Valid() && State() == AppSpec.ShowActiveProject(old(State()))
    {
      if AppSpec.Truthy(activeProjectId) {
        LoadMessages(activeProjectId.value);
      } else {
        messages := [];
      }
    }

    method SelectProject(id: nat)
      requires Valid()
      modifies this
      ensures Valid() && State() == AppSpec.SelectProject(old(State()), id)
    {
      activeProjectId := Some(id);
    }

    method SetInput(text: string)
      requires Valid()
      modifies this
      ensures Valid() && State() == AppSpec.SetInput(old(State()), text)
    {
      input := text;
    }

    method CreateProject(nameOverride: Option<string>, defaultName: string, now: int) returns (id: nat)
      requires Valid()
      modifies this, db
      ensures Valid() && (State(), id) == AppSpec.CreateProject(old(State()), nameOverride, defaultName, now)
    {
      var seen := activeProjectId;
      id := db.AddProject(Project(None, AppSpec.ProjectName(nameOverride, defaultName), now, now));
      LoadProjects(seen);
      activeProjectId := Some(id);
    }

    method DeleteProject(id: nat)
      requires Valid()
      modifies this, db
      ensures Valid() && State() == AppSpec.DeleteProject(old(State()), id)
    {
      var seen := activeProjectId;
      db.DeleteProject(id);
      var deleted := db.DeleteMessagesOf(id);
      if activeProjectId == Some(id) {
        activeProjectId := None;
      }
      LoadProjects(seen);
    }

    /** `handleFileUpload`: the files in the order their reads complete. */
    method HandleFileUpload(files: Option<seq<AppSpec.FileRead>>)
      requires Valid()
      modifies this
      ensures Valid() && State() == AppSpec.HandleFileUpload(old(State()), files)
    {
      if files.None? {
        return;
      }
      var fs := files.value;
      for i := 0 to |fs|
        invariant Valid() && State() == AppSpec.HandleFileUpload(old(State()), Some(fs[..i]))
      {
        assert fs[..i + 1] == fs[..i] + [fs[i]];
        AppSpec.UploadedSnoc(fs[..i], fs[i]);
        attachments := attachments + AppSpec.Loaded(fs[i]);
      }
      assert fs[..|fs|] == fs;
    }

    method RemoveAttachment(i: nat)
      requires Valid()
      modifies this
      ensures Valid() && State() == AppSpec.RemoveAttachment(old(State()), i)
    {
      attachments := AppSpec.WithoutIndex(attachments, i);
    }

    /** The project a turn goes to: the active one, or one created for it
        and named from the input. */
    method EnsureProject(trimmedInput: string, now: int) returns (currentProjectId: nat)
      requires Valid()
      modifies this, db
      ensures Valid() && (State(), currentProjectId) == AppSpec.EnsureProject(old(State()), trimmedInput, now)
    {
      if AppSpec.Truthy(activeProjectId) {
        currentProjectId := activeProjectId.value;
      } else {
        currentProjectId := CreateProject(Some(AppSpec.ImplicitName(trimmedInput)), "", now);
      }
    }

    /** The `try`/`catch` of `sendMessage`, entered with the user message
        shown last: stores it, touches the project, asks the model and shows
        the reply, or shows the error message on the first failure. */
    method Converse(userMsg: Message, history: seq<Message>, currentAttachments: seq<Attachment>,
                    reply: Option<Gemini.Response>, fault: AppSpec.StoreFault, clock: AppSpec.TurnClock)
      returns (request: Option<Gemini.Request>)
      requires Valid() && |messages| > 0 && messages[|messages| - 1] == userMsg
      modifies this, db
      ensures Valid()
      ensures var x := AppSpec.Converse(old(db.Contents()), userMsg, currentAttachments, reply, fault, clock);
              db.Contents() == x.store && request == x.request
              && messages == old(messages)[..|old(messages)| - 1] + [x.shownUser, x.shownReply]
      ensures projects == old(projects) && activeProjectId == old(activeProjectId)
      ensures input == old(input) && attachments == old(attachments) && isLoading == old(isLoading)
    {
      var shownAt := |messages| - 1;
      request := None;
      var failed := true;
      if fault != AppSpec.UserWriteFails {
        var userKey := db.AddMessage(userMsg);
        // The store writes the generated key into the record the view holds.
        messages := messages[shownAt := userMsg.(id := Some(userKey))];
        if fault != AppSpec.UpdateFails {
          var updated := db.UpdateLastMessageAt(userMsg.projectId, clock.touched);
          var sent := Gemini.Chat(userMsg.content, history, currentAttachments);
          request := Some(sent);
          if reply.Some? {
            var aiMsg := AppSpec.ReplyMessage(userMsg.projectId, Gemini.ShapeReply(reply.value), clock.answered);
            if fault != AppSpec.ReplyWriteFails {
              var aiKey := db.AddMessage(aiMsg);
              messages := messages + [aiMsg.(id := Some(aiKey))];
              failed := false;
            }
          }
        }
      }
      if failed {
        messages := messages + [AppSpec.ErrorMessage(userMsg.projectId, clock.answered)];
      }
    }

    /** `sendMessage`: `reply` is the model's answer, `None` when the call
        throws, and `fault` the store write that throws, if any. */
    method SendMessage(reply: Option<Gemini.Response>, fault: AppSpec.StoreFault, clock: AppSpec.TurnClock)
      returns (request: Option<Gemini.Request>)
      requires Valid()
      modifies this, db
      ensures Valid()
      ensures (State(), request) == AppSpec.Send(old(State()), reply, fault, clock)
    {
      var trimmedInput := JsString.Trim(input);
      if (trimmedInput == [] && |attachments| == 0) || isLoading {
        return None;
      }
      request := Submit(trimmedInput, reply, fault, clock);
    }

    /** `sendMessage` past its guard: picks or creates the project, shows the
        user message, clears the input, runs the exchange and reloads the
        project list as the handler saw it. */
    method Submit(trimmedInput: string, reply: Option<Gemini.Response>, fault: AppSpec.StoreFault, clock: AppSpec.TurnClock)
      returns (request: Option<Gemini.Request>)
      requires Valid()
      modifies this, db
      ensures Valid()
      ensures (State(), request) == AppSpec.Accept(old(State()), trimmedInput, reply, fault, clock)
    {
      var seen := activeProjectId;
      var history := messages;
      var currentProjectId := EnsureProject(trimmedInput, clock.created);
      ghost var s1 := State();
      var userMsg := AppSpec.UserMessage(currentProjectId, trimmedInput, attachments, clock.sent);
      messages := messages + [userMsg];
      var currentAttachments := attachments;
      input, attachments, isLoading := [], [], true;
      assert db.Contents() == s1.store;
      ghost var x := AppSpec.Converse(db.Contents(), userMsg, currentAttachments, reply, fault, clock);
      request := Converse(userMsg, history, currentAttachments, reply, fault, clock);
      isLoading := false;
      ghost var s2 := AppSpec.AppState(x.store, s1.view.(
        messages := s1.view.messages + [x.shownUser, x.shownReply],
        input := [], attachments := [], isLoading := false));
      assert db.Contents() == x.store;
      assert messages == s1.view.messages + [x.shownUser, x.shownReply];
      assert projects == s1.view.projects && activeProjectId == s1.view.activeProjectId;
      assert State() == s2;
      AppSpec.AcceptInStages(old(State()), trimmedInput, reply, fault, clock, s1, currentProjectId, x);
      LoadProjects(seen);
      assert State() == AppSpec.LoadProjects(s2, seen);
    }
  }
}
