/** The database instance (db.ts): two tables that the controller changes in
    place. Each asynchronous call is one step of a method. */
module Database {
  import opened Optional
  import opened Types
  import Store

  class BudgetDb {
    var messages: seq<Message>
    var projects: seq<Project>
    var nextMessageKey: nat
    var nextProjectKey: nat

    /** The store's contents as a value. */
    function Contents(): Store.Tables
      reads this
    {
      Store.Tables(messages, projects, nextMessageKey, nextProjectKey)
    }

    ghost predicate Valid()
      reads this
    {
      Store.Valid(Contents())
    }

    /** Opens an empty database. */
    constructor ()
      ensures Valid() && Contents() == Store.Empty()
    {
      messages, projects := [], [];
      nextMessageKey, nextProjectKey := Store.FirstKey, Store.FirstKey;
    }

    method AddMessage(m: Message) returns (key: nat)
      requires Valid()
      modifies this
      ensures Valid()
      ensures (Contents(), key) == Store.AddMessage(old(Contents()), m)
    {
      Store.AddMessageFresh(Contents(), m);
      key := nextMessageKey;
      messages := messages + [m.(id := Some(key))];
      nextMessageKey := nextMessageKey + 1;
    }

    method AddProject(p: Project) returns (key: nat)
      requires Valid()
      modifies this
      ensures Valid()
      ensures (Contents(), key) == Store.AddProject(old(Contents()), p)
    {
      Store.AddProjectFresh(Contents(), p);
      key := nextProjectKey;
      projects := projects + [p.(id := Some(key))];
      nextProjectKey := nextProjectKey + 1;
    }

    method UpdateLastMessageAt(key: nat, time: int) returns (updated: nat)
      requires Valid()
      modifies this
      ensures Valid()
      ensures (Contents(), updated) == Store.UpdateLastMessageAt(old(Contents()), key, time)
    {
      Store.UpdateKeepsRest(Contents(), key, time);
      var r := Store.UpdateLastMessageAt(Contents(), key, time);
      projects := r.0.projects;
      updated := r.1;
    }

    method DeleteProject(key: nat)
      requires Valid()
      modifies this
      ensures Valid()
      ensures Contents() == Store.DeleteProject(old(Contents()), key)
    {
      Store.DeleteProjectSpec(Contents(), key);
      projects := Store.DeleteProject(Contents(), key).projects;
    }

    method DeleteMessagesOf(pid: nat) returns (deleted: nat)
      requires Valid()
      modifies this
      ensures Valid()
      ensures (Contents(), deleted) == Store.DeleteMessagesOf(old(Contents()), pid)
    {
      Store.DeleteMessagesOfSpec(Contents(), pid);
      var r := Store.DeleteMessagesOf(Contents(), pid);
      messages := r.0.messages;
      deleted := r.1;
    }

    /** Lists every project, most recent `lastMessageAt` first. */
    method ProjectsByRecency() returns (rows: seq<Project>)
      requires Valid()
      ensures multiset(rows) == multiset(projects)
      ensures rows == Store.ProjectsByRecency(Contents())
    {
      Store.ProjectsByRecencySpec(Contents());
      rows := Store.ProjectsByRecency(Contents());
    }

    /** Lists the messages of project `pid` in `timestamp` order. */
    method MessagesOf(pid: nat) returns (rows: seq<Message>)
      requires Valid()
      ensures forall m: Message :: m in rows <==> m in messages && m.projectId == pid
      ensures rows == Store.MessagesOf(Contents(), pid)
    {
      Store.MessagesOfSpec(Contents(), pid);
      rows := Store.MessagesOf(Contents(), pid);
    }
  }
}
