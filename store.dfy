/** The local store (db.ts) as values: the schema, the two tables with their
    auto-increment key generators, and the reads and writes the controller
    issues. A table is the sequence of its records in primary-key order. */
module Store {
  import opened Optional
  import opened Types
  import Seqs

  /** `++id`: the primary key is the field `id`, filled from a key generator. */
  datatype PrimaryKey = AutoIncrement(field: string)

  datatype TableSchema = TableSchema(primaryKey: PrimaryKey, indexes: seq<string>)

  const DatabaseName := "BudgetDB"
  const SchemaVersion := 1

  /** Version 1 of the schema: a `messages` and a `projects` table, and no other. */
  const Schema: map<string, TableSchema> := map[
    "messages" := TableSchema(AutoIncrement("id"), ["projectId", "role", "timestamp"]),
    "projects" := TableSchema(AutoIncrement("id"), ["name", "createdAt", "lastMessageAt"])
  ]

  /** Version 1 of `BudgetDB` has the two tables only, both keyed by generated
      ids, and it indexes the fields the controller filters and orders by. */
  lemma SchemaShape()
    ensures DatabaseName == "BudgetDB" && SchemaVersion == 1
    ensures Schema.Keys == {"messages", "projects"}
    ensures forall t :: t in Schema ==> Schema[t].primaryKey == AutoIncrement("id")
    ensures "projectId" in Schema["messages"].indexes && "timestamp" in Schema["messages"].indexes
    ensures "lastMessageAt" in Schema["projects"].indexes
  {
    assert Schema["messages"].indexes[0] == "projectId" && Schema["messages"].indexes[2] == "timestamp";
    assert Schema["projects"].indexes[2] == "lastMessageAt";
  }

  /** An IndexedDB key generator starts at 1 and never goes back. */
  const FirstKey: nat := 1

  /** The key of a stored record; 0 stands for a record that has none. */
  function Key(id: Option<nat>): nat {
    id.GetOr(0)
  }

  function MessageKey(m: Message): int {
    Key(m.id)
  }

  function ProjectKey(p: Project): int {
    Key(p.id)
  }

  /** The contents of the store: both tables and their next generated keys. */
  datatype Tables = Tables(
    messages: seq<Message>,
    projects: seq<Project>,
    nextMessageKey: nat,
    nextProjectKey: nat)

  /** Every record carries a generated key, below the generator's next key,
      and the records are in key order. */
  ghost predicate Keyed<T>(rows: seq<T>, key: T -> int, next: nat) {
    Seqs.Increasing(rows, key) && forall k :: 0 <= k < |rows| ==> FirstKey <= key(rows[k]) < next
  }

  ghost predicate Valid(t: Tables) {
    FirstKey <= t.nextMessageKey && FirstKey <= t.nextProjectKey
    && Keyed(t.messages, MessageKey, t.nextMessageKey)
    && Keyed(t.projects, ProjectKey, t.nextProjectKey)
  }

  /** A freshly opened, empty database. */
  function Empty(): (t: Tables)
    ensures Valid(t) && t.messages == [] && t.projects == []
  {
    Tables([], [], FirstKey, FirstKey)
  }

  /** `messages.add(m)`: stores `m` under the next generated key and returns that key. */
  function AddMessage(t: Tables, m: Message): (Tables, nat) {
    (t.(messages := t.messages + [m.(id := Some(t.nextMessageKey))],
        nextMessageKey := t.nextMessageKey + 1),
     t.nextMessageKey)
  }

  /** `projects.add(p)`: stores `p` under the next generated key and returns that key. */
  function AddProject(t: Tables, p: Project): (Tables, nat) {
    (t.(projects := t.projects + [p.(id := Some(t.nextProjectKey))],
        nextProjectKey := t.nextProjectKey + 1),
     t.nextProjectKey)
  }

  function Touched(p: Project, key: nat, time: int): Project {
    if ProjectKey(p) == key then p.(lastMessageAt := time) else p
  }

  predicate HasProject(t: Tables, key: nat) {
    exists k :: 0 <= k < |t.projects| && ProjectKey(t.projects[k]) == key
  }

  /** `projects.update(key, {lastMessageAt: time})`: changes that one field of
      the record with that key, if there is one, and returns how many records
      it changed. */
  function UpdateLastMessageAt(t: Tables, key: nat, time: int): (Tables, nat) {
    (t.(projects := seq(|t.projects|, k requires 0 <= k < |t.projects| => Touched(t.projects[k], key, time))),
     if HasProject(t, key) then 1 else 0)
  }

  /** `projects.delete(key)`. */
  function DeleteProject(t: Tables, key: nat): Tables {
    t.(projects := Seqs.Filter(t.projects, (p: Project) => ProjectKey(p) != key))
  }

  /** `messages.where('projectId').equals(pid).delete()`, with the number deleted. */
  function DeleteMessagesOf(t: Tables, pid: nat): (Tables, nat) {
    var kept := Seqs.Filter(t.messages, (m: Message) => m.projectId != pid);
    (t.(messages := kept), |t.messages| - |kept|)
  }

  /** The order of the `lastMessageAt` index: by that field, then by key. */
  function ProjectOrder(p: Project): (int, int) {
    (p.lastMessageAt, ProjectKey(p))
  }

  /** The order of a `projectId` query sorted by `timestamp`: the index yields
      a project's messages in key order and the sort is stable, so ties of
      `timestamp` stay in key order. */
  function MessageOrder(m: Message): (int, int) {
    (m.timestamp, MessageKey(m))
  }

  /** `projects.orderBy('lastMessageAt').reverse().toArray()`. */
  function ProjectsByRecency(t: Tables): seq<Project> {
    Seqs.Reverse(Seqs.SortBy(t.projects, ProjectOrder))
  }

  /** `messages.where('projectId').equals(pid).sortBy('timestamp')`. */
  function MessagesOf(t: Tables, pid: nat): seq<Message> {
    Seqs.SortBy(Seqs.Filter(t.messages, (m: Message) => m.projectId == pid), MessageOrder)
  }

  // ---------------------------------------------------------------------------
  // What the writes guarantee

  /** An add stores the record under a key no record of the table has, keeps
      the store valid, and leaves the other table alone. */
  lemma AddMessageFresh(t: Tables, m: Message)
    requires Valid(t)
    ensures var (t', key) := AddMessage(t, m);
            Valid(t') && FirstKey <= key
            && (forall k :: 0 <= k < |t.messages| ==> MessageKey(t.messages[k]) != key)
            && t'.messages == t.messages + [m.(id := Some(key))]
            && t'.projects == t.projects && t'.nextProjectKey == t.nextProjectKey
  {
    var (t', key) := AddMessage(t, m);
    assert MessageKey(t'.messages[|t.messages|]) == key;
    assert forall k :: 0 <= k < |t.messages| ==> t'.messages[k] == t.messages[k];
  }

  lemma AddProjectFresh(t: Tables, p: Project)
    requires Valid(t)
    ensures var (t', key) := AddProject(t, p);
            Valid(t') && FirstKey <= key
            && (forall k :: 0 <= k < |t.projects| ==> ProjectKey(t.projects[k]) != key)
            && t'.projects == t.projects + [p.(id := Some(key))]
            && t'.messages == t.messages && t'.nextMessageKey == t.nextMessageKey
  {
    var (t', key) := AddProject(t, p);
    assert ProjectKey(t'.projects[|t.projects|]) == key;
    assert forall k :: 0 <= k < |t.projects| ==> t'.projects[k] == t.projects[k];
  }

  /** The update changes `lastMessageAt` of the keyed project and nothing else. */
  lemma UpdateKeepsRest(t: Tables, key: nat, time: int)
    requires Valid(t)
    ensures var (t', n) := UpdateLastMessageAt(t, key, time);
            Valid(t') && t'.messages == t.messages
            && |t'.projects| == |t.projects|
            && (forall k :: 0 <= k < |t.projects| ==>
                  ProjectKey(t'.projects[k]) == ProjectKey(t.projects[k])
                  && t'.projects[k].name == t.projects[k].name
                  && t'.projects[k].createdAt == t.projects[k].createdAt
                  && t'.projects[k].lastMessageAt
                     == (if ProjectKey(t.projects[k]) == key then time else t.projects[k].lastMessageAt))
            && (n == 1 <==> HasProject(t, key)) && n <= 1
  {
  }

  /** Deleting a project removes exactly the record with that key. */
  lemma DeleteProjectSpec(t: Tables, key: nat)
    requires Valid(t)
    ensures var t' := DeleteProject(t, key);
            Valid(t') && t'.messages == t.messages
            && (forall p :: p in t'.projects <==> p in t.projects && ProjectKey(p) != key)
  {
    var keep := (p: Project) => ProjectKey(p) != key;
    Seqs.FilterIncreasing(t.projects, keep, ProjectKey);
    forall p ensures p in DeleteProject(t, key).projects <==> p in t.projects && ProjectKey(p) != key {
      Seqs.FilterMembership(t.projects, keep, p);
    }
  }

  /** The cascade: every message of `pid` goes, every other message stays,
      as many times as it was there and in the same order. */
  lemma DeleteMessagesOfSpec(t: Tables, pid: nat)
    requires Valid(t)
    ensures var (t', n) := DeleteMessagesOf(t, pid);
            Valid(t') && t'.projects == t.projects
            && (forall k :: 0 <= k < |t'.messages| ==> t'.messages[k].projectId != pid)
            && (forall m: Message :: m.projectId != pid ==> multiset(t'.messages)[m] == multiset(t.messages)[m])
            && n == |t.messages| - |t'.messages|
  {
    var keep := (m: Message) => m.projectId != pid;
    Seqs.FilterIncreasing(t.messages, keep, MessageKey);
    forall m: Message | m.projectId != pid
      ensures multiset(DeleteMessagesOf(t, pid).0.messages)[m] == multiset(t.messages)[m]
    {
      Seqs.FilterCount(t.messages, keep, m);
    }
  }

  // ---------------------------------------------------------------------------
  // What the reads return

  lemma DistinctOrderKeys<T>(rows: seq<T>, key: T -> int, order: T -> (int, int), next: nat)
    requires Keyed(rows, key, next)
    requires forall r :: order(r).1 == key(r)
    ensures Seqs.DistinctKeys(rows, order)
  {
  }

  /** The project listing holds every stored project once, newest
      `lastMessageAt` first (ties: larger key first). */
  lemma ProjectsByRecencySpec(t: Tables)
    requires Valid(t)
    ensures var r := ProjectsByRecency(t);
            multiset(r) == multiset(t.projects)
            && Seqs.Descending(r, ProjectOrder)
            && (r != [] ==> forall p :: p in t.projects ==> p.lastMessageAt <= r[0].lastMessageAt)
  {
    var sorted := Seqs.SortBy(t.projects, ProjectOrder);
    DistinctOrderKeys(t.projects, ProjectKey, ProjectOrder, t.nextProjectKey);
    Seqs.SortAscending(t.projects, ProjectOrder);
    Seqs.ReverseDescending(sorted, ProjectOrder);
    Seqs.ReverseMultiset(sorted);
    var r := ProjectsByRecency(t);
    forall p | p in t.projects && r != [] ensures p.lastMessageAt <= r[0].lastMessageAt {
      assert p in multiset(r);
      var k :| 0 <= k < |r| && r[k] == p;
      assert k == 0 || Seqs.Below(ProjectOrder(r[k]), ProjectOrder(r[0]));
    }
  }

  /** A project above every other one in the listing order heads the listing. */
  lemma NewestHeadsListing(t: Tables, j: nat)
    requires Valid(t) && j < |t.projects|
    requires forall k :: 0 <= k < |t.projects| && k != j ==>
               Seqs.Below(ProjectOrder(t.projects[k]), ProjectOrder(t.projects[j]))
    ensures ProjectsByRecency(t) != [] && ProjectsByRecency(t)[0] == t.projects[j]
  {
    ProjectsByRecencySpec(t);
    var r := ProjectsByRecency(t);
    assert t.projects[j] in multiset(r);
    var i :| 0 <= i < |r| && r[i] == t.projects[j];
    assert r[0] in multiset(t.projects);
    var k :| 0 <= k < |t.projects| && t.projects[k] == r[0];
    if k != j {
      assert false;
    }
  }

  /** The message query returns exactly the stored messages of `pid`, each as
      often as it is stored, in ascending `timestamp` order (ties by key). */
  lemma MessagesOfSpec(t: Tables, pid: nat)
    requires Valid(t)
    ensures var r := MessagesOf(t, pid);
            (forall m: Message :: multiset(r)[m] == if m.projectId == pid then multiset(t.messages)[m] else 0)
            && (forall m: Message :: m in r <==> m in t.messages && m.projectId == pid)
            && Seqs.Ascending(r, MessageOrder)
  {
    var keep := (m: Message) => m.projectId == pid;
    var mine := Seqs.Filter(t.messages, keep);
    Seqs.FilterIncreasing(t.messages, keep, MessageKey);
    assert Keyed(mine, MessageKey, t.nextMessageKey);
    DistinctOrderKeys(mine, MessageKey, MessageOrder, t.nextMessageKey);
    Seqs.SortAscending(mine, MessageOrder);
    forall m: Message ensures multiset(MessagesOf(t, pid))[m] == if m.projectId == pid then multiset(t.messages)[m] else 0 {
      Seqs.FilterCount(t.messages, keep, m);
    }
  }
}
