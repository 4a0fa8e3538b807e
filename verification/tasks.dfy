/** The task record the server hands to the task list page, and the payload
    built when its completion is toggled (src/Home.js). */
module Tasks {
  import opened Wrappers

  /** Server-assigned task identifier; opaque to the client. */
  type TaskId = int

  /** A due date as a point in time; the page only ever compares two of them. */
  type Date = int

  datatype Priority = Low | Medium | High

  /** The rank table of the priority sort: low 1, medium 2, high 3. */
  function Rank(p: Priority): (r: int)
    ensures 1 <= r <= 3
  {
    match p
    case Low => 1
    case Medium => 2
    case High => 3
  }

  /** A rank identifies its priority, and the ranks order the priorities low < medium < high. */
  lemma RankOrdersPriorities(p: Priority, q: Priority)
    ensures Rank(p) == Rank(q) <==> p == q
    ensures Rank(p) < Rank(q) <==> (p == Low && q != Low) || (p == Medium && q == High)
  {
  }

  /** A task as fetched. The fields the page reads with a `|| default` fallback are
      optional: `None` stands for a missing (or empty) value. */
  datatype Task = Task(
    id: TaskId,
    title: Option<string>,
    description: string,
    priority: Option<Priority>,
    dueDate: Option<Date>,
    completed: bool)

  /** The body of the update sent by toggleTaskCompletion: the task with `completed` flipped. */
  function Toggled(t: Task): (r: Task)
    ensures r.completed == !t.completed
    ensures r.id == t.id && r.title == t.title && r.description == t.description
    ensures r.priority == t.priority && r.dueDate == t.dueDate
  {
    t.(completed := !t.completed)
  }

  /** Toggling twice gives back the original task, and a toggle always changes the task. */
  lemma ToggledInvolution(t: Task)
    ensures Toggled(Toggled(t)) == t
    ensures Toggled(t) != t
  {
  }
}
