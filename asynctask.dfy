// The background-task registry: tasks are registered under a key (one task
// per key at a time), keep an append-only log, and report each log line and
// their completion to a single listener.
//
// The listener is a function value in the source; here it is an opaque
// identity, and each call made to it is recorded, in order, in `emitted`.
module AsyncTask {

  datatype Event = Event(isDone: bool, log: string)

  datatype Listener = NoListener | Listener(id: nat)

  /** One call of the listener: which listener, for which task key, with which event. */
  datatype Call = Call(listener: nat, key: string, event: Event)

  /** The calls Emit makes: one when a listener is installed, none otherwise. */
  function EmitCalls(l: Listener, key: string, e: Event): (r: seq<Call>)
    ensures l.NoListener? <==> r == []
    ensures l.Listener? ==> r == [Call(l.id, key, e)]
  {
    match l
    case NoListener => []
    case Listener(id) => [Call(id, key, e)]
  }

  class Task {
    const Key: string
    const m: Manager
    var Logs: seq<string>

    constructor (key: string, manager: Manager)
      ensures Key == key && m == manager && Logs == []
    {
      Key := key;
      m := manager;
      Logs := [];
    }

    /** Write (io.Writer): logs the bytes as one line and reports them all written, with no error. */
    method Write(p: string) returns (n: nat, err: bool)
      modifies this, m
      ensures n == |p| && !err
      ensures Logs == old(Logs) + [p]
      ensures m.tasks == old(m.tasks) && m.listener == old(m.listener)
      ensures m.emitted == old(m.emitted) + EmitCalls(m.listener, Key, Event(false, p))
    {
      Log(p);
      n := |p|;
      err := false;
    }

    /** Log: appends the line and emits one not-done event carrying it. */
    method Log(l: string)
      modifies this, m
      ensures Logs == old(Logs) + [l]
      ensures m.tasks == old(m.tasks) && m.listener == old(m.listener)
      ensures m.emitted == old(m.emitted) + EmitCalls(m.listener, Key, Event(false, l))
    {
      Logs := Logs + [l];
      m.Emit(this, Event(false, l));
    }

    /** Done: emits one done event with an empty log, then unregisters the task's key. */
    method Done()
      modifies m
      ensures m.tasks == old(m.tasks) - {Key}
      ensures m.listener == old(m.listener)
      ensures m.emitted == old(m.emitted) + EmitCalls(m.listener, Key, Event(true, ""))
    {
      m.Emit(this, Event(true, ""));
      m.RemoveTask(this);
    }
  }

  class Manager {
    var tasks: map<string, Task>
    var listener: Listener
    var emitted: seq<Call>

    /** Every registered task is filed under its own key and belongs to this manager. */
    predicate Valid()
      reads this, set k | k in tasks :: tasks[k]
    {
      forall k :: k in tasks ==> tasks[k].Key == k && tasks[k].m == this
    }

    /** NewManager: no tasks, no listener. */
    constructor ()
      ensures tasks == map[] && listener == NoListener && emitted == []
      ensures Valid()
    {
      tasks := map[];
      listener := NoListener;
      emitted := [];
    }

    /** Emit: hands the event to the listener, or does nothing when none is installed. */
    method Emit(t: Task, e: Event)
      modifies this`emitted
      ensures emitted == old(emitted) + EmitCalls(listener, t.Key, e)
    {
      match listener
      case NoListener =>
      case Listener(id) =>
        emitted := emitted + [Call(id, t.Key, e)];
    }

    /**
     * RemoveTask: deletes the entry under the task's key, whichever task is
     * filed there; an absent key leaves the table as it was.
     */
    method RemoveTask(t: Task)
      modifies this`tasks
      ensures tasks == old(tasks) - {t.Key}
      ensures t.Key !in old(tasks) ==> tasks == old(tasks)
    {
      tasks := tasks - {t.Key};
    }

    /**
     * NewTask: the task already registered under `key` with isNew = false,
     * or a fresh task with an empty log, registered under `key`, with
     * isNew = true.  Other entries never change.
     */
    method NewTask(key: string) returns (t: Task, isNew: bool)
      requires Valid()
      modifies this`tasks
      ensures Valid()
      ensures isNew <==> key !in old(tasks)
      ensures !isNew ==> t == old(tasks)[key] && tasks == old(tasks)
      ensures isNew ==> fresh(t) && t.Logs == [] && tasks == old(tasks)[key := t]
      ensures t.Key == key && t.m == this
    {
      if key in tasks {
        t := tasks[key];
        isNew := false;
        return;
      }
      t := new Task(key, this);
      tasks := tasks[key := t];
      isNew := true;
    }

    /** AddListener: replaces any earlier listener. */
    method AddListener(l: nat)
      modifies this`listener
      ensures listener == Listener(l)
    {
      listener := Listener(l);
    }
  }

  /** Done, then NewTask under the same key, registers a new task. */
  method DoneThenNew(m: Manager, t: Task) returns (t2: Task, isNew: bool)
    requires m.Valid() && t.m == m
    modifies m
    ensures isNew && fresh(t2) && t2.Logs == [] && t2.Key == t.Key
  {
    t.Done();
    assert m.Valid();
    t2, isNew := m.NewTask(t.Key);
  }
}
