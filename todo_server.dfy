/** The to-do server's process-wide state and its request handlers. Each handler is a
    method that updates the store in place, as the server's module-level variables are. */
module TodoServer {
  import opened TodoSpec

  class Server {
    /** The task store, in insertion order. */
    var tasks: seq<Task>
    /** The id the next created task receives. */
    var idCounter: nat
    /** The four history lists. */
    var completed: seq<Entry>
    var edited: seq<Edit>
    var cancelled: seq<Entry>
    var deleted: seq<Entry>

    ghost predicate Valid()
      reads this
    {
      Consistent(tasks, idCounter, completed)
    }

    /** Server start: an empty store, the counter at 1 and four empty history lists. */
    constructor ()
      ensures Valid()
      ensures tasks == [] && idCounter == 1
      ensures completed == [] && edited == [] && cancelled == [] && deleted == []
    {
      tasks := [];
      idCounter := 1;
      completed, edited, cancelled, deleted := [], [], [], [];
      EmptyConsistent();
    }

    /** `tasks.find(t => t.id == id)`, scanning the store from the front. */
    method Find(id: nat) returns (k: Option<nat>)
      ensures k == IndexOf(tasks, id)
    {
      var i := 0;
      while i < |tasks|
        invariant i <= |tasks|
        invariant forall j :: 0 <= j < i ==> tasks[j].id != id
      {
        if tasks[i].id == id {
          return Some(i);
        }
        i := i + 1;
      }
      return None;
    }

    /** POST /tasks: the new task takes the counter as its id, starts not completed and goes
        to the end of the store; the counter moves on by one and no history list changes. */
    method Create(title: string, priority: Priority) returns (t: Task)
      requires Valid()
      modifies this
      ensures Valid()
      ensures t == Task(old(idCounter), title, priority, false)
      ensures forall j :: 0 <= j < |old(tasks)| ==> old(tasks)[j].id < t.id
      ensures idCounter == old(idCounter) + 1
      ensures tasks == old(tasks) + [t]
      ensures completed == old(completed) && edited == old(edited)
      ensures cancelled == old(cancelled) && deleted == old(deleted)
    {
      CreateKeepsConsistent(tasks, idCounter, completed, title, priority);
      t := Task(idCounter, title, priority, false);
      idCounter := idCounter + 1;
      tasks := tasks + [t];
    }

    /** PUT /tasks/:id: writes the fields present in the patch into the task, in place, then
        classifies the transition. An id that is not in the store changes nothing at all. */
    method Update(id: nat, p: Patch, now: Timestamp)
      requires Valid()
      modifies this
      ensures Valid()
      ensures idCounter == old(idCounter) && cancelled == old(cancelled) && deleted == old(deleted)
      ensures old(edited) <= edited
      ensures IndexOf(old(tasks), id).None? ==>
                tasks == old(tasks) && completed == old(completed) && edited == old(edited)
      ensures IndexOf(old(tasks), id).Some? ==>
                var k := IndexOf(old(tasks), id).value;
                && tasks == old(tasks)[k := Apply(old(tasks)[k], p)]
                && completed == CompletedAfter(old(completed), old(tasks)[k], tasks[k], now)
                && edited == EditedAfter(old(edited), old(tasks)[k], p, now)
    {
      var found := Find(id);
      if found.Some? {
        var k := found.value;
        var before := tasks[k];
        UpdateKeepsConsistent(tasks, idCounter, completed, k, p, now);
        var task := before;
        if p.completed.Some? { task := task.(completed := p.completed.value); }
        if p.title.Some? { task := task.(title := p.title.value); }
        if p.priority.Some? { task := task.(priority := p.priority.value); }
        assert task == Apply(before, p);
        tasks := tasks[k := task];
        if !before.completed && task.completed {
          completed := completed + [Snapshot(task, now)];
        }
        if before.completed && !task.completed {
          completed := DropEntries(completed, task.id);
        }
        if EditTriggered(before, p) {
          edited := edited + [EditRecord(before, task, now)];
        }
      }
    }

    /** POST /history/cancel: always appends one record built from the request, whether or
        not the task exists and however many such records there already are. */
    method TrackCancel(id: nat, title: string, priority: Priority, now: Timestamp)
      requires Valid()
      modifies this
      ensures Valid()
      ensures cancelled == old(cancelled) + [Entry(id, title, priority, now)]
      ensures tasks == old(tasks) && idCounter == old(idCounter)
      ensures completed == old(completed) && edited == old(edited) && deleted == old(deleted)
    {
      cancelled := cancelled + [Entry(id, title, priority, now)];
    }

    /** DELETE /tasks/:id: records a snapshot of the task taken before removal, then filters
        its id out of the store. An id that is not in the store changes nothing. */
    method Delete(id: nat, now: Timestamp)
      requires Valid()
      modifies this
      ensures Valid()
      ensures idCounter == old(idCounter) && completed == old(completed)
      ensures edited == old(edited) && cancelled == old(cancelled)
      ensures IndexOf(old(tasks), id).None? ==> tasks == old(tasks) && deleted == old(deleted)
      ensures IndexOf(old(tasks), id).Some? ==>
                var k := IndexOf(old(tasks), id).value;
                && tasks == old(tasks)[..k] + old(tasks)[k + 1..]
                && deleted == old(deleted) + [Snapshot(old(tasks)[k], now)]
    {
      DeleteKeepsConsistent(tasks, idCounter, completed, id);
      var found := Find(id);
      if found.Some? {
        deleted := deleted + [Snapshot(tasks[found.value], now)];
      }
      tasks := DropTask(tasks, id);
    }
  }

  /** Marking a not-completed task done and then not done again leaves the completed history
      exactly as it was. */
  method CompleteThenUncomplete(s: Server, id: nat, now1: Timestamp, now2: Timestamp)
    requires s.Valid()
    requires IndexOf(s.tasks, id).Some? && !s.tasks[IndexOf(s.tasks, id).value].completed
    modifies s
    ensures s.Valid()
    ensures s.completed == old(s.completed)
  {
    var k := IndexOf(s.tasks, id).value;
    var t0 := s.tasks[k];
    s.Update(id, Patch(Some(true), None, None), now1);
    assert IndexOf(s.tasks, id) == Some(k);
    var t1 := s.tasks[k];
    s.Update(id, Patch(Some(false), None, None), now2);
    CompleteThenUncompleteRestores(old(s.completed), t0, t1, s.tasks[k], now1, now2);
  }
}
