/**
 Link previews of chat messages (websocket/protocol.rs).  A preview is fetched by a spawned task
 and patched into the message when the fetch returns; edits and deletions may come in between.
 Message ids are unique over the life of the server.
 */
module MessagePreviews {
  import opened Wrappers

  /** `forVersion` is the edit version the preview was requested for; the source stores only the data. */
  datatype Preview = Preview(url: string, forVersion: nat)

  /** `version` counts edits, for the specification only. */
  datatype ChatMessage = ChatMessage(
    text: string,
    encrypted: Option<string>,
    attachment: Option<string>,
    preview: Option<Preview>,
    editedAt: Option<nat>,
    deleted: bool,
    version: nat)

  datatype Task =
    | AfterSend(id: string, url: string)
    | AfterEdit(id: string, url: string, at: nat, version: nat)
    | OnRequest(id: string, url: string, requestedEditedAt: Option<nat>, version: nat)

  datatype State = State(messages: map<string, ChatMessage>, used: set<string>, tasks: map<nat, Task>)

  datatype Event =
    | Send(id: string, text: string, encrypted: Option<string>, attachment: Option<string>, url: Option<string>,
        task: nat)
    | Edit(id: string, text: string, encrypted: Option<string>, url: Option<string>, at: nat, task: nat)
    | Request(id: string, target: string, task: nat)
    | Complete(task: nat)
    | FetchFailed(task: nat)
    | Delete(id: string)
    | DeleteOnLeave(id: string)
    | Drop(id: string)

  const Empty: State := State(map[], {}, map[])

  predicate Live(s: State, id: string)
  {
    id in s.messages && !s.messages[id].deleted
  }

  ghost predicate Enabled(s: State, e: Event)
  {
    match e
    case Send(id, _, _, _, _, task) => id !in s.used && task !in s.tasks
    case Edit(id, _, _, _, _, task) => Live(s, id) && task !in s.tasks
    case Request(id, _, task) =>
      Live(s, id) && s.messages[id].encrypted.Some? && s.messages[id].preview.None? && task !in s.tasks
    case Complete(task) => task in s.tasks
    case FetchFailed(task) => task in s.tasks
    case Delete(id) => Live(s, id)
    case DeleteOnLeave(id) => Live(s, id)
    case Drop(id) => id in s.messages
  }

  /** Whether the task, on its return, still patches the message. */
  predicate Patches(m: ChatMessage, task: Task)
  {
    match task
    case AfterSend(_, _) => !m.deleted && m.editedAt.None?
    case AfterEdit(_, _, at, _) => !m.deleted && m.preview.None? && m.editedAt == Some(at)
    case OnRequest(_, _, requested, _) =>
      !m.deleted && m.encrypted.Some? && m.preview.None? && m.editedAt == requested
  }

  function Version(task: Task): nat
  {
    if task.AfterSend? then 0 else task.version
  }

  function Erased(m: ChatMessage): ChatMessage
  {
    m.(text := "", encrypted := None, attachment := None, preview := None, deleted := true)
  }

  function Next(s: State, e: Event): State
    requires Enabled(s, e)
  {
    match e
    case Send(id, text, encrypted, attachment, url, task) =>
      var m := ChatMessage(
        if encrypted.Some? then "" else text, encrypted, if encrypted.Some? then None else attachment,
        None, None, false, 0);
      State(s.messages[id := m], s.used + {id},
            if url.Some? && encrypted.None? then s.tasks[task := AfterSend(id, url.value)] else s.tasks)
    case Edit(id, text, encrypted, url, at, task) =>
      var old' := s.messages[id];
      var m := ChatMessage(
        if encrypted.Some? then "" else text, encrypted, None, None, Some(at), false, old'.version + 1);
      s.(messages := s.messages[id := m],
         tasks :=
           if url.Some? && encrypted.None? then s.tasks[task := AfterEdit(id, url.value, at, m.version)]
           else s.tasks)
    case Request(id, url, task) =>
      s.(tasks := s.tasks[task := OnRequest(id, url, s.messages[id].editedAt, s.messages[id].version)])
    case Complete(task) =>
      var t := s.tasks[task];
      State(if t.id in s.messages && Patches(s.messages[t.id], t)
            then s.messages[t.id := s.messages[t.id].(preview := Some(Preview(t.url, Version(t))))] else s.messages,
            s.used, s.tasks - {task})
    case FetchFailed(task) => s.(tasks := s.tasks - {task})
    case Delete(id) => s.(messages := s.messages[id := Erased(s.messages[id]).(editedAt := None)])
    case DeleteOnLeave(id) => s.(messages := s.messages[id := Erased(s.messages[id])])
    case Drop(id) => s.(messages := s.messages - {id})
  }

  /** The edit timestamp a task looks for when it returns. */
  function Remembered(task: Task): Option<nat>
  {
    match task
    case AfterSend(_, _) => None
    case AfterEdit(_, _, at, _) => Some(at)
    case OnRequest(_, _, requested, _) => requested
  }

  /** The edit's timestamp is one the task looks for, in a message the task may patch. */
  predicate Confuses(e: Event, task: Task)
    requires e.Edit?
  {
    task.id == e.id && Remembered(task) == Some(e.at) && (task.OnRequest? ==> e.encrypted.Some?)
  }

  /** No pending task of the message confuses the edit's version with its own. */
  ghost predicate Harmless(s: State, e: Event)
  {
    e.Edit? ==> forall k :: k in s.tasks ==> !Confuses(e, s.tasks[k])
  }

  ghost predicate Reaches(s: State, events: seq<Event>, t: State)
    decreases |events|
  {
    if events == [] then s == t
    else Enabled(s, events[0]) && Reaches(Next(s, events[0]), events[1..], t)
  }

  ghost predicate HarmlessRun(s: State, events: seq<Event>)
    decreases |events|
  {
    events == [] ||
    (Enabled(s, events[0]) && Harmless(s, events[0]) && HarmlessRun(Next(s, events[0]), events[1..]))
  }

  // ----- what holds whatever the timestamps

  ghost predicate MessageSane(m: ChatMessage)
  {
    && (m.deleted ==> m.text == "" && m.attachment.None? && m.encrypted.None? && m.preview.None?)
    && (!m.deleted ==> (m.editedAt.None? <==> m.version == 0))
  }

  /** No task is ahead of its message, and while the version is the task's, so is the timestamp. */
  ghost predicate TaskSane(task: Task, m: ChatMessage)
  {
    Version(task) <= m.version && (Version(task) == m.version ==> Remembered(task) == m.editedAt)
  }

  ghost predicate Sane(s: State)
  {
    && s.messages.Keys <= s.used
    && (forall id :: id in s.messages ==> MessageSane(s.messages[id]))
    && (forall k :: k in s.tasks ==> s.tasks[k].id in s.used)
    && (forall k :: k in s.tasks && Live(s, s.tasks[k].id) ==> TaskSane(s.tasks[k], s.messages[s.tasks[k].id]))
  }

  lemma NextSane(s: State, e: Event)
    requires Sane(s) && Enabled(s, e)
    ensures Sane(Next(s, e))
  {
    var t := Next(s, e);
    forall k | k in t.tasks && Live(t, t.tasks[k].id) ensures TaskSane(t.tasks[k], t.messages[t.tasks[k].id]) {
      if k in s.tasks && Live(s, s.tasks[k].id) { assert TaskSane(s.tasks[k], s.messages[s.tasks[k].id]); }
    }
  }

  lemma {:induction false} EveryRunSane(s: State, events: seq<Event>, t: State)
    requires Sane(s) && Reaches(s, events, t)
    ensures Sane(t)
    decreases |events|
  {
    if events != [] {
      NextSane(s, events[0]);
      EveryRunSane(Next(s, events[0]), events[1..], t);
    }
  }

  // ----- current previews

  ghost predicate PreviewCurrent(m: ChatMessage)
  {
    m.preview.Some? ==> m.preview.value.forVersion == m.version
  }

  /** A task that would patch its message now was started for the current version. */
  ghost predicate TaskCurrent(task: Task, m: ChatMessage)
  {
    Patches(m, task) ==> m.version == Version(task)
  }

  ghost predicate Current(s: State)
  {
    && (forall id :: id in s.messages ==> PreviewCurrent(s.messages[id]))
    && (forall k :: k in s.tasks && s.tasks[k].id in s.messages ==> TaskCurrent(s.tasks[k], s.messages[s.tasks[k].id]))
  }

  ghost predicate Inv(s: State)
  {
    Sane(s) && Current(s)
  }

  lemma OthersKeepCurrent(s: State, e: Event)
    requires Inv(s) && Enabled(s, e) && !e.Edit?
    ensures Current(Next(s, e))
  {
    var t := Next(s, e);
    if e.Complete? && s.tasks[e.task].id in s.messages {
      assert TaskCurrent(s.tasks[e.task], s.messages[s.tasks[e.task].id]);
    }
    forall k | k in t.tasks && t.tasks[k].id in t.messages ensures TaskCurrent(t.tasks[k], t.messages[t.tasks[k].id]) {
      if k in s.tasks && s.tasks[k].id in s.messages { assert TaskCurrent(s.tasks[k], s.messages[s.tasks[k].id]); }
    }
  }

  /** An edit keeps every preview and task current exactly when it confuses no pending task. */
  lemma EditIff(s: State, e: Event)
    requires Inv(s) && Enabled(s, e) && e.Edit?
    ensures Current(Next(s, e)) <==> Harmless(s, e)
  {
    var t := Next(s, e);
    forall k | k in s.tasks && s.tasks[k].id in s.messages
      ensures TaskCurrent(t.tasks[k], t.messages[s.tasks[k].id]) <==> !Confuses(e, s.tasks[k])
    {
      assert TaskCurrent(s.tasks[k], s.messages[s.tasks[k].id]);
      if s.tasks[k].id == e.id { assert TaskSane(s.tasks[k], s.messages[e.id]); }
    }
    if Current(t) {
      forall k | k in s.tasks ensures !Confuses(e, s.tasks[k]) {
        if s.tasks[k].id == e.id { assert TaskCurrent(t.tasks[k], t.messages[e.id]); }
      }
    }
    forall id | id in t.messages ensures PreviewCurrent(t.messages[id]) {
      assert PreviewCurrent(s.messages[id]);
    }
  }

  /** In every run of harmless edits, previews and tasks are current and deleted messages empty. */
  lemma {:induction false} EveryRunKeepsInv(s: State, events: seq<Event>, t: State)
    requires Inv(s) && Reaches(s, events, t) && HarmlessRun(s, events)
    ensures Inv(t)
    decreases |events|
  {
    if events != [] {
      NextSane(s, events[0]);
      if events[0].Edit? { EditIff(s, events[0]); } else { OthersKeepCurrent(s, events[0]); }
      EveryRunKeepsInv(Next(s, events[0]), events[1..], t);
    }
  }

  lemma PreviewsAreCurrent(events: seq<Event>, t: State, id: string)
    requires Reaches(Empty, events, t) && HarmlessRun(Empty, events)
    requires id in t.messages
    ensures t.messages[id].preview.Some? ==> t.messages[id].preview.value.forVersion == t.messages[id].version
    ensures t.messages[id].deleted ==>
              && t.messages[id].text == "" && t.messages[id].attachment.None?
              && t.messages[id].encrypted.None? && t.messages[id].preview.None?
  {
    EveryRunKeepsInv(Empty, events, t);
    assert PreviewCurrent(t.messages[id]) && MessageSane(t.messages[id]);
  }

  /** After every harmless run from `s` all previews are current. */
  ghost predicate StaysCurrent(s: State)
  {
    forall events, t, id :: Reaches(s, events, t) && HarmlessRun(s, events) && id in t.messages ==>
        PreviewCurrent(t.messages[id])
  }

  /** From any sane state: previews stay current over all harmless runs exactly when they and the tasks are current. */
  lemma StaysCurrentIff(s: State)
    requires Sane(s)
    ensures StaysCurrent(s) <==> Current(s)
  {
    if Current(s) {
      forall events, t, id | Reaches(s, events, t) && HarmlessRun(s, events) && id in t.messages
        ensures PreviewCurrent(t.messages[id])
      {
        EveryRunKeepsInv(s, events, t);
      }
    }
    if StaysCurrent(s) {
      assert Reaches(s, [], s) && HarmlessRun(s, []);
      forall k | k in s.tasks && s.tasks[k].id in s.messages
        ensures TaskCurrent(s.tasks[k], s.messages[s.tasks[k].id])
      {
        var e := Complete(k);
        var t := Next(s, e);
        assert [e][1..] == [] && Reaches(t, [], t) && HarmlessRun(t, []);
        assert Reaches(s, [e], t) && HarmlessRun(s, [e]);
        assert PreviewCurrent(t.messages[s.tasks[k].id]);
      }
    }
  }

  /**
   The timestamp tests are as good as version numbers: in every harmless run a returning task
   patches its message exactly when the message is live, has not been edited since the
   request, and (except after sending) has no preview yet.
   */
  lemma PatchesIffCurrent(events: seq<Event>, t: State, k: nat)
    requires Reaches(Empty, events, t) && HarmlessRun(Empty, events)
    requires k in t.tasks && t.tasks[k].id in t.messages
    ensures var task, m := t.tasks[k], t.messages[t.tasks[k].id];
            Patches(m, task) <==>
              && !m.deleted && m.version == Version(task)
              && (!task.AfterSend? ==> m.preview.None?) && (task.OnRequest? ==> m.encrypted.Some?)
  {
    EveryRunKeepsInv(Empty, events, t);
    var task := t.tasks[k];
    assert TaskCurrent(task, t.messages[task.id]);
    if Live(t, task.id) { assert TaskSane(task, t.messages[task.id]); }
  }

  /** The message was sent, and if it is still stored it is deleted. */
  ghost predicate Gone(s: State, id: string)
  {
    id in s.used && !Live(s, id)
  }

  /** A deleted message stays deleted in every run, whatever the timestamps. */
  lemma {:induction false} DeletedStaysDeleted(s: State, events: seq<Event>, t: State, id: string)
    requires Gone(s, id) && Reaches(s, events, t)
    ensures Gone(t, id)
    decreases |events|
  {
    if events != [] {
      DeletedStaysDeleted(Next(s, events[0]), events[1..], t, id);
    }
  }

  // ----- what goes wrong otherwise

  /**
   From every state: an edit, and then the return of a task that was pending before it.  The
   edited message ends up with that task's preview if and only if the edit confuses the task.
   */
  lemma LateReturnIff(s: State, e: Event, k: nat)
    requires Enabled(s, e) && e.Edit? && k in s.tasks && s.tasks[k].id == e.id
    ensures var task, m := s.tasks[k], Next(Next(s, e), Complete(k)).messages[e.id];
            && m.version == s.messages[e.id].version + 1
            && m.preview == if Confuses(e, task) then Some(Preview(task.url, Version(task))) else None
  {
  }

  /**
   From any state with the message live: a plain edit with a link, any other edit, and then
   the first edit's task returning.  The message ends up with the first version's preview if
   and only if the two edits carry the same timestamp; otherwise it ends up with none.
   */
  lemma StaleIffSameStamp(s: State, id: string, first: Event, second: Event)
    requires first.Edit? && first.id == id && first.encrypted.None? && first.url.Some? && Enabled(s, first)
    requires second.Edit? && second.id == id && second.task != first.task && second.task !in s.tasks
    ensures var s1 := Next(s, first);
            Enabled(s1, second) &&
            var s2 := Next(s1, second);
            Enabled(s2, Complete(first.task)) &&
            var m := Next(s2, Complete(first.task)).messages[id];
            && m.version == s.messages[id].version + 2
            && m.preview ==
               if first.at == second.at then Some(Preview(first.url.value, s.messages[id].version + 1)) else None
  {
    var task := AfterEdit(id, first.url.value, first.at, s.messages[id].version + 1);
    assert Next(s, first).tasks[first.task] == task;
    assert Next(Next(s, first), second).tasks[first.task] == task;
  }

  /** A run in which that happens: two edits in the same millisecond. */
  lemma SameMillisecondGoesStale(id: string, at: nat, u1: string, u2: string) returns (events: seq<Event>, t: State)
    ensures Reaches(Empty, events, t) && id in t.messages && !t.messages[id].deleted
    ensures t.messages[id].preview == Some(Preview(u1, 1)) && t.messages[id].version == 2
  {
    var e1, e2 := Send(id, "a", None, None, None, 0), Edit(id, "b", None, Some(u1), at, 1);
    var e3, e4 := Edit(id, "c", None, Some(u2), at, 2), Complete(1);
    var s1 := Next(Empty, e1);
    var s2 := Next(s1, e2);
    var s3 := Next(s2, e3);
    StaleIffSameStamp(s1, id, e2, e3);
    events, t := [e1, e2, e3, e4], Next(s3, e4);
    assert events[1..] == [e2, e3, e4] && [e2, e3, e4][1..] == [e3, e4] && [e3, e4][1..] == [e4] && [e4][1..] == [];
    assert Reaches(t, [], t);
    assert Reaches(s3, [e4], t);
    assert Reaches(s2, [e3, e4], t);
    assert Reaches(s1, [e2, e3, e4], t);
  }
}
