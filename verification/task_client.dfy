/** The task client's state transitions. Each AJAX operation is two steps: a
    Submit step, which checks its guard and decides which request (if any) to
    send, and a Receive step, which is the success/error callback applied to
    the server's reply. Replies, the confirmation answer, the typed text and
    the decoded cookie string are parameters.
 */
module TaskClient {
  import opened Text
  import Csrf
  import opened TaskCache

  datatype Option<T> = None | Some(value: T)

  /** The `type` argument of `showNotification`. */
  datatype Severity = Info | Success | Warning | Error

  /** A banner shown to the user. */
  datatype Notice = Notice(message: string, severity: Severity)

  /** The four calls to the task API. */
  datatype Endpoint =
    | GetTasks                                 // GET /api/tasks
    | PostTask(description: string)            // POST /api/tasks
    | PutTask(id: int, description: string)    // PUT /api/tasks/{id}
    | DeleteTask(id: int)                      // DELETE /api/tasks/{id}

  /** A request, with the value of its `X-CSRF-Token` header. */
  datatype Request = Request(endpoint: Endpoint, csrfToken: string)

  /** What a request comes back with: a reply whose `success` is true (with
      its payload and message), one whose `success` is false, or a transport
      failure (the `error` callback). */
  datatype Reply<T> = Succeeded(value: T, message: string) | Refused(message: string) | TransportFailure

  /** `currentTasks` and `isLoading`. */
  datatype ClientState = ClientState(tasks: seq<Task>, isLoading: bool)

  /** The result of one transition: the new state, the request sent (if any)
      and the banner shown (if any). */
  datatype Step = Step(state: ClientState, request: Option<Request>, notice: Option<Notice>)

  const EmptyDescriptionWarning: Notice := Notice("Please enter a task description!", Warning)
  const RefreshedMessage: string := "Tasks refreshed successfully!"
  const LoadRefusedPrefix: string := "Failed to load tasks: "
  const LoadFailedMessage: string := "Error loading tasks. Please refresh the page."
  const AddFailedMessage: string := "Error adding task. Please try again."
  const UpdateFailedMessage: string := "Error updating task. Please try again."
  const DeleteFailedMessage: string := "Error deleting task. Please try again."

  /** The request for `endpoint`, carrying the cookie's anti-forgery token. */
  function MakeRequest(endpoint: Endpoint, decodedCookie: string): (r: Request)
    ensures r.endpoint == endpoint
    ensures r.csrfToken == Csrf.CsrfToken(decodedCookie)
    ensures Csrf.CookieSeparator !in r.csrfToken
  {
    Request(endpoint, Csrf.CsrfToken(decodedCookie))
  }

  /** The banner for a reply that did not succeed. */
  function FailureNotice<T>(reply: Reply<T>, transportMessage: string): Notice
    requires !reply.Succeeded?
  {
    match reply
    case Refused(m) => Notice(m, Error)
    case TransportFailure => Notice(transportMessage, Error)
  }

  // ---------------------------------------------------------------- load

  /** `loadTasksWithNotification`, up to sending: a no-op while a load is in
      flight; otherwise the flag is raised and `GET /api/tasks` is sent. The
      cache is not touched. */
  function StartLoad(s: ClientState, decodedCookie: string): (st: Step)
    ensures st.state.tasks == s.tasks && st.notice == None
    ensures s.isLoading ==> st == Step(s, None, None)
    ensures !s.isLoading ==> st.state.isLoading && st.request.Some? && st.request.value.endpoint == GetTasks
    ensures st.request.Some? ==> st.request.value.csrfToken == Csrf.CsrfToken(decodedCookie)
  {
    if s.isLoading then Step(s, None, None)
    else Step(s.(isLoading := true), Some(MakeRequest(GetTasks, decodedCookie)), None)
  }

  /** The load callbacks as evidently intended, that is with the parameter of
      `loadTasksWithNotification` named apart from the banner function: on
      success the cache becomes the server's list (and a banner is shown only
      when asked for); on a refusal or a transport failure the cache stays and
      an error banner is shown. The `complete` callback lowers the flag
      whatever happened. */
  function FinishLoad(s: ClientState, reply: Reply<seq<Task>>, showNotification: bool): (st: Step)
    ensures !st.state.isLoading && st.request == None
    ensures reply.Succeeded? ==> st.state.tasks == reply.value
    ensures !reply.Succeeded? ==> st.state.tasks == s.tasks
    ensures st.notice.Some? <==> !reply.Succeeded? || showNotification
    ensures st.notice.Some? ==> (st.notice.value.severity == Error <==> !reply.Succeeded?)
  {
    var done := s.(isLoading := false);
    match reply
    case Succeeded(tasks, _) =>
      Step(done.(tasks := tasks), None,
           if showNotification then Some(Notice(RefreshedMessage, Success)) else None)
    case Refused(m) => Step(done, None, Some(Notice(LoadRefusedPrefix + m, Error)))
    case TransportFailure => Step(done, None, Some(Notice(LoadFailedMessage, Error)))
  }

  /** The load callbacks as written. The parameter `showNotification` hides
      the banner function of the same name, so every banner call in the
      callbacks calls a boolean and throws a `TypeError`: no banner appears,
      and since jQuery runs `complete` only after `success` or `error` has
      returned, the flag is not lowered either. On success the new list is
      already cached when the throw comes. Only a success with no banner asked
      for runs to `complete`. */
  function FinishLoadAsWritten(s: ClientState, reply: Reply<seq<Task>>, showNotification: bool): (st: Step)
    ensures st.request == None && st.notice == None
    ensures reply.Succeeded? ==> st.state.tasks == reply.value
    ensures !reply.Succeeded? ==> st.state.tasks == s.tasks
    ensures reply.Succeeded? && !showNotification ==> !st.state.isLoading
    ensures !reply.Succeeded? || showNotification ==> st.state.isLoading == s.isLoading
  {
    var cached := if reply.Succeeded? then s.(tasks := reply.value) else s;
    var throws := !reply.Succeeded? || showNotification;
    Step(if throws then cached else cached.(isLoading := false), None, None)
  }

  /** While a load is in flight, the callbacks as written agree with the
      intended ones exactly on a success with no banner asked for. */
  lemma FinishLoadAsWrittenDiffers(s: ClientState, reply: Reply<seq<Task>>, showNotification: bool)
    requires s.isLoading
    ensures FinishLoadAsWritten(s, reply, showNotification) == FinishLoad(s, reply, showNotification)
      <==> reply.Succeeded? && !showNotification
  {
  }

  /** The silent page-load refresh (`loadTasks`) meeting a refusal: the code
      as written shows no banner and leaves the flag up, where the intended
      callbacks show the error and lower it. */
  lemma LoadRefusalExample(message: string)
    ensures var s := ClientState([], true);
      && FinishLoadAsWritten(s, Refused(message), false) == Step(s, None, None)
      && FinishLoad(s, Refused(message), false)
         == Step(ClientState([], false), None, Some(Notice(LoadRefusedPrefix + message, Error)))
  {
  }

  /** Everything that can happen to the client besides the reply to a load:
      starting a load, and submitting or receiving the reply to an add, an
      update or a delete. */
  datatype Event =
    | LoadStarted(cookie: string)
    | AddSubmitted(input: string, cookie: string)
    | AddReplied(added: Reply<Task>)
    | UpdateSubmitted(id: int, input: string, cookie: string)
    | UpdateReplied(id: int, updated: Reply<Task>)
    | DeleteSubmitted(id: int, confirmed: bool, cookie: string)
    | DeleteReplied(id: int, deleted: Reply<()>)

  /** The transition an event makes. Only starting a load from an idle client
      touches the flag or sends a GET. */
  function Apply(s: ClientState, e: Event): (st: Step)
    ensures !e.LoadStarted? ==> st.state.isLoading == s.isLoading
    ensures s.isLoading ==> st.state.isLoading
    ensures st.request.Some? && st.request.value.endpoint == GetTasks <==> e.LoadStarted? && !s.isLoading
  {
    match e
    case LoadStarted(c) => StartLoad(s, c)
    case AddSubmitted(input, c) => SubmitAdd(s, input, c)
    case AddReplied(r) => ReceiveAdd(s, r)
    case UpdateSubmitted(id, input, c) => SubmitUpdate(s, id, input, c)
    case UpdateReplied(id, r) => ReceiveUpdate(s, id, r)
    case DeleteSubmitted(id, confirmed, c) => SubmitDelete(s, id, confirmed, c)
    case DeleteReplied(id, r) => ReceiveDelete(s, id, r)
  }

  /** The state after a run of events. */
  function Run(s: ClientState, events: seq<Event>): ClientState
    decreases |events|
  {
    if |events| == 0 then s else Run(Apply(s, events[0]).state, events[1..])
  }

  /** How many `GET /api/tasks` requests a run of events sends. */
  function LoadsSent(s: ClientState, events: seq<Event>): nat
    decreases |events|
  {
    if |events| == 0 then 0
    else
      var st := Apply(s, events[0]);
      (if st.request.Some? && st.request.value.endpoint == GetTasks then 1 else 0)
        + LoadsSent(st.state, events[1..])
  }

  /** With the flag up and no load reply to come, the flag stays up and no
      load is ever sent again. */
  lemma {:induction false} StuckLoadStaysStuck(s: ClientState, events: seq<Event>)
    requires s.isLoading
    ensures Run(s, events).isLoading
    ensures LoadsSent(s, events) == 0
    decreases |events|
  {
    if |events| > 0 {
      StuckLoadStaysStuck(Apply(s, events[0]).state, events[1..]);
    }
  }

  /** With the callbacks as written, a load from an idle client that is
      refused, fails, or asks for a banner leaves the flag up; after that no
      event ever sends a load again, and every later load is a no-op. */
  lemma FailedLoadWedges(s: ClientState, cookie: string, reply: Reply<seq<Task>>, showNotification: bool,
                         events: seq<Event>, laterCookie: string)
    requires !s.isLoading
    requires !reply.Succeeded? || showNotification
    ensures var wedged := FinishLoadAsWritten(StartLoad(s, cookie).state, reply, showNotification).state;
      && wedged.isLoading
      && LoadsSent(wedged, events) == 0
      && StartLoad(Run(wedged, events), laterCookie).request == None
  {
    var wedged := FinishLoadAsWritten(StartLoad(s, cookie).state, reply, showNotification).state;
    StuckLoadStaysStuck(wedged, events);
  }

  /** A second load started while one is in flight sends nothing. */
  lemma LoadIsGuarded(s: ClientState, cookie1: string, cookie2: string)
    ensures var first := StartLoad(s, cookie1);
      StartLoad(first.state, cookie2).request == None
  {
  }

  /** A whole load from an idle client: exactly one GET goes out, the flag is
      up while it is in flight and down afterwards, and the cache ends as the
      server's list on success and as before otherwise. */
  lemma LoadCycle(s: ClientState, cookie: string, reply: Reply<seq<Task>>, showNotification: bool)
    requires !s.isLoading
    ensures var sent := StartLoad(s, cookie);
      var done := FinishLoad(sent.state, reply, showNotification);
      && sent.request == Some(Request(GetTasks, Csrf.CsrfToken(cookie)))
      && sent.state.isLoading
      && done.state == ClientState(if reply.Succeeded? then reply.value else s.tasks, false)
  {
  }

  // ---------------------------------------------------------------- add

  /** `addTaskAjax`, up to sending: blank text sends nothing and warns;
      otherwise the trimmed text is posted. The cache is not touched. */
  function SubmitAdd(s: ClientState, input: string, decodedCookie: string): (st: Step)
    ensures st.state == s
    ensures st.request.None? <==> IsBlank(input)
    ensures st.request.None? ==> st.notice == Some(EmptyDescriptionWarning)
    ensures st.request.Some? ==>
      && st.notice == None
      && st.request.value.endpoint.PostTask?
      && st.request.value.endpoint.description == Trim(input)
      && st.request.value.endpoint.description != []
      && st.request.value.csrfToken == Csrf.CsrfToken(decodedCookie)
  {
    var description := Trim(input);
    if description == [] then Step(s, None, Some(EmptyDescriptionWarning))
    else Step(s, Some(MakeRequest(PostTask(description), decodedCookie)), None)
  }

  /** The add callbacks: a successful reply puts the new task in front of the
      unchanged old list; anything else leaves the cache alone and shows an
      error banner. */
  function ReceiveAdd(s: ClientState, reply: Reply<Task>): (st: Step)
    ensures st.request == None && st.state.isLoading == s.isLoading
    ensures reply.Succeeded? ==>
      && |st.state.tasks| == |s.tasks| + 1
      && st.state.tasks[0] == reply.value
      && st.state.tasks[1..] == s.tasks
      && st.notice == Some(Notice(reply.message, Success))
    ensures !reply.Succeeded? ==> st.state == s && st.notice.Some? && st.notice.value.severity == Error
  {
    match reply
    case Succeeded(task, m) => Step(s.(tasks := Prepend(s.tasks, task)), None, Some(Notice(m, Success)))
    case _ => Step(s, None, Some(FailureNotice(reply, AddFailedMessage)))
  }

  // ---------------------------------------------------------------- update

  /** `updateTaskAjax`, up to sending: the same blank-text guard as add;
      otherwise the trimmed text is put to the task's URL. */
  function SubmitUpdate(s: ClientState, id: int, input: string, decodedCookie: string): (st: Step)
    ensures st.state == s
    ensures st.request.None? <==> IsBlank(input)
    ensures st.request.None? ==> st.notice == Some(EmptyDescriptionWarning)
    ensures st.request.Some? ==>
      && st.notice == None
      && st.request.value.endpoint == PutTask(id, Trim(input))
      && st.request.value.csrfToken == Csrf.CsrfToken(decodedCookie)
      && Trim(input) != []
  {
    var description := Trim(input);
    if description == [] then Step(s, None, Some(EmptyDescriptionWarning))
    else Step(s, Some(MakeRequest(PutTask(id, description), decodedCookie)), None)
  }

  /** The update callbacks: a successful reply replaces the first cached task
      with the id by the returned task (and changes nothing if none has the
      id); anything else leaves the cache alone and shows an error banner. */
  function ReceiveUpdate(s: ClientState, id: int, reply: Reply<Task>): (st: Step)
    ensures st.request == None && st.state.isLoading == s.isLoading
    ensures |st.state.tasks| == |s.tasks|
    ensures reply.Succeeded? ==> st.notice == Some(Notice(reply.message, Success))
    ensures reply.Succeeded? && !HasId(s.tasks, id) ==> st.state == s
    ensures reply.Succeeded? ==> forall i :: FirstWithId(s.tasks, id, i) ==>
      && st.state.tasks[i] == reply.value
      && forall k :: 0 <= k < |s.tasks| && k != i ==> st.state.tasks[k] == s.tasks[k]
    ensures !reply.Succeeded? ==> st.state == s && st.notice.Some? && st.notice.value.severity == Error
  {
    match reply
    case Succeeded(task, m) => Step(s.(tasks := ReplaceFirst(s.tasks, id, task)), None, Some(Notice(m, Success)))
    case _ => Step(s, None, Some(FailureNotice(reply, UpdateFailedMessage)))
  }

  // ---------------------------------------------------------------- delete

  /** `deleteTaskAjax`, up to sending: nothing happens unless the user
      confirms; then the DELETE is sent. */
  function SubmitDelete(s: ClientState, id: int, confirmed: bool, decodedCookie: string): (st: Step)
    ensures st.state == s
    ensures st.request.Some? <==> confirmed
    ensures !confirmed ==> st.notice == None
    ensures confirmed ==> st.request.value.endpoint == DeleteTask(id) && st.notice == None
    ensures confirmed ==> st.request.value.csrfToken == Csrf.CsrfToken(decodedCookie)
  {
    if !confirmed then Step(s, None, None)
    else Step(s, Some(MakeRequest(DeleteTask(id), decodedCookie)), None)
  }

  /** The delete callbacks: a successful reply drops every cached task with
      the id; anything else leaves the cache alone and shows an error banner. */
  function ReceiveDelete(s: ClientState, id: int, reply: Reply<()>): (st: Step)
    ensures st.request == None && st.state.isLoading == s.isLoading
    ensures reply.Succeeded? ==> st.notice == Some(Notice(reply.message, Success))
    ensures reply.Succeeded? ==> forall t :: t in st.state.tasks <==> t in s.tasks && t.id != id
    ensures !reply.Succeeded? ==> st.state == s && st.notice.Some? && st.notice.value.severity == Error
  {
    match reply
    case Succeeded(_, m) => Step(s.(tasks := RemoveId(s.tasks, id)), None, Some(Notice(m, Success)))
    case _ => Step(s, None, Some(FailureNotice(reply, DeleteFailedMessage)))
  }

  // ---------------------------------------------------------------- properties

  /** Unique ids survive every reply, given that the server hands out a fresh
      id on create and keeps the id on update. */
  lemma RepliesKeepUniqueIds(s: ClientState, id: int, added: Reply<Task>, updated: Reply<Task>, deleted: Reply<()>)
    requires UniqueIds(s.tasks)
    requires added.Succeeded? ==> !HasId(s.tasks, added.value.id)
    requires updated.Succeeded? ==> updated.value.id == id
    ensures UniqueIds(ReceiveAdd(s, added).state.tasks)
    ensures UniqueIds(ReceiveUpdate(s, id, updated).state.tasks)
    ensures UniqueIds(ReceiveDelete(s, id, deleted).state.tasks)
  {
    if added.Succeeded? {
      PrependKeepsUniqueIds(s.tasks, added.value);
    }
    if updated.Succeeded? {
      ReplaceFirstKeepsUniqueIds(s.tasks, id, updated.value);
    }
    if deleted.Succeeded? {
      RemoveIdKeepsUniqueIds(s.tasks, id);
    }
  }

  /** A successful delete keeps the surviving tasks in their cached order:
      deleting from a cache made of two parts deletes from each part. */
  lemma DeleteKeepsOrder(before: seq<Task>, after: seq<Task>, id: int, message: string, isLoading: bool)
    ensures ReceiveDelete(ClientState(before + after, isLoading), id, Succeeded((), message)).state.tasks
      == RemoveId(before, id) + RemoveId(after, id)
  {
    RemoveIdAppend(before, after, id);
  }

  /** With unique ids, a confirmed and successful delete of a cached task
      shortens the cache by one and keeps every other task in order. */
  lemma DeleteRemovesExactlyOne(s: ClientState, i: int, message: string)
    requires UniqueIds(s.tasks) && 0 <= i < |s.tasks|
    ensures var after := ReceiveDelete(s, s.tasks[i].id, Succeeded((), message)).state.tasks;
      after == s.tasks[..i] + s.tasks[i + 1..]
  {
    RemoveUniqueId(s.tasks, s.tasks[i].id, i);
  }

  /** Updating task 1 from "A" to "B" with the server echoing the new task. */
  lemma UpdateExample(message: string)
    ensures var s := ClientState([Task(1, "A")], false);
      ReceiveUpdate(s, 1, Succeeded(Task(1, "B"), message)).state.tasks == [Task(1, "B")]
  {
    assert FindIndex([Task(1, "A")], 1) == 0;
  }
}
