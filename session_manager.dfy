/**
 * The session registry of backend/manager.py: one Jupyter server per user
 * (Manager), one kernel per notebook object on it (Server), and each
 * kernel's state and message dispatch (Kernel). Every `await` is one
 * sequential step; where a coroutine suspends on an asyncio Event, the
 * model splits it into the call that finds the entry pending and the
 * resumption after the event is set. What the code sends or calls outside
 * the process (HTTP requests, subprocess signals, notification callbacks)
 * is recorded in a log field of the object that does it.
 */
module SessionManager {
  import opened Wrappers
  import opened JsonValue

  // ---------------------------------------------------------------------
  // The correlation id of an execute request
  // ---------------------------------------------------------------------

  /** `cell_id + "_" + uuid4().hex`: the msg_id `run` puts in its header. */
  function MsgId(cellId: string, hex: string): string
  {
    cellId + "_" + hex
  }

  /** `s.split("_")[0]`: the text before the first `_`, or all of s when it has none. */
  function FirstField(s: string): (r: string)
    ensures r <= s
    ensures '_' !in r
    ensures r == s || s[|r|] == '_'
    decreases |s|
  {
    if s == [] || s[0] == '_' then [] else [s[0]] + FirstField(s[1..])
  }

  /** The reader recovers the cell id from the msg_id exactly when the cell id has no `_`. */
  lemma CorrelationRoundTrip(cellId: string, hex: string)
    ensures FirstField(MsgId(cellId, hex)) == cellId <==> '_' !in cellId
  {
    if '_' !in cellId {
      FirstFieldPlain(cellId, "_" + hex);
      assert FirstField("_" + hex) == [];
      assert MsgId(cellId, hex) == cellId + ("_" + hex);
    }
  }

  /** A cell id with a `_` comes back cut at its first `_`. */
  lemma CorrelationTruncates(cellId: string, hex: string)
    requires '_' in cellId
    ensures FirstField(MsgId(cellId, hex)) == FirstField(cellId)
    ensures |FirstField(MsgId(cellId, hex))| < |cellId|
  {
    FirstFieldCut(cellId, "_" + hex);
    assert MsgId(cellId, hex) == cellId + ("_" + hex);
  }

  /** Text without `_` passes through to whatever follows it. */
  lemma {:induction false} FirstFieldPlain(c: string, t: string)
    requires '_' !in c
    ensures FirstField(c + t) == c + FirstField(t)
    decreases |c|
  {
    if c == [] {
      assert c + t == t;
    } else {
      assert (c + t)[0] == c[0] && (c + t)[1..] == c[1..] + t;
      FirstFieldPlain(c[1..], t);
      assert c == [c[0]] + c[1..];
    }
  }

  /** Text with a `_` decides the first field by itself. */
  lemma {:induction false} FirstFieldCut(c: string, t: string)
    requires '_' in c
    ensures FirstField(c + t) == FirstField(c)
    decreases |c|
  {
    if c[0] != '_' {
      assert (c + t)[0] == c[0] && (c + t)[1..] == c[1..] + t;
      FirstFieldCut(c[1..], t);
    }
  }

  // ---------------------------------------------------------------------
  // Kernel messages
  // ---------------------------------------------------------------------

  /** One websocket message: a text frame holding parsed JSON, a ping, or any other frame (and whether the socket is closed). */
  datatype WsMessage = TextMessage(data: Json) | PingMessage | OtherMessage(closed: bool)

  /** What one message does: set the state, forward an output, nothing, or end the reader. */
  datatype Effect = SetState(state: Json) | Forward(cellId: string, output: Object) | Ignore | StopReading

  /** The exceptions that end the reader: indexing something that is not an object, a missing key, `split` on a non-string, an unexpected frame. */
  datatype DispatchError = NotAnObject(what: string) | MissingKey(key: string) | NotAString(key: string) | UnexpectedMessage

  /** The message types forwarded as outputs. */
  predicate IsOutputType(mt: Json)
  {
    mt == Str("execute_result") || mt == Str("display_data") || mt == Str("stream") || mt == Str("error")
  }

  /** `o[key]` on a value that has to be a JSON object. */
  function Field(o: Json, what: string, key: string): (r: Result<Json, DispatchError>)
    ensures r.Success? <==> o.Obj? && key in o.fields
    ensures r.Success? ==> r.value == o.fields[key]
  {
    if !o.Obj? then Failure(NotAnObject(what))
    else if key !in o.fields then Failure(MissingKey(key))
    else Success(o.fields[key])
  }

  /** The dispatch of one message by the websocket reader. */
  function Handle(m: WsMessage): Result<Effect, DispatchError>
  {
    match m
    case PingMessage => Success(Ignore)
    case OtherMessage(closed) => if closed then Success(StopReading) else Failure(UnexpectedMessage)
    case TextMessage(data) =>
      var mt := Field(data, "message", "msg_type");
      if mt.Failure? then Failure(mt.error)
      else if mt.value == Str("status") then
        var content := Field(data, "message", "content");
        if content.Failure? then Failure(content.error)
        else
          var st := Field(content.value, "content", "execution_state");
          if st.Failure? then Failure(st.error) else Success(SetState(st.value))
      else if IsOutputType(mt.value) then
        var content := Field(data, "message", "content");
        if content.Failure? then Failure(content.error)
        else if !content.value.Obj? then Failure(NotAnObject("content"))
        else
          var output := content.value.fields["output_type" := mt.value];
          var parent := Field(data, "message", "parent_header");
          if parent.Failure? then Failure(parent.error)
          else
            var msgId := Field(parent.value, "parent_header", "msg_id");
            if msgId.Failure? then Failure(msgId.error)
            else if !msgId.value.Str? then Failure(NotAString("msg_id"))
            else Success(Forward(FirstField(msgId.value.s), output))
      else Success(Ignore)
  }

  /** A well-formed status message sets the state to its execution_state, and only a status message sets the state. */
  lemma HandleStatus(m: WsMessage)
    ensures (Handle(m).Success? && Handle(m).value.SetState?)
            <==> (&& m.TextMessage? && m.data.Obj?
                  && "msg_type" in m.data.fields && m.data.fields["msg_type"] == Str("status")
                  && "content" in m.data.fields && m.data.fields["content"].Obj?
                  && "execution_state" in m.data.fields["content"].fields)
    ensures Handle(m).Success? && Handle(m).value.SetState? ==> Handle(m).value.state == m.data.fields["content"].fields["execution_state"]
  {
  }

  /**
   * An output message is forwarded with output_type set to its message
   * type, to the cell named by its parent msg_id; only the four output
   * types are forwarded.
   */
  lemma HandleOutput(m: WsMessage)
    ensures (Handle(m).Success? && Handle(m).value.Forward?)
            <==> (&& m.TextMessage? && m.data.Obj?
                  && "msg_type" in m.data.fields && IsOutputType(m.data.fields["msg_type"])
                  && "content" in m.data.fields && m.data.fields["content"].Obj?
                  && "parent_header" in m.data.fields && m.data.fields["parent_header"].Obj?
                  && "msg_id" in m.data.fields["parent_header"].fields
                  && m.data.fields["parent_header"].fields["msg_id"].Str?)
    ensures Handle(m).Success? && Handle(m).value.Forward? ==>
              && Handle(m).value.output == m.data.fields["content"].fields["output_type" := m.data.fields["msg_type"]]
              && Handle(m).value.cellId == FirstField(m.data.fields["parent_header"].fields["msg_id"].s)
  {
  }

  /** A text message of any other type is read and ignored. */
  lemma HandleIgnores(m: WsMessage)
    requires m.TextMessage? && m.data.Obj? && "msg_type" in m.data.fields
    requires m.data.fields["msg_type"] != Str("status") && !IsOutputType(m.data.fields["msg_type"])
    ensures Handle(m) == Success(Ignore)
  {
  }

  /** The reader stops only on a closed socket, and fails on any other frame that is neither text nor ping. */
  lemma HandleStops(m: WsMessage)
    ensures Handle(m) == Success(StopReading) <==> m == OtherMessage(true)
    ensures m.OtherMessage? && !m.closed ==> Handle(m) == Failure(UnexpectedMessage)
  {
  }

  /** The reply to a request `run` sent for a cell without `_` in its id is forwarded to that cell. */
  lemma ReplyReachesCell(cellId: string, hex: string, msgType: Json, content: Object, rest: Object)
    requires '_' !in cellId && IsOutputType(msgType)
    ensures var data := rest["msg_type" := msgType]["content" := Obj(content)]["parent_header" := Obj(map["msg_id" := Str(MsgId(cellId, hex))])];
            Handle(TextMessage(Obj(data))) == Success(Forward(cellId, content["output_type" := msgType]))
  {
    CorrelationRoundTrip(cellId, hex);
  }

  // ---------------------------------------------------------------------
  // Kernel
  // ---------------------------------------------------------------------

  /** A call of the state or output callback. */
  datatype Note = StateChanged(oid: string, state: Json) | Output(oid: string, cellId: string, output: Object)

  /** An execute_request sent on the shell channel. */
  datatype Request = Execute(msgId: string, code: string, silent: bool)

  /** The HTTP calls a kernel makes to its server. */
  datatype HttpCall = InterruptCall(kernelId: string) | DeleteCall(kernelId: string)

  class Kernel {
    const oid: string
    const id: string
    /** `self.state`. */
    var state: Json
    /** The state callback has been swapped for the no-op one. */
    var silenced: bool
    /** The calls of the state and output callbacks, in order. */
    var notes: seq<Note>
    /** `self.ws` is set. */
    var wsOpen: bool
    /** The requests sent on the websocket, in order. */
    var sent: seq<Request>
    /** The `run` calls suspended on ws_wait until the websocket opens. */
    var waiting: seq<Request>
    var calls: seq<HttpCall>

    /** A new kernel is "starting", has notified nothing and has no websocket yet. */
    constructor(oid: string, id: string)
      ensures this.oid == oid && this.id == id
      ensures state == Str("starting") && !silenced && notes == []
      ensures !wsOpen && sent == [] && waiting == [] && calls == []
    {
      this.oid := oid;
      this.id := id;
      state := Str("starting");
      silenced := false;
      notes := [];
      wsOpen := false;
      sent := [];
      waiting := [];
      calls := [];
    }

    /**
     * The websocket task connects, sends the silent initialisation request
     * first, then sets ws, which releases the suspended `run` calls in the
     * order they arrived.
     */
    method Open(initHex: string, initCode: string)
      requires !wsOpen
      modifies this
      ensures wsOpen && waiting == []
      ensures sent == old(sent) + [Execute(initHex, initCode, true)] + old(waiting)
      ensures state == old(state) && silenced == old(silenced) && notes == old(notes) && calls == old(calls)
    {
      sent := sent + [Execute(initHex, initCode, true)] + waiting;
      waiting := [];
      wsOpen := true;
    }

    /** `run`: an execute request tagged with the cell id, sent now or once the websocket is open. */
    method Run(cellId: string, hex: string, code: string)
      modifies this
      ensures wsOpen ==> sent == old(sent) + [Execute(MsgId(cellId, hex), code, false)] && waiting == old(waiting)
      ensures !wsOpen ==> waiting == old(waiting) + [Execute(MsgId(cellId, hex), code, false)] && sent == old(sent)
      ensures wsOpen == old(wsOpen) && state == old(state) && silenced == old(silenced) && notes == old(notes) && calls == old(calls)
    {
      var r := Execute(MsgId(cellId, hex), code, false);
      if wsOpen {
        sent := sent + [r];
      } else {
        waiting := waiting + [r];
      }
    }

    /**
     * One message of the reader loop: a status sets the state and calls the
     * state callback (a no-op once closed); an output is always forwarded.
     * The result says whether the loop goes on.
     */
    method Receive(m: WsMessage) returns (r: Result<bool, DispatchError>)
      modifies this
      ensures Handle(m).Failure? ==> r == Failure(Handle(m).error) && state == old(state) && notes == old(notes)
      ensures Handle(m).Success? ==> r == Success(!Handle(m).value.StopReading?)
      ensures Handle(m).Success? && Handle(m).value.SetState? ==>
                && state == Handle(m).value.state
                && notes == old(notes) + (if silenced then [] else [StateChanged(oid, state)])
      ensures Handle(m).Success? && Handle(m).value.Forward? ==>
                state == old(state) && notes == old(notes) + [Output(oid, Handle(m).value.cellId, Handle(m).value.output)]
      ensures Handle(m).Success? && (Handle(m).value.Ignore? || Handle(m).value.StopReading?) ==>
                state == old(state) && notes == old(notes)
      ensures silenced == old(silenced) && wsOpen == old(wsOpen) && sent == old(sent) && waiting == old(waiting) && calls == old(calls)
    {
      var h := Handle(m);
      if h.Failure? {
        return Failure(h.error);
      }
      match h.value {
        case SetState(st) =>
          state := st;
          if !silenced {
            notes := notes + [StateChanged(oid, state)];
          }
        case Forward(cellId, output) =>
          notes := notes + [Output(oid, cellId, output)];
        case Ignore =>
        case StopReading =>
      }
      r := Success(!h.value.StopReading?);
    }

    /** `close`: notify "off" through the callback in place, swap in the no-op one, then ask the server to delete the kernel; the state is left as it was. */
    method Close()
      modifies this
      ensures silenced && state == old(state)
      ensures notes == old(notes) + (if old(silenced) then [] else [StateChanged(oid, Str("off"))])
      ensures calls == old(calls) + [DeleteCall(id)]
      ensures wsOpen == old(wsOpen) && sent == old(sent) && waiting == old(waiting)
    {
      var wasSilenced := silenced;
      silenced := true;
      if !wasSilenced {
        notes := notes + [StateChanged(oid, Str("off"))];
      }
      calls := calls + [DeleteCall(id)];
    }

    /** `interrupt`: one POST to the kernel's interrupt endpoint. */
    method Interrupt()
      modifies this
      ensures calls == old(calls) + [InterruptCall(id)]
      ensures state == old(state) && silenced == old(silenced) && notes == old(notes)
      ensures wsOpen == old(wsOpen) && sent == old(sent) && waiting == old(waiting)
    {
      calls := calls + [InterruptCall(id)];
    }
  }

  // ---------------------------------------------------------------------
  // Server: the kernels of one user's Jupyter server
  // ---------------------------------------------------------------------

  /** A registry entry: registered and waiting for the kernel to be created, or holding it. */
  datatype KernelSlot = Starting | Running(kernel: Kernel)

  /** What a call of `kernel(oid)` finds: the stored kernel, a pending entry to wait on, or nothing, so that it registers and creates one. */
  datatype KernelLookup = Found(kernel: Kernel) | Pending | Create

  /** What a call suspended on a pending entry gets once the entry's event is set. */
  datatype AwaitError =
    | Retried        // the entry was removed meanwhile: `return self.kernel(oid)` hands back an un-awaited coroutine
    | NoKernelYet    // a new pending entry took its place: `self.kernels[oid]["kernel"]` raises KeyError

  class Server {
    const port: int
    const username: string
    /** `self.kernels`, by object id. */
    var kernels: map<string, KernelSlot>
    /** The aiohttp session is open. */
    var sessionOpen: bool

    constructor(port: int, username: string)
      ensures this.port == port && this.username == username
      ensures kernels == map[] && sessionOpen
    {
      this.port := port;
      this.username := username;
      kernels := map[];
      sessionOpen := true;
    }

    /**
     * `kernel(oid)` up to its first suspension: a stored kernel is returned
     * as it is, a pending entry is waited on, and an unknown id is
     * registered as pending before the kernel is requested, so no second
     * call creates another.
     */
    method GetKernel(oid: string) returns (r: KernelLookup)
      modifies this
      ensures oid in old(kernels) ==> kernels == old(kernels)
      ensures oid in old(kernels) && old(kernels)[oid].Running? ==> r == Found(old(kernels)[oid].kernel)
      ensures oid in old(kernels) && old(kernels)[oid].Starting? ==> r == Pending
      ensures oid !in old(kernels) ==> r == Create && kernels == old(kernels)[oid := Starting]
      ensures sessionOpen == old(sessionOpen)
    {
      if oid in kernels {
        match kernels[oid]
        case Running(k) => r := Found(k);
        case Starting => r := Pending;
      } else {
        kernels := kernels[oid := Starting];
        r := Create;
      }
    }

    /**
     * The creating call resumes with the id the Jupyter server assigned:
     * the new kernel ("starting", its websocket not yet open) is stored in
     * the entry and returned.
     */
    method KernelCreated(oid: string, kernelId: string) returns (k: Kernel)
      requires oid in kernels && kernels[oid] == Starting
      modifies this
      ensures fresh(k) && k.oid == oid && k.id == kernelId
      ensures k.state == Str("starting") && !k.silenced && k.notes == [] && !k.wsOpen && k.sent == [] && k.waiting == [] && k.calls == []
      ensures kernels == old(kernels)[oid := Running(k)]
      ensures sessionOpen == old(sessionOpen)
    {
      k := new Kernel(oid, kernelId);
      kernels := kernels[oid := Running(k)];
    }

    /** A call that waited on a pending entry resumes once the entry's event is set. */
    method KernelAwaited(oid: string) returns (r: Result<Kernel, AwaitError>)
      ensures oid !in kernels ==> r == Failure(Retried)
      ensures oid in kernels && kernels[oid].Starting? ==> r == Failure(NoKernelYet)
      ensures oid in kernels && kernels[oid].Running? ==> r == Success(kernels[oid].kernel)
    {
      if oid !in kernels {
        r := Failure(Retried);
      } else if kernels[oid].Starting? {
        r := Failure(NoKernelYet);
      } else {
        r := Success(kernels[oid].kernel);
      }
    }

    /**
     * `close_kernel`: nothing for an unknown id; otherwise the entry goes
     * first, then the kernel is closed.
     */
    method CloseKernel(oid: string)
      modifies this, if oid in kernels && kernels[oid].Running? then {kernels[oid].kernel} else {}
      ensures kernels == old(kernels) - {oid}
      ensures sessionOpen == old(sessionOpen)
      ensures oid in old(kernels) && old(kernels)[oid].Running? ==>
                var k := old(kernels)[oid].kernel;
                && k.silenced && k.state == old(k.state)
                && k.notes == old(k.notes) + (if old(k.silenced) then [] else [StateChanged(k.oid, Str("off"))])
                && k.calls == old(k.calls) + [DeleteCall(k.id)]
    {
      if oid !in kernels {
        return;
      }
      var slot := kernels[oid];
      kernels := kernels - {oid};
      if slot.Running? {
        slot.kernel.Close();
      }
    }

    /** `interrupt_kernel`: nothing for an unknown id, an interrupt of the stored kernel, a wait on a pending entry. */
    method InterruptKernel(oid: string) returns (waits: bool)
      modifies if oid in kernels && kernels[oid].Running? then {kernels[oid].kernel} else {}
      ensures waits <==> oid in kernels && kernels[oid].Starting?
      ensures oid in kernels && kernels[oid].Running? ==>
                var k := kernels[oid].kernel;
                && k.calls == old(k.calls) + [InterruptCall(k.id)]
                && k.state == old(k.state) && k.notes == old(k.notes)
    {
      waits := false;
      if oid in kernels {
        match kernels[oid]
        case Running(k) => k.Interrupt();
        case Starting => waits := true;
      }
    }

    /** `state`: "off" for an unknown id, the stored kernel's state, None while the entry is pending (the call waits). */
    method State(oid: string) returns (r: Option<Json>)
      ensures oid !in kernels ==> r == Some(Str("off"))
      ensures oid in kernels && kernels[oid].Running? ==> r == Some(kernels[oid].kernel.state)
      ensures oid in kernels && kernels[oid].Starting? ==> r == None
    {
      if oid !in kernels {
        r := Some(Str("off"));
      } else if kernels[oid].Running? {
        r := Some(kernels[oid].kernel.state);
      } else {
        r := None;
      }
    }

    /** `close` closes the HTTP session only: the kernels stay registered and are neither closed nor notified. */
    method Close()
      modifies this
      ensures !sessionOpen && kernels == old(kernels)
    {
      sessionOpen := false;
    }
  }

  // ---------------------------------------------------------------------
  // Manager: one Jupyter server per user
  // ---------------------------------------------------------------------

  /** `self.servers[username]`: the process handle once spawned, the Server once the port is open; no Server means pending. */
  datatype ServerSlot = ServerSlot(proc: Option<int>, server: Option<Server>)

  /** What the manager does outside the process: a state callback, a signal or a wait on a process, closing a server's session. */
  datatype Action = Notify(oid: string, state: string) | Terminate(pid: int) | AwaitExit(pid: int) | CloseSession(username: string)

  /**
   * What `get` finds: a ready server, a pending entry to wait on, or
   * nothing; then it either suspends on the "starting" notification
   * (`Notifying`) or registers at once and goes on to spawn (`Spawn`).
   */
  datatype ServerLookup = Ready(server: Server) | Waiting | Notifying | Spawn

  /** `self.servers[username][...]` after the entry was removed: KeyError. */
  datatype RegistryError = EntryRemoved(username: string)

  class Manager {
    var servers: map<string, ServerSlot>
    var closing: bool
    var actions: seq<Action>

    constructor()
      ensures servers == map[] && !closing && actions == []
    {
      servers := map[];
      closing := false;
      actions := [];
    }

    /**
     * `get` up to its first suspension: a ready server is returned, a
     * pending one waited on. For an unknown user with a notify_oid, the
     * "starting" notification is sent and the call suspends on it before
     * anything is registered, so another `get` for the same user can pass
     * the membership test meanwhile; without a notify_oid the pending
     * entry is registered at once.
     */
    method Get(username: string, notifyOid: Option<string>) returns (r: ServerLookup)
      modifies this
      ensures closing == old(closing)
      ensures username in old(servers) ==> servers == old(servers) && actions == old(actions)
      ensures username in old(servers) && old(servers)[username].server.Some? ==> r == Ready(old(servers)[username].server.value)
      ensures username in old(servers) && old(servers)[username].server.None? ==> r == Waiting
      ensures username !in old(servers) && notifyOid.Some? ==>
                && r == Notifying
                && servers == old(servers)
                && actions == old(actions) + [Notify(notifyOid.value, "starting")]
      ensures username !in old(servers) && notifyOid.None? ==>
                && r == Spawn
                && servers == old(servers)[username := ServerSlot(None, None)]
                && actions == old(actions)
    {
      if username in servers {
        var slot := servers[username];
        if slot.server.Some? {
          r := Ready(slot.server.value);
        } else {
          r := Waiting;
        }
        return;
      }
      if notifyOid.Some? {
        actions := actions + [Notify(notifyOid.value, "starting")];
        r := Notifying;
        return;
      }
      servers := servers[username := ServerSlot(None, None)];
      r := Spawn;
    }

    /**
     * A `get` that suspended on the notification resumes: it registers a
     * fresh pending entry without looking again, so an entry another
     * `get` registered meanwhile, with its process handle, is replaced.
     */
    method Notified(username: string)
      modifies this
      ensures servers == old(servers)[username := ServerSlot(None, None)]
      ensures closing == old(closing) && actions == old(actions)
    {
      servers := servers[username := ServerSlot(None, None)];
    }

    /**
     * The spawn returned process pid: while closing, the process is
     * terminated and not recorded; otherwise it is recorded in the entry
     * (KeyError when the entry was removed meanwhile).
     */
    method Spawned(username: string, pid: int) returns (r: Result<(), RegistryError>)
      modifies this
      ensures closing == old(closing)
      ensures old(closing) ==> r.Success? && servers == old(servers) && actions == old(actions) + [Terminate(pid)]
      ensures !old(closing) && username !in old(servers) ==> r == Failure(EntryRemoved(username)) && servers == old(servers) && actions == old(actions)
      ensures !old(closing) && username in old(servers) ==>
                && r.Success? && actions == old(actions)
                && servers == old(servers)[username := old(servers)[username].(proc := Some(pid))]
    {
      if closing {
        actions := actions + [Terminate(pid)];
        return Success(());
      }
      if username !in servers {
        return Failure(EntryRemoved(username));
      }
      servers := servers[username := servers[username].(proc := Some(pid))];
      r := Success(());
    }

    /**
     * After `wait_until_open`, whether or not the port ever opened: the
     * Server for the port is stored in the entry and returned (KeyError
     * when the entry was removed meanwhile).
     */
    method PortWaited(username: string, port: int, portOpened: bool) returns (r: Result<Server, RegistryError>)
      modifies this
      ensures closing == old(closing) && actions == old(actions)
      ensures username !in old(servers) ==> r == Failure(EntryRemoved(username)) && servers == old(servers)
      ensures username in old(servers) ==>
                && r.Success? && fresh(r.value)
                && r.value.port == port && r.value.username == username && r.value.kernels == map[] && r.value.sessionOpen
                && servers == old(servers)[username := old(servers)[username].(server := Some(r.value))]
    {
      if username !in servers {
        return Failure(EntryRemoved(username));
      }
      var s := new Server(port, username);
      servers := servers[username := servers[username].(server := Some(s))];
      r := Success(s);
    }

    /** A call of `get` that waited on a pending entry resumes once the entry's event is set. */
    method GetAwaited(username: string) returns (r: Result<Server, RegistryError>)
      ensures username in servers && servers[username].server.Some? ==> r == Success(servers[username].server.value)
      ensures !(username in servers && servers[username].server.Some?) ==> r == Failure(EntryRemoved(username))
    {
      if username in servers && servers[username].server.Some? {
        r := Success(servers[username].server.value);
      } else {
        r := Failure(EntryRemoved(username));
      }
    }

    /**
     * `close_server`: nothing for an unknown user; otherwise the entry goes
     * first, then the process is terminated and waited for, then the
     * server's session is closed.
     */
    method CloseServer(username: string)
      modifies this, if username in servers && servers[username].server.Some? then {servers[username].server.value} else {}
      ensures servers == old(servers) - {username} && closing == old(closing)
      ensures username !in old(servers) ==> actions == old(actions)
      ensures username in old(servers) ==>
                var slot := old(servers)[username];
                && actions == old(actions)
                              + (if slot.proc.Some? then [Terminate(slot.proc.value), AwaitExit(slot.proc.value)] else [])
                              + (if slot.server.Some? then [CloseSession(username)] else [])
                && (slot.server.Some? ==> !slot.server.value.sessionOpen && slot.server.value.kernels == old(slot.server.value.kernels))
    {
      if username !in servers {
        return;
      }
      var slot := servers[username];
      servers := servers - {username};
      if slot.proc.Some? {
        actions := actions + [Terminate(slot.proc.value), AwaitExit(slot.proc.value)];
      }
      if slot.server.Some? {
        slot.server.value.Close();
        actions := actions + [CloseSession(username)];
      }
    }
  
    /**
     * `close_kernel`: nothing for a user without an entry; a wait on a
     * pending entry; otherwise the kernel is closed on the user's server.
     */
    method CloseKernel(username: string, oid: string) returns (waits: bool)
      modifies if username in servers && servers[username].server.Some? then {servers[username].server.value} else {}
      modifies if username in servers && servers[username].server.Some?
                  && oid in servers[username].server.value.kernels && servers[username].server.value.kernels[oid].Running?
               then {servers[username].server.value.kernels[oid].kernel} else {}
      ensures waits <==> username in servers && servers[username].server.None?
      ensures username in servers && servers[username].server.Some? ==>
                var s := servers[username].server.value;
                && s.kernels == old(s.kernels) - {oid}
                && (oid in old(s.kernels) && old(s.kernels)[oid].Running? ==>
                      var k := old(s.kernels)[oid].kernel;
                      && k.silenced
                      && k.notes == old(k.notes) + (if old(k.silenced) then [] else [StateChanged(k.oid, Str("off"))])
                      && k.calls == old(k.calls) + [DeleteCall(k.id)])
    {
      waits := false;
      if username in servers {
        var slot := servers[username];
        if slot.server.None? {
          waits := true;
        } else {
          slot.server.value.CloseKernel(oid);
        }
      }
    }

    /** The process ids recorded in the registry. */
    ghost function Pids(): set<int>
      reads this
    {
      set u | u in servers && servers[u].proc.Some? :: servers[u].proc.value
    }

    /** The Server objects recorded in the registry. */
    ghost function Servers(): set<Server>
      reads this
    {
      set u | u in servers && servers[u].server.Some? :: servers[u].server.value
    }

    /**
     * `close`: set closing, signal every recorded process, and only then
     * wait for each process and close each server's session. The entries
     * stay in the registry.
     */
    method Close() returns (ghost terms: seq<Action>, ghost waits: seq<Action>)
      modifies this, Servers()
      ensures closing && servers == old(servers)
      ensures actions == old(actions) + terms + waits
      ensures forall i :: 0 <= i < |terms| ==> terms[i].Terminate? && terms[i].pid in Pids()
      ensures forall u :: u in servers && servers[u].proc.Some? ==> Terminate(servers[u].proc.value) in terms
      ensures forall i :: 0 <= i < |waits| ==> waits[i].AwaitExit? || waits[i].CloseSession?
      ensures forall u :: u in servers && servers[u].proc.Some? ==> AwaitExit(servers[u].proc.value) in waits
      ensures forall u :: u in servers && servers[u].server.Some? ==> CloseSession(u) in waits && !servers[u].server.value.sessionOpen
      ensures forall s :: s in Servers() ==> s.kernels == old(s.kernels)
    {
      closing := true;
      terms := TerminateAll();
      waits := AwaitAll();
    }

    /** The first loop of `close`: signal every recorded process. */
    method TerminateAll() returns (ghost terms: seq<Action>)
      modifies this
      ensures servers == old(servers) && closing == old(closing)
      ensures actions == old(actions) + terms
      ensures forall i :: 0 <= i < |terms| ==> terms[i].Terminate? && terms[i].pid in Pids()
      ensures forall u :: u in servers && servers[u].proc.Some? ==> Terminate(servers[u].proc.value) in terms
    {
      terms := [];
      var keys := servers.Keys;
      while keys != {}
        invariant keys <= servers.Keys
        invariant servers == old(servers) && closing == old(closing)
        invariant actions == old(actions) + terms
        invariant forall i :: 0 <= i < |terms| ==> terms[i].Terminate? && terms[i].pid in Pids()
        invariant forall u :: u in servers && u !in keys && servers[u].proc.Some? ==> Terminate(servers[u].proc.value) in terms
        decreases |keys|
      {
        var u :| u in keys;
        if servers[u].proc.Some? {
          var a := Terminate(servers[u].proc.value);
          actions := actions + [a];
          terms := terms + [a];
        }
        keys := keys - {u};
      }
    }

    /** The second loop of `close`: wait for every recorded process and close every server's session. */
    method AwaitAll() returns (ghost waits: seq<Action>)
      modifies this, Servers()
      ensures servers == old(servers) && closing == old(closing)
      ensures actions == old(actions) + waits
      ensures forall i :: 0 <= i < |waits| ==> waits[i].AwaitExit? || waits[i].CloseSession?
      ensures forall u :: u in servers && servers[u].proc.Some? ==> AwaitExit(servers[u].proc.value) in waits
      ensures forall u :: u in servers && servers[u].server.Some? ==> CloseSession(u) in waits && !servers[u].server.value.sessionOpen
      ensures forall s :: s in Servers() ==> s.kernels == old(s.kernels)
    {
      waits := [];
      var keys := servers.Keys;
      while keys != {}
        invariant keys <= servers.Keys
        invariant servers == old(servers) && closing == old(closing)
        invariant actions == old(actions) + waits
        invariant Waited(keys, waits)
        invariant forall s :: s in Servers() ==> s.kernels == old(s.kernels)
        decreases |keys|
      {
        var u :| u in keys;
        ghost var step;
        step, waits := AwaitOne(u, keys, waits);
        keys := keys - {u};
      }
    }

    /** What the second loop of `close` has done for every user but those still to visit: the waits it recorded and the sessions it closed. */
    ghost predicate Waited(toVisit: set<string>, waits: seq<Action>)
      reads this, Servers()
    {
      && (forall i :: 0 <= i < |waits| ==> waits[i].AwaitExit? || waits[i].CloseSession?)
      && (forall u :: u !in toVisit && u in servers && servers[u].proc.Some? ==> AwaitExit(servers[u].proc.value) in waits)
      && (forall u :: u !in toVisit && u in servers && servers[u].server.Some? ==> CloseSession(u) in waits)
      && (forall u :: u !in toVisit && u in servers && servers[u].server.Some? ==> !servers[u].server.value.sessionOpen)
    }

    /** One round of the second loop of `close`: wait for the user's process and close the server's session. */
    method AwaitOne(u: string, ghost toVisit: set<string>, ghost prior: seq<Action>) returns (ghost step: seq<Action>, ghost waits: seq<Action>)
      requires u in servers && Waited(toVisit, prior)
      modifies this, if servers[u].server.Some? then {servers[u].server.value} else {}
      ensures servers == old(servers) && closing == old(closing)
      ensures actions == old(actions) + step && waits == prior + step
      ensures step == (if servers[u].proc.Some? then [AwaitExit(servers[u].proc.value)] else [])
                      + (if servers[u].server.Some? then [CloseSession(u)] else [])
      ensures Waited(toVisit - {u}, waits)
      ensures forall s :: s in Servers() ==> s.kernels == old(s.kernels)
    {
      step := [];
      var slot := servers[u];
      if slot.proc.Some? {
        actions := actions + [AwaitExit(slot.proc.value)];
        step := step + [AwaitExit(slot.proc.value)];
      }
      if slot.server.Some? {
        slot.server.value.Close();
        actions := actions + [CloseSession(u)];
        step := step + [CloseSession(u)];
      }
      waits := prior + step;
      forall i | 0 <= i < |waits|
        ensures waits[i].AwaitExit? || waits[i].CloseSession?
      {
        if i >= |prior| {
          assert waits[i] == step[i - |prior|];
        } else {
          assert waits[i] == prior[i];
        }
      }
      forall v | v !in toVisit - {u} && v in servers && servers[v].proc.Some?
        ensures AwaitExit(servers[v].proc.value) in waits
      {
        if v == u {
          assert waits[|prior|] == AwaitExit(servers[v].proc.value);
        } else {
          assert AwaitExit(servers[v].proc.value) in prior;
        }
      }
      forall v | v !in toVisit - {u} && v in servers && servers[v].server.Some?
        ensures CloseSession(v) in waits
      {
        if v == u {
          assert waits[|waits| - 1] == CloseSession(v);
        } else {
          assert CloseSession(v) in prior;
        }
      }
      forall v | v !in toVisit - {u} && v in servers && servers[v].server.Some?
        ensures !servers[v].server.value.sessionOpen
      {
        if v != u {
          assert !old(servers[v].server.value.sessionOpen);
        }
      }
    }
}
}
