/**
 The service's event handler `time_svc_ev` and its registration
 `mgos_bt_service_time_init`. The handler keeps one piece of state, the handle
 the stack assigned to the Current Time value attribute; it learns it from the
 table-created event and serves a read only when the read names that handle
 at offset 0. Sending the response is modelled as the handler's output.
 */
module TimeService {
  import opened Wrappers
  import opened Integers
  import opened CurrentTime
  import opened GattDb

  type Handle = uint16

  /** The connection the handler answers on: the GATT interface and connection id of the session. */
  datatype Session = Session(gattIf: uint8, connId: uint16)

  /** The events the handler tells apart; every other event kind is `Other`. */
  datatype Event =
    | CreateAttrTab(handles: seq<Handle>)                   // handles assigned to the table, in table order
    | Read(handle: Handle, offset: uint16, transId: uint32) // a read request
    | Other

  /** The source indexes the creation event's handles at the value attribute's position unconditionally. */
  predicate WellFormed(ev: Event)
  {
    ev.CreateAttrTab? ==> |ev.handles| > ValueAttrIndex
  }

  /** What the clock gives at the moment of a read: the UTC breakdown (None when it fails) and the 1/256 fraction. */
  datatype Clock = Clock(breakdown: Option<Tm>, s256: uint8)

  /** Status code of a successful response. */
  const GattOk := 0

  /** The response handed to the stack's send primitive. */
  datatype Response = Response(gattIf: uint8, connId: uint16, transId: uint32, status: int,
                               handle: Handle, offset: uint16, value: seq<uint8>)

  /** The handler's effect on one event: the new cached handle, the consumed flag, the response sent if any. */
  datatype Step = Step(cachedHandle: Handle, consumed: bool, response: Option<Response>)

  /**
   One event handled with cached handle `cached`. A creation event caches the
   value attribute's handle. A read is served, exactly when it names the
   cached handle at offset 0 and the breakdown succeeds, with one response
   carrying the read's handle and transaction, offset 0, status OK and the
   10 bytes of the current-time record. Everything else is not consumed.
   */
  function Dispatch(cached: Handle, s: Session, ev: Event, now: Clock): (r: Step)
    requires WellFormed(ev)
    ensures ev.CreateAttrTab? ==> r.cachedHandle == ev.handles[ValueAttrIndex]
    ensures !ev.CreateAttrTab? ==> r.cachedHandle == cached
    ensures r.consumed <==> r.response.Some?
    ensures r.consumed <==> ev.Read? && ev.handle == cached && ev.offset == 0 && now.breakdown.Some?
    ensures r.response.Some? ==>
      var rsp := r.response.value;
      && rsp.gattIf == s.gattIf && rsp.connId == s.connId
      && rsp.transId == ev.transId && rsp.status == GattOk
      && rsp.handle == ev.handle && rsp.offset == 0
      && |rsp.value| == 10
      && Parse(rsp.value) == Some(BuildRecord(now.breakdown.value, now.s256))
  {
    match ev
    case CreateAttrTab(handles) => Step(handles[ValueAttrIndex], false, None)
    case Read(handle, offset, transId) =>
      if handle != cached || offset != 0 then Step(cached, false, None)
      else if now.breakdown.None? then Step(cached, false, None)
      else
        var record := BuildRecord(now.breakdown.value, now.s256);
        Step(cached, true, Some(Response(s.gattIf, s.connId, transId, GattOk, handle, offset, Serialize(record))))
    case Other => Step(cached, false, None)
  }

  /** The handler with its module-level state `current_time_ah`. */
  class TimeSvc {
    var currentTimeAh: Handle

    /** The C static starts zero-initialised. */
    constructor ()
      ensures currentTimeAh == 0
    {
      currentTimeAh := 0;
    }

    /** `time_svc_ev`: handles one event, returning whether it was consumed and the response it sent. */
    method HandleEvent(s: Session, ev: Event, now: Clock) returns (consumed: bool, response: Option<Response>)
      requires WellFormed(ev)
      modifies this
      ensures Step(currentTimeAh, consumed, response) == Dispatch(old(currentTimeAh), s, ev, now)
    {
      consumed, response := false, None;
      match ev {
        case CreateAttrTab(handles) =>
          currentTimeAh := handles[ValueAttrIndex];
        case Read(handle, offset, transId) =>
          if handle != currentTimeAh || offset != 0 {
            return;
          }
          if now.breakdown.None? {
            return;
          }
          var record := BuildRecord(now.breakdown.value, now.s256);
          var value := Serialize(record);
          response := Some(Response(s.gattIf, s.connId, transId, GattOk, handle, offset, value));
          consumed := true;
        case Other =>
      }
    }
  }

  // ---- the handler over a sequence of events, as the stack delivers them ----

  /** One delivery: the session, the event and the clock at that moment. */
  datatype Input = Input(session: Session, event: Event, clock: Clock)

  predicate AllWellFormed(inputs: seq<Input>)
  {
    forall i :: 0 <= i < |inputs| ==> WellFormed(inputs[i].event)
  }

  predicate NoCreate(inputs: seq<Input>)
  {
    forall i :: 0 <= i < |inputs| ==> !inputs[i].event.CreateAttrTab?
  }

  /** The cached handle after a run, and every response sent during it, in order. */
  datatype RunResult = RunResult(cachedHandle: Handle, sent: seq<Response>)

  /** The handler applied to each input in turn, starting from cached handle `cached`. */
  function Run(cached: Handle, inputs: seq<Input>): (r: RunResult)
    requires AllWellFormed(inputs)
    ensures |r.sent| <= |inputs|
    ensures forall k :: 0 <= k < |r.sent| ==>
      |r.sent[k].value| == CurTimeRespSize && r.sent[k].status == GattOk && r.sent[k].offset == 0
    decreases |inputs|
  {
    if inputs == [] then RunResult(cached, [])
    else
      var x := inputs[0];
      var step := Dispatch(cached, x.session, x.event, x.clock);
      var rest := Run(step.cachedHandle, inputs[1..]);
      RunResult(rest.cachedHandle, (if step.response.Some? then [step.response.value] else []) + rest.sent)
  }

  /**
   The handle of the most recent creation event, or `init` when there was
   none; defined from the end of the run, independently of `Run`.
   */
  function LastCreated(init: Handle, inputs: seq<Input>): Handle
    requires AllWellFormed(inputs)
    decreases |inputs|
  {
    if inputs == [] then init
    else
      var last := inputs[|inputs| - 1].event;
      if last.CreateAttrTab? then last.handles[ValueAttrIndex]
      else LastCreated(init, inputs[..|inputs| - 1])
  }

  /** Running the handler one input further. */
  lemma {:induction false} RunSnoc(cached: Handle, inputs: seq<Input>, x: Input)
    requires AllWellFormed(inputs) && WellFormed(x.event)
    ensures AllWellFormed(inputs + [x])
    ensures var before := Run(cached, inputs);
      var step := Dispatch(before.cachedHandle, x.session, x.event, x.clock);
      Run(cached, inputs + [x])
        == RunResult(step.cachedHandle, before.sent + (if step.response.Some? then [step.response.value] else []))
    decreases |inputs|
  {
    assert AllWellFormed(inputs + [x]) by {
      forall i | 0 <= i < |inputs + [x]| ensures WellFormed((inputs + [x])[i].event) {
        if i < |inputs| { assert (inputs + [x])[i] == inputs[i]; }
      }
    }
    if inputs != [] {
      var y := inputs[0];
      var step := Dispatch(cached, y.session, y.event, y.clock);
      assert (inputs + [x])[1..] == inputs[1..] + [x];
      RunSnoc(step.cachedHandle, inputs[1..], x);
    }
  }

  /** The cached handle is always that of the most recent creation event (or the initial one). */
  lemma {:induction false} RunCachesLastCreated(cached: Handle, inputs: seq<Input>)
    requires AllWellFormed(inputs)
    ensures Run(cached, inputs).cachedHandle == LastCreated(cached, inputs)
    decreases |inputs|
  {
    if inputs != [] {
      var front := inputs[..|inputs| - 1];
      var x := inputs[|inputs| - 1];
      assert inputs == front + [x];
      assert AllWellFormed(front) by {
        forall i | 0 <= i < |front| ensures WellFormed(front[i].event) {
          assert front[i] == inputs[i];
        }
      }
      RunSnoc(cached, front, x);
      RunCachesLastCreated(cached, front);
    }
  }

  /** Without a creation event, every response answers a read of the cached handle. */
  lemma {:induction false} RunServesOnlyCachedHandle(cached: Handle, inputs: seq<Input>)
    requires AllWellFormed(inputs) && NoCreate(inputs)
    ensures Run(cached, inputs).cachedHandle == cached
    ensures forall k :: 0 <= k < |Run(cached, inputs).sent| ==> Run(cached, inputs).sent[k].handle == cached
    decreases |inputs|
  {
    if inputs != [] {
      assert AllWellFormed(inputs[1..]) && NoCreate(inputs[1..]) by {
        forall i | 0 <= i < |inputs[1..]|
          ensures WellFormed(inputs[1..][i].event) && !inputs[1..][i].event.CreateAttrTab?
        {
          assert inputs[1..][i] == inputs[i + 1];
        }
      }
      RunServesOnlyCachedHandle(cached, inputs[1..]);
    }
  }

  /**
   Reads that arrive before any creation event, for handles other than the
   zero-initialised cache (0x0000 is not a valid attribute handle), are never
   served: nothing is sent.
   */
  lemma {:induction false} ReadBeforeCreateNotServed(inputs: seq<Input>)
    requires AllWellFormed(inputs) && NoCreate(inputs)
    requires forall i :: 0 <= i < |inputs| && inputs[i].event.Read? ==> inputs[i].event.handle != 0
    ensures Run(0, inputs).sent == []
  {
    RunNoMatchingRead(0, inputs);
  }

  /** Responses are sent only for reads that name the handle cached at the time. */
  lemma {:induction false} RunNoMatchingRead(cached: Handle, inputs: seq<Input>)
    requires AllWellFormed(inputs) && NoCreate(inputs)
    requires forall i :: 0 <= i < |inputs| && inputs[i].event.Read? ==> inputs[i].event.handle != cached
    ensures Run(cached, inputs).sent == []
    decreases |inputs|
  {
    if inputs != [] {
      assert AllWellFormed(inputs[1..]) && NoCreate(inputs[1..]) by {
        forall i | 0 <= i < |inputs[1..]|
          ensures WellFormed(inputs[1..][i].event) && !inputs[1..][i].event.CreateAttrTab?
        {
          assert inputs[1..][i] == inputs[i + 1];
        }
      }
      RunNoMatchingRead(cached, inputs[1..]);
    }
  }

  // ---- registration ----

  /** What registration hands to the stack: the attribute table and its entry count (the handler is implied). */
  datatype Registration = Registration(table: seq<AttrDesc>, count: nat)

  datatype InitResult = InitResult(ok: bool, registered: Option<Registration>)

  /**
   `mgos_bt_service_time_init`: registers the three-entry table with the
   handler when the service is enabled in the configuration, and reports
   success either way.
   */
  function Init(enable: bool): (r: InitResult)
    ensures r.ok
    ensures r.registered.Some? <==> enable
    ensures r.registered.Some? ==>
      && r.registered.value.table == TimeSvcGattDb()
      && r.registered.value.count == |r.registered.value.table| == 3
  {
    if enable then InitResult(true, Some(Registration(TimeSvcGattDb(), |TimeSvcGattDb()|)))
    else InitResult(true, None)
  }
}
