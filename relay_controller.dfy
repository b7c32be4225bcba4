/** The relay on GPIO 17 (server/services/relay_controller.py).

    The relay is a gpiozero `OutputDevice` built with `active_high=False`;
    the model keeps its logical value (what `on()` and `off()` set) and not
    the pin voltage, which the library derives from it. `control_relay(True)`
    calls `off()` and reports "ON"; `control_relay(False)` calls `on()` and
    reports "OFF": the reported state is the inverse of the logical value. */
module RelayController {
  import opened Wrappers

  /** A call on the device: `relay.on()` or `relay.off()`. */
  datatype Command = On | Off

  /** The logical value a call leaves the device with. */
  function ValueAfter(c: Command): bool {
    c == On
  }

  /** The logical value after a series of calls that took effect, in order. */
  function Replay(initial: bool, calls: seq<Command>): bool
    decreases |calls|
  {
    if calls == [] then initial else Replay(ValueAfter(calls[0]), calls[1..])
  }

  /** Each call sets an absolute level: after a non-empty series of calls the
      value is the one the last call sets, whatever came before. */
  lemma {:induction false} LastCallWins(initial: bool, calls: seq<Command>)
    requires calls != []
    ensures Replay(initial, calls) == ValueAfter(calls[|calls| - 1])
    decreases |calls|
  {
    if |calls| > 1 {
      LastCallWins(ValueAfter(calls[0]), calls[1..]);
    }
  }

  /** Repeating a call changes nothing. */
  lemma RepeatedCallIdempotent(initial: bool, calls: seq<Command>, c: Command)
    ensures Replay(initial, calls + [c, c]) == Replay(initial, calls + [c])
  {
    LastCallWins(initial, calls + [c, c]);
    LastCallWins(initial, calls + [c]);
  }

  /** The call `control_relay(state)` makes: `off()` for True, `on()` for
      False, so the logical value it sets is the negation of `state`. */
  function CommandFor(state: bool): (c: Command)
    ensures ValueAfter(c) == !state
  {
    if state then Off else On
  }

  /** The dictionary `control_relay` returns. */
  type Response = map<string, string>

  /** What `control_relay(state)` returns when the driver call raised with
      `fault` (Some message) or completed (None): "success" with the requested
      state spelled "ON" or "OFF", or "error" with the exception's message.
      The status is never empty. */
  function ControlResponse(state: bool, fault: Option<string>): (r: Response)
    ensures "status" in r && r["status"] != ""
    ensures r["status"] == "success" <==> fault.None?
    ensures fault.None? ==> r.Keys == {"status", "state"} && r["state"] == (if state then "ON" else "OFF")
    ensures fault.Some? ==> r.Keys == {"status", "message"} && r["status"] == "error"
                            && r["message"] == fault.value
  {
    match fault
    case None => map["status" := "success", "state" := if state then "ON" else "OFF"]
    case Some(message) => map["status" := "error", "message" := message]
  }

  /** On success the reported state is "ON" exactly when the call left the
      device's logical value off, whatever calls came before. */
  lemma ReportedStateInverted(state: bool, earlier: seq<Command>, initial: bool)
    ensures ControlResponse(state, None)["state"] == "ON"
            <==> !Replay(initial, earlier + [CommandFor(state)])
  {
    LastCallWins(initial, earlier + [CommandFor(state)]);
  }

  /** The process-wide relay device. */
  class Relay {
    /** gpiozero's logical value: true after `on()`, false after `off()`. */
    var value: bool
    /** The `on()`/`off()` calls that took effect, oldest first. */
    ghost var history: seq<Command>

    ghost predicate Valid()
      reads this
    {
      value == Replay(false, history)
    }

    /** Lines 30-36: created with `initial_value=False`, then `off()`. */
    constructor ()
      ensures Valid() && history == [Off] && !value
    {
      value := false;
      history := [];
      new;
      var raised := Switch(Off, None);
    }

    /** `relay.on()` or `relay.off()`. A driver exception (`fault`) is passed
        back and leaves the device as it was. */
    method Switch(c: Command, fault: Option<string>) returns (raised: Option<string>)
      requires Valid()
      modifies this
      ensures Valid() && raised == fault
      ensures fault.None? ==> history == old(history) + [c] && value == ValueAfter(c)
      ensures fault.Some? ==> history == old(history) && value == old(value)
    {
      if fault.Some? {
        return fault;
      }
      value := ValueAfter(c);
      LastCallWins(false, history + [c]);
      history := history + [c];
      raised := None;
    }

    /** `control_relay(state)`: `off()` for True and `on()` for False; any
        driver exception becomes an "error" dictionary instead of
        propagating. */
    method ControlRelay(state: bool, fault: Option<string>) returns (result: Response)
      requires Valid()
      modifies this
      ensures Valid()
      ensures result == ControlResponse(state, fault)
      ensures fault.None? ==> history == old(history) + [CommandFor(state)] && value == !state
      ensures fault.Some? ==> history == old(history) && value == old(value)
    {
      var raised := Switch(CommandFor(state), fault);
      result := ControlResponse(state, raised);
    }
  }
}
