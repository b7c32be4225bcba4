/** The relay request handler (`set_relay_state` in server/api/relay.py).

    Every request first switches the relay off and then applies the
    requested state; the response is the second call's dictionary. The
    handler raises an HTTP 500 only when that dictionary's status is falsy,
    which `control_relay` never produces, so a driver failure is answered as
    an ordinary response carrying status "error". */
module RelayApi {
  import opened Wrappers
  import opened RelayController

  const InternalServerError: int := 500

  /** The handler's outcome: the dictionary it returns, or the HTTPException it raises. */
  datatype HttpResponse = Ok(body: Response) | HttpError(status: int, detail: string)

  /** Lines 28-31 as written: `if not result["status"]` raises with the
      message, otherwise the dictionary is returned. A status is falsy
      exactly when it is the empty string. */
  function CheckResult(result: Response): (r: HttpResponse)
    requires "status" in result
    requires result["status"] == "" ==> "message" in result
    ensures r.HttpError? <==> result["status"] == ""
    ensures r.Ok? ==> r.body == result
    ensures r.HttpError? ==> r == HttpError(InternalServerError, result["message"])
  {
    if result["status"] == "" then HttpError(InternalServerError, result["message"]) else Ok(result)
  }

  /** `set_relay_state`: `control_relay(False)`, whose result is discarded,
      then `control_relay(requested)`, whose result is checked and returned.
      `firstFault` and `secondFault` say whether each driver call raises.
      With no fault the driver sees `on()` and then the requested call, and
      the device ends at the value the requested state alone determines. */
  method SetRelayState(relay: Relay, requested: bool, firstFault: Option<string>, secondFault: Option<string>)
    returns (response: HttpResponse)
    requires relay.Valid()
    modifies relay
    ensures relay.Valid()
    ensures response == Ok(ControlResponse(requested, secondFault))
    ensures relay.history == old(relay.history)
                             + (if firstFault.None? then [On] else [])
                             + (if secondFault.None? then [CommandFor(requested)] else [])
    ensures secondFault.None? ==> relay.value == !requested
    ensures firstFault.None? && secondFault.Some? ==> relay.value
  {
    var ignored := relay.ControlRelay(false, firstFault);
    var result := relay.ControlRelay(requested, secondFault);
    response := CheckResult(result);
  }

  /** The check at line 28 never fires: whatever the driver does, the
      handler returns `control_relay`'s dictionary, an error one included. */
  lemma CheckNeverFires(state: bool, fault: Option<string>)
    ensures CheckResult(ControlResponse(state, fault)) == Ok(ControlResponse(state, fault))
  {
  }

  /** The check the handler evidently intends: anything but "success" is
      answered with HTTP 500 and the dictionary's message. */
  function CheckResultIntended(result: Response): (r: HttpResponse)
    requires "status" in result
    requires result["status"] != "success" ==> "message" in result
    ensures r.HttpError? <==> result["status"] != "success"
    ensures r.Ok? ==> r.body == result
    ensures r.HttpError? ==> r.status == InternalServerError && r.detail == result["message"]
  {
    if result["status"] != "success" then HttpError(InternalServerError, result["message"]) else Ok(result)
  }

  /** With the intended check, a driver failure on the requested call is
      answered with HTTP 500 carrying the exception's message, and success
      with the dictionary. */
  lemma IntendedCheckReportsFaults(state: bool, fault: Option<string>)
    ensures fault.Some? ==> CheckResultIntended(ControlResponse(state, fault))
                            == HttpError(InternalServerError, fault.value)
    ensures fault.None? ==> CheckResultIntended(ControlResponse(state, fault))
                            == Ok(ControlResponse(state, fault))
  {
  }
}
