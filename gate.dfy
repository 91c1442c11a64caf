/**
 * The `respond` closure of one request (server.js:51-60): a `responded` flag
 * captured by the closure, so that only the first call sends its message on
 * the HTTP response; every later call, the 2.5-second fallback included, does
 * nothing.
 */
module Gate {

  class Responder {
    /** The captured `responded` flag. */
    var responded: bool
    /** The messages handed to `res.send`, in order. */
    var sent: seq<string>

    /** A message has been sent exactly when the flag is set, and never more than one. */
    ghost predicate Valid()
      reads this
    {
      |sent| <= 1 && (responded <==> sent != [])
    }

    constructor ()
      ensures Valid() && !responded && sent == []
    {
      responded := false;
      sent := [];
    }

    /** `respond(message)`: sends `message` if nothing was sent yet, and otherwise changes nothing. */
    method Respond(message: string)
      requires Valid()
      modifies this
      ensures Valid() && responded
      ensures sent == if old(responded) then old(sent) else [message]
    {
      if !responded {
        responded := true;
        sent := sent + [message];
      }
    }
  }

  /**
   * Any sequence of `respond` calls on a fresh closure sends at most one
   * message, and it is the argument of the first call.
   */
  method RespondSequence(calls: seq<string>) returns (sent: seq<string>)
    ensures sent == if calls == [] then [] else [calls[0]]
  {
    var gate := new Responder();
    for i := 0 to |calls|
      invariant gate.Valid()
      invariant gate.sent == if i == 0 then [] else [calls[0]]
    {
      gate.Respond(calls[i]);
    }
    sent := gate.sent;
  }
}
