/**
 * `handleRequest` (server.js:50-99): one Slack slash-command request. The
 * token and team are checked first; then the 2.5-second fallback is armed,
 * the text is split into a command and its arguments, and the command is
 * dispatched. Every reply goes through the request's `respond` closure.
 */
module Handler {
  import opened Options
  import opened Strings
  import opened Tokenizer
  import opened UserMapping
  import opened Roster
  import opened Gate

  const Usage: string := "Usage:\n`help`: Prints this message.\n`register <your splitwise name or id>`: associate your slack profile with your splitwise account."
  const TooSlow: string := "Sorry, splitwise is taking too long to respond."
  const NotFound: string := "Couldn't find that splitwise user."
  const Success: string := "Success!"
  const WentWrong: string := "Sorry, something went wrong."
  const NotValid: string := "Sorry, that is not a valid command."

  /** The configured Slack validation token and team id. */
  datatype Config = Config(validationToken: string, teamId: string)

  /** The fields of the form-encoded request body the handler reads. */
  datatype Request = Request(token: string, teamId: string, userId: string, text: string)

  /**
   * What the outside world does during the request: the group roster fetched
   * from `get_group` and the `details` text of the mapping expense fetched
   * from `get_expense` (each `None` when its request fails), whether the
   * `update_expense` post succeeds, and whether the 2.5-second timer fires
   * before those requests settle.
   */
  datatype Upstream = Upstream(
    roster: Option<seq<Member>>,
    mappingDetails: Option<string>,
    saveSucceeds: bool,
    deadlineFirst: bool)

  predicate Authorized(config: Config, req: Request)
  {
    req.token == config.validationToken && req.teamId == config.teamId
  }

  /**
   * Handles one request; `sent` is what reached `res.send`, and `posted` the
   * `details` text given to `update_expense`, if any.
   */
  method HandleRequest(config: Config, req: Request, upstream: Upstream)
    returns (sent: seq<string>, posted: Option<string>)
    requires upstream.mappingDetails.Some? ==> WellFormed(upstream.mappingDetails.value)
    ensures |sent| <= 1
    // A forged or foreign request is dropped without a reply or a write.
    ensures !Authorized(config, req) ==> sent == [] && posted == None
    // Any other request gets exactly one reply.
    ensures Authorized(config, req) ==> |sent| == 1
    ensures Authorized(config, req) && Command(req.text) == "help" ==>
      sent == [Usage] && posted == None
    ensures Authorized(config, req) && Command(req.text) !in {"help", "register"} ==>
      sent == [NotValid] && posted == None
    // register: the fallback wins when the timer fires first.
    ensures Authorized(config, req) && Command(req.text) == "register" && upstream.deadlineFirst ==>
      sent == [TooSlow]
    ensures (Authorized(config, req) && Command(req.text) == "register" &&
             (upstream.roster.None? || upstream.mappingDetails.None?)) ==>
      posted == None && (!upstream.deadlineFirst ==> sent == [WentWrong])
    ensures (Authorized(config, req) && Command(req.text) == "register" &&
             upstream.roster.Some? && upstream.mappingDetails.Some? &&
             Find(upstream.roster.value, Args(req.text)).None?) ==>
      posted == None && (!upstream.deadlineFirst ==> sent == [NotFound])
    ensures (Authorized(config, req) && Command(req.text) == "register" &&
             upstream.roster.Some? && upstream.mappingDetails.Some? &&
             Find(upstream.roster.value, Args(req.text)).Some?) ==>
      var member := Find(upstream.roster.value, Args(req.text)).value;
      var updated := Assoc(Parse(upstream.mappingDetails.value), req.userId, NatToString(member.id));
      && posted.Some? && SerialisesTo(posted.value, updated)
      && (!upstream.deadlineFirst ==> sent == [if upstream.saveSucceeds then Success else WentWrong])
  {
    var gate := new Responder();
    posted := None;

    if req.token != config.validationToken {
      sent := gate.sent;
      return;
    }
    if req.teamId != config.teamId {
      sent := gate.sent;
      return;
    }

    var command := Command(req.text);
    var args := Args(req.text);

    if command == "help" {
      gate.Respond(Usage);
    } else if command == "register" {
      if upstream.deadlineFirst {
        gate.Respond(TooSlow);
      }
      if upstream.roster.None? || upstream.mappingDetails.None? {
        gate.Respond(WentWrong);
      } else {
        var userMapping := Parse(upstream.mappingDetails.value);
        var member := Find(upstream.roster.value, args);
        if member.None? {
          gate.Respond(NotFound);
        } else {
          var details := Save(Assoc(userMapping, req.userId, NatToString(member.value.id)));
          posted := Some(details);
          if upstream.saveSucceeds {
            gate.Respond(Success);
          } else {
            gate.Respond(WentWrong);
          }
        }
      }
    } else {
      gate.Respond(NotValid);
    }

    // The timer firing after the reply: one more call, which sends nothing.
    gate.Respond(TooSlow);
    sent := gate.sent;
  }

  /**
   * What `register` posts can be loaded again: when the fetched text is well
   * formed and the Slack user id holds no `=` or line break, the posted text
   * is well formed; and when no other key of the loaded mapping held the
   * member's id, loading the posted text binds that id to the user.
   */
  lemma RegisterWriteReloads(details: string, userId: string, id: nat, posted: string)
    requires WellFormed(details) && '=' !in userId && '\n' !in userId
    requires SerialisesTo(posted, Assoc(Parse(details), userId, NatToString(id)))
    ensures WellFormed(posted)
    ensures (forall k :: k in Parse(details) && k != userId ==> Parse(details)[k] != NatToString(id)) ==>
      NatToString(id) in Parse(posted) && Parse(posted)[NatToString(id)] == userId
  {
    var loaded := Parse(details);
    var idText := NatToString(id);
    DigitsHoldNoSeparator(idText);
    AssocClean(loaded, userId, idText);
    SavedWellFormed(Assoc(loaded, userId, idText), posted);
    if forall k :: k in loaded && k != userId ==> loaded[k] != idText {
      RegisterThenLoad(loaded, userId, idText, posted);
    }
  }
}
