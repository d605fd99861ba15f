/**
 * The subscription routes of server.js: POST /subscribe (lines 172-216),
 * POST /unsubscribe (lines 219-231) and GET /admin/subscribers (lines
 * 235-249), over the process-wide subscribers table.
 *
 * Every call into the database or the mail transport may throw; a flag per
 * call says whether it succeeded. The insertion time comes in as `now`.
 */
module Routes {
  import opened Wrappers
  import opened EmailFormat
  import opened Registry
  import opened Responses

  const RequiredError := "A valid email is required"
  const FormatError := "Please provide a valid email format"
  const DuplicateError := "Email already subscribed"
  const SubscribeFailure := "Failed to subscribe. Try again later."
  const SubscribeThanks := "Thank you for subscribing!"
  const UnsubscribeDone := "You have been unsubscribed successfully."
  const UnsubscribeFailure := "Failed to unsubscribe. Try again later."
  const UnauthorizedError := "Unauthorized"
  const ListFailure := "Failed to fetch subscribers"

  /** Whether `isEmailSubscribed`, `addSubscriber` and the confirmation
      `sendMail` would each complete rather than throw. */
  datatype SubscribeIo = SubscribeIo(lookupOk: bool, insertOk: bool, mailOk: bool)

  /** The reply, the table afterwards, and the address a confirmation mail
      was handed to the transport for, if any. */
  datatype SubscribeResult = SubscribeResult(response: Response, table: seq<Subscriber>, confirmationTo: Option<string>)

  datatype UnsubscribeResult = UnsubscribeResult(response: Response, table: seq<Subscriber>)

  /** What POST /subscribe does: normalise, check presence, check the format,
      look for a duplicate, insert, mail. A record is added only for a valid,
      normalised address that was not yet in the table, and a 200 reply means
      it was added. */
  function SubscribeSpec(table: seq<Subscriber>, raw: Option<string>, now: int, io: SubscribeIo): (r: SubscribeResult)
    ensures r.table == table || (raw.Some? && r.table == table + [Subscriber(Normalize(raw.value), now)])
    ensures r.table != table ==>
      MatchesEmailRegex(Normalize(raw.value)) && !IsEmailSubscribed(table, Normalize(raw.value))
    ensures r.response.status == 200 ==> r.table != table
    ensures r.confirmationTo.Some? <==> r.table != table
    ensures r.response.status in {200, 400, 500}
  {
    if raw.None? then
      SubscribeResult(Response(400, Error(RequiredError)), table, None)
    else
      var email := Normalize(raw.value);
      if email == "" then
        SubscribeResult(Response(400, Error(RequiredError)), table, None)
      else if !MatchesEmailRegex(email) then
        SubscribeResult(Response(400, Error(FormatError)), table, None)
      else if !io.lookupOk then
        SubscribeResult(Response(500, Error(SubscribeFailure)), table, None)
      else if IsEmailSubscribed(table, email) then
        SubscribeResult(Response(400, Error(DuplicateError)), table, None)
      else if !io.insertOk then
        SubscribeResult(Response(500, Error(SubscribeFailure)), table, None)
      else
        var added := table + [Subscriber(email, now)];
        assert added != table by { assert |added| == |table| + 1; }
        if io.mailOk then SubscribeResult(Response(200, Success(SubscribeThanks)), added, Some(email))
        else SubscribeResult(Response(500, Error(SubscribeFailure)), added, Some(email))
  }

  /** What POST /unsubscribe does: refuse a missing or empty address, else
      delete every row with exactly the address given (not normalised), and
      answer 200 whether or not a row went. */
  function UnsubscribeSpec(table: seq<Subscriber>, raw: Option<string>, removeOk: bool): (r: UnsubscribeResult)
    ensures r.table == table || (raw.Some? && r.table == Without(table, raw.value))
    ensures r.response.status == 200 <==> raw.Some? && raw.value != "" && removeOk
    ensures r.response.status == 400 <==> raw.None? || raw.value == ""
    ensures r.response.status != 200 ==> r.table == table
    ensures r.response.status == 200 ==> r.table == Without(table, raw.value)
    ensures r.response.status == 500 ==> r.response.body == Error(UnsubscribeFailure)
    ensures r.response.status in {200, 400, 500}
  {
    if raw.None? || raw.value == "" then
      UnsubscribeResult(Response(400, Error(RequiredError)), table)
    else if !removeOk then
      UnsubscribeResult(Response(500, Error(UnsubscribeFailure)), table)
    else
      UnsubscribeResult(Response(200, Success(UnsubscribeDone)), Without(table, raw.value))
  }

  /** The process-wide state the routes share: the subscribers table. */
  class Backend {
    var subscribers: seq<Subscriber>

    /** The server starts on whatever the table already holds. */
    constructor (rows: seq<Subscriber>)
      ensures subscribers == rows
    {
      subscribers := rows;
    }

    /** `addSubscriber` (lines 78-90): one INSERT, no check of its own. */
    method AddSubscriber(email: string, now: int)
      modifies this
      ensures subscribers == old(subscribers) + [Subscriber(email, now)]
    {
      subscribers := subscribers + [Subscriber(email, now)];
    }

    /** `removeSubscriber` (lines 92-99): the DELETE, reporting whether it
        removed a row. */
    method RemoveSubscriber(email: string) returns (removed: bool)
      modifies this
      ensures subscribers == Without(old(subscribers), email)
      ensures removed <==> IsEmailSubscribed(old(subscribers), email)
    {
      var before := |subscribers|;
      subscribers := Without(subscribers, email);
      removed := |subscribers| < before;
      WithoutShrinksIffSubscribed(old(subscribers), email);
    }

    /** POST /subscribe (lines 172-216). */
    method Subscribe(raw: Option<string>, now: int, io: SubscribeIo) returns (response: Response, confirmationTo: Option<string>)
      modifies this
      ensures SubscribeResult(response, subscribers, confirmationTo) == SubscribeSpec(old(subscribers), raw, now, io)
      ensures Registered(old(subscribers)) ==> Registered(subscribers)
    {
      if Registered(subscribers) {
        SubscribeKeepsRegistered(subscribers, raw, now, io);
      }
      confirmationTo := None;
      if raw.None? {
        return Response(400, Error(RequiredError)), None;
      }
      var email := Normalize(raw.value);
      if email == "" {
        return Response(400, Error(RequiredError)), None;
      }
      if !MatchesEmailRegex(email) {
        return Response(400, Error(FormatError)), None;
      }
      if !io.lookupOk {
        return Response(500, Error(SubscribeFailure)), None;
      }
      var present := IsEmailSubscribed(subscribers, email);
      if present {
        return Response(400, Error(DuplicateError)), None;
      }
      if !io.insertOk {
        return Response(500, Error(SubscribeFailure)), None;
      }
      AddSubscriber(email, now);
      confirmationTo := Some(email);
      if !io.mailOk {
        return Response(500, Error(SubscribeFailure)), confirmationTo;
      }
      response := Response(200, Success(SubscribeThanks));
    }

    /** POST /unsubscribe (lines 219-231). */
    method Unsubscribe(raw: Option<string>, removeOk: bool) returns (response: Response)
      modifies this
      ensures UnsubscribeResult(response, subscribers) == UnsubscribeSpec(old(subscribers), raw, removeOk)
      ensures Registered(old(subscribers)) ==> Registered(subscribers)
    {
      if Registered(subscribers) {
        UnsubscribeKeepsRegistered(subscribers, raw, removeOk);
      }
      if raw.None? || raw.value == "" {
        return Response(400, Error(RequiredError));
      }
      if !removeOk {
        return Response(500, Error(UnsubscribeFailure));
      }
      var _ := RemoveSubscriber(raw.value);
      response := Response(200, Success(UnsubscribeDone));
    }

    /** GET /admin/subscribers (lines 235-249): the `x-api-key` header must be
        `!==`-equal to the configured key, an absent header and an unset key
        being the same `undefined`; only then is the table read, and the
        reply lists every row, newest first. */
    function AdminSubscribers(apiKeyHeader: Option<string>, adminKey: Option<string>, listOk: bool): (r: Response)
      reads this
      ensures r.status == 401 <==> apiKeyHeader != adminKey
      ensures r.status == 401 ==> r.body == Error(UnauthorizedError)
      ensures r.status == 200 <==> apiKeyHeader == adminKey && listOk
      ensures r.status == 200 ==>
        r.body.Listing? && NewestFirstOrder(r.body.subscribers) && multiset(r.body.subscribers) == multiset(subscribers)
      ensures r.status in {200, 401, 500}
    {
      if apiKeyHeader != adminKey then Response(401, Error(UnauthorizedError))
      else if !listOk then Response(500, Error(ListFailure))
      else Response(200, Listing(ListSubscribers(subscribers)))
    }
  }

  /** The table as the routes keep it: every address normalised (a fixed
      point of `Normalize`, by `NormalizedIsFixedPoint`) and of the accepted
      format, and no address twice. */
  ghost predicate Registered(table: seq<Subscriber>) {
    NoDuplicates(table)
    && forall i | 0 <= i < |table| :: IsNormalized(table[i].email) && MatchesEmailRegex(table[i].email)
  }

  /** Subscribe keeps the table registered. */
  lemma SubscribeKeepsRegistered(table: seq<Subscriber>, raw: Option<string>, now: int, io: SubscribeIo)
    requires Registered(table)
    ensures Registered(SubscribeSpec(table, raw, now, io).table)
  {
    var r := SubscribeSpec(table, raw, now, io);
    if r.table != table {
      var row := Subscriber(Normalize(raw.value), now);
      assert r.table == table + [row];
      RegisteredAppend(table, row);
    }
  }

  /** Appending a normalised, well-formed address that is not yet present
      keeps the table registered. */
  lemma RegisteredAppend(table: seq<Subscriber>, row: Subscriber)
    requires Registered(table)
    requires IsNormalized(row.email) && MatchesEmailRegex(row.email) && !IsEmailSubscribed(table, row.email)
    ensures Registered(table + [row])
  {
    var after := table + [row];
    SubscribedIffCounted(table, row.email);
    forall e ensures Count(after, e) <= 1 {
      CountAppend(table, row, e);
    }
    forall i | 0 <= i < |after|
      ensures IsNormalized(after[i].email) && MatchesEmailRegex(after[i].email)
    {
      if i < |table| {
        assert after[i] == table[i];
      }
    }
  }

  /** Subscribe never adds a second record for an address: if the count of
      some address grows, it was absent and is now there exactly once. */
  lemma SubscribeNeverDuplicates(table: seq<Subscriber>, raw: Option<string>, now: int, io: SubscribeIo)
    ensures forall e :: Count(SubscribeSpec(table, raw, now, io).table, e) > Count(table, e) ==>
      Count(table, e) == 0 && Count(SubscribeSpec(table, raw, now, io).table, e) == 1
  {
    var r := SubscribeSpec(table, raw, now, io);
    if r.table != table {
      var row := Subscriber(Normalize(raw.value), now);
      assert r.table == table + [row];
      assert !IsEmailSubscribed(table, row.email);
      SubscribedIffCounted(table, row.email);
      forall e | Count(r.table, e) > Count(table, e)
        ensures Count(table, e) == 0 && Count(r.table, e) == 1
      {
        CountAppend(table, row, e);
      }
    }
  }

  /** Unsubscribe keeps the table registered. */
  lemma UnsubscribeKeepsRegistered(table: seq<Subscriber>, raw: Option<string>, removeOk: bool)
    requires Registered(table)
    ensures Registered(UnsubscribeSpec(table, raw, removeOk).table)
  {
    var r := UnsubscribeSpec(table, raw, removeOk);
    if r.table != table {
      forall i | 0 <= i < |r.table|
        ensures IsNormalized(r.table[i].email) && MatchesEmailRegex(r.table[i].email)
      {
        assert r.table[i] in multiset(r.table);
        assert r.table[i] in multiset(table);
      }
    }
  }

  /** An address that is absent or empty once normalised gets 400 "A valid
      email is required"; the reply does not depend on the table or on any
      collaborator, so the table is neither read nor written. */
  lemma SubscribeRejectsRequired(t1: seq<Subscriber>, t2: seq<Subscriber>, raw: Option<string>, now: int, io1: SubscribeIo, io2: SubscribeIo)
    requires raw.None? || Normalize(raw.value) == ""
    ensures SubscribeSpec(t1, raw, now, io1) == SubscribeResult(Response(400, Error(RequiredError)), t1, None)
    ensures SubscribeSpec(t1, raw, now, io1).response == SubscribeSpec(t2, raw, now, io2).response
  {
  }

  /** A non-empty normalised address that fails the pattern gets 400 "Please
      provide a valid email format", again without the table being read. */
  lemma SubscribeRejectsFormat(t1: seq<Subscriber>, t2: seq<Subscriber>, raw: Option<string>, now: int, io1: SubscribeIo, io2: SubscribeIo)
    requires raw.Some? && Normalize(raw.value) != "" && !WellFormedEmail(Normalize(raw.value))
    ensures SubscribeSpec(t1, raw, now, io1) == SubscribeResult(Response(400, Error(FormatError)), t1, None)
    ensures SubscribeSpec(t1, raw, now, io1).response == SubscribeSpec(t2, raw, now, io2).response
  {
    RegexMeansWellFormed(Normalize(raw.value));
  }

  /** An input without an '@', or without a '.', is refused with 400 and
      leaves the table alone, whatever the database and the mailer would do. */
  lemma SubscribeRejectsUnmarked(table: seq<Subscriber>, raw: string, now: int, io: SubscribeIo)
    requires '@' !in raw || '.' !in raw
    ensures SubscribeSpec(table, Some(raw), now, io).response.status == 400
    ensures SubscribeSpec(table, Some(raw), now, io).table == table
  {
    NormalizeOfUnmarked(raw);
    if Normalize(raw) == "" {
      SubscribeRejectsRequired(table, table, Some(raw), now, io, io);
    } else {
      SubscribeRejectsFormat(table, table, Some(raw), now, io, io);
    }
  }

  /** "notanemail", "a@b" and "" are refused with 400 and leave the table
      alone. */
  lemma SubscribeRejectsExamples(table: seq<Subscriber>, raw: string, now: int, io: SubscribeIo)
    requires raw == "notanemail" || raw == "a@b" || raw == ""
    ensures SubscribeSpec(table, Some(raw), now, io).response.status == 400
    ensures SubscribeSpec(table, Some(raw), now, io).table == table
  {
    assert '@' !in raw || '.' !in raw;
    SubscribeRejectsUnmarked(table, raw, now, io);
  }

  /** A valid address whose lookup throws, or a fresh one whose insert
      throws, gets 500 "Failed to subscribe. Try again later.": the table is
      unchanged and no mail is sent. */
  lemma SubscribeStoreFailure(table: seq<Subscriber>, raw: Option<string>, now: int, io: SubscribeIo)
    requires raw.Some? && WellFormedEmail(Normalize(raw.value))
    requires !io.lookupOk || (!IsEmailSubscribed(table, Normalize(raw.value)) && !io.insertOk)
    ensures SubscribeSpec(table, raw, now, io) == SubscribeResult(Response(500, Error(SubscribeFailure)), table, None)
  {
    RegexMeansWellFormed(Normalize(raw.value));
  }

  /** An address whose normalised form is already on a row gets 400 "Email
      already subscribed" and the table stays as it is. */
  lemma SubscribeRejectsDuplicate(table: seq<Subscriber>, raw: Option<string>, now: int, io: SubscribeIo)
    requires raw.Some? && WellFormedEmail(Normalize(raw.value)) && io.lookupOk
    requires IsEmailSubscribed(table, Normalize(raw.value))
    ensures SubscribeSpec(table, raw, now, io) == SubscribeResult(Response(400, Error(DuplicateError)), table, None)
  {
    RegexMeansWellFormed(Normalize(raw.value));
  }

  /** A valid address not yet on any row, with the lookup and the insert
      succeeding, gets exactly one new row holding its normalised form, every
      earlier row kept; the confirmation is mailed to that form, and a failing
      mail turns the reply into 500 without taking the row back. */
  lemma SubscribeAddsFresh(table: seq<Subscriber>, raw: Option<string>, now: int, io: SubscribeIo)
    requires raw.Some? && WellFormedEmail(Normalize(raw.value)) && io.lookupOk && io.insertOk
    requires !IsEmailSubscribed(table, Normalize(raw.value))
    ensures SubscribeSpec(table, raw, now, io).table == table + [Subscriber(Normalize(raw.value), now)]
    ensures Count(SubscribeSpec(table, raw, now, io).table, Normalize(raw.value)) == 1
    ensures SubscribeSpec(table, raw, now, io).confirmationTo == Some(Normalize(raw.value))
    ensures SubscribeSpec(table, raw, now, io).response ==
      if io.mailOk then Response(200, Success(SubscribeThanks)) else Response(500, Error(SubscribeFailure))
  {
    var email := Normalize(raw.value);
    RegexMeansWellFormed(email);
    assert email != "";
    SubscribeInsertPath(table, raw, now, io);
    SubscribedIffCounted(table, email);
    CountAppend(table, Subscriber(email, now), email);
  }

  /** The path through the handler that reaches the insert. */
  lemma SubscribeInsertPath(table: seq<Subscriber>, raw: Option<string>, now: int, io: SubscribeIo)
    requires raw.Some? && Normalize(raw.value) != "" && MatchesEmailRegex(Normalize(raw.value))
    requires io.lookupOk && io.insertOk && !IsEmailSubscribed(table, Normalize(raw.value))
    ensures SubscribeSpec(table, raw, now, io) == SubscribeResult(
      if io.mailOk then Response(200, Success(SubscribeThanks)) else Response(500, Error(SubscribeFailure)),
      table + [Subscriber(Normalize(raw.value), now)],
      Some(Normalize(raw.value)))
  {
  }

  /** Once subscribe has added the row for a fresh, valid address, any later
      subscribe of an address with the same normalised form is refused as a
      duplicate (given the lookup succeeds) and adds nothing. */
  lemma SubscribeTwiceIsDuplicate(table: seq<Subscriber>, raw1: Option<string>, raw2: Option<string>,
                                  now1: int, now2: int, io1: SubscribeIo, io2: SubscribeIo)
    requires raw1.Some? && WellFormedEmail(Normalize(raw1.value)) && io1.lookupOk && io1.insertOk
    requires !IsEmailSubscribed(table, Normalize(raw1.value))
    requires raw2.Some? && Normalize(raw2.value) == Normalize(raw1.value) && io2.lookupOk
    ensures SubscribeSpec(SubscribeSpec(table, raw1, now1, io1).table, raw2, now2, io2)
      == SubscribeResult(Response(400, Error(DuplicateError)), SubscribeSpec(table, raw1, now1, io1).table, None)
  {
    SubscribeAddsFresh(table, raw1, now1, io1);
    var after := SubscribeSpec(table, raw1, now1, io1).table;
    assert after[|table|].email == Normalize(raw1.value);
    SubscribeRejectsDuplicate(after, raw2, now2, io2);
  }

  /** "  User@Example.com " is stored as "user@example.com", after which
      subscribing "user@example.com" is refused as a duplicate. */
  lemma SubscribeExample(table: seq<Subscriber>, now1: int, now2: int, io: SubscribeIo)
    requires !IsEmailSubscribed(table, "user@example.com") && io.lookupOk && io.insertOk
    ensures SubscribeSpec(table, Some("  User@Example.com "), now1, io).table
      == table + [Subscriber("user@example.com", now1)]
    ensures SubscribeSpec(SubscribeSpec(table, Some("  User@Example.com "), now1, io).table,
      Some("user@example.com"), now2, io).response == Response(400, Error(DuplicateError))
  {
    SubscribeExampleOf(table, "  User@Example.com ", "user@example.com", now1, now2, io);
  }

  lemma SubscribeExampleOf(table: seq<Subscriber>, raw1: string, raw2: string, now1: int, now2: int, io: SubscribeIo)
    requires raw1 == "  User@Example.com " && raw2 == "user@example.com"
    requires !IsEmailSubscribed(table, raw2) && io.lookupOk && io.insertOk
    ensures SubscribeSpec(table, Some(raw1), now1, io).table == table + [Subscriber(raw2, now1)]
    ensures SubscribeSpec(SubscribeSpec(table, Some(raw1), now1, io).table, Some(raw2), now2, io).response
      == Response(400, Error(DuplicateError))
  {
    ExampleStored(table, raw1, raw2, now1, io);
    ExampleResubscribed(table, raw1, raw2, now1, now2, io);
  }

  lemma ExampleStored(table: seq<Subscriber>, raw1: string, raw2: string, now1: int, io: SubscribeIo)
    requires raw1 == "  User@Example.com " && raw2 == "user@example.com"
    requires !IsEmailSubscribed(table, raw2) && io.lookupOk && io.insertOk
    ensures SubscribeSpec(table, Some(raw1), now1, io).table == table + [Subscriber(raw2, now1)]
  {
    NormalizeExampleOf(raw1);
    RegexExamples();
    RegexMeansWellFormed(raw2);
    SubscribeAddsFresh(table, Some(raw1), now1, io);
  }

  /** Both example inputs normalise to the same well-formed address. */
  lemma ExampleSameForm(table: seq<Subscriber>, raw1: string, raw2: string)
    requires raw1 == "  User@Example.com " && raw2 == "user@example.com"
    requires !IsEmailSubscribed(table, raw2)
    ensures Normalize(raw2) == Normalize(raw1) && WellFormedEmail(Normalize(raw1))
    ensures !IsEmailSubscribed(table, Normalize(raw1))
  {
    NormalizeExampleOf(raw1);
    NormalizeIdempotent(raw1);
    RegexExamples();
    RegexMeansWellFormed(raw2);
  }

  lemma ExampleResubscribed(table: seq<Subscriber>, raw1: string, raw2: string, now1: int, now2: int, io: SubscribeIo)
    requires raw1 == "  User@Example.com " && raw2 == "user@example.com"
    requires !IsEmailSubscribed(table, raw2) && io.lookupOk && io.insertOk
    ensures SubscribeSpec(SubscribeSpec(table, Some(raw1), now1, io).table, Some(raw2), now2, io).response
      == Response(400, Error(DuplicateError))
  {
    ExampleSameForm(table, raw1, raw2);
    SubscribeTwiceIsDuplicate(table, Some(raw1), Some(raw2), now1, now2, io, io);
  }

  /** A present, non-empty address with a working delete gets 200; no row
      with exactly that address is left and every other address keeps its
      rows. */
  lemma UnsubscribeRemoves(table: seq<Subscriber>, email: string, removeOk: bool)
    requires email != "" && removeOk
    ensures UnsubscribeSpec(table, Some(email), removeOk).response == Response(200, Success(UnsubscribeDone))
    ensures !IsEmailSubscribed(UnsubscribeSpec(table, Some(email), removeOk).table, email)
    ensures forall e | e != email :: Count(UnsubscribeSpec(table, Some(email), removeOk).table, e) == Count(table, e)
  {
    WithoutIdempotent(table, email);
  }

  /** Unsubscribing twice answers 200 both times, and the second call
      changes nothing. */
  lemma UnsubscribeTwice(table: seq<Subscriber>, raw: Option<string>)
    requires raw.Some? && raw.value != ""
    ensures UnsubscribeSpec(table, raw, true).response.status == 200
    ensures UnsubscribeSpec(UnsubscribeSpec(table, raw, true).table, raw, true)
      == UnsubscribeResult(Response(200, Success(UnsubscribeDone)), UnsubscribeSpec(table, raw, true).table)
  {
    WithoutIdempotent(table, raw.value);
  }

  /** With ADMIN_KEY unset, a request without an `x-api-key` header is let
      through and sees every row; any request that does send the header is
      refused. */
  lemma AdminOpenWhenKeyUnset(b: Backend, apiKeyHeader: Option<string>)
    ensures b.AdminSubscribers(None, None, true).status == 200
    ensures apiKeyHeader.Some? ==> b.AdminSubscribers(apiKeyHeader, None, true).status == 401
  {
  }
}
