/**
 * POST /send (server.js lines 115-169): the contact form. All three fields
 * must be present and non-empty; the message goes into the HTML mail with
 * every line feed written as `<br>`; the mail goes to the support address.
 */
module Contact {
  import opened Wrappers
  import opened Responses

  const SupportAddress := "support@lgsbc.com.au"
  const SubjectPrefix := "New Contact Message from "

  /** The parts of the outgoing mail that depend on the request. */
  datatype ContactMail = ContactMail(to: string, replyTo: string, subject: string, messageHtml: string)

  /** The reply, and the mail handed to the transport, if any. */
  datatype SendResult = SendResult(response: Response, mail: Option<ContactMail>)

  /** `!field` for a field of the JSON body: absent or the empty string. */
  predicate Missing(field: Option<string>) {
    field.None? || field.value == ""
  }

  function Occurrences(s: string, c: char): nat {
    if s == [] then 0 else (if s[0] == c then 1 else 0) + Occurrences(s[1..], c)
  }

  /** `message.replace(/\n/g, "<br>")` (line 152). No line feed is left, and
      each one has grown by three characters. */
  function ReplaceNewlines(message: string): (r: string)
    ensures '\n' !in r
    ensures |r| == |message| + 3 * Occurrences(message, '\n')
  {
    if message == [] then []
    else (if message[0] == '\n' then "<br>" else [message[0]]) + ReplaceNewlines(message[1..])
  }

  /** The replacement works piece by piece ... */
  lemma {:induction false} ReplaceNewlinesAppend(a: string, b: string)
    ensures ReplaceNewlines(a + b) == ReplaceNewlines(a) + ReplaceNewlines(b)
  {
    if a == [] {
      assert a + b == b;
    } else {
      assert (a + b)[1..] == a[1..] + b;
      ReplaceNewlinesAppend(a[1..], b);
    }
  }

  /** ... leaves text without line feeds as it is ... */
  lemma {:induction false} ReplaceNewlinesKeepsPlainText(message: string)
    requires '\n' !in message
    ensures ReplaceNewlines(message) == message
  {
    if message != [] {
      assert message == [message[0]] + message[1..];
      ReplaceNewlinesKeepsPlainText(message[1..]);
    }
  }

  /** ... and turns a line feed into `<br>`; together these three determine
      the replacement completely. */
  lemma ReplaceNewlinesOfNewline()
    ensures ReplaceNewlines("\n") == "<br>"
  {
  }

  /** The /send handler. `mailOk` says whether `transporter.sendMail`
      succeeded. */
  function ContactSend(name: Option<string>, email: Option<string>, message: Option<string>, mailOk: bool): (r: SendResult)
    ensures r.response.status == 400 <==> Missing(name) || Missing(email) || Missing(message)
    ensures r.response.status == 400 ==> r.mail == None && r.response.body == Error("All fields are required")
    ensures r.response.status != 400 ==>
      r.mail == Some(ContactMail(SupportAddress, email.value, SubjectPrefix + name.value, ReplaceNewlines(message.value)))
    ensures r.response.status == 200 <==> !Missing(name) && !Missing(email) && !Missing(message) && mailOk
    ensures r.response.status in {200, 400, 500}
  {
    if Missing(name) || Missing(email) || Missing(message) then
      SendResult(Response(400, Error("All fields are required")), None)
    else
      var mail := ContactMail(SupportAddress, email.value, SubjectPrefix + name.value, ReplaceNewlines(message.value));
      if mailOk then SendResult(Response(200, Success("Message sent successfully!")), Some(mail))
      else SendResult(Response(500, Error("Failed to send message. Try again later.")), Some(mail))
  }
}
