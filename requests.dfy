/** POST /api/files/request: the mail sent to the administrator when someone asks for a
    private file. The route builds the mail from the request body alone; it never
    reads or writes the `files` table, so it does not check that the named file
    exists or is private, and it keeps no record of the request. */
module Requests {
  import opened Wrappers

  /** The JSON body's three fields, each possibly missing. */
  datatype RequestBody = RequestBody(filename: Option<string>, requester: Option<string>, reason: Option<string>)

  /** The mail handed to the transport; sender and recipient are both the
      administrator address from the environment, which may be unset. */
  datatype Mail = Mail(sender: Option<string>, recipient: Option<string>, subject: string, text: string)

  /** 200 "Request sent successfully", or 500 with the transport's error message. */
  datatype RequestReply = RequestSent | SendFailed(message: string)

  const Subject: string := "TREDT Private File Request"

  /** `${v}` in a template literal: a missing field prints as "undefined". */
  function Render(v: Option<string>): string {
    if v.Some? then v.value else "undefined"
  }

  /** The first line of the mail: who asked for which file. */
  function Headline(body: RequestBody): string {
    "User " + Render(body.requester) + " requested access to private file: " + Render(body.filename)
  }

  function RequestMail(adminEmail: Option<string>, body: RequestBody): (m: Mail)
    ensures m.sender == adminEmail && m.recipient == adminEmail && m.subject == Subject
  {
    Mail(adminEmail, adminEmail, Subject, Headline(body) + "\nReason: " + Render(body.reason))
  }

  /** The whole route: the mail it sends and the reply it gives once the transport
      reports `sendError` (none on success). */
  function RequestAccess(adminEmail: Option<string>, body: RequestBody, sendError: Option<string>)
    : (r: (Mail, RequestReply))
    ensures r.0 == RequestMail(adminEmail, body)
    ensures r.1 == RequestSent <==> sendError.None?
    ensures sendError.Some? ==> r.1 == SendFailed(sendError.value)
  {
    (RequestMail(adminEmail, body), if sendError.None? then RequestSent else SendFailed(sendError.value))
  }

  /** Splits a text at its first line break: the first line, and what follows the
      break if there is one. */
  function BreakLine(s: string): (r: (string, Option<string>))
    ensures '\n' !in r.0
    ensures r.1.None? ==> r.0 == s
    ensures r.1.Some? ==> s == r.0 + "\n" + r.1.value
  {
    if s == [] then ("", None)
    else if s[0] == '\n' then ("", Some(s[1..]))
    else
      var rest := BreakLine(s[1..]);
      assert s == [s[0]] + s[1..];
      ([s[0]] + rest.0, rest.1)
  }

  lemma {:induction false} BreakAfter(line: string, rest: string)
    requires '\n' !in line
    ensures BreakLine(line + "\n" + rest) == (line, Some(rest))
  {
    if line != [] {
      var s := line + "\n" + rest;
      assert s[0] == line[0] && line[0] != '\n';
      assert s[1..] == line[1..] + "\n" + rest;
      BreakAfter(line[1..], rest);
      assert [line[0]] + line[1..] == line;
    }
  }

  /** When neither the requester nor the filename holds a line break, the mail reads
      back as its two parts: the first line names requester and file, and everything
      after it is the reason line. */
  lemma MailReadsBack(adminEmail: Option<string>, body: RequestBody)
    requires '\n' !in Render(body.requester) && '\n' !in Render(body.filename)
    ensures BreakLine(RequestMail(adminEmail, body).text) == (Headline(body), Some("Reason: " + Render(body.reason)))
  {
    var h := Headline(body);
    assert '\n' !in h by {
      assert '\n' !in "User ";
      assert '\n' !in " requested access to private file: ";
    }
    assert RequestMail(adminEmail, body).text == h + "\n" + ("Reason: " + Render(body.reason));
    BreakAfter(h, "Reason: " + Render(body.reason));
  }
}
