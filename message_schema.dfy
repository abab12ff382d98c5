/** The Message document of the contact inbox. */
module MessageSchema {
  import opened Common
  import opened JsText

  datatype MessageStatus = Pending | Read | Resolved

  /** The status a message takes when none is given. */
  const DefaultStatus: MessageStatus := Pending

  function StatusName(st: MessageStatus): string
  {
    match st
    case Pending => "pending"
    case Read => "read"
    case Resolved => "resolved"
  }

  /** Reads a status from a request: exactly the three enum strings are accepted. */
  function ParseStatus(s: string): (r: Option<MessageStatus>)
    ensures r.Some? <==> s == "pending" || s == "read" || s == "resolved"
    ensures r.Some? ==> StatusName(r.value) == s
  {
    if s == "pending" then Some(Pending)
    else if s == "read" then Some(Read)
    else if s == "resolved" then Some(Resolved)
    else None
  }

  /** Every status survives being written out and read back. */
  lemma StatusRoundTrip(st: MessageStatus)
    ensures ParseStatus(StatusName(st)) == Some(st)
  {
  }

  /** `response` is "" and `responseDate` is null until an admin replies. */
  datatype Message = Message(
    name: string, email: string, message: string,
    status: MessageStatus, response: string, responseDate: Option<Date>)

  /** The unanchored pattern `\S+@\S+\.\S+` matches with its '@' at `at` and
      its '.' at `dot`: a non-space just before the '@', only non-spaces (at
      least one) between the two, and a non-space just after the '.'. */
  predicate EmailMatchAt(s: string, at: int, dot: int)
  {
    && 0 < at && at + 1 < dot && dot + 1 < |s|
    && s[at] == '@' && s[dot] == '.'
    && !IsWhitespace(s[at - 1]) && !IsWhitespace(s[dot + 1])
    && forall k :: at < k < dot ==> !IsWhitespace(s[k])
  }

  /** `s` contains a match of `\S+@\S+\.\S+` somewhere. */
  predicate MatchesEmailPattern(s: string)
  {
    exists at, dot :: 0 <= at < dot < |s| && EmailMatchAt(s, at, dot)
  }

  /** The pattern is not anchored: text around a match does not undo it, so
      strings that are not e-mail addresses pass. */
  lemma EmailPatternUnanchored(s: string, prefix: string, suffix: string)
    requires MatchesEmailPattern(s)
    ensures MatchesEmailPattern(prefix + s + suffix)
  {
    var at, dot :| 0 <= at < dot < |s| && EmailMatchAt(s, at, dot);
    var t := prefix + s + suffix;
    var n := |prefix|;
    assert forall k :: 0 <= k < |s| ==> t[n + k] == s[k];
    assert EmailMatchAt(t, n + at, n + dot);
  }

  /** Two sample strings on either side of the pattern. */
  lemma EmailPatternSamples()
    ensures MatchesEmailPattern("a@b.c")
    ensures MatchesEmailPattern("write to a@b.c now")
    ensures !MatchesEmailPattern("a@b")
    ensures !MatchesEmailPattern("a @b.c")
  {
    assert EmailMatchAt("a@b.c", 1, 3);
    EmailPatternUnanchored("a@b.c", "write to ", " now");
    assert "write to " + "a@b.c" + " now" == "write to a@b.c now";
  }

  /** What schema validation on `save` demands of a message. */
  predicate ValidMessage(m: Message)
  {
    m.name != "" && m.email != "" && m.message != "" && MatchesEmailPattern(m.email)
  }

  /** A freshly received message: pending, with no response yet. */
  function NewMessage(name: string, email: string, message: string): (m: Message)
    ensures m.status == Pending && m.response == "" && m.responseDate == None
    ensures m.name == name && m.email == email && m.message == message
  {
    Message(name, email, message, DefaultStatus, "", None)
  }
}
