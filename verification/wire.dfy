/**
 * The two messages of the protocol and their colon-separated text form:
 * `REQ:<requester>:<timestamp>` and `GRANT:<granter>`. Timestamps are whole
 * numbers here; node identifiers and timestamps are rendered in decimal.
 */
module Wire {
  import opened Wrappers
  import opened Text

  const Separator: char := ':'

  datatype Msg = Req(requester: nat, ts: nat) | Grant(granter: nat)

  /** What the receiving side makes of a payload once it is split on ':'. */
  datatype Inbound =
    | InRequest(requester: nat, ts: nat)  // tag "REQ" with a parsable id and timestamp
    | InGrant                             // tag "GRANT"; its field is never parsed
    | InOther                             // any other tag: ignored
    | Malformed                           // tag "REQ" whose fields are missing or do not parse

  /** The colon-separated fields of a message, tag first. */
  function Fields(m: Msg): (f: seq<string>)
    ensures |f| >= 2 && forall i :: 0 <= i < |f| ==> Separator !in f[i]
  {
    match m
    case Req(requester, ts) => ["REQ", ShowNat(requester), ShowNat(ts)]
    case Grant(granter) => ["GRANT", ShowNat(granter)]
  }

  /** The text a node sends for `m`; splitting it on ':' gives back the tag and the rendered fields. */
  function Format(m: Msg): (text: string)
    ensures Split(text, Separator) == Fields(m)
  {
    SplitJoin(Fields(m), Separator);
    Join(Fields(m), Separator)
  }

  /**
   * How a received payload is read: the tag is the first piece; a request
   * needs at least two more pieces, both decimal numbers (further pieces are
   * ignored); a grant is recognised by its tag alone.
   */
  function Decode(text: string): (d: Inbound)
    // the tag alone decides the kind of message
    ensures d.InRequest? || d.Malformed? <==> Split(text, Separator)[0] == "REQ"
    ensures d.InGrant? <==> Split(text, Separator)[0] == "GRANT"
    // a request is read from the second and third pieces; a piece missing or not a number makes it malformed
    ensures d.InRequest? <==>
              Split(text, Separator)[0] == "REQ" && |Split(text, Separator)| >= 3
              && ParseNat(Split(text, Separator)[1]).Some? && ParseNat(Split(text, Separator)[2]).Some?
    ensures d.InRequest? ==>
              ParseNat(Split(text, Separator)[1]) == Some(d.requester) && ParseNat(Split(text, Separator)[2]) == Some(d.ts)
  {
    var parts := Split(text, Separator);
    if parts[0] == "REQ" then
      if |parts| < 3 then Malformed
      else
        match (ParseNat(parts[1]), ParseNat(parts[2]))
        case (Some(id), Some(ts)) => InRequest(id, ts)
        case _ => Malformed
    else if parts[0] == "GRANT" then InGrant
    else InOther
  }

  /** Decoding a formatted request recovers its requester and timestamp; a formatted grant decodes as a grant. */
  lemma DecodeFormat(m: Msg)
    ensures m.Req? ==> Decode(Format(m)) == InRequest(m.requester, m.ts)
    ensures m.Grant? ==> Decode(Format(m)) == InGrant
  {
  }
}
