/** Looking up the latest release: the registry's JSON reply is reduced to the
    version string used in download URLs. The HTTP exchange itself is an input. */
module Version {
  import opened Base

  /** A decoded JSON value; only strings matter to the installer. */
  datatype Json = JString(s: string) | JNumber | JBool | JNull | JArray | JObject

  /** json.Unmarshal into a map: either a decode error or the top-level fields
      (a JSON `null` decodes to no fields at all). */
  datatype Decoded = Undecodable | Fields(fields: map<string, Json>)

  /** How the request to the releases endpoint went. */
  datatype Reply = Unreachable | BodyUnreadable | Answered(body: Decoded)

  datatype LookupError = RequestError | ReadError | DecodeError

  /** The reply carries no tag the installer could use without panicking. */
  predicate TagUsable(reply: Reply) {
    reply.Answered? && reply.body.Fields? ==>
      && "tag_name" in reply.body.fields
      && reply.body.fields["tag_name"].JString?
      && |reply.body.fields["tag_name"].s| >= 6
  }

  function Tag(reply: Reply): string
    requires reply.Answered? && reply.body.Fields? && TagUsable(reply)
  {
    reply.body.fields["tag_name"].s
  }

  /** getLatestRelease: the version is the five characters after the first
      character of the release's `tag_name`. Transport, read and decode
      failures are errors. */
  function LatestRelease(reply: Reply): (r: Result<string, LookupError>)
    requires TagUsable(reply)
    ensures r.Ok? <==> reply.Answered? && reply.body.Fields?
    ensures reply.Unreachable? ==> r == Err(RequestError)
    ensures reply.BodyUnreadable? ==> r == Err(ReadError)
    ensures reply.Answered? && reply.body.Undecodable? ==> r == Err(DecodeError)
    ensures r.Ok? ==> |r.value| == 5 && r.value == Tag(reply)[1..6]
  {
    match reply
    case Unreachable => Err(RequestError)
    case BodyUnreadable => Err(ReadError)
    case Answered(Undecodable) => Err(DecodeError)
    case Answered(Fields(fields)) => Ok(fields["tag_name"].s[1..6])
  }

  function ReplyWithTag(tag: string): Reply {
    Answered(Fields(map["tag_name" := JString(tag)]))
  }

  /** A tag of the form `v` + five-character version + anything yields that
      version back. */
  lemma ReleaseTagRoundTrip(version: string, suffix: string)
    requires |version| == 5
    ensures LatestRelease(ReplyWithTag("v" + version + suffix)) == Ok(version)
  {
    assert ("v" + version + suffix)[1..6] == version;
  }

  /** The leading character is dropped unchecked: tags that differ only there give
      the same version. */
  lemma LeadingCharacterIgnored(a: char, b: char, rest: string)
    requires |rest| >= 5
    ensures LatestRelease(ReplyWithTag([a] + rest)) == LatestRelease(ReplyWithTag([b] + rest))
  {
    assert ([a] + rest)[1..6] == rest[..5] == ([b] + rest)[1..6];
  }

  /** Anything past the sixth character is cut off, so a two-digit minor version
      loses its patch number. */
  lemma TwoDigitMinorIsTruncated()
    ensures LatestRelease(ReplyWithTag("v1.10.0")) == Ok("1.10.")
  {
    assert "v1.10.0"[1..6] == "1.10.";
  }
}
