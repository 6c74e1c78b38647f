/** The reader of the Server-Authorization header on the gRPC server: the header must
    start with "Server ", the rest is the token, and the token is decoded and converted
    by collaborators whose every failure becomes an authentication failure. */
module ServerTokenReader {
  import opened Common

  const Prefix: string := "Server "

  /** The two authentication failures the reader raises. */
  datatype AuthFailure = MissingOrInvalidHeader | TokenValidationFailed

  predicate StartsWith(s: string, prefix: string)
  {
    |prefix| <= |s| && s[..|prefix|] == prefix
  }

  /** The token: everything after the first seven characters of a header that starts
      with the prefix, and none for a missing or differently prefixed header. */
  function ExtractToken(header: Option<string>): (token: Option<string>)
    ensures token.Some? <==> header.Some? && StartsWith(header.value, Prefix)
    ensures token.Some? ==> Prefix + token.value == header.value
  {
    if header.Some? && StartsWith(header.value, Prefix) then Some(header.value[7..]) else None
  }

  /** Prefixing a token gives a header the reader accepts, and it reads back that token;
      a header too short to hold the prefix is refused. */
  lemma ExtractTokenRoundTrip(token: string, header: string)
    ensures ExtractToken(Some(Prefix + token)) == Some(token)
    ensures |header| < |Prefix| ==> ExtractToken(Some(header)) == None
    ensures ExtractToken(None) == None
  {
  }

  /** The prefix is case-sensitive and needs its space: whatever follows, a header
      starting "server " or "Bearer " is refused, and so is "Server" not followed by a
      space; "Server " alone gives the empty token. */
  lemma PrefixIsExact(t: string)
    ensures ExtractToken(Some("server " + t)) == None
    ensures ExtractToken(Some("Bearer " + t)) == None
    ensures |t| == 0 || t[0] != ' ' ==> ExtractToken(Some("Server" + t)) == None
    ensures ExtractToken(Some("Server ")) == Some("")
  {
    assert ("server " + t)[0] != Prefix[0];
    assert ("Bearer " + t)[0] != Prefix[0];
    if |t| > 0 && t[0] != ' ' {
      assert ("Server" + t)[6] == t[0];
      assert ("Server" + t)[6] != Prefix[6];
    }
  }

  /** The reader: a bad header, then a failing decode or conversion, each become an
      authentication failure; otherwise the converted authentication. `decode` and
      `convert` give none where the collaborator throws. */
  function ReadAuthentication<J, A>(header: Option<string>, decode: string -> Option<J>, convert: J -> Option<A>)
    : (r: Result<A, AuthFailure>)
    ensures r == Failure(MissingOrInvalidHeader) <==> ExtractToken(header).None?
    ensures r.Success? ==>
              && ExtractToken(header).Some? && decode(ExtractToken(header).value).Some?
              && convert(decode(ExtractToken(header).value).value) == Some(r.value)
  {
    match ExtractToken(header)
    case None => Failure(MissingOrInvalidHeader)
    case Some(token) =>
      match decode(token)
      case None => Failure(TokenValidationFailed)
      case Some(jwt) =>
        match convert(jwt)
        case None => Failure(TokenValidationFailed)
        case Some(auth) => Success(auth)
  }

  /** The header is checked before anything is decoded; a success is exactly a decoded
      and converted token from an accepted header, and the token handed to the decoder
      is the header with its prefix removed. */
  lemma ReadAuthenticationCases<J, A>(header: Option<string>, decode: string -> Option<J>, convert: J -> Option<A>)
    ensures ReadAuthentication(header, decode, convert) == Failure(MissingOrInvalidHeader) <==>
              !(header.Some? && StartsWith(header.value, Prefix))
    ensures ReadAuthentication(header, decode, convert).Success? <==>
              && header.Some? && StartsWith(header.value, Prefix)
              && decode(header.value[|Prefix|..]).Some?
              && convert(decode(header.value[|Prefix|..]).value).Some?
    ensures ReadAuthentication(header, decode, convert).Success? ==>
              ReadAuthentication(header, decode, convert).value ==
                convert(decode(header.value[|Prefix|..]).value).value
  {
  }

  /** For a header built from a token, the reader's outcome depends only on what the
      collaborators make of that token. */
  lemma ReadPrefixedToken<J, A>(token: string, decode: string -> Option<J>, convert: J -> Option<A>)
    ensures decode(token).None? ==>
              ReadAuthentication(Some(Prefix + token), decode, convert) == Failure(TokenValidationFailed)
    ensures decode(token).Some? && convert(decode(token).value).None? ==>
              ReadAuthentication(Some(Prefix + token), decode, convert) == Failure(TokenValidationFailed)
    ensures decode(token).Some? && convert(decode(token).value).Some? ==>
              ReadAuthentication(Some(Prefix + token), decode, convert) == Success(convert(decode(token).value).value)
  {
  }
}
