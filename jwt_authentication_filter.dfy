/**
  The JWT authentication filter: the Authorization header is normalised into
  a compact token (the scheme "bearer " in any letter case, a doubled scheme,
  surrounding quotes and all whitespace are removed) and, when the token
  names a user, no one is authenticated yet and the token validates, the
  request's security context is given that user.  Token parsing, user lookup
  and validation are the JWT service's and the user store's, passed in as
  functions; their exceptions are swallowed, and the chain always goes on.
 */
module JwtAuthenticationFilter {
  import opened Common

  /** The scheme, compared against the lower-cased header. */
  const BearerPrefix := "bearer "

  /** What the header yields: no bearer header, a blank token, a token the quote stripping throws on, or the token. */
  datatype Extraction = NotBearer | Blank | Malformed | Jwt(value: string)

  /** replaceAll("\\s", ""): the string without its regular-expression whitespace. */
  function RemoveWhitespace(s: string): (r: string)
    ensures |r| <= |s|
    ensures forall i :: 0 <= i < |r| ==> !IsRegexSpace(r[i])
    decreases |s|
  {
    if s == [] then []
    else (if IsRegexSpace(s[0]) then [] else [s[0]]) + RemoveWhitespace(s[1..])
  }

  /** Removing whitespace keeps every other character, as often as it occurred. */
  lemma {:induction false} RemoveWhitespaceKeepsOthers(s: string, c: char)
    requires !IsRegexSpace(c)
    ensures multiset(RemoveWhitespace(s))[c] == multiset(s)[c]
    decreases |s|
  {
    if s != [] {
      RemoveWhitespaceKeepsOthers(s[1..], c);
      assert s == [s[0]] + s[1..];
      assert multiset(s) == multiset([s[0]]) + multiset(s[1..]);
      var head := if IsRegexSpace(s[0]) then [] else [s[0]];
      assert multiset(RemoveWhitespace(s)) == multiset(head) + multiset(RemoveWhitespace(s[1..]));
    }
  }

  /** A string without whitespace is left as it is. */
  lemma {:induction false} RemoveWhitespaceNoop(s: string)
    requires forall i :: 0 <= i < |s| ==> !IsRegexSpace(s[i])
    ensures RemoveWhitespace(s) == s
    decreases |s|
  {
    if s != [] {
      RemoveWhitespaceNoop(s[1..]);
      assert s == [s[0]] + s[1..];
    }
  }

  /** startsWith("\"") && endsWith("\""). */
  predicate Quoted(t: string)
  {
    |t| >= 1 && t[0] == '"' && t[|t| - 1] == '"'
  }

  /** The header after the scheme, trimmed, and once more after a second scheme. */
  function StripScheme(header: string): (t: string)
    requires IsPrefix(BearerPrefix, ToLower(header))
    ensures IsTrimmed(t)
    ensures |t| <= |header| - |BearerPrefix|
  {
    var token := Trim(header[|BearerPrefix|..]);
    TrimIsTrimmed(header[|BearerPrefix|..]);
    if IsPrefix(BearerPrefix, ToLower(token)) then
      TrimIsTrimmed(token[|BearerPrefix|..]);
      Trim(token[|BearerPrefix|..])
    else token
  }

  /** The header-to-token normalisation of doFilterInternal. */
  function ExtractToken(header: Option<string>): (r: Extraction)
    ensures r == NotBearer <==> header.None? || !IsPrefix(BearerPrefix, ToLower(header.value))
    ensures r == Malformed <==> r != NotBearer && StripScheme(header.value) == "\""
    ensures r.Jwt? ==> r.value != [] && forall i :: 0 <= i < |r.value| ==> !IsRegexSpace(r.value[i])
  {
    if header.None? || !IsPrefix(BearerPrefix, ToLower(header.value)) then NotBearer
    else
      var token := StripScheme(header.value);
      if Quoted(token) && |token| == 1 then Malformed
      else
        var unquoted := if Quoted(token) then token[1..|token| - 1] else token;
        var jwt := RemoveWhitespace(unquoted);
        if jwt == [] then Blank else Jwt(jwt)
  }

  /** Characters a compact token is made of: none is trimmable, so none is whitespace either. */
  predicate Printable(jwt: string)
  {
    forall i :: 0 <= i < |jwt| ==> jwt[i] > ' '
  }

  /** A scheme in front of a rest is recognised, and removing it leaves the rest. */
  lemma SchemeThen(scheme: string, rest: string)
    requires |scheme| == |BearerPrefix| && ToLower(scheme) == BearerPrefix
    ensures IsPrefix(BearerPrefix, ToLower(scheme + rest))
    ensures (scheme + rest)[|BearerPrefix|..] == rest
  {
    var h := scheme + rest;
    assert forall i :: 0 <= i < |scheme| ==> ToLower(h)[i] == ToLowerChar(scheme[i]) == ToLower(scheme)[i];
    assert ToLower(h)[..|BearerPrefix|] == ToLower(scheme);
  }

  /** A printable token has no space, so it does not start with the scheme. */
  lemma PrintableNotBearer(jwt: string)
    requires Printable(jwt)
    ensures !IsPrefix(BearerPrefix, ToLower(jwt))
  {
    if |jwt| >= |BearerPrefix| {
      var l := ToLower(jwt);
      assert l[6] != ' ';
      assert l[..|BearerPrefix|][6] == l[6];
    }
  }

  /** A printable token after one scheme comes out as it went in. */
  lemma StripSchemeOfToken(scheme: string, jwt: string)
    requires |scheme| == |BearerPrefix| && ToLower(scheme) == BearerPrefix
    requires jwt != [] && Printable(jwt)
    ensures IsPrefix(BearerPrefix, ToLower(scheme + jwt))
    ensures StripScheme(scheme + jwt) == jwt
  {
    SchemeThen(scheme, jwt);
    TrimOfTrimmed(jwt);
    PrintableNotBearer(jwt);
  }

  /**
    "Bearer " (any case) followed by a printable, unquoted token yields
    exactly that token.
   */
  lemma BearerRoundTrip(scheme: string, jwt: string)
    requires |scheme| == |BearerPrefix| && ToLower(scheme) == BearerPrefix
    requires jwt != [] && Printable(jwt) && !Quoted(jwt)
    ensures ExtractToken(Some(scheme + jwt)) == Jwt(jwt)
  {
    StripSchemeOfToken(scheme, jwt);
    RemoveWhitespaceNoop(jwt);
  }

  /** A printable token in double quotes after the scheme yields the token without them. */
  lemma QuotedRoundTrip(scheme: string, jwt: string)
    requires |scheme| == |BearerPrefix| && ToLower(scheme) == BearerPrefix
    requires jwt != [] && Printable(jwt)
    ensures ExtractToken(Some(scheme + (['"'] + jwt + ['"']))) == Jwt(jwt)
  {
    var quoted := ['"'] + jwt + ['"'];
    assert Printable(quoted) by {
      assert forall i :: 0 < i < |quoted| - 1 ==> quoted[i] == jwt[i - 1];
    }
    StripSchemeOfToken(scheme, quoted);
    assert Quoted(quoted) && |quoted| > 1;
    assert quoted[1..|quoted| - 1] == jwt;
    RemoveWhitespaceNoop(jwt);
  }

  /** A scheme given twice, "Bearer Bearer <token>", is stripped twice. */
  lemma DoubleBearerRoundTrip(scheme: string, again: string, jwt: string)
    requires |scheme| == |BearerPrefix| && ToLower(scheme) == BearerPrefix
    requires |again| == |BearerPrefix| && ToLower(again) == BearerPrefix
    requires jwt != [] && Printable(jwt) && !Quoted(jwt)
    ensures ExtractToken(Some(scheme + (again + jwt))) == Jwt(jwt)
  {
    var inner := again + jwt;
    SchemeThen(scheme, inner);
    SchemedTokenTrimmed(again, jwt);
    TrimOfTrimmed(inner);
    SchemeThen(again, jwt);
    TrimOfTrimmed(jwt);
    assert StripScheme(scheme + inner) == jwt;
    RemoveWhitespaceNoop(jwt);
  }

  /** A scheme followed by a printable token has nothing to trim at either end. */
  lemma SchemedTokenTrimmed(scheme: string, jwt: string)
    requires |scheme| == |BearerPrefix| && ToLower(scheme) == BearerPrefix
    requires jwt != [] && Printable(jwt)
    ensures IsTrimmed(scheme + jwt)
  {
    var h := scheme + jwt;
    assert ToLowerChar(scheme[0]) == ToLower(scheme)[0] == 'b';
    assert h[0] == scheme[0] && h[|h| - 1] == jwt[|jwt| - 1];
  }

  /** A lone double quote after the scheme makes substring(1, 0) throw. */
  lemma LoneQuoteThrows(scheme: string)
    requires |scheme| == |BearerPrefix| && ToLower(scheme) == BearerPrefix
    ensures ExtractToken(Some(scheme + "\"")) == Malformed
  {
    StripSchemeOfToken(scheme, "\"");
  }

  // ---------------------------------------------------------------------
  // Authentication

  datatype UserDetails = UserDetails(username: string, authorities: seq<string>)

  /** A UsernamePasswordAuthenticationToken: the user, null credentials, the user's authorities. */
  datatype Authentication = Authentication(principal: UserDetails, credentials: Option<string>, authorities: seq<string>)

  /** What doFilterInternal does to the request: it goes on down the chain, or an exception escapes. */
  datatype FilterResult = ChainContinued | Threw(message: string)

  /**
    The authentication the try block sets for a token: only when the token
    names a (non-null) user, nobody is authenticated yet, the user loads and
    the token validates for that user; a thrown exception sets nothing.
   */
  function AuthenticationFor(jwt: string, current: Option<Authentication>,
                             extractUsername: string -> Result<Option<string>>,
                             loadUser: string -> Result<UserDetails>,
                             isTokenValid: (string, UserDetails) -> Result<bool>): (r: Option<Authentication>)
    ensures current.Some? ==> r.None?
    ensures r.Some? <==>
              && current.None?
              && extractUsername(jwt).Ok? && extractUsername(jwt).value.Some?
              && loadUser(extractUsername(jwt).value.value).Ok?
              && isTokenValid(jwt, loadUser(extractUsername(jwt).value.value).value) == Ok(true)
    ensures r.Some? ==>
              var user := loadUser(extractUsername(jwt).value.value).value;
              r.value == Authentication(user, None, user.authorities) && r.value.principal.username == user.username
  {
    var email := extractUsername(jwt);
    if email.Err? || email.value.None? || current.Some? then None
    else
      var user := loadUser(email.value.value);
      if user.Err? then None
      else
        var valid := isTokenValid(jwt, user.value);
        if valid == Ok(true) then Some(Authentication(user.value, None, user.value.authorities)) else None
  }

  /** The per-request security context the filter writes to. */
  class SecurityContext {
    var authentication: Option<Authentication>

    constructor ()
      ensures authentication.None?
    {
      authentication := None;
    }
  }

  class JwtFilter {
    const context: SecurityContext

    constructor (context: SecurityContext)
      ensures this.context == context
    {
      this.context := context;
    }

    /**
      doFilterInternal: no bearer header or a blank token goes down the
      chain untouched; a lone quote throws before the try block; otherwise
      the authentication is set as AuthenticationFor decides.
     */
    method DoFilterInternal(header: Option<string>, extractUsername: string -> Result<Option<string>>,
                            loadUser: string -> Result<UserDetails>,
                            isTokenValid: (string, UserDetails) -> Result<bool>) returns (r: FilterResult)
      modifies context
      ensures r.Threw? <==> ExtractToken(header) == Malformed
      ensures !ExtractToken(header).Jwt? ==> context.authentication == old(context.authentication)
      ensures ExtractToken(header).Jwt? ==>
                var chosen := AuthenticationFor(ExtractToken(header).value, old(context.authentication),
                                             extractUsername, loadUser, isTokenValid);
                context.authentication == (if chosen.Some? then chosen else old(context.authentication))
    {
      var token := ExtractToken(header);
      match token {
        case NotBearer =>
          return ChainContinued;
        case Blank =>
          return ChainContinued;
        case Malformed =>
          return Threw("begin 1, end 0, length 1");
        case Jwt(jwt) =>
          var chosen := AuthenticationFor(jwt, context.authentication, extractUsername, loadUser, isTokenValid);
          if chosen.Some? {
            context.authentication := chosen;
          }
          return ChainContinued;
      }
    }
  }
}
