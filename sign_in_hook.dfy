/**
 * The sign-in webhook (`POST` of app/api/clerk/sign-in-hook/route.ts): the
 * identity provider posts a JSON event, the hook reads the signing-in user's
 * e-mail address out of it and admits the sign-in only for addresses of the
 * student domain; every other request is refused with HTTP 401.
 */
module SignInHook {
  import opened Strings

  datatype Option<T> = None | Some(value: T)

  /**
   * The parsed request body, as far as the hook looks into it. Each level is
   * optional: `None` stands for a key that is absent, `null`, `undefined` or
   * not an object, all of which make the optional chain `?.` yield
   * `undefined`. The address itself is a string when present.
   */
  datatype Attributes = Attributes(emailAddress: Option<string>)
  datatype Data = Data(attributes: Option<Attributes>)
  datatype Body = Body(data: Option<Data>)

  /**
   * The hook's reply. `Allow` is the JSON `{ status: "allow" }` sent without an
   * explicit HTTP status; `Fail` is `{ status, message }` sent with HTTP `code`.
   */
  datatype Outcome =
    | Allow(status: string)
    | Fail(code: int, status: string, message: string)

  /** The only e-mail domain admitted; it must end the address. */
  const AllowedDomain: string := "@vitstudent.ac.in"
  /** HTTP status of a refused sign-in. */
  const Unauthorized: int := 401
  const RejectMessage: string := "Only VIT student emails are allowed."

  /** The reply to every admitted sign-in. */
  const Admitted: Outcome := Allow("allow")
  /** The reply to every refused sign-in. */
  const Refused: Outcome := Fail(Unauthorized, "fail", RejectMessage)

  /**
   * `body?.data?.attributes?.email_address`: the address when every level of
   * the chain is present, and `None` (JavaScript's `undefined`) as soon as one
   * level is missing.
   */
  function LookupEmail(body: Option<Body>): (r: Option<string>)
    ensures r.Some? ==>
      body.Some? && body.value.data.Some? && body.value.data.value.attributes.Some?
      && body.value.data.value.attributes.value.emailAddress == r
  {
    match body
    case None => None
    case Some(b) =>
      match b.data
      case None => None
      case Some(d) =>
        match d.attributes
        case None => None
        case Some(a) => a.emailAddress
  }

  /**
   * `body?.data?.attributes?.email_address || ""`: a missing address and the
   * (falsy) empty address both become `""`; a non-empty address is kept as
   * it is.
   */
  function ExtractEmail(body: Option<Body>): (email: string)
    ensures email != "" ==> LookupEmail(body) == Some(email)
    ensures LookupEmail(body).Some? && LookupEmail(body).value != "" ==>
      email == LookupEmail(body).value
    ensures LookupEmail(body).None? ==> email == ""
  {
    match LookupEmail(body)
    case Some(e) => if e != "" then e else ""
    case None => ""
  }

  /**
   * The admission decision on the extracted address: admitted exactly when
   * its last characters are the allowed domain, refused with 401 otherwise.
   */
  function Decide(email: string): (o: Outcome)
    ensures o.Allow? <==>
      |AllowedDomain| <= |email| && email[|email| - |AllowedDomain|..] == AllowedDomain
    ensures o == Admitted || o == Refused
  {
    if !EndsWith(email, AllowedDomain) then Refused else Admitted
  }

  /**
   * The whole handler: extract the address, then decide on it. Only a request
   * that carries an address ending in the allowed domain is admitted; every
   * other request, including one with no address at all, is refused.
   */
  function Post(body: Option<Body>): (o: Outcome)
    ensures o == Admitted <==>
      LookupEmail(body).Some? && EndsWith(LookupEmail(body).value, AllowedDomain)
    ensures o != Admitted <==> o == Refused
  {
    Decide(ExtractEmail(body))
  }

  /** A request that carries `email` at `data.attributes.email_address`. */
  function RequestFor(email: string): (body: Option<Body>)
    ensures LookupEmail(body) == Some(email)
  {
    Some(Body(Some(Data(Some(Attributes(Some(email)))))))
  }

  // ----- When each outcome occurs -----

  /**
   * A sign-in is admitted exactly when the extracted address is some text
   * followed by the allowed domain; nothing about that text is checked.
   */
  lemma AdmittedIffDomainAppended(body: Option<Body>)
    ensures Post(body) == Admitted <==>
      exists local: string :: ExtractEmail(body) == local + AllowedDomain
    ensures Post(body) != Admitted <==> Post(body) == Refused
  {
    EndsWithIffSplit(ExtractEmail(body), AllowedDomain);
  }

  /** Every admitted reply is `{ status: "allow" }` with no message and no code. */
  lemma AdmittedReplyIsFixed(body: Option<Body>)
    requires Post(body).Allow?
    ensures Post(body).status == "allow"
    ensures Post(body) == Admitted
  {
  }

  /** Every refused reply carries 401, status "fail" and the fixed message. */
  lemma RefusedReplyIsFixed(body: Option<Body>)
    requires Post(body).Fail?
    ensures Post(body).code == 401
    ensures Post(body).status == "fail"
    ensures Post(body).message == "Only VIT student emails are allowed."
  {
  }

  /**
   * A body with no address at any level of the chain, or with the empty
   * address, yields the empty address and is refused.
   */
  lemma MissingEmailRefused(body: Option<Body>)
    requires LookupEmail(body) == None || LookupEmail(body) == Some("")
    ensures ExtractEmail(body) == ""
    ensures Post(body) == Refused
  {
  }

  /** Each level of the chain, when missing, makes the request refused. */
  lemma MissingLevelRefused()
    ensures Post(None) == Refused
    ensures Post(Some(Body(None))) == Refused
    ensures Post(Some(Body(Some(Data(None))))) == Refused
    ensures Post(Some(Body(Some(Data(Some(Attributes(None))))))) == Refused
    ensures Post(RequestFor("")) == Refused
  {
  }

  /** The decision depends on the request only through the extracted address. */
  lemma DependsOnlyOnEmail(b1: Option<Body>, b2: Option<Body>)
    requires ExtractEmail(b1) == ExtractEmail(b2)
    ensures Post(b1) == Post(b2)
  {
  }

  /** Any non-empty address carried by a request is decided as it is. */
  lemma RequestRoundTrip(email: string)
    requires email != ""
    ensures ExtractEmail(RequestFor(email)) == email
    ensures Post(RequestFor(email)) == Decide(email)
  {
  }

  // ----- The suffix test is exact -----

  /**
   * Any address whose last 17 characters are the domain is admitted, whatever
   * precedes them (including nothing, or further `@` signs).
   */
  lemma AnyLocalPartAdmitted(local: string)
    ensures |AllowedDomain| == 17
    ensures Decide(local + AllowedDomain) == Admitted
  {
  }

  /** The bare domain and an address with two `@` signs are both admitted. */
  lemma NoAddressFormatCheck()
    ensures Decide("@vitstudent.ac.in") == Admitted
    ensures Decide("x@y@vitstudent.ac.in") == Admitted
  {
  }

  /** The comparison is case-sensitive: an upper-case domain is refused. */
  lemma UpperCaseDomainRefused()
    ensures Decide("a@VITSTUDENT.AC.IN") == Refused
  {
  }

  /** The domain must end the address: text after it makes it refused. */
  lemma DomainNotAtEndRefused()
    ensures Decide("a@vitstudent.ac.in.evil.com") == Refused
  {
  }
}
