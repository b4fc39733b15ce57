# Sign-in webhook admission gate

This project models the e-mail-domain admission gate of the course site's
sign-in webhook (`POST` in `app/api/clerk/sign-in-hook/route.ts`). The
identity provider posts a JSON sign-in event. The hook reads
`data.attributes.email_address` from it, with every level optional, and
defaults a missing or empty address to `""`. It admits the sign-in
(`{ status: "allow" }`) exactly when the address ends with
`"@vitstudent.ac.in"`. Otherwise it answers HTTP 401 with
`{ status: "fail", message: "Only VIT student emails are allowed." }`.

Files:

- `strings.dfy`, module `Strings`: `EndsWith`, JavaScript's
  `String.prototype.endsWith` without a position argument. It is defined by
  comparing characters from the end. Its contract proves it equal to "the last
  `|suffix|` characters are `suffix`". The lemma `EndsWithIffSplit` proves it
  equal to "the string is some prefix followed by `suffix`".
- `sign_in_hook.dfy`, module `SignInHook`: the request body as nested optional
  records (`Option<Body>` → `Option<Data>` → `Option<Attributes>` →
  `Option<string>`), the optional chain (`LookupEmail`), the `|| ""` default
  (`ExtractEmail`), the decision (`Decide`), the whole handler (`Post`), and
  lemmas that pin down when each reply is produced.

Modelling notes:

- `None` at any level of the body stands for a key that is absent, `null`,
  `undefined` or not an object. In each of these cases `?.` yields
  `undefined`.
- The address is a string when present. A truthy non-string there would make
  `.endsWith` throw. That case is outside the model (see below).
- JavaScript compares UTF-16 code units, and the model compares Dafny
  characters. The domain is pure ASCII, so both give the same answer for
  every address.
- Exactly one of the two replies is produced for every request
  (`Decide`, `Post`, `AdmittedIffDomainAppended`). The decision is a function,
  so it is deterministic. `DependsOnlyOnEmail` shows it depends only on the
  extracted address.

## Model

| member | source | states |
|---|---|---|
| `Strings.EndsWith` | app/api/clerk/sign-in-hook/route.ts:9 | the suffix test holds exactly when the suffix is no longer than the string and equals its last characters; exact, case-sensitive comparison |
| `Strings.EndsWithIffSplit` | app/api/clerk/sign-in-hook/route.ts:9 | a string ends with a suffix exactly when it is some prefix followed by that suffix |
| `SignInHook.LookupEmail` | app/api/clerk/sign-in-hook/route.ts:5 | the optional chain yields an address only when body, `data` and `attributes` are all present, and then it is the `email_address` field |
| `SignInHook.ExtractEmail` | app/api/clerk/sign-in-hook/route.ts:5 | a non-empty extracted address is the one the chain found; a present non-empty address is kept unchanged; a missing one becomes `""` |
| `SignInHook.Decide` | app/api/clerk/sign-in-hook/route.ts:7-19 | allow exactly when the last 17 characters of the address are `"@vitstudent.ac.in"`; every reply is either the fixed allow reply or the fixed 401 fail reply |
| `SignInHook.Post` | app/api/clerk/sign-in-hook/route.ts:3-20 | a request is admitted exactly when it carries an address that ends with the domain; every other request gets the fail reply |
| `SignInHook.RequestFor` | app/api/clerk/sign-in-hook/route.ts:5 | a request built with an address at `data.attributes.email_address` yields that address through the optional chain |
| `SignInHook.AdmittedIffDomainAppended` | app/api/clerk/sign-in-hook/route.ts:7-19 | admitted exactly when the extracted address is some text followed by the domain; not admitted exactly when refused |
| `SignInHook.AdmittedReplyIsFixed` | app/api/clerk/sign-in-hook/route.ts:19 | every allow reply has status `"allow"`, no message and no explicit HTTP status |
| `SignInHook.RefusedReplyIsFixed` | app/api/clerk/sign-in-hook/route.ts:10-16 | every fail reply has code 401, status `"fail"` and exactly the message `"Only VIT student emails are allowed."` |
| `SignInHook.MissingEmailRefused` | app/api/clerk/sign-in-hook/route.ts:5-9 | a missing or empty address becomes `""` and the request is refused |
| `SignInHook.MissingLevelRefused` | app/api/clerk/sign-in-hook/route.ts:5-9 | a missing body, `data`, `attributes` or `email_address`, or an empty address, each makes the request refused |
| `SignInHook.DependsOnlyOnEmail` | app/api/clerk/sign-in-hook/route.ts:9-19 | two requests with the same extracted address get the same reply |
| `SignInHook.RequestRoundTrip` | app/api/clerk/sign-in-hook/route.ts:5-9 | a non-empty address carried by a request is extracted unchanged and decided as it is |
| `SignInHook.AnyLocalPartAdmitted` | app/api/clerk/sign-in-hook/route.ts:7-9 | the domain is 17 characters long, and any text followed by the domain is admitted |
| `SignInHook.NoAddressFormatCheck` | app/api/clerk/sign-in-hook/route.ts:9 | the bare `"@vitstudent.ac.in"` and `"x@y@vitstudent.ac.in"` are both admitted, so the address format is not checked |
| `SignInHook.UpperCaseDomainRefused` | app/api/clerk/sign-in-hook/route.ts:9 | `"a@VITSTUDENT.AC.IN"` is refused, so the match is case-sensitive |
| `SignInHook.DomainNotAtEndRefused` | app/api/clerk/sign-in-hook/route.ts:9 | `"a@vitstudent.ac.in.evil.com"` is refused, so the domain must end the address |

## Left out

- Reading the request (`await req.json()`) and building the response
  (`NextResponse.json`) are framework I/O. Their effect is modelled only as the
  `Outcome` value. A body that is not valid JSON makes `req.json()` throw
  before the gate runs, and the model does not cover that case.
- A truthy `email_address` that is not a string, such as a number or an
  object. It would make `.endsWith` throw at run time. The model restricts
  the field to strings.
- The identity provider that calls the webhook, and any session or
  authorisation behaviour beyond this one check. That code is external.
- The chapter page's video-URL resolution (YouTube, Vimeo or direct URLs) and
  the rest of the course pages. `app/(course)/courses/[courseId]/chapters/[chapterId]/page.tsx`
  and the other page and form files are not part of this model. They are
  UI composition and framework plumbing around this gate.
- `app/layout.tsx` is UI composition: providers, fonts, metadata and markup.
  It has no behaviour to state.
