# Qroly dashboard: form state and UPI deep links

Qroly gives each user a public page that redirects to one of their social
profiles or payment addresses. Users edit that profile in two client
components:

- The dashboard page (`app/dashboard/page.tsx`) holds a form with four parts:
  - social URLs keyed by platform;
  - UPI payment entries keyed by platform;
  - a default redirect;
  - the username.

  The page loads this form from a fetched document and edits it through
  `handleChange`. Under each payment entry it shows a `upi://pay?` deep link
  built by `URLSearchParams`. It offers a select of default-redirect
  candidates, and it posts a save body.
- The UPI input component (`components/UpiInput.tsx`) edits a flat `payment`
  record of its parent's form. A three-valued option decides which of its
  inputs are shown.

The project has six modules:

- `JsValues` (`js.dfy`): a missing-or-present string, JavaScript truthiness
  on it, and `a || b`.
- `Records` (`records.dfy`): a JavaScript object with string values. It is
  modelled as a sequence of key/value pairs with distinct keys, kept in
  insertion order, because `Object.entries` order decides the order of the
  select's options. It provides `Get` and `Set`, where `Set` is spread-then-assign.
- `Utf8` (`utf8.dfy`): UTF-8 as the WHATWG Encoding Standard defines it.
  - The encoder.
  - The decoder, as the standard's byte-at-a-time state machine in
    replacement mode, where a "restore" byte is not consumed.
  - The invariant that its state always describes a prefix of a scalar value.
  - The proof that `Decode(Encode(s)) == s`.
- `FormUrlEncoded` (`form_urlencoded.dfy`): the
  application/x-www-form-urlencoded serializer (section 5.2 of the WHATWG URL
  Standard), which is what `URLSearchParams.toString()` runs.
  - Also the parser of section 5.1 and the percent-decoding of section 1.3.
  - The proof that parsing a serialization gives back the tuples.
- `Dashboard` (`dashboard.dfy`): the dashboard page.
  - Its form and document shapes.
  - Loading, saving, `handleChange`, the default payment entry, what the inputs
    show, `generateUpiLink`, the default-redirect choices and the QR text.
  - A class `DashboardPage` whose `form` field the handlers replace.
- `UpiInput` (`upi_input.dfy`): the UPI input component.
  - Its record update, the option-driven visibility and the displayed defaults.
  - A class `UpiInputState` holding the option and the parent's form.

React's `setForm(prev => …)` updaters are modelled as pure functions from
the previous form to the next one. The classes' methods assign the result to
their `form` field.

`generateUpiLink` always passes `pn` and `am`, even when they are empty.

## Model

| member | source | states |
|---|---|---|
| JsValues.OrElseEmpty | app/dashboard/page.tsx:95-96 | `o \|\| ""` is the string itself whenever one is present, an empty one included, and `""` when it is missing |
| Records.Get | app/dashboard/page.tsx:87 | reading a key is absent exactly when the key is not in the object; when present it is that key's single stored value |
| Records.Set | app/dashboard/page.tsx:87 | `{ ...r, [k]: v }` keeps the key order, appending `k` only when it is new; it stores `(k, v)` and leaves every other position unchanged |
| Records.GetSet | app/dashboard/page.tsx:87 | after `{ ...r, [k]: v }`, key `k` reads `v` and every other key reads what it read before |
| Dashboard.LoadNormalizes | app/dashboard/page.tsx:65-70 | `Load`: a loaded form keeps the document's social record, payment record, default redirect and username when they are present; each missing one becomes `{}` or `""`; no document gives the empty form |
| Dashboard.SavePayloadIgnoresOnlyUsername | app/dashboard/page.tsx:109-115 | `SavePayload`: two forms post equal bodies if and only if they agree on social, payment and defaultRedirect; the username is never part of the body |
| Dashboard.LoadSaved | app/dashboard/page.tsx:65-70 | `Load` after `SavePayload`: loading the document a server stores for a posted body and the username recovers the form exactly |
| Dashboard.WithSocial | app/dashboard/page.tsx:80-89 | `handleChange("social", field, v)` makes `social[field] == v`; every other social key, the payment record, the default redirect and the username stay unchanged; the key order is kept, with a new key appended |
| Dashboard.WithPayment | app/dashboard/page.tsx:80-89 | `handleChange("payment", field, v)` makes `payment[field] == v`; every other payment key, the social record, the default redirect and the username stay unchanged; the key order is kept, with a new key appended |
| Dashboard.WithField | app/dashboard/page.tsx:223-243 | `{ ...pay, [f]: v }` sets field `f` to `v` and leaves the other three fields of the entry unchanged |
| Dashboard.EditPaymentReplacesEntry | app/dashboard/page.tsx:207-245 | `EditPayment`, and `EntryOrDefault` under it: typing into one field of platform `p` stores under `p` the shown entry with only that field changed; the other platforms, the social record, the default redirect and the username stay unchanged |
| Dashboard.EditAbsentEntry | app/dashboard/page.tsx:208-214 | `EntryOrDefault`: an absent entry starts from the default entry `{upiId:"", payerName:"", amount:"", currency:"INR"}`, whose deep link is `""`, and after the edit it holds the default entry with the edited field set |
| Dashboard.SocialInputShowsTyped | app/dashboard/page.tsx:187-192 | `SocialInputText`: a social input shows `form.social?.[id] \|\| ""`; after typing `v` it shows `v`, every other social input and every payment input keep their text |
| Dashboard.PaymentInputTextShows | app/dashboard/page.tsx:207-241 | `PaymentInputText`: each of the UPI ID, payee-name and amount inputs shows that field of the stored entry, or `""` when it is missing; every input of a platform without an entry shows `""` |
| Dashboard.PaymentInputShowsTyped | app/dashboard/page.tsx:218-245 | after typing `v` into one of the three payment inputs, that input shows `v` and every other payment input keeps its text |
| Dashboard.GenerateUpiLink | app/dashboard/page.tsx:91-100 | the link is `""` exactly when `upiId` is missing or empty; otherwise it is `upi://pay?` and a query that parses back to exactly `pa`=upiId, `pn`=payerName or `""`, `am`=amount or `""`, `cu`=currency or `"INR"`, in that order |
| Dashboard.ShownUpiLink | app/dashboard/page.tsx:214-261 | the link under a platform is non-empty exactly when the platform has a stored entry with a non-empty UPI ID; a platform with no entry shows none |
| Dashboard.SocialChoices | app/dashboard/page.tsx:284-290 | an option is among the social options exactly when some entry has a non-empty URL and the option has that URL as value and `platform - url` as text; there are no more options than entries |
| Dashboard.SocialChoicesAppend | app/dashboard/page.tsx:284-290 | the social options of two runs of entries are those of the first run followed by those of the second, so the options keep the property order of the entries |
| Dashboard.SocialChoicesOne | app/dashboard/page.tsx:285-289 | one entry gives exactly its option when its URL is non-empty and none otherwise; with `SocialChoicesAppend`, one option per qualifying entry, in order |
| Dashboard.PaymentChoices | app/dashboard/page.tsx:291-297 | an option is among the payment options exactly when some entry has a non-empty UPI ID and the option has that ID as value and `platform - upiId` as text; there are no more options than entries |
| Dashboard.PaymentChoicesAppend | app/dashboard/page.tsx:291-297 | the payment options of two runs of entries are those of the first run followed by those of the second, so the options keep the property order of the entries |
| Dashboard.PaymentChoicesOne | app/dashboard/page.tsx:292-296 | one entry gives exactly its option when its UPI ID is non-empty and none otherwise; with `PaymentChoicesAppend`, one option per qualifying entry, in order |
| Dashboard.RedirectChoices | app/dashboard/page.tsx:283-297 | the placeholder with value `""` comes first, then the social options, then the payment options; every non-empty URL and UPI ID of the form has its option |
| Dashboard.ChoicesAreLive | app/dashboard/page.tsx:283-297 | every option other than the placeholder has a non-empty value that is a social URL or a UPI ID currently in the form |
| Dashboard.SelectingKeepsDefaultLive | app/dashboard/page.tsx:276-298 | after choosing any option, the default redirect is `""` or a value the form holds |
| Dashboard.DefaultCanGoStale | app/dashboard/page.tsx:279-281 | the default redirect is a copied string, so a later edit of the URL it was copied from leaves it holding a value no longer in the form |
| Dashboard.ProfileQrText | app/dashboard/page.tsx:147-150 | the QR code exists exactly when the username is non-empty, and its text is `base`, then `/r/`, then the username |
| Dashboard.DashboardPage.constructor | app/dashboard/page.tsx:37-42 | the form starts with empty social and payment records, and an empty default redirect and username |
| Dashboard.DashboardPage.Loaded | app/dashboard/page.tsx:65-70 | a successful fetch replaces the form with the normalised document |
| Dashboard.DashboardPage.HandleChangeSocial | app/dashboard/page.tsx:80-89 | the new form is `WithSocial` of the old one |
| Dashboard.DashboardPage.HandleChangePayment | app/dashboard/page.tsx:80-89 | the new form is `WithPayment` of the old one |
| Dashboard.DashboardPage.EditUpiId | app/dashboard/page.tsx:221-224 | the UPI ID input's change is the payment edit of the `upiId` field of the shown entry |
| Dashboard.DashboardPage.EditPayerName | app/dashboard/page.tsx:229-235 | the payee-name input's change is the payment edit of the `payerName` field of the shown entry |
| Dashboard.DashboardPage.EditAmount | app/dashboard/page.tsx:241-244 | the amount input's change is the payment edit of the `amount` field of the shown entry |
| Dashboard.DashboardPage.SelectDefaultRedirect | app/dashboard/page.tsx:278-281 | the select's change sets the default redirect and nothing else |
| Dashboard.DashboardPage.SaveBodyOf | app/dashboard/page.tsx:109-115 | the posted body carries the form's social record, payment record and default redirect unchanged |
| FormUrlEncoded.EncodeUnreserved | app/dashboard/page.tsx:93-99 | a string of ASCII alphanumerics, `*`, `-`, `.` and `_` is serialized unchanged |
| FormUrlEncoded.EncodeAtAndSpace | app/dashboard/page.tsx:93-99 | the `@` of a UPI ID becomes `%40` and a space becomes `+` |
| FormUrlEncoded.DecodeEncodedByte | app/dashboard/page.tsx:93-99 | `EncodeByte`: replacing `+` with space and percent-decoding the encoding of any byte gives that byte back, whatever follows it |
| FormUrlEncoded.EncodeComponentAppend | app/dashboard/page.tsx:93-99 | `EncodeComponent` works character by character: it distributes over concatenation |
| FormUrlEncoded.EncodeBytesShape | app/dashboard/page.tsx:93-99 | an encoded component is ASCII and contains no `&` and no `=` |
| FormUrlEncoded.ComponentRoundTrip | app/dashboard/page.tsx:93-99 | `EncodeComponent`: percent-encoding a name or value, then replacing `+` with space, percent-decoding and UTF-8 decoding, gives the string back |
| FormUrlEncoded.ParseSerialize | app/dashboard/page.tsx:93-99 | `Serialize` (what `params.toString()` runs) against `Parse`: parsing the serialization of any list of pairs gives the same pairs in the same order |
| Utf8.EncodeChar | app/dashboard/page.tsx:93-99 | a code point is encoded as one to four bytes, and as exactly one byte when it is ASCII |
| Utf8.StepKeepsValid | app/dashboard/page.tsx:93-99 | from a valid decoder state every byte leads to a valid state, and a byte that completes a sequence completes a Unicode scalar value |
| Utf8.ValidCompletesToScalars | app/dashboard/page.tsx:93-99 | from a valid state, every sequence the decoder completes over any bytes is a scalar value, so the decoder's fallback branch is never taken |
| Utf8.EncodeAppend | app/dashboard/page.tsx:93-99 | `Encode` works code point by code point: it distributes over concatenation |
| Utf8.DecodeEncode | app/dashboard/page.tsx:93-99 | `Decode` against `Encode`: UTF-8 decoding the UTF-8 encoding of any string gives the string back |
| UpiInput.VisibleFields | components/UpiInput.tsx:36-73 | the UPI ID input is always shown; the amount and currency inputs are shown exactly for the two amount options; the payer input is shown exactly for the payer option |
| UpiInput.VisibleFieldsNested | components/UpiInput.tsx:4 | the shown sets are `{upiid}`, `{upiid, amount, currency}` and all four, each strictly inside the next |
| UpiInput.WithPaymentField | components/UpiInput.tsx:9-17 | `handleChange(field, v)` makes `payment[field] == v`; every other payment key reads as before, and a missing record is spread as `{}`; every other top-level key stays unchanged |
| UpiInput.DisplayDefaults | components/UpiInput.tsx:39-69 | `Displayed`: an input shows its stored text when that is non-empty, and otherwise `""` for upiid, amount and payer and `"INR"` for currency |
| UpiInput.DisplayAfterChange | components/UpiInput.tsx:9-69 | after typing `v` into an input it shows `v`, or its fallback when `v` is `""`; every other input shows what it showed before |
| UpiInput.UpiInputState.constructor | components/UpiInput.tsx:7 | the option starts as `"upiid"`, so only the UPI ID input is shown; the form is the parent's |
| UpiInput.UpiInputState.SetOption | components/UpiInput.tsx:24-27 | the selector's change sets the option and leaves the form alone |
| UpiInput.UpiInputState.HandleChange | components/UpiInput.tsx:9-17 | the new form is `WithPaymentField` of the old one and the option is unchanged |

## Left out

- Network and timers:
  - The `fetch` calls and their HTTP status handling are not modelled.
  - The `saving`, `loading` and `saveStatus` flags are not modelled.
  - The `setTimeout` that clears the status is not modelled.
  - The `data` state is not modelled.
  - Loading is modelled only as the document a successful fetch delivers.
  - Saving is modelled only as the body it posts.
- The QR image, drawn by `qrcode.react`, is a foreign library. Only its text and the condition for drawing it are modelled.
- Markup, styling, the default-redirect notice and other presentational text are not modelled, apart from the option texts.
- JSON values are modelled only as strings and records of strings:
  - Documents with non-string values in these places are not modelled.
  - `null` entries are not modelled.
  - A non-object `links.social` is not modelled.
  - A non-object `prev.payment` is not modelled.
- Records.Set: JavaScript orders integer-like keys before other keys. The model keeps plain insertion order for every key.
- Dashboard.PaymentInputText: a stored entry without `upiId` leaves the UPI ID input with no value (`value={pay.upiId}` has no `|| ""`), so React treats it as uncontrolled and it keeps whatever text the browser holds. The model shows `""` there.
- UpiInput.WithPaymentField: the order of the parent form's top-level keys is not modelled. They are kept as a map.
- Utf8.Encode: JavaScript strings may hold lone surrogates, which `URLSearchParams` turns into U+FFFD. A Dafny `char` is always a scalar value, so that conversion is not modelled.
- Utf8.Step: its branch for a completed sequence that is not a scalar value emits U+FFFD. That branch exists only so the function is total. `Utf8.ValidCompletesToScalars` proves it is never taken from the decoder's initial state.
- UpiInput.UpiInputState.SetOption: the `as UpiType` cast is taken at its word. A value outside the three options cannot be chosen from the fixed `<option>` list.
- React issues are not modelled:
  - batching of state updates;
  - re-rendering;
  - the page handlers' closure over the rendered `form` rather than `prev`.

  The page handlers are modelled as reading the current form.
- `type="number"` on the amount inputs is a browser hint. The amount is modelled as an arbitrary string.
- The public `/r/{username}` resolver, the `/api/redirects` handlers, authentication (`lib/auth.ts`), the navigation bar, the layout and the landing page are not part of this model.
