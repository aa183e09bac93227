/**
 * The dashboard page (app/dashboard/page.tsx): the profile form it edits,
 * how a fetched document becomes that form, the edits its inputs make, the
 * UPI deep link shown under each payment entry, the choices of the default
 * redirect, and the body that the save button posts.
 */
module Dashboard {
  import opened JsValues
  import opened Records
  import FormUrlEncoded

  /** A payment entry. Each field may be missing in a document loaded from the server. */
  datatype PaymentDetail = PaymentDetail(
    upiId: Option<string>,
    payerName: Option<string>,
    amount: Option<string>,
    currency: Option<string>)

  /** The form state: social URLs and payment entries keyed by platform, the default redirect, the username. */
  datatype RedirectData = RedirectData(
    social: Record<string>,
    payment: Record<PaymentDetail>,
    defaultRedirect: string,
    username: string)

  /** The form before anything is loaded. */
  const EmptyForm := RedirectData([], [], "", "")

  // ---------------------------------------------------------------- loading

  /** The parts of the fetched JSON document that the page reads; any of them may be missing. */
  datatype Links = Links(social: Option<Record<string>>, payment: Option<Record<PaymentDetail>>)
  datatype Document = Document(links: Option<Links>, defaultRedirect: Option<string>, username: Option<string>)

  function SocialOf(d: Option<Document>): Option<Record<string>>
  {
    if d.Some? && d.value.links.Some? then d.value.links.value.social else None
  }

  function PaymentOf(d: Option<Document>): Option<Record<PaymentDetail>>
  {
    if d.Some? && d.value.links.Some? then d.value.links.value.payment else None
  }

  function DefaultRedirectOf(d: Option<Document>): Option<string>
  {
    if d.Some? then d.value.defaultRedirect else None
  }

  function UsernameOf(d: Option<Document>): Option<string>
  {
    if d.Some? then d.value.username else None
  }

  /**
   * The form built from a fetched document: `d?.links?.social || {}` and
   * the like. An object is always truthy, so only a missing record is
   * replaced by the empty one; a missing string becomes "".
   */
  function Load(d: Option<Document>): RedirectData
  {
    RedirectData(
      if SocialOf(d).Some? then SocialOf(d).value else [],
      if PaymentOf(d).Some? then PaymentOf(d).value else [],
      OrElse(DefaultRedirectOf(d), ""),
      OrElse(UsernameOf(d), ""))
  }

  /** Loading keeps whatever the document holds and fills in exactly the missing parts. */
  lemma LoadNormalizes(d: Option<Document>)
    ensures Load(d).social == (if SocialOf(d).Some? then SocialOf(d).value else [])
    ensures Load(d).payment == (if PaymentOf(d).Some? then PaymentOf(d).value else [])
    ensures Load(d).defaultRedirect == (if DefaultRedirectOf(d).Some? then DefaultRedirectOf(d).value else "")
    ensures Load(d).username == (if UsernameOf(d).Some? then UsernameOf(d).value else "")
    ensures d.None? ==> Load(d) == EmptyForm
  {
    OrElseEmpty(DefaultRedirectOf(d));
    OrElseEmpty(UsernameOf(d));
  }

  // ----------------------------------------------------------------- saving

  /** The JSON body posted by the save button. It has no place for the username. */
  datatype SaveLinks = SaveLinks(social: Record<string>, payment: Record<PaymentDetail>)
  datatype SaveBody = SaveBody(links: SaveLinks, defaultRedirect: string)

  function SavePayload(form: RedirectData): SaveBody
  {
    SaveBody(SaveLinks(form.social, form.payment), form.defaultRedirect)
  }

  /** Two forms post the same body exactly when they agree on everything but the username. */
  lemma SavePayloadIgnoresOnlyUsername(f: RedirectData, g: RedirectData)
    ensures SavePayload(f) == SavePayload(g) <==> f.(username := "") == g.(username := "")
  {
    if SavePayload(f) == SavePayload(g) {
      assert f.social == g.social && f.payment == g.payment && f.defaultRedirect == g.defaultRedirect;
    }
  }

  /** The document a server returns when it stores a saved body together with the user's name. */
  function Stored(body: SaveBody, username: string): Document
  {
    Document(Some(Links(Some(body.links.social), Some(body.links.payment))), Some(body.defaultRedirect), Some(username))
  }

  /** Saving and loading back loses nothing: the form comes back exactly. */
  lemma LoadSaved(form: RedirectData)
    ensures Load(Some(Stored(SavePayload(form), form.username))) == form
  {
    LoadNormalizes(Some(Stored(SavePayload(form), form.username)));
  }

  // ---------------------------------------------------------------- editing

  /** `handleChange("social", field, value)`: the state updater it passes to `setForm`. */
  function WithSocial(prev: RedirectData, field: string, value: string): (next: RedirectData)
    ensures Get(next.social, field) == Some(value)
    ensures forall k :: k != field ==> Get(next.social, k) == Get(prev.social, k)
    ensures Keys(next.social) == if field in Keys(prev.social) then Keys(prev.social) else Keys(prev.social) + [field]
    ensures next.payment == prev.payment
    ensures next.defaultRedirect == prev.defaultRedirect && next.username == prev.username
  {
    GetSet(prev.social, field, value);
    prev.(social := Set(prev.social, field, value))
  }

  /** `handleChange("payment", field, value)`: the state updater it passes to `setForm`. */
  function WithPayment(prev: RedirectData, field: string, value: PaymentDetail): (next: RedirectData)
    ensures Get(next.payment, field) == Some(value)
    ensures forall k :: k != field ==> Get(next.payment, k) == Get(prev.payment, k)
    ensures Keys(next.payment) == if field in Keys(prev.payment) then Keys(prev.payment) else Keys(prev.payment) + [field]
    ensures next.social == prev.social
    ensures next.defaultRedirect == prev.defaultRedirect && next.username == prev.username
  {
    GetSet(prev.payment, field, value);
    prev.(payment := Set(prev.payment, field, value))
  }

  /** The entry shown for a platform that has none yet. */
  const DefaultEntry := PaymentDetail(Some(""), Some(""), Some(""), Some("INR"))

  /** `form.payment[p] || { upiId: "", ... }`: an entry object is always truthy. */
  function EntryOrDefault(payment: Record<PaymentDetail>, p: string): (pay: PaymentDetail)
    ensures Get(payment, p).Some? ==> pay == Get(payment, p).value
    ensures Get(payment, p).None? ==> pay == DefaultEntry
  {
    match Get(payment, p)
    case Some(e) => e
    case None => DefaultEntry
  }

  /** The fields of a payment entry. The page has inputs for the first three. */
  datatype PaymentField = UpiIdField | PayerNameField | AmountField | CurrencyField

  function FieldOf(pay: PaymentDetail, f: PaymentField): Option<string>
  {
    match f
    case UpiIdField => pay.upiId
    case PayerNameField => pay.payerName
    case AmountField => pay.amount
    case CurrencyField => pay.currency
  }

  /** `{ ...pay, [f]: v }` on a payment entry. */
  function WithField(pay: PaymentDetail, f: PaymentField, v: string): (r: PaymentDetail)
    ensures FieldOf(r, f) == Some(v)
    ensures forall g :: g != f ==> FieldOf(r, g) == FieldOf(pay, g)
  {
    match f
    case UpiIdField => pay.(upiId := Some(v))
    case PayerNameField => pay.(payerName := Some(v))
    case AmountField => pay.(amount := Some(v))
    case CurrencyField => pay.(currency := Some(v))
  }

  /**
   * What typing `v` into field `f` of platform `p` does: the entry shown
   * (or the default one) with that field replaced is stored under `p`.
   */
  function EditPayment(prev: RedirectData, p: string, f: PaymentField, v: string): RedirectData
  {
    WithPayment(prev, p, WithField(EntryOrDefault(prev.payment, p), f, v))
  }

  /**
   * After an edit of one payment field, the entry under `p` is the old
   * entry (or the default one if there was none) with only that field
   * changed, and every other platform, the social links, the default
   * redirect and the username are untouched.
   */
  lemma EditPaymentReplacesEntry(prev: RedirectData, p: string, f: PaymentField, v: string)
    ensures var next := EditPayment(prev, p, f, v);
      && Get(next.payment, p).Some?
      && FieldOf(Get(next.payment, p).value, f) == Some(v)
      && (forall g :: g != f ==> FieldOf(Get(next.payment, p).value, g) == FieldOf(EntryOrDefault(prev.payment, p), g))
      && (forall q :: q != p ==> Get(next.payment, q) == Get(prev.payment, q))
      && next.social == prev.social && next.defaultRedirect == prev.defaultRedirect && next.username == prev.username
  {
  }

  /** A platform without an entry starts from the default entry: currency INR, everything else "". */
  lemma EditAbsentEntry(prev: RedirectData, p: string, f: PaymentField, v: string)
    requires Get(prev.payment, p).None?
    ensures EntryOrDefault(prev.payment, p) == DefaultEntry
    ensures GenerateUpiLink(DefaultEntry) == ""
    ensures Get(EditPayment(prev, p, f, v).payment, p) == Some(WithField(DefaultEntry, f, v))
  {
  }

  // ------------------------------------------------------ what the inputs show

  /** `form.social?.[id] || ""`, the text of a social input. */
  function SocialInputText(form: RedirectData, id: string): string
  {
    OrElse(Get(form.social, id), "")
  }

  /** The fields that have an input on the page; the currency has none. */
  type PaymentInput = f: PaymentField | f != CurrencyField witness UpiIdField

  /**
   * The text of a payment input: `pay.payerName || ""` and `pay.amount || ""`
   * for the entry shown, and `pay.upiId` for the UPI ID. A stored entry with
   * no `upiId` leaves that input without a value; it is taken here as "".
   */
  function PaymentInputText(form: RedirectData, p: string, f: PaymentInput): string
  {
    OrElse(FieldOf(EntryOrDefault(form.payment, p), f), "")
  }

  /**
   * An input shows the field of the stored entry, or "" when that field is
   * missing; every input of a platform with no entry shows "".
   */
  lemma PaymentInputTextShows(form: RedirectData, p: string, f: PaymentInput)
    ensures Get(form.payment, p).None? ==> PaymentInputText(form, p, f) == ""
    ensures Get(form.payment, p).Some? ==>
      PaymentInputText(form, p, f) == var o := FieldOf(Get(form.payment, p).value, f); if o.Some? then o.value else ""
  {
    OrElseEmpty(FieldOf(EntryOrDefault(form.payment, p), f));
  }

  /** A social input shows what was typed into it and every other input keeps its text. */
  lemma SocialInputShowsTyped(form: RedirectData, id: string, v: string, other: string)
    ensures SocialInputText(WithSocial(form, id, v), id) == v
    ensures other != id ==> SocialInputText(WithSocial(form, id, v), other) == SocialInputText(form, other)
    ensures forall p, f :: PaymentInputText(WithSocial(form, id, v), p, f) == PaymentInputText(form, p, f)
  {
  }

  /** A payment input shows what was typed into it and every other payment input keeps its text. */
  lemma PaymentInputShowsTyped(form: RedirectData, p: string, f: PaymentInput, v: string, q: string, g: PaymentInput)
    ensures PaymentInputText(EditPayment(form, p, f, v), p, f) == v
    ensures (q, g) != (p, f) ==> PaymentInputText(EditPayment(form, p, f, v), q, g) == PaymentInputText(form, q, g)
  {
    var next := EditPayment(form, p, f, v);
    if q != p {
      assert EntryOrDefault(next.payment, q) == EntryOrDefault(form.payment, q);
    }
  }

  // -------------------------------------------------------------- deep link

  const UpiPrefix := "upi://pay?"

  /** The query pairs, in the order the object literal lists them. */
  function UpiParams(pay: PaymentDetail): seq<FormUrlEncoded.Tuple>
    requires pay.upiId.Some?
  {
    [("pa", pay.upiId.value), ("pn", OrElse(pay.payerName, "")),
     ("am", OrElse(pay.amount, "")), ("cu", OrElse(pay.currency, "INR"))]
  }

  /**
   * `generateUpiLink`: "" when the entry has no UPI ID; otherwise
   * `upi://pay?` and the four pairs pa, pn, am, cu serialized as
   * `URLSearchParams` does. Parsing the query back gives the UPI ID, the
   * payer name or "", the amount or "", and the currency or "INR".
   */
  function GenerateUpiLink(pay: PaymentDetail): (link: string)
    ensures link == "" <==> !Truthy(pay.upiId)
    ensures Truthy(pay.upiId) ==>
      && |link| > |UpiPrefix| && link[..|UpiPrefix|] == UpiPrefix
      && FormUrlEncoded.ParseString(link[|UpiPrefix|..]) ==
         [("pa", pay.upiId.value),
          ("pn", if Truthy(pay.payerName) then pay.payerName.value else ""),
          ("am", if Truthy(pay.amount) then pay.amount.value else ""),
          ("cu", if Truthy(pay.currency) then pay.currency.value else "INR")]
  {
    if !Truthy(pay.upiId) then ""
    else
      var query := FormUrlEncoded.Serialize(UpiParams(pay));
      FormUrlEncoded.ParseSerialize(UpiParams(pay));
      assert (UpiPrefix + query)[|UpiPrefix|..] == query;
      NonEmptySerialization(UpiParams(pay));
      UpiPrefix + query
  }

  lemma NonEmptySerialization(ts: seq<FormUrlEncoded.Tuple>)
    requires ts != []
    ensures FormUrlEncoded.Serialize(ts) != ""
  {
    var t := FormUrlEncoded.SerializeTuple(ts[0]);
    assert t[|FormUrlEncoded.EncodeComponent(ts[0].0)|] == '=';
  }

  /** The link text shown under the entry of platform `p` (none when it is ""). */
  function ShownUpiLink(form: RedirectData, p: string): (link: string)
    ensures Get(form.payment, p).None? ==> link == ""
    ensures link != "" <==> Get(form.payment, p).Some? && Truthy(Get(form.payment, p).value.upiId)
  {
    GenerateUpiLink(EntryOrDefault(form.payment, p))
  }

  // --------------------------------------------------------- default redirect

  /** An `<option>` of the default-redirect select: its value and its text. */
  datatype Choice = Choice(value: string, text: string)

  const Placeholder := Choice("", "-- Select Default Redirect --")

  function SocialChoice(e: (string, string)): Choice
  {
    Choice(e.1, e.0 + " - " + e.1)
  }

  function PaymentChoice(e: (string, PaymentDetail)): Choice
    requires e.1.upiId.Some?
  {
    Choice(e.1.upiId.value, e.0 + " - " + e.1.upiId.value)
  }

  /** `Object.entries(form.social).filter(([_, v]) => v).map(...)`. */
  function SocialChoices(entries: seq<(string, string)>): (cs: seq<Choice>)
    ensures |cs| <= |entries|
    ensures forall c :: c in cs <==>
      exists i :: 0 <= i < |entries| && entries[i].1 != "" && c == SocialChoice(entries[i])
  {
    if entries == [] then []
    else
      var tail := SocialChoices(entries[1..]);
      assert forall i :: 0 < i < |entries| ==> entries[i] == entries[1..][i - 1];
      if entries[0].1 != "" then [SocialChoice(entries[0])] + tail else tail
  }

  /** `Object.entries(form.payment).filter(([_, v]) => v?.upiId).map(...)`. */
  function PaymentChoices(entries: seq<(string, PaymentDetail)>): (cs: seq<Choice>)
    ensures |cs| <= |entries|
    ensures forall c :: c in cs <==>
      exists i :: 0 <= i < |entries| && Truthy(entries[i].1.upiId) && c == PaymentChoice(entries[i])
  {
    if entries == [] then []
    else
      var tail := PaymentChoices(entries[1..]);
      assert forall i :: 0 < i < |entries| ==> entries[i] == entries[1..][i - 1];
      if Truthy(entries[0].1.upiId) then [PaymentChoice(entries[0])] + tail else tail
  }

  /**
   * The social options of a concatenation of entries are the options of the
   * first part followed by those of the second: together with
   * `SocialChoicesOne`, the options are one per entry with a non-empty URL,
   * in the order of the entries.
   */
  lemma {:induction false} SocialChoicesAppend(a: seq<(string, string)>, b: seq<(string, string)>)
    ensures SocialChoices(a + b) == SocialChoices(a) + SocialChoices(b)
  {
    if a == [] {
      assert a + b == b;
    } else {
      assert (a + b)[0] == a[0] && (a + b)[1..] == a[1..] + b;
      SocialChoicesAppend(a[1..], b);
    }
  }

  /** A single entry gives its option when its URL is non-empty and nothing otherwise. */
  lemma SocialChoicesOne(e: (string, string))
    ensures SocialChoices([e]) == if e.1 != "" then [SocialChoice(e)] else []
  {
    assert [e][1..] == [];
  }

  /** The payment options of a concatenation of entries are those of each part, in order. */
  lemma {:induction false} PaymentChoicesAppend(a: seq<(string, PaymentDetail)>, b: seq<(string, PaymentDetail)>)
    ensures PaymentChoices(a + b) == PaymentChoices(a) + PaymentChoices(b)
  {
    if a == [] {
      assert a + b == b;
    } else {
      assert (a + b)[0] == a[0] && (a + b)[1..] == a[1..] + b;
      PaymentChoicesAppend(a[1..], b);
    }
  }

  /** A single entry gives its option when its UPI ID is non-empty and nothing otherwise. */
  lemma PaymentChoicesOne(e: (string, PaymentDetail))
    ensures Truthy(e.1.upiId) ==> PaymentChoices([e]) == [PaymentChoice(e)]
    ensures !Truthy(e.1.upiId) ==> PaymentChoices([e]) == []
  {
    assert [e][1..] == [];
  }

  /** A value the form currently holds: a social URL or a UPI ID. */
  predicate IsLive(form: RedirectData, v: string)
  {
    || (exists i :: 0 <= i < |form.social| && form.social[i].1 == v)
    || (exists i :: 0 <= i < |form.payment| && form.payment[i].1.upiId == Some(v))
  }

  /**
   * The options of the default-redirect select: the placeholder with value
   * "", then one option per non-empty social URL, then one per entry with a
   * non-empty UPI ID, each group in property order.
   */
  function RedirectChoices(form: RedirectData): (cs: seq<Choice>)
    ensures |cs| == 1 + |SocialChoices(form.social)| + |PaymentChoices(form.payment)|
    ensures cs[0] == Placeholder
    ensures forall i :: 1 <= i <= |SocialChoices(form.social)| ==>
      exists j :: 0 <= j < |form.social| && form.social[j].1 != "" && cs[i] == SocialChoice(form.social[j])
    ensures forall i :: 1 + |SocialChoices(form.social)| <= i < |cs| ==>
      exists j :: 0 <= j < |form.payment| && Truthy(form.payment[j].1.upiId) && cs[i] == PaymentChoice(form.payment[j])
    ensures forall j :: 0 <= j < |form.social| && form.social[j].1 != "" ==> SocialChoice(form.social[j]) in cs
    ensures forall j :: 0 <= j < |form.payment| && Truthy(form.payment[j].1.upiId) ==> PaymentChoice(form.payment[j]) in cs
  {
    var s, p := SocialChoices(form.social), PaymentChoices(form.payment);
    var cs := [Placeholder] + s + p;
    forall i | 1 <= i <= |s|
      ensures exists j :: 0 <= j < |form.social| && form.social[j].1 != "" && cs[i] == SocialChoice(form.social[j])
    {
      assert cs[i] == s[i - 1] && s[i - 1] in s;
    }
    forall i | 1 + |s| <= i < |cs|
      ensures exists j :: 0 <= j < |form.payment| && Truthy(form.payment[j].1.upiId) && cs[i] == PaymentChoice(form.payment[j])
    {
      assert cs[i] == p[i - 1 - |s|] && p[i - 1 - |s|] in p;
    }
    cs
  }

  /** Every option but the placeholder has a non-empty value that the form currently holds. */
  lemma ChoicesAreLive(form: RedirectData, c: Choice)
    requires c in RedirectChoices(form) && c != Placeholder
    ensures c.value != "" && IsLive(form, c.value)
  {
    var cs := RedirectChoices(form);
    var i :| 0 <= i < |cs| && cs[i] == c;
    assert i != 0;
    if i <= |SocialChoices(form.social)| {
      var j :| 0 <= j < |form.social| && form.social[j].1 != "" && cs[i] == SocialChoice(form.social[j]);
      assert c.value == form.social[j].1;
    } else {
      var j :| 0 <= j < |form.payment| && Truthy(form.payment[j].1.upiId) && cs[i] == PaymentChoice(form.payment[j]);
      assert Some(c.value) == form.payment[j].1.upiId;
    }
  }

  /** The default redirect is unset or one of the values the form holds. */
  predicate DefaultIsLive(form: RedirectData)
  {
    form.defaultRedirect == "" || IsLive(form, form.defaultRedirect)
  }

  /** Choosing any option of the select leaves a default redirect that is unset or live. */
  lemma SelectingKeepsDefaultLive(form: RedirectData, c: Choice)
    requires c in RedirectChoices(form)
    ensures DefaultIsLive(form.(defaultRedirect := c.value))
  {
    if c != Placeholder {
      ChoicesAreLive(form, c);
      var f := form.(defaultRedirect := c.value);
      assert f.social == form.social && f.payment == form.payment;
    }
  }

  /** The default redirect is a copy, not a reference: editing its source leaves it stale. */
  lemma DefaultCanGoStale()
    ensures var form := RedirectData([("instagram", "https://instagram.com/a")], [], "https://instagram.com/a", "a");
      DefaultIsLive(form) && !DefaultIsLive(WithSocial(form, "instagram", "https://instagram.com/b"))
  {
    var form := RedirectData([("instagram", "https://instagram.com/a")], [], "https://instagram.com/a", "a");
    assert form.social[0].1 == form.defaultRedirect;
    var next := WithSocial(form, "instagram", "https://instagram.com/b");
    assert next.social == [("instagram", "https://instagram.com/b")];
  }

  // --------------------------------------------------------------- QR code

  /** The text of the profile QR code, `${base}/r/${username}`; it is drawn only when the username is not "". */
  function ProfileQrText(base: string, form: RedirectData): (r: Option<string>)
    ensures r.Some? <==> form.username != ""
    ensures r.Some? ==>
      && |r.value| == |base| + 3 + |form.username|
      && r.value[..|base|] == base && r.value[|base|..|base| + 3] == "/r/" && r.value[|base| + 3..] == form.username
  {
    if form.username == "" then None else Some(base + "/r/" + form.username)
  }

  // ------------------------------------------------------------ the page state

  /** The page's `form` state and the handlers that replace it through `setForm`. */
  class DashboardPage {
    var form: RedirectData

    constructor()
      ensures form == EmptyForm
    {
      form := EmptyForm;
    }

    /** The fetch succeeded with document `d`. */
    method Loaded(d: Option<Document>)
      modifies this
      ensures form == Load(d)
    {
      form := Load(d);
    }

    method HandleChangeSocial(field: string, value: string)
      modifies this
      ensures form == WithSocial(old(form), field, value)
    {
      form := WithSocial(form, field, value);
    }

    method HandleChangePayment(field: string, value: PaymentDetail)
      modifies this
      ensures form == WithPayment(old(form), field, value)
    {
      form := WithPayment(form, field, value);
    }

    /** The `onChange` of the UPI ID input of platform `p`. */
    method EditUpiId(p: string, v: string)
      modifies this
      ensures form == EditPayment(old(form), p, UpiIdField, v)
    {
      var pay := EntryOrDefault(form.payment, p);
      HandleChangePayment(p, pay.(upiId := Some(v)));
    }

    /** The `onChange` of the payee-name input of platform `p`. */
    method EditPayerName(p: string, v: string)
      modifies this
      ensures form == EditPayment(old(form), p, PayerNameField, v)
    {
      var pay := EntryOrDefault(form.payment, p);
      HandleChangePayment(p, pay.(payerName := Some(v)));
    }

    /** The `onChange` of the amount input of platform `p`. */
    method EditAmount(p: string, v: string)
      modifies this
      ensures form == EditPayment(old(form), p, AmountField, v)
    {
      var pay := EntryOrDefault(form.payment, p);
      HandleChangePayment(p, pay.(amount := Some(v)));
    }

    /** The `onChange` of the default-redirect select. */
    method SelectDefaultRedirect(v: string)
      modifies this
      ensures form == old(form).(defaultRedirect := v)
    {
      form := form.(defaultRedirect := v);
    }

    /** The body `saveData` posts; the page state is not changed. */
    method SaveBodyOf() returns (body: SaveBody)
      ensures body.links.social == form.social && body.links.payment == form.payment
      ensures body.defaultRedirect == form.defaultRedirect
    {
      body := SavePayload(form);
    }
  }
}
