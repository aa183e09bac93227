/**
 * The UPI input component (components/UpiInput.tsx). It edits a flat
 * `payment` record of its parent's form (keys "upiid", "amount",
 * "currency", "payer") and keeps a local choice of which inputs to show.
 */
module UpiInput {
  import opened JsValues
  import opened Records

  /** The three options of the selector (the `UpiType` union). */
  datatype UpiType = UpiIdOnly | UpiIdAmountCurrency | UpiIdAmountCurrencyPayer

  /** The option's string, as the `<select>` and the comparisons spell it. */
  function OptionValue(o: UpiType): string
  {
    match o
    case UpiIdOnly => "upiid"
    case UpiIdAmountCurrency => "upiid+amount+currency"
    case UpiIdAmountCurrencyPayer => "upiid+amount+currency+payer"
  }

  /** The inputs the component can show. */
  datatype Field = UpiIdInput | AmountInput | CurrencyInput | PayerInput

  /** The key of the `payment` record that an input reads and writes. */
  function Key(f: Field): string
  {
    match f
    case UpiIdInput => "upiid"
    case AmountInput => "amount"
    case CurrencyInput => "currency"
    case PayerInput => "payer"
  }

  /** What an input shows when its key is unset or "". */
  function Fallback(f: Field): string
  {
    if f == CurrencyInput then "INR" else ""
  }

  /** The condition on the amount-and-currency group. */
  predicate ShowsAmountAndCurrency(o: UpiType)
  {
    OptionValue(o) == "upiid+amount+currency" || OptionValue(o) == "upiid+amount+currency+payer"
  }

  /** The condition on the payer input. */
  predicate ShowsPayer(o: UpiType)
  {
    OptionValue(o) == "upiid+amount+currency+payer"
  }

  /** The inputs rendered under option `o`: the UPI ID input always, the others by the two conditions. */
  function VisibleFields(o: UpiType): (fs: set<Field>)
    ensures UpiIdInput in fs
    ensures AmountInput in fs <==> o == UpiIdAmountCurrency || o == UpiIdAmountCurrencyPayer
    ensures CurrencyInput in fs <==> o == UpiIdAmountCurrency || o == UpiIdAmountCurrencyPayer
    ensures PayerInput in fs <==> o == UpiIdAmountCurrencyPayer
  {
    {UpiIdInput}
      + (if ShowsAmountAndCurrency(o) then {AmountInput, CurrencyInput} else {})
      + (if ShowsPayer(o) then {PayerInput} else {})
  }

  /** The visible sets grow strictly from one option to the next. */
  lemma VisibleFieldsNested()
    ensures VisibleFields(UpiIdOnly) == {UpiIdInput}
    ensures VisibleFields(UpiIdAmountCurrency) == {UpiIdInput, AmountInput, CurrencyInput}
    ensures VisibleFields(UpiIdAmountCurrencyPayer) == {UpiIdInput, AmountInput, CurrencyInput, PayerInput}
    ensures VisibleFields(UpiIdOnly) < VisibleFields(UpiIdAmountCurrency) < VisibleFields(UpiIdAmountCurrencyPayer)
  {
    var a, b, c := VisibleFields(UpiIdOnly), VisibleFields(UpiIdAmountCurrency), VisibleFields(UpiIdAmountCurrencyPayer);
    assert forall f: Field :: f in a <==> f == UpiIdInput;
    assert forall f: Field :: f in b <==> f != PayerInput;
    assert forall f: Field :: f in c;
    assert AmountInput in b - a && PayerInput in c - b;
  }

  /**
   * The parent's form as far as this component sees it: the `payment`
   * record, which may be missing, and the other top-level properties,
   * whose values (of type `T`) the component never looks at. The key
   * "payment" is never among the other properties.
   */
  datatype HostRecord<T> = HostRecord(payment: Option<Record<string>>, others: map<string, T>)

  type HostForm<T> = h: HostRecord<T> | "payment" !in h.others witness HostRecord(None, map[])

  /** `{ ...prev.payment }`: spreading a missing record gives the empty one. */
  function PaymentRecord<T>(form: HostForm<T>): Record<string>
  {
    if form.payment.Some? then form.payment.value else []
  }

  /** The updater `handleChange(field, value)` passes to `setForm`. */
  function WithPaymentField<T>(prev: HostForm<T>, field: string, value: string): (next: HostForm<T>)
    ensures next.payment.Some?
    ensures Get(next.payment.value, field) == Some(value)
    ensures forall k :: k != field ==> Get(next.payment.value, k) == Get(PaymentRecord(prev), k)
    ensures next.others == prev.others
  {
    GetSet(PaymentRecord(prev), field, value);
    prev.(payment := Some(Set(PaymentRecord(prev), field, value)))
  }

  /** The text an input shows: `form.payment?.<key> || <fallback>`. */
  function Displayed<T>(form: HostForm<T>, f: Field): string
  {
    var stored := if form.payment.Some? then Get(form.payment.value, Key(f)) else None;
    OrElse(stored, Fallback(f))
  }

  /**
   * An input shows its stored text when that is non-empty, and otherwise
   * "" (UPI ID, amount, payer) or "INR" (currency).
   */
  lemma DisplayDefaults<T>(form: HostForm<T>, f: Field)
    ensures var stored := Get(PaymentRecord(form), Key(f));
      Displayed(form, f) == if Truthy(stored) then stored.value else Fallback(f)
    ensures Fallback(f) == "" <==> f != CurrencyInput
  {
  }

  /** After typing `v` into input `f`, it shows `v` (or its fallback for ""), and every other input is unchanged. */
  lemma DisplayAfterChange<T>(form: HostForm<T>, f: Field, v: string, g: Field)
    ensures Displayed(WithPaymentField(form, Key(f), v), f) == if v != "" then v else Fallback(f)
    ensures g != f ==> Displayed(WithPaymentField(form, Key(f), v), g) == Displayed(form, g)
  {
    if g != f {
      assert Key(g) != Key(f);
    }
  }

  /** The component's state: its own `option`, and the parent's form that it changes through `setForm`. */
  class UpiInputState<T> {
    var option: UpiType
    var form: HostForm<T>

    /** Mounting: the option starts as "upiid". */
    constructor(parentForm: HostForm<T>)
      ensures option == UpiIdOnly && form == parentForm
      ensures VisibleFields(option) == {UpiIdInput}
    {
      option := UpiIdOnly;
      form := parentForm;
      VisibleFieldsNested();
    }

    /** The selector's `onChange`. */
    method SetOption(o: UpiType)
      modifies this
      ensures option == o && form == old(form)
    {
      option := o;
    }

    /** `handleChange(field, value)`; the option is left alone. */
    method HandleChange(field: string, value: string)
      modifies this
      ensures form == WithPaymentField(old(form), field, value)
      ensures option == old(option)
    {
      form := WithPaymentField(form, field, value);
    }
  }
}
