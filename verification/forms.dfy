/** The purchase form of the modular front end around its cascading
    selects: the initial disabled state, the supplier and alloy listeners,
    reading the form into a data object, resetting it, the validation
    rules of a purchase, the submit listener and the character counter of
    the observations box.

    A form is a `FormState`: the supplier select's value, the alloy and
    description selects, and the three optional inputs (`None` when the
    page has no such element). `form.reset()` puts each select back on its
    placeholder and each input back to empty, which is what the page's
    markup declares as defaults. */
module Forms {
  import opened Wrappers
  import Decimal
  import Text
  import ProductCatalog
  import opened Validation

  type Select = ProductCatalog.Select

  datatype FormState = FormState(
    supplier: string,
    alloy: Select,
    description: Select,
    purchaseType: Option<string>,
    quantity: Option<string>,
    deliveryDate: Option<string>)

  /** `initForms`: the alloy and description selects start disabled;
      nothing else is touched. */
  function InitForms(f: FormState): (r: FormState)
    ensures r.alloy.disabled && r.description.disabled
    ensures r.alloy == f.alloy.(disabled := true) && r.description == f.description.(disabled := true)
    ensures r.supplier == f.supplier && r.purchaseType == f.purchaseType
    ensures r.quantity == f.quantity && r.deliveryDate == f.deliveryDate
  {
    f.(alloy := f.alloy.(disabled := true), description := f.description.(disabled := true))
  }

  /** The supplier listener: the new supplier's alloys are offered and the
      descriptions emptied. */
  function ChangeSupplier(c: ProductCatalog.Catalog, f: FormState, supplier: string): (r: FormState)
    ensures r.supplier == supplier
    ensures (r.alloy, r.description) == ProductCatalog.UpdateAlloyOptions(c, supplier)
    ensures r.purchaseType == f.purchaseType && r.quantity == f.quantity && r.deliveryDate == f.deliveryDate
  {
    var (alloy, description) := ProductCatalog.UpdateAlloyOptions(c, supplier);
    f.(supplier := supplier, alloy := alloy, description := description)
  }

  /** The alloy listener: the alloy is chosen and the descriptions of the
      pair offered. */
  function ChangeAlloy(c: ProductCatalog.Catalog, f: FormState, alloy: string): (r: FormState)
    ensures r.alloy == f.alloy.(value := alloy)
    ensures r.description == ProductCatalog.FormDescriptions(c, f.supplier, alloy)
    ensures r.supplier == f.supplier && r.purchaseType == f.purchaseType
    ensures r.quantity == f.quantity && r.deliveryDate == f.deliveryDate
  {
    f.(alloy := f.alloy.(value := alloy), description := ProductCatalog.FormDescriptions(c, f.supplier, alloy))
  }

  /** Choosing a supplier and then one of the alloys it offers enables the
      description select with exactly that pair's descriptions. */
  lemma CascadeReachesDescriptions(c: ProductCatalog.Catalog, f: FormState, supplier: string, alloy: string)
    requires alloy != "" && alloy in ChangeSupplier(c, f, supplier).alloy.options
    ensures var g := ChangeAlloy(c, ChangeSupplier(c, f, supplier), alloy);
      !g.description.disabled
      && ProductCatalog.Descriptions(c, supplier, alloy).Some?
      && g.description.options == ProductCatalog.Descriptions(c, supplier, alloy).value
  {
    var s := ChangeSupplier(c, f, supplier);
    assert supplier != "" && ProductCatalog.Descriptions(c, supplier, alloy).Some?;
  }

  // ---------------------------------------------------------------------
  // getFormData
  // ---------------------------------------------------------------------

  const SUPPLIER := "supplier"
  const ALLOY := "alloy"
  const DESCRIPTION := "productDescription"
  const PURCHASE_TYPE := "purchaseType"
  const QUANTITY := "quantity"
  const DELIVERY_DATE := "deliveryDate"

  /** The quantity as `getFormData` reads it: `parseInt(value, 10)`, which
      is NaN without a digit, and 0 when the page has no quantity input. */
  function QuantityValue(input: Option<string>): (v: Value)
    ensures input.None? ==> v == Num(0.0)
    ensures v.NaN? <==> input.Some? && Decimal.ParseInt(input.value).None?
    ensures v.Num? ==> input.None? || v.x == Decimal.ParseInt(input.value).value as real
  {
    match input
    case None => Num(0.0)
    case Some(s) =>
      match Decimal.ParseInt(s)
      case None => NaN
      case Some(n) => Num(n as real)
  }

  /** `getFormData`: the six values keyed by field; a missing purchase type
      or delivery date reads as "". */
  function GetFormData(f: FormState): (data: Form)
    ensures data.Keys == {SUPPLIER, ALLOY, DESCRIPTION, PURCHASE_TYPE, QUANTITY, DELIVERY_DATE}
    ensures data[SUPPLIER] == Str(f.supplier) && data[ALLOY] == Str(f.alloy.value)
    ensures data[DESCRIPTION] == Str(f.description.value)
    ensures data[PURCHASE_TYPE] == Str(f.purchaseType.GetOr(""))
    ensures data[DELIVERY_DATE] == Str(f.deliveryDate.GetOr(""))
    ensures data[QUANTITY] == QuantityValue(f.quantity)
  {
    map[
      SUPPLIER := Str(f.supplier),
      ALLOY := Str(f.alloy.value),
      DESCRIPTION := Str(f.description.value),
      PURCHASE_TYPE := Str(f.purchaseType.GetOr("")),
      QUANTITY := QuantityValue(f.quantity),
      DELIVERY_DATE := Str(f.deliveryDate.GetOr(""))]
  }

  /** A quantity typed as digits reaches the data object as that number. */
  lemma QuantityOfDigits(f: FormState, ds: string)
    requires f.quantity == Some(ds) && 1 <= |ds| && Decimal.AllDigits(ds)
    ensures GetFormData(f)[QUANTITY] == Num(Decimal.DigitsValue(ds) as real)
  {
    Decimal.ParseIntOfDigits(ds);
  }

  // ---------------------------------------------------------------------
  // validatePurchaseForm
  // ---------------------------------------------------------------------

  const MSG_QUANTITY_REQUIRED := "Informe a quantidade"
  const MSG_QUANTITY_NUMBER := "A quantidade deve ser um número válido"
  const MSG_QUANTITY_POSITIVE := "A quantidade deve ser maior que zero"

  function Check(kind: RuleKind, message: string): Rule {
    Rule(kind, message, None)
  }

  /** The rules of a purchase: the four choices are required, the quantity
      must be a positive number and the delivery date a future
      `DD/MM/AAAA` date, each list checked in this order. */
  function PurchaseRules(): (rules: seq<(string, seq<Rule>)>)
    ensures FieldsDistinct(rules)
    ensures |rules| == 6 && rules[0].0 == SUPPLIER && rules[1].0 == ALLOY && rules[2].0 == DESCRIPTION
      && rules[3].0 == PURCHASE_TYPE && rules[4].0 == QUANTITY && rules[5].0 == DELIVERY_DATE
    ensures forall i :: 0 <= i < 4 ==> |rules[i].1| == 1 && rules[i].1[0].kind == Required
    ensures |rules[4].1| == 3 && rules[4].1[0].kind == Required && rules[4].1[1].kind == IsNumeric
      && rules[4].1[2].kind == Positive
    ensures |rules[5].1| == 3 && rules[5].1[0].kind == Required && rules[5].1[1].kind == IsDate
      && rules[5].1[2].kind == FutureDate
  {
    [ (SUPPLIER, [Check(Required, "Selecione um fornecedor")]),
      (ALLOY, [Check(Required, "Selecione uma liga")]),
      (DESCRIPTION, [Check(Required, "Selecione uma descrição de produto")]),
      (PURCHASE_TYPE, [Check(Required, "Selecione um tipo de compra")]),
      (QUANTITY, [Check(Required, MSG_QUANTITY_REQUIRED),
                  Check(IsNumeric, MSG_QUANTITY_NUMBER),
                  Check(Positive, MSG_QUANTITY_POSITIVE)]),
      (DELIVERY_DATE, [Check(Required, "Informe a data de entrega"),
                       Check(IsDate, "Data inválida. Use o formato DD/MM/AAAA"),
                       Check(FutureDate, "A data de entrega deve ser futura")]) ]
  }

  /** `validatePurchaseForm`: errors can only name the six fields, and
      only a delivery date that is neither falsy nor a string can make
      the date checks throw. */
  function ValidatePurchaseForm(data: Form, ctx: Context): (r: Result<map<string, string>>)
    requires Gregorian.Valid(ctx.today)
    ensures r.Ok? ==> r.value.Keys <= {SUPPLIER, ALLOY, DESCRIPTION, PURCHASE_TYPE, QUANTITY, DELIVERY_DATE}
    ensures r.Err? ==> Truthy(Lookup(data, DELIVERY_DATE)) && !Lookup(data, DELIVERY_DATE).Str?
  {
    var rules := PurchaseRules();
    var r := ValidateForm(data, rules, ctx);
    OnlyTheDateThrows(data, ctx);
    if r.Ok? then ErrorKeysAreFields(data, rules, ctx, r.value); r else r
  }

  lemma OnlyTheDateThrows(data: Form, ctx: Context)
    requires Gregorian.Valid(ctx.today)
    ensures ValidateForm(data, PurchaseRules(), ctx).Err? ==>
      Truthy(Lookup(data, DELIVERY_DATE)) && !Lookup(data, DELIVERY_DATE).Str?
  {
    var rules := PurchaseRules();
    ValidateFormThrowsOnDates(data, rules, ctx, 5);
  }

  /** What the form reads always validates without throwing: the delivery
      date is a string. */
  lemma FormDataNeverThrows(f: FormState, ctx: Context)
    requires Gregorian.Valid(ctx.today)
    ensures ValidatePurchaseForm(GetFormData(f), ctx).Ok?
  {
    assert Lookup(GetFormData(f), DELIVERY_DATE).Str?;
  }

  /** The first error of each purchase field. */
  function PurchaseError(data: Form, field: nat, ctx: Context): Result<Option<string>>
    requires Gregorian.Valid(ctx.today) && field < 6
  {
    ErrorOf(PurchaseRules(), field, data, ctx)
  }

  /** The parsed quantity is never missing: `parseInt` gives a number or
      NaN, and even NaN prints as "NaN", so the `required` rule of the
      quantity can never fire and its message is never shown. */
  lemma QuantityRequiredNeverFires(f: FormState, ctx: Context)
    requires Gregorian.Valid(ctx.today)
    ensures Fires(PurchaseRules()[4].1[0], GetFormData(f)[QUANTITY], GetFormData(f), ctx) == Ok(false)
  {
  }

  /** As written: an empty quantity box is reported as an invalid number,
      not as a missing quantity. */
  lemma EmptyQuantityAsWritten(f: FormState, ctx: Context)
    requires Gregorian.Valid(ctx.today)
    requires f.quantity.Some? && Text.Blank(f.quantity.value)
    ensures PurchaseError(GetFormData(f), 4, ctx) == Ok(Some(MSG_QUANTITY_NUMBER))
  {
    var data := GetFormData(f);
    ParseIntOfBlank(f.quantity.value);
    assert data[QUANTITY] == NaN;
    var rules := PurchaseRules()[4].1;
    assert Fires(rules[0], NaN, data, ctx) == Ok(false);
    assert Fires(rules[1], NaN, data, ctx) == Ok(true);
    assert Lookup(data, QUANTITY) == NaN;
  }

  /** `parseInt` finds no digit in a blank string. */
  lemma {:induction false} ParseIntOfBlank(s: string)
    requires Text.Blank(s)
    ensures Decimal.ParseInt(s) == None
  {
    if |s| > 0 {
      assert Text.Blank(s[1..]);
      ParseIntOfBlank(s[1..]);
    }
  }

  /** The reading the rules evidently expect: a blank quantity box stays
      blank, so that `required` can report it; any other text is parsed as
      before. */
  function GetFormDataCorrected(f: FormState): (data: Form)
    ensures data.Keys == GetFormData(f).Keys
    ensures forall k :: k in data && k != QUANTITY ==> data[k] == GetFormData(f)[k]
    ensures f.quantity.Some? && Text.Blank(f.quantity.value) ==> data[QUANTITY] == Str(f.quantity.value)
    ensures !(f.quantity.Some? && Text.Blank(f.quantity.value)) ==> data == GetFormData(f)
  {
    var data := GetFormData(f);
    if f.quantity.Some? && Text.Blank(f.quantity.value) then data[QUANTITY := Str(f.quantity.value)] else data
  }

  /** Corrected: an empty quantity box gets the message written for it. */
  lemma EmptyQuantityCorrected(f: FormState, ctx: Context)
    requires Gregorian.Valid(ctx.today)
    requires f.quantity.Some? && Text.Blank(f.quantity.value)
    ensures PurchaseError(GetFormDataCorrected(f), 4, ctx) == Ok(Some(MSG_QUANTITY_REQUIRED))
  {
    var data := GetFormDataCorrected(f);
    assert Lookup(data, QUANTITY) == Str(f.quantity.value);
    assert !IsRequired(Str(f.quantity.value));
  }

  // ---------------------------------------------------------------------
  // Submitting
  // ---------------------------------------------------------------------

  /** What the submit listener does: show the errors, or hand the data to
      the page's submit callback. */
  datatype Submission = ShowErrors(errors: map<string, string>) | Submitted(data: Form)

  /** The submit listener, reading the form as corrected above. */
  function Submit(f: FormState, ctx: Context): (r: Submission)
    requires Gregorian.Valid(ctx.today)
    ensures r.ShowErrors? ==> |r.errors| > 0
    ensures r.Submitted? ==>
      (r.data == GetFormDataCorrected(f) && ValidatePurchaseForm(r.data, ctx) == Ok(map[]))
  {
    var data := GetFormDataCorrected(f);
    assert Lookup(data, DELIVERY_DATE).Str?;
    var errors := ValidatePurchaseForm(data, ctx).value;
    if |errors| > 0 then ShowErrors(errors) else Submitted(data)
  }

  /** The submit listener as written, reading the form with `getFormData`. */
  function SubmitAsWritten(f: FormState, ctx: Context): (r: Submission)
    requires Gregorian.Valid(ctx.today)
    ensures r.ShowErrors? ==> |r.errors| > 0
    ensures r.Submitted? ==>
      (r.data == GetFormData(f) && ValidatePurchaseForm(r.data, ctx) == Ok(map[]))
  {
    var data := GetFormData(f);
    FormDataNeverThrows(f, ctx);
    var errors := ValidatePurchaseForm(data, ctx).value;
    if |errors| > 0 then ShowErrors(errors) else Submitted(data)
  }

  /** The error shown for the quantity, if the listener shows errors. */
  function QuantityMessage(r: Submission): Option<string> {
    if r.ShowErrors? && QUANTITY in r.errors then Some(r.errors[QUANTITY]) else None
  }

  /** The written and the corrected listener differ only on a blank
      quantity box, and there neither submits: as written the quantity is
      reported as not a number, corrected as missing. */
  lemma SubmitVersionsAgree(f: FormState, ctx: Context)
    requires Gregorian.Valid(ctx.today)
    ensures !(f.quantity.Some? && Text.Blank(f.quantity.value)) ==> SubmitAsWritten(f, ctx) == Submit(f, ctx)
    ensures f.quantity.Some? && Text.Blank(f.quantity.value) ==>
      QuantityMessage(SubmitAsWritten(f, ctx)) == Some(MSG_QUANTITY_NUMBER)
      && QuantityMessage(Submit(f, ctx)) == Some(MSG_QUANTITY_REQUIRED)
  {
    if f.quantity.Some? && Text.Blank(f.quantity.value) {
      BlankQuantityErrors(f, ctx);
    }
  }

  /** On a blank quantity box both listeners show errors, with the
      quantity's message differing. */
  lemma BlankQuantityErrors(f: FormState, ctx: Context)
    requires Gregorian.Valid(ctx.today)
    requires f.quantity.Some? && Text.Blank(f.quantity.value)
    ensures QuantityMessage(SubmitAsWritten(f, ctx)) == Some(MSG_QUANTITY_NUMBER)
    ensures QuantityMessage(Submit(f, ctx)) == Some(MSG_QUANTITY_REQUIRED)
  {
    var w, c := GetFormData(f), GetFormDataCorrected(f);
    EmptyQuantityAsWritten(f, ctx);
    EmptyQuantityCorrected(f, ctx);
    FormDataNeverThrows(f, ctx);
    assert Lookup(c, DELIVERY_DATE).Str?;
    var ew, ec := ValidatePurchaseForm(w, ctx).value, ValidatePurchaseForm(c, ctx).value;
    ValidateFormMessages(w, PurchaseRules(), ctx, ew);
    ValidateFormMessages(c, PurchaseRules(), ctx, ec);
  }

  /** Nothing is submitted while any rule of any field fires. */
  lemma SubmittedOnlyWhenEveryRulePasses(f: FormState, ctx: Context)
    requires Gregorian.Valid(ctx.today)
    requires Submit(f, ctx).Submitted?
    ensures var data := GetFormDataCorrected(f);
      forall i, k :: 0 <= i < 6 && 0 <= k < |PurchaseRules()[i].1| ==>
        Fires(PurchaseRules()[i].1[k], Lookup(data, PurchaseRules()[i].0), data, ctx) == Ok(false)
  {
    var data := GetFormDataCorrected(f);
    FormValidIff(data, PurchaseRules(), ctx, map[]);
  }

  // ---------------------------------------------------------------------
  // resetForm
  // ---------------------------------------------------------------------

  /** `resetForm(keepSupplierAndAlloy)`: every field back to its default;
      when asked, the supplier and alloy are put back and the descriptions
      of that pair offered again. The option lists and disabled flags of
      the alloy select are not touched by `form.reset()`. */
  function ResetForm(c: ProductCatalog.Catalog, f: FormState, keepSupplierAndAlloy: bool := false): (r: FormState)
    ensures r.supplier == (if keepSupplierAndAlloy then f.supplier else "")
    ensures r.alloy == f.alloy.(value := if keepSupplierAndAlloy then f.alloy.value else "")
    ensures keepSupplierAndAlloy ==> r.description == ProductCatalog.FormDescriptions(c, f.supplier, f.alloy.value)
    ensures !keepSupplierAndAlloy ==> r.description == f.description.(value := "")
    ensures r.purchaseType == Cleared(f.purchaseType) && r.quantity == Cleared(f.quantity)
    ensures r.deliveryDate == Cleared(f.deliveryDate)
  {
    var cleared := f.(
      supplier := "",
      alloy := f.alloy.(value := ""),
      description := f.description.(value := ""),
      purchaseType := Cleared(f.purchaseType),
      quantity := Cleared(f.quantity),
      deliveryDate := Cleared(f.deliveryDate));
    if keepSupplierAndAlloy then
      cleared.(
        supplier := f.supplier,
        alloy := cleared.alloy.(value := f.alloy.value),
        description := ProductCatalog.FormDescriptions(c, f.supplier, f.alloy.value))
    else cleared
  }

  /** An input that exists is emptied; a missing one stays missing. */
  function Cleared(input: Option<string>): (r: Option<string>)
    ensures r.Some? <==> input.Some?
    ensures r.Some? ==> r.value == ""
  {
    if input.Some? then Some("") else None
  }

  /** Resetting an already reset form changes nothing. */
  lemma ResetIdempotent(c: ProductCatalog.Catalog, f: FormState)
    ensures ResetForm(c, ResetForm(c, f)) == ResetForm(c, f)
  {
  }

  /** Keeping the supplier and alloy keeps the cascade usable: a known pair
      still offers its descriptions, and nothing else survives the reset. */
  lemma ResetKeepingPair(c: ProductCatalog.Catalog, f: FormState)
    requires f.supplier != "" && f.alloy.value != ""
    ensures var r := ResetForm(c, f, true);
      !r.description.disabled
      && r.description.options == ProductCatalog.Descriptions(c, f.supplier, f.alloy.value).GetOr([])
      && GetFormData(r)[QUANTITY] == QuantityValue(Cleared(f.quantity))
      && GetFormData(r)[DELIVERY_DATE] == Str("")
  {
  }

  // ---------------------------------------------------------------------
  // Character counter
  // ---------------------------------------------------------------------

  const DEFAULT_MAX_LENGTH := 500
  const WARNING_MARGIN := 50

  /** What the counter shows for a text: its length, and whether the
      `limit-reached` class is on. */
  function CharCounter(text: string, maxLength: int := DEFAULT_MAX_LENGTH): (r: (nat, bool))
    ensures r.0 == |text|
    ensures r.1 <==> maxLength - |text| <= WARNING_MARGIN
  {
    (|text|, |text| >= maxLength - WARNING_MARGIN)
  }

  /** Typing never switches the warning off, and with the default limit it
      is on from the 450th character. */
  lemma CounterWarningPersists(text: string, more: string, maxLength: int)
    ensures CharCounter(text, maxLength).1 ==> CharCounter(text + more, maxLength).1
    ensures CharCounter(text).1 <==> |text| >= 450
  {
  }
}
