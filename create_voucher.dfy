/** The create-voucher form (app/dashboard/create/page.tsx): the random code
    generator, the guarded discount-value input, the discount-type reset,
    and the request body built from the form on submit. */
module CreateVoucher {
  import opened Wrappers
  import opened Js

  // ---------------------------------------------------------------------
  // Random voucher codes

  const Alphabet: string := "ABCDEFGHIJKLMNOPQRSTUVWXYZ0123456789"
  const CodeLength: nat := 8

  /** A value `Math.random()` can return. */
  predicate IsDraw(r: real) {
    0.0 <= r < 1.0
  }

  predicate AllDraws(draws: seq<real>) {
    forall i :: 0 <= i < |draws| ==> IsDraw(draws[i])
  }

  /** `Math.floor(draw * characters.length)`: always a valid index. */
  function PickIndex(draw: real): (k: nat)
    requires IsDraw(draw)
    ensures k < |Alphabet|
  {
    (draw * (|Alphabet| as real)).Floor
  }

  /** The code that the draws `draws[0..8)` produce. */
  function RandomCode(draws: seq<real>): (code: string)
    requires |draws| >= CodeLength && AllDraws(draws)
    ensures |code| == CodeLength
    ensures forall i :: 0 <= i < |code| ==> code[i] in Alphabet
  {
    seq(CodeLength, i requires 0 <= i < CodeLength => Alphabet[PickIndex(draws[i])])
  }

  /** The loop of `generateRandomCode`, with `Math.random()` replaced by the
      sequence of values it returns. */
  method BuildRandomCode(draws: seq<real>) returns (code: string)
    requires |draws| >= CodeLength && AllDraws(draws)
    ensures code == RandomCode(draws)
    ensures |code| == CodeLength && forall i :: 0 <= i < |code| ==> code[i] in Alphabet
  {
    code := "";
    for i := 0 to CodeLength
      invariant |code| == i
      invariant forall k :: 0 <= k < i ==> code[k] == Alphabet[PickIndex(draws[k])]
    {
      code := code + [Alphabet[PickIndex(draws[i])]];
    }
  }

  /** The index of `c` in `s`. */
  function IndexIn(c: char, s: string): (k: nat)
    requires c in s
    ensures k < |s| && s[k] == c
  {
    if s[0] == c then 0 else 1 + IndexIn(c, s[1..])
  }

  /** Draws that pick exactly the characters of `code`. */
  function DrawsFor(code: string): seq<real>
    requires forall i :: 0 <= i < |code| ==> code[i] in Alphabet
  {
    seq(|code|, i requires 0 <= i < |code| => (IndexIn(code[i], Alphabet) as real) / (|Alphabet| as real))
  }

  /** The draw k / 36 picks index k. */
  lemma PickIndexOfFraction(k: nat)
    requires k < |Alphabet|
    ensures IsDraw((k as real) / (|Alphabet| as real))
    ensures PickIndex((k as real) / (|Alphabet| as real)) == k
  {
    var n := |Alphabet| as real;
    assert (k as real) / n * n == k as real;
  }

  /** Every 8-character code over the alphabet can come out of the generator:
      it leaves out no code. */
  lemma EveryCodeCanBeDrawn(code: string)
    requires |code| == CodeLength && forall i :: 0 <= i < |code| ==> code[i] in Alphabet
    ensures AllDraws(DrawsFor(code)) && RandomCode(DrawsFor(code)) == code
  {
    var draws := DrawsFor(code);
    forall i | 0 <= i < |code|
      ensures IsDraw(draws[i]) && Alphabet[PickIndex(draws[i])] == code[i]
    {
      PickIndexOfFraction(IndexIn(code[i], Alphabet));
    }
  }

  // ---------------------------------------------------------------------
  // The discount value input

  /** The guard of `handleDiscountValueChange`: a percentage takes "" or a
      number in [0, 100]; any other type, including none chosen yet, takes
      "" or a number >= 0. NaN fails every comparison. */
  function AcceptsDiscountValue(discountType: string, value: string): (ok: bool)
    ensures ok <==> value == "" ||
                    (Number(value).Some? && Number(value).value >= 0.0 &&
                     (discountType == "percentage" ==> Number(value).value <= 100.0))
  {
    if discountType == "percentage" then
      value == "" || (AtLeast(Number(value), 0.0) && AtMost(Number(value), 100.0))
    else
      value == "" || AtLeast(Number(value), 0.0)
  }

  /** On integer text the guard is exactly the range check of its type. */
  lemma AcceptsIntegerText(discountType: string, n: int)
    ensures AcceptsDiscountValue(discountType, ShowInt(n)) <==>
              if discountType == "percentage" then 0 <= n <= 100 else n >= 0
  {
    NumberShowInt(n);
  }

  /** A value a percentage accepts is accepted under every type. */
  lemma PercentageIsStricter(value: string, discountType: string)
    requires AcceptsDiscountValue("percentage", value)
    ensures AcceptsDiscountValue(discountType, value)
  {
  }

  /** Text that is not a number is refused under every type. */
  lemma NotANumberIsRefused(value: string, discountType: string)
    requires value != "" && Number(value).None?
    ensures !AcceptsDiscountValue(discountType, value)
  {
  }

  /** "-1" is refused and "100" is taken only under percentage's bound;
      "101" passes for a fixed amount but not for a percentage. */
  lemma DiscountValueExamples()
    ensures !AcceptsDiscountValue("percentage", "-1") && !AcceptsDiscountValue("fixed", "-1")
    ensures AcceptsDiscountValue("percentage", "100") && !AcceptsDiscountValue("percentage", "101")
    ensures AcceptsDiscountValue("fixed", "101") && AcceptsDiscountValue("", "101")
  {
    assert ShowInt(-1) == "-1";
    assert ShowInt(100) == "100";
    assert ShowInt(101) == "101";
    AcceptsIntegerText("percentage", -1);
    AcceptsIntegerText("fixed", -1);
    AcceptsIntegerText("percentage", 100);
    AcceptsIntegerText("percentage", 101);
    AcceptsIntegerText("fixed", 101);
    AcceptsIntegerText("", 101);
  }

  // ---------------------------------------------------------------------
  // The request body

  /** A key of an object built with `...(flag && { key: value })`: left out
      when the flag is off, present (perhaps holding undefined) when on. */
  datatype Key<T> = Omitted | Present(value: T)

  /** `[Number(start) || undefined, Number(end) || undefined]`. */
  datatype AgeRange = AgeRange(low: Option<real>, high: Option<real>)

  datatype Eligibility = Eligibility(
    gender: Key<Option<string>>,
    ageRange: Key<AgeRange>,
    userType: Key<Option<string>>)

  /** The three eligibility checkboxes. */
  datatype Criteria = Criteria(gender: bool, ageRange: bool, userType: bool)

  /** What `formData.get(name)` returns for each field on submit: None is
      null, for a field not on the page. The dates are the fields' text as
      `new Date(...)` reads it. */
  datatype FormFields = FormFields(
    name: Option<string>,
    voucherCode: Option<string>,
    discountType: Option<string>,
    discountValue: Option<string>,
    minCartValue: Option<string>,
    maxDiscount: Option<string>,
    activationDate: Date,
    expiryDate: Date,
    usageLimit: Option<string>,
    gender: Option<string>,
    ageRangeStart: Option<string>,
    ageRangeEnd: Option<string>,
    userType: Option<string>)

  /** `Number(maxDiscount field) || discountValue`: the field's number, or
      else the discount value's text as the form state holds it. */
  datatype MaxDiscount = Amount(amount: real) | Fallback(text: string)

  /** The object passed to `JSON.stringify` for the create request; None is
      null or undefined. */
  datatype Payload = Payload(
    name: Option<string>,
    voucherCode: Option<string>,
    discountType: Option<string>,
    discountValue: Option<real>,
    minCartValue: Option<real>,
    maxDiscount: MaxDiscount,
    activationDate: Date,
    expiryDate: Date,
    usageLimit: Option<real>,
    reusable: bool,
    eligibilityCriteria: Option<Eligibility>)

  /** `formData.get(name) || undefined`: null and "" become undefined. */
  function OrUndefined(field: Option<string>): (r: Option<string>)
    ensures r.Some? <==> field.Some? && field.value != ""
    ensures r.Some? ==> r == field
  {
    if field.Some? && field.value != "" then field else None
  }

  /** The eligibility object: undefined unless its checkbox is on, and then
      holding a key exactly for each criterion that is checked. */
  function EligibilityCriteria(included: bool, criteria: Criteria, f: FormFields): (r: Option<Eligibility>)
    ensures r.None? <==> !included
    ensures r.Some? ==> (r.value.gender.Present? <==> criteria.gender)
    ensures r.Some? ==> (r.value.ageRange.Present? <==> criteria.ageRange)
    ensures r.Some? ==> (r.value.userType.Present? <==> criteria.userType)
  {
    if included then
      Some(Eligibility(
        if criteria.gender then Present(OrUndefined(f.gender)) else Omitted,
        if criteria.ageRange then
          Present(AgeRange(NumberOrUndefined(f.ageRangeStart), NumberOrUndefined(f.ageRangeEnd)))
        else Omitted,
        if criteria.userType then Present(OrUndefined(f.userType)) else Omitted))
    else None
  }

  function MaxDiscountOf(field: Option<string>, discountValueText: string): (r: MaxDiscount)
    ensures r.Amount? <==> NumberOrUndefined(field).Some?
    ensures r.Amount? ==> r.amount != 0.0 && NumberOfField(field) == Some(r.amount)
    ensures r.Fallback? ==> r.text == discountValueText
  {
    var n := NumberOrUndefined(field);
    if n.Some? then Amount(n.value) else Fallback(discountValueText)
  }

  /** The object `onSubmit` passes to `JSON.stringify`, from the submitted
      fields and the form's state (discountValue text, reusable, and the
      eligibility choices). */
  function RequestBody(f: FormFields, discountValueText: string, reusable: bool,
                       included: bool, criteria: Criteria): (p: Payload)
    ensures p.discountValue == NumberOfField(f.discountValue)
    ensures p.minCartValue.Some? ==> p.minCartValue.value != 0.0
    ensures p.usageLimit.Some? ==> p.usageLimit.value != 0.0
    ensures p.maxDiscount.Fallback? <==> NumberOrUndefined(f.maxDiscount).None?
    ensures p.maxDiscount.Fallback? ==> p.maxDiscount.text == discountValueText
    ensures p.eligibilityCriteria.None? <==> !included
    ensures p.reusable == reusable
  {
    Payload(
      f.name,
      f.voucherCode,
      f.discountType,
      NumberOfField(f.discountValue),
      NumberOrUndefined(f.minCartValue),
      MaxDiscountOf(f.maxDiscount, discountValueText),
      f.activationDate,
      f.expiryDate,
      NumberOrUndefined(f.usageLimit),
      reusable,
      EligibilityCriteria(included, criteria, f))
  }

  /** A numeric field that is missing, blank, 0 or not a number is sent as
      undefined; integer text other than 0 is sent as its value. */
  lemma NumberOrUndefinedCases(field: Option<string>, n: int)
    ensures field.None? || field == Some("") ==> NumberOrUndefined(field).None?
    ensures field.Some? && Number(field.value).None? ==> NumberOrUndefined(field).None?
    ensures NumberOrUndefined(Some(ShowInt(n))) == if n == 0 then None else Some(n as real)
  {
    NumberShowInt(n);
  }

  /** How the optional numbers of the body are coerced: minCartValue,
      usageLimit and, when sent, both age bounds are undefined exactly when
      their field reads as 0 or NaN, and otherwise carry the number. */
  lemma RequestBodyOptionalNumbers(f: FormFields, text: string, reusable: bool,
                                   included: bool, criteria: Criteria)
    ensures var p := RequestBody(f, text, reusable, included, criteria);
            && (p.minCartValue.None? <==> NumberOfField(f.minCartValue).None? || NumberOfField(f.minCartValue) == Some(0.0))
            && (p.minCartValue.Some? ==> p.minCartValue == NumberOfField(f.minCartValue))
            && (p.usageLimit.None? <==> NumberOfField(f.usageLimit).None? || NumberOfField(f.usageLimit) == Some(0.0))
            && (p.usageLimit.Some? ==> p.usageLimit == NumberOfField(f.usageLimit))
            && (included && criteria.ageRange ==>
                  p.eligibilityCriteria.value.ageRange.value ==
                  AgeRange(NumberOrUndefined(f.ageRangeStart), NumberOrUndefined(f.ageRangeEnd)))
  {
  }

  /** maxDiscount falls back to the discount value's text whenever its own
      field reads as 0 or NaN: in particular when the field is not on the
      page (a fixed discount hides it) or left blank. */
  lemma MaxDiscountFallback(f: FormFields, text: string, reusable: bool,
                            included: bool, criteria: Criteria, n: int)
    ensures f.maxDiscount.None? || f.maxDiscount == Some("") ==>
              RequestBody(f, text, reusable, included, criteria).maxDiscount == Fallback(text)
    ensures n != 0 ==>
              RequestBody(f.(maxDiscount := Some(ShowInt(n))), text, reusable, included, criteria).maxDiscount
                == Amount(n as real)
  {
    NumberShowInt(n);
  }

  /** What `formData.get` reads from the form's own state on submit: the
      code and discount value inputs are controlled by the state, and the
      maxDiscount input is on the page exactly when the type is not
      "fixed". */
  predicate SubmittedFrom(f: FormFields, voucherCode: string, discountType: string, discountValue: string) {
    && f.voucherCode == Some(voucherCode)
    && f.discountValue == Some(discountValue)
    && (f.maxDiscount.None? <==> discountType == "fixed")
  }

  /** A fixed discount always sends its own discount value's text as
      maxDiscount, since the maxDiscount input is hidden. */
  lemma FixedDiscountFallsBack(f: FormFields, code: string, value: string, reusable: bool,
                               included: bool, criteria: Criteria)
    requires SubmittedFrom(f, code, "fixed", value)
    ensures RequestBody(f, value, reusable, included, criteria).maxDiscount == Fallback(value)
  {
  }

  /** When maxDiscount falls back, it is text the discount value guard let
      through for the current type: for a percentage, "" or a number in
      [0, 100]. */
  lemma FallbackPassesGuard(f: FormFields, code: string, discountType: string, value: string,
                            reusable: bool, included: bool, criteria: Criteria)
    requires SubmittedFrom(f, code, discountType, value)
    requires AcceptsDiscountValue(discountType, value)
    ensures var m := RequestBody(f, value, reusable, included, criteria).maxDiscount;
            m.Fallback? ==> m.text == value && AcceptsDiscountValue(discountType, m.text)
    ensures var p := RequestBody(f, value, reusable, included, criteria);
            p.voucherCode == Some(code) && p.discountValue == Number(value)
  {
  }

  /** With eligibility on and no criterion checked, the body carries an
      empty object, not undefined. */
  lemma EligibilityWithoutCriteria(f: FormFields)
    ensures EligibilityCriteria(true, Criteria(false, false, false), f) ==
              Some(Eligibility(Omitted, Omitted, Omitted))
  {
  }

  // ---------------------------------------------------------------------
  // The form's state

  /** The form's state variables. */
  class CreateVoucherForm {
    var voucherCode: string
    var discountType: string
    var discountValue: string
    var reusable: bool
    var includeEligibilityCriteria: bool
    var criteria: Criteria
    var isLoading: bool

    /** The discount value shown is always one the guard lets through for
        the current discount type. */
    ghost predicate Valid()
      reads this
    {
      AcceptsDiscountValue(discountType, discountValue)
    }

    constructor ()
      ensures Valid()
      ensures voucherCode == "" && discountType == "" && discountValue == ""
      ensures !reusable && !includeEligibilityCriteria && criteria == Criteria(false, false, false)
      ensures !isLoading
    {
      voucherCode := "";
      discountType := "";
      discountValue := "";
      reusable := false;
      includeEligibilityCriteria := false;
      criteria := Criteria(false, false, false);
      isLoading := false;
    }

    /** `generateRandomCode`: the code field becomes eight characters drawn
        from the alphabet; nothing else changes. */
    method GenerateRandomCode(draws: seq<real>)
      requires |draws| >= CodeLength && AllDraws(draws)
      modifies this`voucherCode
      ensures voucherCode == RandomCode(draws)
    {
      voucherCode := BuildRandomCode(draws);
    }

    /** `handleDiscountValueChange`: take the new text if the guard lets it
        through, and otherwise keep the old one. */
    method HandleDiscountValueChange(value: string)
      modifies this`discountValue
      ensures discountValue == if AcceptsDiscountValue(discountType, value) then value else old(discountValue)
      ensures old(Valid()) ==> Valid()
    {
      if discountType == "percentage" {
        if value == "" || (AtLeast(Number(value), 0.0) && AtMost(Number(value), 100.0)) {
          discountValue := value;
        }
      } else {
        if value == "" || AtLeast(Number(value), 0.0) {
          discountValue := value;
        }
      }
    }

    /** The discount type select: a new type always clears the value, which
        keeps the invariant whatever the old value was. */
    method SelectDiscountType(value: string)
      modifies this`discountType, this`discountValue
      ensures discountType == value && discountValue == ""
      ensures Valid()
    {
      discountType := value;
      discountValue := "";
    }

    /** `onSubmit`, up to the request: the object it serialises. The
        loading flag is set for the request and cleared when it settles,
        success or not. */
    method Submit(f: FormFields) returns (body: Payload)
      requires Valid() && SubmittedFrom(f, voucherCode, discountType, discountValue)
      modifies this`isLoading
      ensures body == RequestBody(f, discountValue, reusable, includeEligibilityCriteria, criteria)
      ensures body.voucherCode == Some(voucherCode)
      ensures discountType == "fixed" ==> body.maxDiscount == Fallback(discountValue)
      ensures body.maxDiscount.Fallback? ==> AcceptsDiscountValue(discountType, body.maxDiscount.text)
      ensures !isLoading
    {
      var code, kind, value := voucherCode, discountType, discountValue;
      body := RequestBody(f, value, reusable, includeEligibilityCriteria, criteria);
      FallbackPassesGuard(f, code, kind, value, reusable, includeEligibilityCriteria, criteria);
      if kind == "fixed" {
        FixedDiscountFallsBack(f, code, value, reusable, includeEligibilityCriteria, criteria);
      }
      isLoading := true;
      isLoading := false;
    }
  }
}
