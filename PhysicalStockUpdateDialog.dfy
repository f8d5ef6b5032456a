/** The quantity stepper of the stock dialog
    (src/components/PhysicalStock/PhysicalStockUpdateDialog.tsx): minus, plus,
    and the number typed into the field. The stock page draws the same stepper. */
module PhysicalStockUpdateDialog {
  import opened Text

  /** Minus: `Math.max(0, quantity - 1)`. */
  function StepDown(q: int): (r: int)
    ensures r >= 0
    ensures q > 0 ==> r == q - 1
    ensures q <= 0 ==> r == 0
  {
    if q - 1 > 0 then q - 1 else 0
  }

  /** Minus is disabled once the quantity is 0 or below. */
  predicate MinusDisabled(q: int) {
    q <= 0
  }

  /** Plus: one more. */
  function StepUp(q: int): (r: int)
    ensures r == q + 1
  {
    q + 1
  }

  /** The typed value: `parseInt(value) || 0`, so text without a leading
      number gives 0. */
  function ParseQuantity(input: string): (n: int)
    ensures ParseInt(input).None? ==> n == 0
    ensures ParseInt(input).Some? ==> n == ParseInt(input).value
  {
    IntOrZero(input)
  }

  /** Minus undoes plus on any quantity that is not negative, and plus undoes
      an enabled minus. */
  lemma StepsUndoEachOther(q: int)
    ensures q >= 0 ==> StepDown(StepUp(q)) == q
    ensures !MinusDisabled(q) ==> StepUp(StepDown(q)) == q
  {
  }

  /** From a non-negative quantity both buttons keep it non-negative: an
      enabled minus lowers it by one, plus raises it. */
  lemma ButtonsKeepQuantityNonNegative(q: int)
    requires q >= 0
    ensures !MinusDisabled(q) ==> StepDown(q) >= 0 && StepDown(q) < q
    ensures StepUp(q) > 0
  {
  }

  /** Typing a number written out in decimal gives exactly that number, a
      negative one included (the field's minimum is not enforced on typing). */
  lemma TypedNumberRoundTrip(n: int)
    ensures ParseQuantity(DecimalString(n)) == n
  {
    ParseIntDecimalString(n);
  }

  /** Text that does not start with a digit (after spaces and a sign) gives 0. */
  lemma NonNumericGivesZero(input: string)
    requires var t := TrimStart(input);
             var u := if |t| > 0 && (t[0] == '-' || t[0] == '+') then t[1..] else t;
             u == [] || !IsDecimalDigit(u[0])
    ensures ParseQuantity(input) == 0
  {
    ParseIntNoDigit(input);
  }
}
