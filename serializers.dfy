/** The cash-in serializer: which fields a client may write, and the
    validation an amount goes through before a view sees it. */
module Serializers {
  import opened Models

  /** The fields the serializer exposes, and those of them that are read-only. */
  const Fields: set<string> := {"id", "user", "amount", "payment_method", "status", "created_at"}
  const ReadOnlyFields: set<string> := {"id", "status", "created_at", "user"}

  /** The fields client input can set. */
  function WritableFields(): (w: set<string>)
    ensures w <= Fields && w !! ReadOnlyFields
  {
    Fields - ReadOnlyFields
  }

  /** Client input can set the amount and the method only: not the owner,
      the status, the creation time, the type nor the payment reference. */
  lemma ClientWritesAmountAndMethodOnly()
    ensures WritableFields() == {"amount", "payment_method"}
    ensures "transaction_type" !in WritableFields() && "payment_reference" !in WritableFields()
  {
  }

  /** A cash-in request body after field parsing: exactly the writable fields. */
  datatype CashInInput = CashInInput(amount: int, payMethod: PaymentMethod)

  /** `validate_amount`: a non-positive amount is a validation error, any
      other amount passes unchanged. */
  function ValidateAmount(cents: int): (r: Result<int>)
    ensures r.Ok? <==> cents > 0
    ensures r.Ok? ==> r.value == cents
    ensures r.Err? ==> r.failure == NotPositive
  {
    if cents <= 0 then Err(NotPositive) else Ok(cents)
  }

  /** An accepted amount is accepted again, unchanged. */
  lemma ValidateAmountIdempotent(cents: int)
    requires ValidateAmount(cents).Ok?
    ensures ValidateAmount(ValidateAmount(cents).value) == ValidateAmount(cents)
  {
  }

  /** Validation of a cash-in body: the decimal field's digit limit first,
      then `validate_amount`. */
  function ValidateCashIn(input: CashInInput): (r: Result<CashInInput>)
    ensures r.Ok? <==> 0 < input.amount < MaxCents
    ensures r.Ok? ==> r.value == input
    ensures !AmountFits(input.amount) ==> r == Err(TooManyDigits)
    ensures AmountFits(input.amount) && input.amount <= 0 ==> r == Err(NotPositive)
  {
    if !AmountFits(input.amount) then Err(TooManyDigits)
    else match ValidateAmount(input.amount)
      case Err(f) => Err(f)
      case Ok(_) => Ok(input)
  }
}
