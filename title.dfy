/** The board-title value object: an immutable record whose compact
    constructor rejects a missing title and any title outside 2..30
    characters with an `IllegalArgumentException`. */
module BoardTitle {
  import opened Wrappers

  const TitleMinLength: nat := 2
  const TitleMaxLength: nat := 30

  /** The exception `validateTitle` throws. */
  datatype TitleError = IllegalArgument

  /** The record's single component. */
  datatype TitleRecord = TitleRecord(value: string)

  /** A title as the Java record guarantees it: its compact constructor is
      the only way to build one, so every title holds 2 to 30 characters. */
  type Title = t: TitleRecord | TitleMinLength <= |t.value| <= TitleMaxLength
    witness TitleRecord("ab")

  /** `validateTitle`: passes exactly on non-null values of 2 to 30
      characters, and has no effect besides throwing. */
  function ValidateTitle(value: Option<string>): (r: Outcome<TitleError>)
    ensures r.Pass? <==> value.Some? && 2 <= |value.value| <= 30
    ensures value.None? ==> r == Fail(IllegalArgument)
    ensures value.Some? && |value.value| < 2 ==> r == Fail(IllegalArgument)
    ensures value.Some? && |value.value| > 30 ==> r == Fail(IllegalArgument)
  {
    if value.None? || |value.value| < TitleMinLength || |value.value| > TitleMaxLength then
      Fail(IllegalArgument)
    else
      Pass
  }

  /** The compact constructor `Title(value)`: either the validated record,
      holding `value` unchanged, or the validator's exception. */
  function NewTitle(value: Option<string>): (r: Result<Title, TitleError>)
    ensures r.Ok? <==> value.Some? && 2 <= |value.value| <= 30
    ensures r.Ok? ==> r.value.value == value.value
    ensures r.Err? ==> r.error == IllegalArgument
  {
    match ValidateTitle(value)
    case Fail(e) => Err(e)
    case Pass => Ok(TitleRecord(value.value))
  }
}
