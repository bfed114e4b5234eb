/** An input field of a panel: position, maximum length, type, label,
    default, required flag and an optional validator. Only the value changes
    after construction. */
module Fields {
  import opened Common

  datatype FieldType = Text | Password | Numeric | ReadOnly

  /** A validation callback supplied by the application. */
  type Validator = string -> bool

  class Field {
    const row: int
    const col: int
    const length: nat
    const fieldType: FieldType
    const labelText: string
    const defaultValue: string
    const required: bool
    const validator: Option<Validator>
    var value: string

    /** A new field holds its default value. */
    constructor (row: int, col: int, length: nat, fieldType: FieldType, labelText: string,
                 defaultValue: string, required: bool, validator: Option<Validator>)
      ensures this.row == row && this.col == col && this.length == length
      ensures this.fieldType == fieldType && this.labelText == labelText
      ensures this.defaultValue == defaultValue && this.required == required
      ensures this.validator == validator
      ensures value == defaultValue
    {
      this.row := row;
      this.col := col;
      this.length := length;
      this.fieldType := fieldType;
      this.labelText := labelText;
      this.defaultValue := defaultValue;
      this.required := required;
      this.validator := validator;
      value := defaultValue;
    }

    /** The name used in error messages: the label, or "Field" when there is none. */
    function DisplayName(): string {
      if labelText != "" then labelText else "Field"
    }

    predicate MissingRequired()
      reads this
    {
      required && IsBlank(value)
    }

    predicate RejectedByValidator()
      reads this
    {
      validator.Some? && !validator.value(value)
    }

    /** Whether this field would accept `v`: not blank when required, and
        passed by the validator when there is one. */
    predicate Accepts(v: string) {
      !(required && IsBlank(v)) && !(validator.Some? && !validator.value(v))
    }

    /** The required check comes first and the validator sees every value,
        blank or not; a field passes exactly when neither check fails. */
    function Validate(): (r: (bool, string))
      reads this
      ensures r.0 <==> !MissingRequired() && !RejectedByValidator()
      ensures r.0 <==> Accepts(value)
      ensures r.0 ==> r.1 == ""
      ensures MissingRequired() ==> r.1 == DisplayName() + " is required"
      ensures !MissingRequired() && RejectedByValidator() ==> r.1 == DisplayName() + " has invalid value"
    {
      if MissingRequired() then (false, DisplayName() + " is required")
      else if RejectedByValidator() then (false, DisplayName() + " has invalid value")
      else (true, "")
    }

    /** Column of the label: the label and its ": " end exactly where the
        field starts. */
    function LabelCol(): (c: int)
      ensures labelText == "" ==> c == col
      ensures labelText != "" ==> c + |labelText| + |": "| == col
    {
      if labelText == "" then col else col - |labelText| - 2
    }
  }
}
