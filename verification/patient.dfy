/**
 * The patient record of `lib/types.ts` and the loosely typed JavaScript values the query
 * shim copies into it from its positional parameter array.
 */
module PatientTypes {

  /**
   * A JavaScript value as it can appear in the parameter array: `undefined` (also what
   * reading past the end yields), `null`, a string, or a date. `Time(t)` stands for the
   * ISO-8601 string of the instant `t` (milliseconds since the epoch); such a string is
   * never empty.
   */
  datatype Value = Undefined | Null | Text(s: string) | Time(t: int)

  /** JavaScript truthiness of a value: the empty string, `null` and `undefined` are falsy. */
  predicate Truthy(v: Value) {
    match v
    case Text(s) => s != []
    case Time(_) => true
    case _ => false
  }

  /** `params[i]`: reading past the end of a JavaScript array yields `undefined`. */
  function Param(params: seq<Value>, i: nat): Value {
    if i < |params| then params[i] else Undefined
  }

  /** JavaScript `a || b`. */
  function Or(a: Value, b: Value): Value {
    if Truthy(a) then a else b
  }

  /**
   * A stored patient record. The fields are the columns `id`, `first_name`, `last_name`,
   * `date_of_birth`, `gender`, `email`, `phone`, `address`, `medical_history` and
   * `created_at`; `id` is the object store's key.
   */
  datatype Patient = Patient(
    id: string,
    firstName: Value,
    lastName: Value,
    dateOfBirth: Value,
    gender: Value,
    email: Value,
    phone: Value,
    address: Value,
    medicalHistory: Value,
    createdAt: Value)
}
