/** get_value_from_dataframe: one value out of a pandas Series or a scalar. */
module DataframeProcessors {

  /** The input, by the runtime test the function makes on it: a Series (its
      values in order), or anything else together with the outcome of
      `isinstance(data, data_type)`. */
  datatype Data<T> = Series(values: seq<T>) | Scalar(value: T, matchesType: bool)

  /** The value returned, or the TypeError raised, naming the offending input. */
  datatype Extracted<T> = Value(value: T) | TypeError(offending: Data<T>)

  /** The series test comes before the type test, so a Series never fails; an
      empty Series gives the fallback, a non-empty one its first value
      whatever follows, a matching scalar is passed through unchanged and any
      other input is a TypeError. */
  function GetValueFromDataframe<T>(data: Data<T>, emptyValue: T): (r: Extracted<T>)
    ensures r.TypeError? <==> data.Scalar? && !data.matchesType
    ensures r.TypeError? ==> r.offending == data
    ensures data == Series([]) ==> r == Value(emptyValue)
    ensures data.Series? && |data.values| > 0 ==>
      r == Value(data.values[0])
    ensures data.Scalar? && data.matchesType ==> r == Value(data.value)
    ensures r.Value? ==> r.value == emptyValue || (data.Series? && r.value in data.values) ||
                         (data.Scalar? && r.value == data.value)
  {
    match data
    case Series(values) =>
      if |values| == 0 then Value(emptyValue) else Value(values[0])
    case Scalar(value, matchesType) =>
      if matchesType then Value(value) else TypeError(data)
  }
}
