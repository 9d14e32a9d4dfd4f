/** The value types of the streaming JSON-subset parser: the type tag of a field,
    the eight internal states of the character-at-a-time machine, and the field
    record the parser appends to its store. */
module JsonTypes {

  /** The four kinds of value the parser recognises (JSON_TYPE). */
  datatype JsonType = JsonString | JsonNumber | JsonStringArray | JsonNumberArray

  /** The internal states of the parser (JSON_PROCESSOR_INTERNAL_STATE). */
  datatype State =
    | BetweenFields
    | BetweenFieldNameValue
    | FieldName
    | FieldValueString
    | FieldValueNumber
    | ArrayStart
    | ArrayString
    | ArrayNumber

  /** The payload a committed field owns. The source keeps it behind an untyped
      pointer whose meaning is given by the separate type tag; here it is a sum type. */
  datatype Payload =
    | Str(s: string)
    | Num(n: int)
    | StrArr(strs: seq<string>)
    | NumArr(nums: seq<int>)

  /** One committed field: its name, its type tag and its payload. */
  datatype Field = Field(name: string, fieldType: JsonType, data: Payload)

  /** The type tag that matches a payload. */
  function KindOf(p: Payload): (t: JsonType)
    ensures t == JsonString <==> p.Str?
    ensures t == JsonNumber <==> p.Num?
    ensures t == JsonStringArray <==> p.StrArr?
    ensures t == JsonNumberArray <==> p.NumArr?
  {
    match p
    case Str(_) => JsonString
    case Num(_) => JsonNumber
    case StrArr(_) => JsonStringArray
    case NumArr(_) => JsonNumberArray
  }
}
