/**
 * The values a template works with, as far as the set tag and the drop
 * allow-list see them: text, numbers, nil, lists, and host objects whose
 * zero-argument methods answer with further values.
 */
module Values {

  /** An instance of a host (application) class: its class name, identity and method results. */
  datatype HostObject = HostObject(cls: string, id: nat, methods: map<string, Value>)

  datatype Value =
    | Nil
    | Str(s: string)
    | Int(i: int)
    | List(items: seq<Value>)
    | Host(obj: HostObject)
}
