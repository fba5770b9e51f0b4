/** The structured record a node is serialised to: a type key that selects the
    node kind's codec, followed by named fields in the order the codec writes
    them. A field holds either a nested node record or a number. */
module Records {

  datatype Record = Record(typeKey: string, fields: seq<Field>)

  datatype Field = Field(name: string, value: Value)

  datatype Value = Child(record: Record) | Number(x: real)

  datatype Option<T> = None | Some(value: T)

  /** Position of the first field called `name`, or -1 when there is none. */
  function FieldIndex(fields: seq<Field>, name: string): (i: int)
    ensures -1 <= i < |fields|
    ensures i >= 0 ==> fields[i].name == name
    ensures i >= 0 ==> forall j :: 0 <= j < i ==> fields[j].name != name
    ensures i == -1 ==> forall j :: 0 <= j < |fields| ==> fields[j].name != name
  {
    if |fields| == 0 then -1
    else if fields[0].name == name then 0
    else
      var k := FieldIndex(fields[1..], name);
      if k < 0 then -1 else k + 1
  }

  /** The nested record under the first field called `name`, when that field
      exists and holds a record. */
  function ChildRecord(fields: seq<Field>, name: string): (c: Option<Record>)
    ensures c.Some? <==> FieldIndex(fields, name) >= 0 && fields[FieldIndex(fields, name)].value.Child?
    ensures c.Some? ==> fields[FieldIndex(fields, name)].value == Child(c.value)
  {
    var i := FieldIndex(fields, name);
    if i >= 0 && fields[i].value.Child? then Some(fields[i].value.record) else None
  }
}
