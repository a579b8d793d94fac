/**
 * The multipart form the relay builds with the form-data library: an ordered
 * list of named parts, grown in place by `append`. The wire encoding
 * (boundaries, headers) is not part of this model.
 */
module Form {
  import opened Wrappers
  import opened Bytes

  /** A part's value: a file with its declared name and type, or text. */
  datatype FieldValue =
    | File(content: seq<byte>, filename: string, contentType: string)
    | Text(text: string)

  datatype Field = Field(name: string, value: FieldValue)

  function Names(fields: seq<Field>): (r: seq<string>)
    ensures |r| == |fields|
    ensures forall i :: 0 <= i < |fields| ==> r[i] == fields[i].name
  {
    if |fields| == 0 then [] else [fields[0].name] + Names(fields[1..])
  }

  /** The value of the first part called `name`, as a receiver reading the form by name finds it. */
  function Lookup(fields: seq<Field>, name: string): Option<FieldValue>
  {
    if |fields| == 0 then None
    else if fields[0].name == name then Some(fields[0].value)
    else Lookup(fields[1..], name)
  }

  /** In a form whose names are distinct, the part at position `i` is what a lookup by its name finds. */
  lemma {:induction false} LookupAt(fields: seq<Field>, i: nat)
    requires i < |fields|
    requires forall j, k :: 0 <= j < k < |fields| ==> fields[j].name != fields[k].name
    ensures Lookup(fields, fields[i].name) == Some(fields[i].value)
    decreases i
  {
    if i > 0 {
      assert fields[0].name != fields[i].name;
      LookupAt(fields[1..], i - 1);
    }
  }

  /** The first part called `name` is the one a lookup by that name finds. */
  lemma {:induction false} LookupFirst(fields: seq<Field>, i: nat, name: string)
    requires i < |fields| && fields[i].name == name
    requires forall j :: 0 <= j < i ==> fields[j].name != name
    ensures Lookup(fields, name) == Some(fields[i].value)
    decreases i
  {
    if i > 0 {
      assert fields[0].name != name;
      LookupFirst(fields[1..], i - 1, name);
    }
  }

  /** A `FormData` object: its parts in the order they were appended. */
  class FormBody {
    var fields: seq<Field>

    constructor ()
      ensures fields == []
    {
      fields := [];
    }

    /** `formData.append(name, value)`: adds one part at the end. */
    method Append(name: string, value: FieldValue)
      modifies this
      ensures fields == old(fields) + [Field(name, value)]
    {
      fields := fields + [Field(name, value)];
    }
  }
}
