/**
 Annotation records as the application sees them after the table has been
 turned into a list of dictionaries: an insertion-ordered sequence of
 (field name, value) pairs with distinct names.
 */
module Records {

  datatype Option<+T> = None | Some(value: T)

  /** A field value, reduced to what the report can do with it: the text
      `str()` produces for it, or `Unrenderable` for a value whose conversion
      or rendering raises. */
  datatype Value = Text(s: string) | Unrenderable

  datatype Field = Field(key: string, value: Value)

  type Record = seq<Field>

  /** Dictionary keys are distinct. */
  predicate UniqueKeys(r: Record) {
    forall i, j :: 0 <= i < j < |r| ==> r[i].key != r[j].key
  }

  /** `dict.get(key)`: the value stored under `key`, if any. */
  function Get(r: Record, key: string): (v: Option<Value>)
    ensures v.None? <==> forall i :: 0 <= i < |r| ==> r[i].key != key
    ensures v.Some? ==> exists i :: 0 <= i < |r| && r[i] == Field(key, v.value)
  {
    if |r| == 0 then None
    else if r[0].key == key then Some(r[0].value)
    else
      var v := Get(r[1..], key);
      assert forall i :: 1 <= i < |r| ==> r[1..][i - 1] == r[i];
      v
  }

  /** With distinct keys, `Get` finds the value stored at any position. */
  lemma {:induction false} GetAt(r: Record, i: nat)
    requires UniqueKeys(r) && i < |r|
    ensures Get(r, r[i].key) == Some(r[i].value)
    decreases i
  {
    if i > 0 {
      assert r[1..][i - 1] == r[i];
      GetAt(r[1..], i - 1);
    }
  }

  /** A one-record reference table of the shape the application ships with. */
  function ExampleTable(): seq<Record> {
    [[Field("SNP", Text("rs1801133")), Field("Genotype", Text("AA")), Field("Risk Level", Text("High"))]]
  }
}
