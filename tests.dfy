/** The scenario of the crate's own test: a value that cannot be cloned, kept in a cell and
    rewritten in place through a mutable reference to the cell. */
module InplaceTests {
  import I = InplaceCell

  /** The test's `UnclonableValue`: a string wrapped in a type with no `Clone`. */
  datatype UnclonableValue = UnclonableValue(value: string)

  /** `s.replace("0", "1")`: every '0' becomes '1', every other character is kept. */
  function ReplaceZeros(s: string): (r: string)
    ensures |r| == |s|
    ensures forall i :: 0 <= i < |s| ==> r[i] == if s[i] == '0' then '1' else s[i]
  {
    if s == [] then [] else [if s[0] == '0' then '1' else s[0]] + ReplaceZeros(s[1..])
  }

  /** The test's `change`: the same value with all of its '0's turned into '1's. */
  function Change(v: UnclonableValue): (w: UnclonableValue)
    ensures |w.value| == |v.value| && '0' !in w.value
  {
    UnclonableValue(ReplaceZeros(v.value))
  }

  /** The test's `change_inplace`, given the cell that the test's `Container` refers to. */
  method ChangeInplace(cell: I.Inplace<UnclonableValue>)
    requires cell.Valid()
    modifies cell
    ensures cell.Valid() && cell.Value() == Change(old(cell.Value()))
  {
    cell.Inplace_(Change);
  }

  /** The string the test expects: "0123401234" with its '0's replaced is "1123411234". */
  lemma ReplaceZerosScenario()
    ensures ReplaceZeros("0123401234") == "1123411234"
  {
    var r, expected := ReplaceZeros("0123401234"), "1123411234";
    assert |r| == |expected|;
    forall i | 0 <= i < |r|
      ensures r[i] == expected[i]
    {
    }
  }

  /** The test `it_works`: "0123401234", changed in place and taken out, is "1123411234". */
  method ItWorks() returns (s: string)
    ensures s == "1123411234"
  {
    var cell := new I.Inplace.From(UnclonableValue("0123401234"));
    ChangeInplace(cell);
    var v := cell.Take();
    s := v.value;
    ReplaceZerosScenario();
  }
}
