/** The records of miburi/miburi.go: a loaded MIB node wrapped with its
    dotted OID string and owning module, a loaded module (SmiEntry), and the
    annotated result of a walk (WalkedNode). The parts of gosmi's own types
    that the tool reads are modelled as plain datatypes. */
module Smi {
  import opened Common

  /** One (label, value) pair of an enumerated type. */
  datatype NamedNumber = NamedNumber(name: string, value: int64)

  /** gosmi.SmiType: `enum` is None for a nil *Enum. */
  datatype SmiType = SmiType(name: string, enum: Option<seq<NamedNumber>>, units: string)

  /** gosmi.SmiNode: `smiType` is None for a nil *SmiType. */
  datatype SmiNode = SmiNode(name: string, oid: seq<nat>, description: string, smiType: Option<SmiType>)

  /** gosmi.SmiModule, of which the tool reads only the name. */
  datatype SmiModule = SmiModule(name: string)

  /** SmiNodeWithIndex: the gosmi node plus its OID as a string and its module. */
  datatype SmiNodeWithIndex = SmiNodeWithIndex(node: SmiNode, oidString: string, mib: string)

  /** SmiEntry: one loaded module with its nodes in declaration order. */
  datatype SmiEntry = SmiEntry(smiModule: SmiModule, nodes: seq<SmiNodeWithIndex>, types: seq<SmiType>)

  /** WalkedNode: one annotated result of an SNMP walk. */
  datatype WalkedNode = WalkedNode(
    oid: string, name: string, mib: string, typeTag: string,
    value: string, enum: string, unit: string, desc: string)

  /** Go's zero value SmiNodeWithIndex{}. */
  const ZeroNode := SmiNodeWithIndex(SmiNode("", [], "", None), "", "")

  /** fmt.Sprintf("%s = %v", e.Name, e.Value) */
  function EnumItem(e: NamedNumber): string {
    e.name + " = " + IntToDecimal(e.value)
  }

  /** The items of an enumeration, in declaration order. */
  function EnumItems(values: seq<NamedNumber>): (items: seq<string>)
    ensures |items| == |values|
  {
    seq(|values|, i requires 0 <= i < |values| => EnumItem(values[i]))
  }

  /** The enumeration text: its items joined by ", ". */
  function EnumText(values: seq<NamedNumber>): string {
    Join(EnumItems(values), ", ")
  }

  /** Adding a value at the end of the declaration adds its item at the end
      of the text, after a separator: the text lists the values in order. */
  lemma {:induction false} EnumTextAppend(values: seq<NamedNumber>, e: NamedNumber)
    ensures EnumText(values + [e]) ==
            if values == [] then EnumItem(e) else EnumText(values) + ", " + EnumItem(e)
  {
    var items := EnumItems(values + [e]);
    assert items[..|items| - 1] == EnumItems(values);
  }

  /** The loop that appends each "label = value" to a slice and joins it,
      as in exportTextFindedNode and the walk callback. */
  method FormatEnum(values: seq<NamedNumber>) returns (text: string)
    ensures text == EnumText(values)
    ensures values == [] ==> text == ""
    ensures |values| == 1 ==> text == EnumItem(values[0])
  {
    var enums: seq<string> := [];
    for i := 0 to |values|
      invariant enums == EnumItems(values[..i])
    {
      enums := enums + [EnumItem(values[i])];
    }
    assert values[..|values|] == values;
    text := Join(enums, ", ");
  }
}
