/** The SNMP walk of miburi/walk.go (and its copy in main.go): for every
    variable binding (PDU) that the agent returns, the callback of
    `exportObjectWalkedNode` resolves the PDU's OID, tags its type, renders
    its value and, in verbose mode, copies enumeration, unit and
    description from the resolved node. An EndOfMibView binding (the
    exception value of section 4.2.2 of RFC 3416) gives no record: the
    callback returns before appending. If the walk fails, all records gathered for that OID are
    dropped.

    The transport is given as the bindings it delivered and whether it
    then failed; UTF-8 validation and decoding are given as functions. */
module Walk {
  import opened Common
  import opened Smi
  import Normalize
  import Resolver

  /** The gosnmp ASN.1 types the callback distinguishes; every other type
      code is OtherType. */
  datatype PduType =
    | OctetString | Integer | ObjectIdentifier | IPAddress | Counter32 | Gauge32
    | TimeTicks | Counter64 | Opaque | NoSuchObject | NoSuchInstance | EndOfMibView
    | OtherType(code: int)

  /** One variable binding. `octets` is the value of an OctetString;
      `rendered` is the text the source prints for the other known types
      ("%d" of the integer value, "%s" of the value), which gosnmp's value
      model decides. */
  datatype Pdu = Pdu(name: string, pduType: PduType, octets: seq<byte>, rendered: string)

  /** utf8.Valid and the conversion string([]byte). */
  datatype Utf8 = Utf8(valid: seq<byte> -> bool, decode: seq<byte> -> string)

  /** What one BulkWalk delivered to the callback, and its error if any. */
  datatype BulkWalkResult = BulkWalkResult(pdus: seq<Pdu>, failure: Option<string>)

  /** The type tag written for a binding. */
  function TypeTag(t: PduType): string
    requires !t.EndOfMibView?
  {
    match t
    case OctetString => "OctetString"
    case Integer => "Integer"
    case ObjectIdentifier => "ObjectIdentifier"
    case IPAddress => "IPAddress"
    case Counter32 => "Counter32"
    case Gauge32 => "Gauge32"
    case TimeTicks => "TimeTicks"
    case Counter64 => "Counter64"
    case Opaque => "Opaque"
    case NoSuchObject => "NoSuchObject"
    case NoSuchInstance => "NoSuchInstance"
    case OtherType(_) => "Unknown"
  }

  /** Each known type has its own tag; only unknown types share "Unknown". */
  lemma TypeTagDistinct(a: PduType, b: PduType)
    requires !a.EndOfMibView? && !b.EndOfMibView?
    ensures TypeTag(a) == TypeTag(b) <==> a == b || (a.OtherType? && b.OtherType?)
    ensures TypeTag(a) == "Unknown" <==> a.OtherType?
  {
  }

  /** A lower-case hexadecimal digit. */
  function HexDigit(d: nat): (c: char)
    requires d < 16
    ensures '0' <= c <= '9' || 'a' <= c <= 'f'
  {
    if d < 10 then ('0' as int + d) as char else ('a' as int + d - 10) as char
  }

  /** fmt.Sprintf("%02x", b) */
  function Hex2(b: byte): string {
    [HexDigit(b as int / 16), HexDigit(b as int % 16)]
  }

  /** The bytes as two-digit hex numbers separated by single spaces. */
  function HexBytes(v: seq<byte>): string {
    if v == [] then ""
    else if |v| == 1 then Hex2(v[0])
    else HexBytes(v[..|v| - 1]) + " " + Hex2(v[|v| - 1])
  }

  /** The rendering of an octet string that is not valid UTF-8. */
  function HexFormat(v: seq<byte>): string {
    "(hex) " + HexBytes(v)
  }

  /** The loop that builds the hex rendering. */
  method HexString(v: seq<byte>) returns (s: string)
    ensures s == HexFormat(v)
  {
    s := "(hex) ";
    for i := 0 to |v|
      invariant s == "(hex) " + HexBytes(v[..i])
    {
      assert v[..i + 1][..i] == v[..i];
      if i > 0 {
        s := s + " ";
      }
      s := s + Hex2(v[i]);
    }
    assert v[..|v|] == v;
  }

  /** Byte i sits at offset 3i, as two digits, and the bytes are separated
      by single spaces. */
  lemma {:induction false} HexLayout(v: seq<byte>)
    requires v != []
    ensures |HexBytes(v)| == 3 * |v| - 1
    ensures forall i | 0 <= i < |v| :: HexBytes(v)[3 * i..3 * i + 2] == Hex2(v[i])
    ensures forall i | 0 < i < |v| :: HexBytes(v)[3 * i - 1] == ' '
  {
    if |v| > 1 {
      var init := v[..|v| - 1];
      HexLayout(init);
      var h := HexBytes(v);
      assert h == HexBytes(init) + " " + Hex2(v[|v| - 1]);
      forall i | 0 <= i < |v|
        ensures h[3 * i..3 * i + 2] == Hex2(v[i])
      {
        if i < |v| - 1 {
          assert h[3 * i..3 * i + 2] == HexBytes(init)[3 * i..3 * i + 2];
          assert init[i] == v[i];
        }
      }
      forall i | 0 < i < |v|
        ensures h[3 * i - 1] == ' '
      {
        if i < |v| - 1 {
          assert h[3 * i - 1] == HexBytes(init)[3 * i - 1];
        }
      }
    }
  }

  function HexValue(c: char): (d: nat)
    ensures d < 16
  {
    if '0' <= c <= '9' then c as int - '0' as int
    else if 'a' <= c <= 'f' then c as int - 'a' as int + 10
    else 0
  }

  /** Reading the hex rendering back: the number at offset 3i of each
      three-character group. */
  function DecodeHex(s: string): seq<byte> {
    seq((|s| + 1) / 3, i requires 0 <= i < (|s| + 1) / 3 =>
          if 3 * i + 1 < |s| then (HexValue(s[3 * i]) * 16 + HexValue(s[3 * i + 1])) as byte else 0)
  }

  lemma HexDigitValue(d: nat)
    requires d < 16
    ensures HexValue(HexDigit(d)) == d
  {
  }

  /** The two digits of a byte read back as that byte. */
  lemma Hex2Value(b: byte)
    ensures (HexValue(Hex2(b)[0]) * 16 + HexValue(Hex2(b)[1])) as byte == b
  {
    HexDigitValue(b as int / 16);
    HexDigitValue(b as int % 16);
  }

  /** The hex rendering loses nothing: decoding it gives back the bytes. */
  lemma HexRoundTrip(v: seq<byte>)
    ensures DecodeHex(HexBytes(v)) == v
  {
    if v != [] {
      HexLayout(v);
      var h := HexBytes(v);
      var d := DecodeHex(h);
      assert |d| == |v|;
      forall i | 0 <= i < |v|
        ensures d[i] == v[i]
      {
        var pair := h[3 * i..3 * i + 2];
        assert pair == Hex2(v[i]);
        assert h[3 * i] == pair[0] && h[3 * i + 1] == pair[1];
        Hex2Value(v[i]);
      }
    }
  }

  /** The value text of a binding. */
  function PduValue(pdu: Pdu, utf8: Utf8): string {
    match pdu.pduType
    case OctetString => if utf8.valid(pdu.octets) then utf8.decode(pdu.octets) else HexFormat(pdu.octets)
    case OtherType(_) => ""
    case _ => pdu.rendered
  }

  /** Verbose enrichment from the resolved node: enumeration text if the
      node has a type with an enumeration, the unit if that type has a
      non-empty one, and always the description. */
  function Enriched(w: WalkedNode, n: SmiNode): WalkedNode {
    var typed :=
      match n.smiType
      case None => w
      case Some(t) =>
        w.(enum := if t.enum.Some? then EnumText(t.enum.value) else w.enum,
           unit := if t.units != "" then t.units else w.unit);
    typed.(desc := n.description)
  }

  /** The record the callback appends for one binding, if any. */
  function Annotation(edition: Edition, entries: seq<SmiEntry>, pdu: Pdu, verbose: bool, utf8: Utf8)
    : Option<WalkedNode>
  {
    if pdu.pduType.EndOfMibView? then None
    else
      var r := Resolver.FindSpec(edition, entries, pdu.name);
      var base := WalkedNode(Normalize.NormalizeFor(edition, pdu.name), r.name, r.node.mib,
                             TypeTag(pdu.pduType), PduValue(pdu, utf8), "", "", "");
      Some(if verbose && r.name != "" then Enriched(base, r.node.node) else base)
  }

  /** The type switch of the callback, for every type but EndOfMibView. */
  method TagAndRender(pdu: Pdu, utf8: Utf8) returns (typeTag: string, value: string)
    requires !pdu.pduType.EndOfMibView?
    ensures typeTag == TypeTag(pdu.pduType) && value == PduValue(pdu, utf8)
  {
    value := pdu.rendered;
    match pdu.pduType {
      case OctetString =>
        typeTag := "OctetString";
        if utf8.valid(pdu.octets) {
          value := utf8.decode(pdu.octets);
        } else {
          value := HexString(pdu.octets);
        }
      case Integer => typeTag := "Integer";
      case ObjectIdentifier => typeTag := "ObjectIdentifier";
      case IPAddress => typeTag := "IPAddress";
      case Counter32 => typeTag := "Counter32";
      case Gauge32 => typeTag := "Gauge32";
      case TimeTicks => typeTag := "TimeTicks";
      case Counter64 => typeTag := "Counter64";
      case Opaque => typeTag := "Opaque";
      case NoSuchObject => typeTag := "NoSuchObject";
      case NoSuchInstance => typeTag := "NoSuchInstance";
      case OtherType(_) =>
        typeTag := "Unknown";
        value := "";
    }
  }

  /** The BulkWalk callback for one binding. */
  method AnnotatePdu(edition: Edition, entries: seq<SmiEntry>, pdu: Pdu, verbose: bool, utf8: Utf8)
    returns (record: Option<WalkedNode>)
    ensures record == Annotation(edition, entries, pdu, verbose, utf8)
  {
    var name, node := Resolver.Find(edition, entries, pdu.name);
    if pdu.pduType.EndOfMibView? {
      return None;
    }
    var typeTag, value := TagAndRender(pdu, utf8);
    var w := WalkedNode(Normalize.NormalizeFor(edition, pdu.name), name, node.mib, typeTag, value, "", "", "");
    if verbose && name != "" {
      match node.node.smiType {
        case None =>
        case Some(t) =>
          if t.enum.Some? {
            var text := FormatEnum(t.enum.value);
            w := w.(enum := text);
          }
          if t.units != "" {
            w := w.(unit := t.units);
          }
      }
      w := w.(desc := node.node.description);
    }
    return Some(w);
  }

  /** Every binding except EndOfMibView gives a record; its OID is the
      normalised binding name, its name and module come from resolving
      that name, and its type tag and value from the binding. */
  lemma AnnotationRecord(edition: Edition, entries: seq<SmiEntry>, pdu: Pdu, verbose: bool, utf8: Utf8)
    ensures Annotation(edition, entries, pdu, verbose, utf8).None? <==> pdu.pduType.EndOfMibView?
    ensures Annotation(edition, entries, pdu, verbose, utf8).Some? ==>
              var w := Annotation(edition, entries, pdu, verbose, utf8).value;
              var r := Resolver.FindSpec(edition, entries, pdu.name);
              && w.oid == Normalize.NormalizeFor(edition, pdu.name)
              && w.name == r.name && w.mib == r.node.mib
              && w.typeTag == TypeTag(pdu.pduType)
              && w.value == PduValue(pdu, utf8)
  {
  }

  /** Enumeration, unit and description stay empty unless verbose mode is
      on and the name resolved. */
  lemma AnnotationQuiet(edition: Edition, entries: seq<SmiEntry>, pdu: Pdu, verbose: bool, utf8: Utf8)
    requires !pdu.pduType.EndOfMibView?
    requires !verbose || Resolver.FindSpec(edition, entries, pdu.name).name == ""
    ensures var w := Annotation(edition, entries, pdu, verbose, utf8).value;
            w.enum == "" && w.unit == "" && w.desc == ""
  {
  }

  /** In verbose mode a resolved binding carries the node's description,
      the enumeration text when its type has an enumeration, and the unit
      of its type. */
  lemma AnnotationVerbose(edition: Edition, entries: seq<SmiEntry>, pdu: Pdu, utf8: Utf8)
    requires !pdu.pduType.EndOfMibView?
    requires Resolver.FindSpec(edition, entries, pdu.name).name != ""
    ensures var w := Annotation(edition, entries, pdu, true, utf8).value;
            var n := Resolver.FindSpec(edition, entries, pdu.name).node.node;
            && w.desc == n.description
            && w.enum == (if n.smiType.Some? && n.smiType.value.enum.Some?
                          then EnumText(n.smiType.value.enum.value) else "")
            && w.unit == (if n.smiType.Some? then n.smiType.value.units else "")
  {
  }

  /** An octet string is used as text when it is valid UTF-8; otherwise it
      is rendered in hex, from which the bytes can be read back. */
  lemma OctetStringValue(pdu: Pdu, utf8: Utf8)
    requires pdu.pduType == OctetString
    ensures utf8.valid(pdu.octets) ==> PduValue(pdu, utf8) == utf8.decode(pdu.octets)
    ensures !utf8.valid(pdu.octets) ==>
              && HasPrefix(PduValue(pdu, utf8), "(hex) ")
              && DecodeHex(PduValue(pdu, utf8)[6..]) == pdu.octets
  {
    if !utf8.valid(pdu.octets) {
      HexRoundTrip(pdu.octets);
      assert PduValue(pdu, utf8)[6..] == HexBytes(pdu.octets);
    }
  }

  /** miburi records carry the absolute form of the OID. */
  lemma RecordOidAbsolute(entries: seq<SmiEntry>, pdu: Pdu, verbose: bool, utf8: Utf8)
    requires !pdu.pduType.EndOfMibView? && pdu.name != ""
    ensures var w := Annotation(Miburi, entries, pdu, verbose, utf8).value;
            w.oid != "" && w.oid[0] == '.'
  {
  }

  /** Legacy records carry the OID without its leading dot (unless the
      binding name starts with two dots). */
  lemma LegacyRecordOidRelative(entries: seq<SmiEntry>, pdu: Pdu, verbose: bool, utf8: Utf8)
    requires !pdu.pduType.EndOfMibView? && !HasPrefix(pdu.name, "..")
    ensures var w := Annotation(Legacy, entries, pdu, verbose, utf8).value;
            w.oid == "" || w.oid[0] != '.'
  {
  }

  /** The records that are there, in order. */
  function Present(records: seq<Option<WalkedNode>>): seq<WalkedNode> {
    if records == [] then []
    else
      var last := records[|records| - 1];
      Present(records[..|records| - 1]) + (if last.Some? then [last.value] else [])
  }

  /** The callback's outcome for each binding, in order. */
  function Annotations(edition: Edition, entries: seq<SmiEntry>, pdus: seq<Pdu>, verbose: bool, utf8: Utf8)
    : (records: seq<Option<WalkedNode>>)
    ensures |records| == |pdus|
  {
    seq(|pdus|, i requires 0 <= i < |pdus| => Annotation(edition, entries, pdus[i], verbose, utf8))
  }

  /** The records of a sequence of bindings, in callback order. */
  function Collected(edition: Edition, entries: seq<SmiEntry>, pdus: seq<Pdu>, verbose: bool, utf8: Utf8)
    : seq<WalkedNode>
  {
    Present(Annotations(edition, entries, pdus, verbose, utf8))
  }

  /** What exportObjectWalkedNode returns for one walk. */
  function Exported(edition: Edition, entries: seq<SmiEntry>, walk: BulkWalkResult, verbose: bool, utf8: Utf8)
    : seq<WalkedNode>
  {
    if walk.failure.Some? then [] else Collected(edition, entries, walk.pdus, verbose, utf8)
  }

  /** exportObjectWalkedNode: run the callback on every delivered binding,
      then drop everything if the walk failed. */
  method ExportObjectWalkedNode(edition: Edition, entries: seq<SmiEntry>, walk: BulkWalkResult, verbose: bool, utf8: Utf8)
    returns (walkedNodes: seq<WalkedNode>)
    ensures walkedNodes == Exported(edition, entries, walk, verbose, utf8)
    ensures walk.failure.Some? ==> walkedNodes == []
  {
    walkedNodes := [];
    var pdus := walk.pdus;
    ghost var records := Annotations(edition, entries, pdus, verbose, utf8);
    for i := 0 to |pdus|
      invariant walkedNodes == Present(records[..i])
    {
      assert records[..i + 1][..i] == records[..i];
      var record := AnnotatePdu(edition, entries, pdus[i], verbose, utf8);
      assert records[..i + 1][i] == record;
      if record.Some? {
        walkedNodes := walkedNodes + [record.value];
      }
    }
    assert records[..|pdus|] == records;
    if walk.failure.Some? {
      return [];
    }
  }

  /** The number of missing records. */
  function Missing(records: seq<Option<WalkedNode>>): nat {
    if records == [] then 0
    else Missing(records[..|records| - 1]) + (if records[|records| - 1].None? then 1 else 0)
  }

  lemma {:induction false} PresentCount(records: seq<Option<WalkedNode>>)
    ensures |Present(records)| == |records| - Missing(records)
  {
    if records != [] {
      PresentCount(records[..|records| - 1]);
    }
  }

  lemma {:induction false} PresentAppend(a: seq<Option<WalkedNode>>, b: seq<Option<WalkedNode>>)
    ensures Present(a + b) == Present(a) + Present(b)
    decreases |b|
  {
    if b == [] {
      assert a + b == a;
    } else {
      PresentAppend(a, b[..|b| - 1]);
      assert (a + b)[..|a + b| - 1] == a + b[..|b| - 1];
    }
  }

  lemma {:induction false} PresentAll(records: seq<Option<WalkedNode>>, i: nat)
    requires i < |records|
    requires forall j | 0 <= j < |records| :: records[j].Some?
    ensures |Present(records)| == |records|
    ensures Present(records)[i] == records[i].value
  {
    var init := records[..|records| - 1];
    PresentCount(records);
    PresentCount(init);
    NothingMissing(records);
    NothingMissing(init);
    if i < |init| {
      PresentAll(init, i);
    }
  }

  lemma {:induction false} NothingMissing(records: seq<Option<WalkedNode>>)
    requires forall j | 0 <= j < |records| :: records[j].Some?
    ensures Missing(records) == 0
  {
    if records != [] {
      NothingMissing(records[..|records| - 1]);
    }
  }

  /** The number of EndOfMibView bindings. */
  function EndCount(pdus: seq<Pdu>): nat {
    if pdus == [] then 0
    else EndCount(pdus[..|pdus| - 1]) + (if pdus[|pdus| - 1].pduType.EndOfMibView? then 1 else 0)
  }

  lemma {:induction false} MissingAreEnds(records: seq<Option<WalkedNode>>, pdus: seq<Pdu>)
    requires |records| == |pdus|
    requires forall j | 0 <= j < |pdus| :: records[j].None? <==> pdus[j].pduType.EndOfMibView?
    ensures Missing(records) == EndCount(pdus)
  {
    if pdus != [] {
      MissingAreEnds(records[..|records| - 1], pdus[..|pdus| - 1]);
    }
  }

  /** Exactly one record per binding that is not EndOfMibView. */
  lemma CollectedCount(edition: Edition, entries: seq<SmiEntry>, pdus: seq<Pdu>, verbose: bool, utf8: Utf8)
    ensures |Collected(edition, entries, pdus, verbose, utf8)| == |pdus| - EndCount(pdus)
  {
    var records := Annotations(edition, entries, pdus, verbose, utf8);
    PresentCount(records);
    MissingAreEnds(records, pdus);
  }

  /** Records keep the order of the bindings: the records of two
      consecutive stretches of bindings are those of the first, then those
      of the second. */
  lemma CollectedAppend(edition: Edition, entries: seq<SmiEntry>, a: seq<Pdu>, b: seq<Pdu>, verbose: bool, utf8: Utf8)
    ensures Collected(edition, entries, a + b, verbose, utf8) ==
            Collected(edition, entries, a, verbose, utf8) + Collected(edition, entries, b, verbose, utf8)
  {
    var ra := Annotations(edition, entries, a, verbose, utf8);
    var rb := Annotations(edition, entries, b, verbose, utf8);
    assert Annotations(edition, entries, a + b, verbose, utf8) == ra + rb;
    PresentAppend(ra, rb);
  }

  /** When no binding is EndOfMibView, record i belongs to binding i. */
  lemma CollectedPointwise(edition: Edition, entries: seq<SmiEntry>, pdus: seq<Pdu>, verbose: bool, utf8: Utf8, i: nat)
    requires i < |pdus|
    requires forall j | 0 <= j < |pdus| :: !pdus[j].pduType.EndOfMibView?
    ensures |Collected(edition, entries, pdus, verbose, utf8)| == |pdus|
    ensures Collected(edition, entries, pdus, verbose, utf8)[i] == Annotation(edition, entries, pdus[i], verbose, utf8).value
  {
    PresentAll(Annotations(edition, entries, pdus, verbose, utf8), i);
  }

  /** The batches of records, one after the other. */
  function Concat(batches: seq<seq<WalkedNode>>): seq<WalkedNode> {
    if batches == [] then [] else Concat(batches[..|batches| - 1]) + batches[|batches| - 1]
  }

  /** The records of each target OID, in the order of the targets. */
  function Batches(edition: Edition, entries: seq<SmiEntry>, oids: seq<string>, bulkWalk: string -> BulkWalkResult, verbose: bool, utf8: Utf8)
    : (batches: seq<seq<WalkedNode>>)
    ensures |batches| == |oids|
  {
    seq(|oids|, i requires 0 <= i < |oids| => Exported(edition, entries, bulkWalk(oids[i]), verbose, utf8))
  }

  /** The records of all target OIDs, walked in order. */
  function Walked(edition: Edition, entries: seq<SmiEntry>, oids: seq<string>, bulkWalk: string -> BulkWalkResult, verbose: bool, utf8: Utf8)
    : seq<WalkedNode>
  {
    Concat(Batches(edition, entries, oids, bulkWalk, verbose, utf8))
  }

  lemma {:induction false} ConcatAppend(a: seq<seq<WalkedNode>>, b: seq<seq<WalkedNode>>)
    ensures Concat(a + b) == Concat(a) + Concat(b)
    decreases |b|
  {
    if b == [] {
      assert a + b == a;
    } else {
      ConcatAppend(a, b[..|b| - 1]);
      assert (a + b)[..|a + b| - 1] == a + b[..|b| - 1];
    }
  }

  /** Walking two lists of targets one after the other gives the records
      of the first list followed by those of the second. */
  lemma WalkedAppend(edition: Edition, entries: seq<SmiEntry>, a: seq<string>, b: seq<string>, bulkWalk: string -> BulkWalkResult, verbose: bool, utf8: Utf8)
    ensures Walked(edition, entries, a + b, bulkWalk, verbose, utf8) ==
            Walked(edition, entries, a, bulkWalk, verbose, utf8) + Walked(edition, entries, b, bulkWalk, verbose, utf8)
  {
    var ba := Batches(edition, entries, a, bulkWalk, verbose, utf8);
    var bb := Batches(edition, entries, b, bulkWalk, verbose, utf8);
    assert Batches(edition, entries, a + b, bulkWalk, verbose, utf8) == ba + bb;
    ConcatAppend(ba, bb);
  }

  /** A target whose walk failed contributes no records. */
  lemma FailedTargetSkipped(edition: Edition, entries: seq<SmiEntry>, oids: seq<string>, o: string, bulkWalk: string -> BulkWalkResult, verbose: bool, utf8: Utf8)
    requires bulkWalk(o).failure.Some?
    ensures Walked(edition, entries, oids + [o], bulkWalk, verbose, utf8) == Walked(edition, entries, oids, bulkWalk, verbose, utf8)
  {
    WalkedAppend(edition, entries, oids, [o], bulkWalk, verbose, utf8);
    var none: seq<seq<WalkedNode>> := [[]];
    assert Batches(edition, entries, [o], bulkWalk, verbose, utf8) == none;
    assert none[..0] == [];
  }

  /** walk: restore the snapshot, connect, then concatenate the records of
      every target OID in order. Output formatting is left to the caller. */
  method Walk(
    edition: Edition, restored: Result<seq<SmiEntry>, Error>, connect: Option<string>,
    oids: seq<string>, bulkWalk: string -> BulkWalkResult, verbose: bool, utf8: Utf8)
    returns (r: Result<seq<WalkedNode>, Error>)
    ensures restored.Failure? ==> r == Failure(restored.error)
    ensures restored.Success? && connect.Some? ==> r == Failure(TransportError(connect.value))
    ensures restored.Success? && connect.None? ==>
              r == Success(Walked(edition, restored.value, oids, bulkWalk, verbose, utf8))
  {
    if restored.Failure? {
      return Failure(restored.error);
    }
    var entries := restored.value;
    if connect.Some? {
      return Failure(TransportError(connect.value));
    }
    var walkedNodes: seq<WalkedNode> := [];
    for i := 0 to |oids|
      invariant walkedNodes == Walked(edition, entries, oids[..i], bulkWalk, verbose, utf8)
    {
      assert Batches(edition, entries, oids[..i + 1], bulkWalk, verbose, utf8)[..i] ==
             Batches(edition, entries, oids[..i], bulkWalk, verbose, utf8);
      var records := ExportObjectWalkedNode(edition, entries, bulkWalk(oids[i]), verbose, utf8);
      walkedNodes := walkedNodes + records;
    }
    assert oids[..|oids|] == oids;
    return Success(walkedNodes);
  }
}
