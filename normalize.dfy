/** OID normalisation applied to every user- or agent-supplied OID before
    it is looked up: `normalizeOid` of the miburi package, which forces an
    absolute form with a leading dot, and the older `normalizeOid` of
    main.go, which strips the leading dot instead. Both map the textual
    root `iso` to its number 1. The regular expressions of the source are
    anchored at the start, so each rewrite is a prefix test. */
module Normalize {
  import opened Common

  /** miburi: `^iso\.` becomes ".1.", then a leading character other than
      '.' gets a '.' in front of it. */
  function NormalizeOid(oid: string): (r: string)
    ensures HasPrefix(oid, "iso.") ==> r == ".1." + oid[4..]
    ensures !HasPrefix(oid, "iso.") && oid != "" && oid[0] != '.' ==> r == "." + oid
    ensures oid == "" || oid[0] == '.' ==> r == oid
    ensures r == "" <==> oid == ""
    ensures r != "" ==> r[0] == '.'
  {
    var rooted := if HasPrefix(oid, "iso.") then ".1." + oid[4..] else oid;
    if rooted != "" && rooted[0] != '.' then "." + rooted else rooted
  }

  /** Normalising twice is normalising once. */
  lemma NormalizeIdempotent(oid: string)
    ensures NormalizeOid(NormalizeOid(oid)) == NormalizeOid(oid)
  {
  }

  /** The textual root, the relative numeric root and the absolute numeric
      root all give the same absolute OID. */
  lemma NormalizeRootAliases(rest: string)
    ensures NormalizeOid("iso." + rest) == ".1." + rest
    ensures NormalizeOid("1." + rest) == ".1." + rest
    ensures NormalizeOid(".1." + rest) == ".1." + rest
  {
    TextualRoot(rest);
    var relative := "1." + rest;
    assert relative[0] == '1';
    assert !HasPrefix(relative, "iso.") by { assert relative[0] != "iso."[0]; }
    assert "." + relative == ".1." + rest;
    var absolute := ".1." + rest;
    assert absolute[0] == '.';
  }

  lemma TextualRoot(rest: string)
    ensures NormalizeOid("iso." + rest) == ".1." + rest
  {
    var oid := "iso." + rest;
    assert oid[..4] == "iso.";
    assert oid[4..] == rest;
  }

  /** Only a prefix is rewritten: what follows `iso.` (or the whole input
      when it does not start with `iso.`) ends the result. */
  lemma NormalizeKeepsSuffix(oid: string)
    ensures var body := if HasPrefix(oid, "iso.") then oid[4..] else oid;
            var r := NormalizeOid(oid);
            |body| <= |r| && r[|r| - |body|..] == body
  {
  }

  /** main.go: `^\.` is removed, then `^iso\.` becomes "1.". */
  function LegacyNormalizeOid(oid: string): (r: string)
    ensures HasPrefix(oid, "iso.") ==> r == "1." + oid[4..]
    ensures HasPrefix(oid, ".iso.") ==> r == "1." + oid[5..]
    ensures HasPrefix(oid, "..") ==> r == oid[1..]
    ensures !HasPrefix(oid, "iso.") && !HasPrefix(oid, ".iso.") ==>
              r == (if oid != "" && oid[0] == '.' then oid[1..] else oid)
    ensures r != "" && r[0] == '.' <==> HasPrefix(oid, "..")
    ensures !HasPrefix(r, "iso.")
  {
    var relative := if oid != "" && oid[0] == '.' then oid[1..] else oid;
    assert HasPrefix(oid, ".iso.") ==> relative[..4] == oid[1..5] && relative[4..] == oid[5..];
    assert HasPrefix(oid, "..") ==> relative == oid[1..] && relative[0] == '.';
    assert HasPrefix(relative, "iso.") ==> relative[0] == 'i';
    if HasPrefix(relative, "iso.") then "1." + relative[4..] else relative
  }

  /** The textual and numeric roots agree, with or without a leading dot. */
  lemma LegacyRootAliases(rest: string)
    ensures LegacyNormalizeOid("iso." + rest) == "1." + rest
    ensures LegacyNormalizeOid(".iso." + rest) == "1." + rest
    ensures LegacyNormalizeOid("1." + rest) == "1." + rest
    ensures LegacyNormalizeOid(".1." + rest) == "1." + rest
  {
    assert ("iso." + rest)[..4] == "iso.";
    assert ("iso." + rest)[4..] == rest;
    assert (".iso." + rest)[..5] == ".iso.";
    assert (".iso." + rest)[5..] == rest;
    assert (".1." + rest)[1..] == "1." + rest;
    assert !HasPrefix("1." + rest, "iso.") by { assert ("1." + rest)[0] == '1'; }
    assert !HasPrefix(".1." + rest, "..") by { assert (".1." + rest)[1] == '1'; }
  }

  /** The legacy normaliser is idempotent on inputs that do not start with
      two dots. */
  lemma LegacyIdempotent(oid: string)
    requires !HasPrefix(oid, "..")
    ensures LegacyNormalizeOid(LegacyNormalizeOid(oid)) == LegacyNormalizeOid(oid)
  {
  }

  /** ... and only there: "..1" loses one dot per application. */
  lemma LegacyNotIdempotent()
    ensures LegacyNormalizeOid("..1") == ".1"
    ensures LegacyNormalizeOid(LegacyNormalizeOid("..1")) == "1"
  {
    assert HasPrefix("..1", "..");
    assert !HasPrefix(".1", "..") by { assert ".1"[1] == '1'; }
  }

  /** The normaliser of the given edition of the tool. */
  function NormalizeFor(edition: Edition, oid: string): string {
    match edition
    case Miburi => NormalizeOid(oid)
    case Legacy => LegacyNormalizeOid(oid)
  }
}
