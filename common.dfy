/** Shared value types: optional and failing results, Go's fixed-width
    integers, the error kinds of the tool, and the string helpers the Go
    standard library supplies (strings.HasPrefix, strings.Join, "%d"). */
module Common {

  datatype Option<+T> = None | Some(value: T)

  datatype Result<+T, +E> = Success(value: T) | Failure(error: E)

  /** Go's `byte` (uint8). */
  newtype byte = x: int | 0 <= x < 256

  /** Go's `int64`, the type of an enumeration's numeric value. */
  type int64 = x: int | -0x8000_0000_0000_0000 <= x < 0x8000_0000_0000_0000

  /** The errors the tool surfaces to its caller. */
  datatype Error =
    | IOError(path: string)           // os.ReadFile / os.WriteFile / os.ReadDir failed
    | EncodeError                     // gob encoding failed
    | DecodeError                     // gob decoding failed
    | VersionMismatch(file: string)   // snapshot written by an incompatible version
    | TransportError(message: string) // SNMP connect or walk failed

  /** The two copies of the tool: the `miburi` package and the older
      single-file `main.go`. They differ in how an OID is normalised, in the
      snapshot envelope and in which directory entries count as MIB files. */
  datatype Edition = Miburi | Legacy

  predicate HasPrefix(s: string, p: string) {
    |p| <= |s| && s[..|p|] == p
  }

  /** strings.Contains(s, p). */
  predicate Contains(s: string, p: string)
    decreases |s|
  {
    HasPrefix(s, p) || (|s| > 0 && Contains(s[1..], p))
  }

  /** strings.Join(xs, sep). */
  function Join(xs: seq<string>, sep: string): string {
    if |xs| == 0 then ""
    else if |xs| == 1 then xs[0]
    else Join(xs[..|xs| - 1], sep) + sep + xs[|xs| - 1]
  }

  function DigitChar(d: nat): char
    requires d < 10
  {
    "0123456789"[d]
  }

  function NatToDecimal(n: nat): string
    decreases n
  {
    if n < 10 then [DigitChar(n)] else NatToDecimal(n / 10) + [DigitChar(n % 10)]
  }

  /** Decimal rendering of an integer, as fmt's "%v" / "%d" print it. */
  function IntToDecimal(v: int): string {
    if v < 0 then "-" + NatToDecimal(-v) else NatToDecimal(v)
  }
}
