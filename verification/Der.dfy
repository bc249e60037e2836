/** Octets, as DER values are made of. */
module Der {
  type byte = b: int | 0 <= b < 256
  type Input = seq<byte>

  /** The unsigned integer whose big-endian encoding is s. */
  ghost function BigEndian(s: Input): nat {
    if s == [] then 0 else 256 * BigEndian(s[..|s| - 1]) + s[|s| - 1]
  }
}
