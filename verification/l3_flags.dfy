/** The three bit-set domains of the layer-3 configuration: dat-flags carried
    by a configuration, add-flags steering one insertion and merge-flags
    steering one source of a combination. Each is its own type, so a value of
    one domain can never be passed where another is expected.

    A C flag value is represented by the set of positions of its one-bits:
    the constant `1 << n` is `{n}`, `a | b` is `a + b`, `a & b` is `a * b`
    and `a & ~b` is `a - b`. */
module L3Flags {

  /** A bit position of a 64-bit enum value. */
  type BitPos = n: nat | n < 64

  /** A flag value: the positions of its one-bits. */
  type Bits = set<BitPos>

  // ---- dat-flags (NML3ConfigDatFlags) -------------------------------------

  const DAT_NONE: Bits := {}
  /** The source's NO_DEFAULT_ROUTES merge flag is ignored for this data. */
  const DAT_IGNORE_MERGE_NO_DEFAULT_ROUTES: Bits := {0}
  const DAT_HAS_DNS_PRIORITY_4: Bits := {1}
  const DAT_HAS_DNS_PRIORITY_6: Bits := {2}

  datatype DatFlags = DatFlags(bits: Bits) {
    /** NM_FLAGS_HAS: every bit of `flag` is set. */
    predicate Has(flag: Bits) { flag <= bits }
  }

  /** The per-family selector NM_L3_CONFIG_DAT_FLAGS_HAS_DNS_PRIORITY(is_ipv4):
      bit 1 for IPv4, bit 2 for IPv6. */
  function HasDnsPriorityFlag(isIPv4: bool): (f: Bits)
    ensures isIPv4 ==> f == {1}
    ensures !isIPv4 ==> f == {2}
    ensures f !! DAT_IGNORE_MERGE_NO_DEFAULT_ROUTES
  {
    if isIPv4 then DAT_HAS_DNS_PRIORITY_4 else DAT_HAS_DNS_PRIORITY_6
  }

  // ---- add-flags (NML3ConfigAddFlags) -------------------------------------

  const ADD_NONE: Bits := {}
  /** An existing entry with the same key is merged with the new object
      instead of being replaced by it. */
  const ADD_MERGE: Bits := {0}
  /** An existing entry with the same key is kept and the add has no effect. */
  const ADD_EXCLUSIVE: Bits := {1}
  /** An existing entry is moved to the end of the list. */
  const ADD_APPEND_FORCE: Bits := {2}

  datatype AddFlags = AddFlags(bits: Bits) {
    predicate Merge() { 0 in bits }
    predicate Exclusive() { 1 in bits }
    predicate AppendForce() { 2 in bits }
  }

  // ---- merge-flags (NML3ConfigMergeFlags) ---------------------------------

  const MERGE_NONE: Bits := {}
  const MERGE_NO_ROUTES: Bits := {0}
  const MERGE_NO_DEFAULT_ROUTES: Bits := {1}
  const MERGE_NO_DNS: Bits := {2}
  /** Addresses newly contributed by this source are marked external. */
  const MERGE_EXTERNAL: Bits := {3}

  datatype MergeFlags = MergeFlags(bits: Bits) {
    predicate NoRoutes() { 0 in bits }
    predicate NoDefaultRoutes() { 1 in bits }
    predicate NoDns() { 2 in bits }
    predicate External() { 3 in bits }
  }

  // ---- assignment under a mask --------------------------------------------

  /** The bits selected by `mask` take their value from `flags`; every other
      bit keeps its value from `cur`. */
  function AssignMasked(cur: Bits, flags: Bits, mask: Bits): (r: Bits)
    ensures forall b: BitPos :: b in mask ==> (b in r <==> b in flags)
    ensures forall b: BitPos :: b !in mask ==> (b in r <==> b in cur)
  {
    (cur - mask) + (flags * mask)
  }

  /** The masked assignment is determined by those two facts: any value that
      agrees with `flags` inside the mask and with `cur` outside it is the
      result. */
  lemma AssignMaskedUnique(cur: Bits, flags: Bits, mask: Bits, r: Bits)
    requires forall b: BitPos :: b in mask ==> (b in r <==> b in flags)
    requires forall b: BitPos :: b !in mask ==> (b in r <==> b in cur)
    ensures r == AssignMasked(cur, flags, mask)
  {
  }

  /** Assignment of `f` under the mask `f` (set_flags): every bit of `f` on,
      the others kept. */
  function SetBits(cur: Bits, f: Bits): (r: Bits)
    ensures r == AssignMasked(cur, f, f)
    ensures f <= r
    ensures r - f == cur - f
  {
    AssignMasked(cur, f, f)
  }

  /** Assignment of NONE under the mask `f` (unset_flags): every bit of `f`
      off, the others kept. */
  function ClearBits(cur: Bits, f: Bits): (r: Bits)
    ensures r == AssignMasked(cur, DAT_NONE, f)
    ensures r !! f
    ensures r - f == cur - f
  {
    AssignMasked(cur, DAT_NONE, f)
  }
}
