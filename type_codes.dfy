/** Numeric type codes: the macros of headers/ParsingSettings.h and their decoding by NToT
    in headers/TypeGen.h. A code is a plain int that names float, double, Fixed<N, K> or
    FastFixed<N, K>; the registry and the settings carry codes, and NToT turns a code back
    into a type. Codes are non-negative here: every macro yields one, and the settings use
    0 for "no type given". */
module TypeCodes {
  import opened FixedPoint

  const FLOAT: nat := 1000000
  const DOUBLE: nat := 2000000

  /** FIXED(n, k). */
  function FixedCode(n: nat, k: nat): nat { 100 * n + k }

  /** FAST_FIXED(n, k). */
  function FastFixedCode(n: nat, k: nat): nat { 10000 * n + k }

  /** DYNAMIC, the size pair that stands for "any height and width". */
  const DYNAMIC: (nat, nat) := (0, 0)

  /** The numeric types a code can name. */
  datatype NumType = Float | Double | Fixed(n: nat, k: nat) | FastFixed(n: nat, k: nat)

  /** NToT<num>::get(): float and double by their codes, a code below 10000 as
      Fixed<num / 100, num % 100>, any other as FastFixed<num / 10000, num % 10000>. */
  function NToT(code: nat): (t: NumType)
    ensures t.Fixed? ==> code < 10000 && code == FixedCode(t.n, t.k) && t.k < 100
    ensures t.FastFixed? ==> code >= 10000 && code == FastFixedCode(t.n, t.k) && t.k < 10000
    ensures t.Float? <==> code == FLOAT
    ensures t.Double? <==> code == DOUBLE
  {
    if code == FLOAT then Float
    else if code == DOUBLE then Double
    else if code < 10000 then Fixed(code / 100, code % 100)
    else FastFixed(code / 10000, code % 10000)
  }

  /** The inverse of NToT on the types the macros can name. */
  function Code(t: NumType): nat
  {
    match t
    case Float => FLOAT
    case Double => DOUBLE
    case Fixed(n, k) => FixedCode(n, k)
    case FastFixed(n, k) => FastFixedCode(n, k)
  }

  /** The types whose code decodes back to them: FIXED(n, k) needs k < 100 and a code below
      10000; FAST_FIXED(n, k) needs k < 10000, n >= 1, and a code other than FLOAT's or
      DOUBLE's (n < 100 suffices). */
  predicate Encodable(t: NumType)
  {
    match t
    case Float => true
    case Double => true
    case Fixed(n, k) => k < 100 && n < 100
    case FastFixed(n, k) => k < 10000 && 1 <= n < 100
  }

  lemma FixedCodeRoundTrip(n: nat, k: nat)
    requires n < 100 && k < 100
    ensures NToT(FixedCode(n, k)) == Fixed(n, k)
  {
    DivModUnique(FixedCode(n, k), 100, n, k);
  }

  lemma FastFixedCodeRoundTrip(n: nat, k: nat)
    requires 1 <= n < 100 && k < 10000
    ensures NToT(FastFixedCode(n, k)) == FastFixed(n, k)
  {
    DivModUnique(FastFixedCode(n, k), 10000, n, k);
  }

  /** Decoding inverts encoding on every encodable type. */
  lemma CodeRoundTrip(t: NumType)
    requires Encodable(t)
    ensures NToT(Code(t)) == t
  {
    match t
    case Float =>
    case Double =>
    case Fixed(n, k) => FixedCodeRoundTrip(n, k);
    case FastFixed(n, k) => FastFixedCodeRoundTrip(n, k);
  }

  /** And encoding inverts decoding on every code. */
  lemma DecodeRoundTrip(code: nat)
    ensures Code(NToT(code)) == code
  {
  }

  /** The command line accepts 1 <= n, k <= 69 (one digit 1-9, or a first digit 1-6 and a
      second digit). In that range FIXED codes lie below 10000, FAST_FIXED codes in
      [10000, 1000000), so no two of FIXED, FAST_FIXED, FLOAT and DOUBLE share a code. */
  predicate ParserRange(n: nat, k: nat) { 1 <= n <= 69 && 1 <= k <= 69 }

  lemma CodesDisjoint(n1: nat, k1: nat, n2: nat, k2: nat)
    requires ParserRange(n1, k1) && ParserRange(n2, k2)
    ensures FixedCode(n1, k1) < 10000
    ensures 10000 <= FastFixedCode(n2, k2) < FLOAT < DOUBLE
    ensures FixedCode(n1, k1) != FastFixedCode(n2, k2)
    ensures FixedCode(n1, k1) == FixedCode(n2, k2) ==> n1 == n2 && k1 == k2
    ensures FastFixedCode(n1, k1) == FastFixedCode(n2, k2) ==> n1 == n2 && k1 == k2
  {
    if FixedCode(n1, k1) == FixedCode(n2, k2) {
      FixedCodeRoundTrip(n1, k1);
      FixedCodeRoundTrip(n2, k2);
    }
    if FastFixedCode(n1, k1) == FastFixedCode(n2, k2) {
      FastFixedCodeRoundTrip(n1, k1);
      FastFixedCodeRoundTrip(n2, k2);
    }
  }

  /** How a numeric type is stored: a binary floating-point type, or a FixedImpl with a
      storage width and K. */
  datatype Storage = FloatStorage | DoubleStorage | FixedStorage(ty: FxType)

  /** The C++ type a NumType instantiates, or None where the template is ill-formed
      (no nSizeType for the width, N < K, or a FastFixed width above 64). */
  function StorageOf(t: NumType): (r: Option<Storage>)
    ensures r.Some? && r.value.FixedStorage? ==> r.value.ty.Valid()
  {
    match t
    case Float => Some(FloatStorage)
    case Double => Some(DoubleStorage)
    case Fixed(n, k) =>
      (match FixedOf(n, k) case Some(ty) => Some(FixedStorage(ty)) case None => None)
    case FastFixed(n, k) =>
      (match FastFixedOf(n, k) case Some(ty) => Some(FixedStorage(ty)) case None => None)
  }

  /** The settings struct. Type codes default to 0 ("no type given"), which decodes to
      Fixed<0, 0>, a type with no storage: it can never name an engine. */
  datatype SimSetts = SimSetts(pType: nat, vType: nat, vfType: nat,
                               inputFilename: string, outputFilename: string, nTicks: int)

  /** SimSetts{}: the type codes take their default 0, the strings are empty and the
      tick count (which has no default member initialiser) is value-initialised to 0. */
  function DefaultSetts(): (s: SimSetts)
    ensures s.pType == 0 && s.vType == 0 && s.vfType == 0
    ensures s.inputFilename == [] && s.outputFilename == [] && s.nTicks == 0
  {
    SimSetts(0, 0, 0, [], [], 0)
  }

  /** The default code 0 names no storable type. */
  lemma NoTypeGiven()
    ensures NToT(0) == Fixed(0, 0)
    ensures StorageOf(NToT(0)).None?
  {
    FixedCodeRoundTrip(0, 0);
  }

  /** Settings nobody filled in name no storable type for p, v or vf, so they can never
      select an engine. */
  lemma DefaultSettsNameNoType()
    ensures StorageOf(NToT(DefaultSetts().pType)).None?
    ensures StorageOf(NToT(DefaultSetts().vType)).None?
    ensures StorageOf(NToT(DefaultSetts().vfType)).None?
  {
    NoTypeGiven();
  }
}
