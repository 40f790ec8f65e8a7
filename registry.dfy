/** The engine registry: typeGen and simGen in headers/TypeGen.h build two tables indexed
    alike, `types` (the type codes and grid size of each entry) and `simulators` (a factory
    for the matching engine instantiation); main.cpp looks up the requested combination.
    The lists t = {TYPES} and s = {DYNAMIC, SIZES} are compile-time macros, parameters here. */
module Registry {
  import opened FixedPoint
  import opened TypeCodes

  /** An element of `types`: tuple<int, int, int, size_t, size_t>. */
  datatype Entry = Entry(p: nat, v: nat, vf: nat, height: nat, width: nat)

  /** What a factory in `simulators` instantiates:
      SimulatorImpl<numType<p>, numType<v>, numType<vf>, height, width>. */
  datatype EngineType = EngineType(p: NumType, v: NumType, vf: NumType, height: nat, width: nat)

  /** t holds at least one code (std::array deduction needs one) and s starts with DYNAMIC. */
  predicate WellFormed(t: seq<nat>, s: seq<(nat, nat)>)
  {
    |t| >= 1 && |s| >= 1 && s[0] == DYNAMIC
  }

  /** s{DYNAMIC, SIZES}: the size list always starts with the wildcard. */
  function SizeList(sizes: seq<(nat, nat)>): (s: seq<(nat, nat)>)
    ensures |s| == |sizes| + 1 && s[0] == DYNAMIC && s[1..] == sizes
  {
    [DYNAMIC] + sizes
  }

  /** Both tables have t.size()^3 * s.size() entries. */
  function TableSize(tn: nat, sn: nat): nat { tn * tn * tn * sn }

  // ---------------------------------------------------------------------------------
  // The mixed-radix index: i = a * (T*T*S) + b * (T*S) + c * S + d

  datatype Digits = Digits(a: nat, b: nat, c: nat, d: nat)

  predicate DigitsInRange(tn: nat, sn: nat, x: Digits)
  {
    x.a < tn && x.b < tn && x.c < tn && x.d < sn
  }

  /** The digits typeGen and simGen read off an index: all in range exactly for the
      indices of the table. */
  function Split(tn: nat, sn: nat, i: nat): (r: Digits)
    requires tn >= 1 && sn >= 1
    ensures DigitsInRange(tn, sn, r) <==> i < TableSize(tn, sn)
  {
    SplitDigits(tn, sn, i);
    Digits(i / (tn * tn * sn), i % (tn * tn * sn) / (tn * sn), i % (tn * sn) / sn, i % sn)
  }

  /** The index of a digit tuple. */
  function Join(tn: nat, sn: nat, x: Digits): nat
  {
    x.a * (tn * tn * sn) + x.b * (tn * sn) + x.c * sn + x.d
  }

  /** One digit: the quotient of x < q * p by p is below q. */
  lemma DigitBelow(x: nat, q: nat, p: nat)
    requires p > 0 && x < q * p
    ensures x / p < q
  {
    if x / p >= q {
      MulLeq(q, x / p, p);
    }
  }

  /** Writing hi * p + lo with lo < p and reading the digits back. */
  lemma DigitJoin(hi: nat, lo: nat, q: nat, p: nat)
    requires p > 0 && hi < q && lo < p
    ensures hi * p + lo < q * p
    ensures (hi * p + lo) / p == hi && (hi * p + lo) % p == lo
  {
    MulLeq(hi + 1, q, p);
    assert (hi + 1) * p == hi * p + p;
    DivModUnique(hi * p + lo, p, hi, lo);
  }

  /** Reducing modulo a multiple of p first does not change the remainder modulo p. */
  lemma ModOfMultiple(i: nat, m: nat, p: nat)
    requires p > 0 && m > 0
    ensures i % (m * p) % p == i % p
  {
    var a, r := i / (m * p), i % (m * p);
    assert i == a * (m * p) + r;
    assert r == (r / p) * p + r % p;
    assert a * (m * p) == (a * m) * p;
    assert i == (a * m + r / p) * p + r % p;
    DivModUnique(i, p, a * m + r / p, r % p);
  }

  /** The leading digit: x / p is below q exactly when x is below q * p. */
  lemma LeadingDigit(x: nat, q: nat, p: nat)
    requires p > 0
    ensures x / p < q <==> x < q * p
  {
    if x < q * p {
      DigitBelow(x, q, p);
    }
    if x / p < q {
      assert x == (x / p) * p + x % p;
      MulLeq(x / p + 1, q, p);
      assert (x / p + 1) * p == (x / p) * p + p;
    }
  }

  /** The digit bounds behind Split: the lower three are always in range, the leading one
      exactly when the index is inside the table. */
  lemma SplitDigits(tn: nat, sn: nat, i: nat)
    requires tn >= 1 && sn >= 1
    ensures i % (tn * sn) / sn < tn && i % (tn * tn * sn) / (tn * sn) < tn
    ensures i / (tn * tn * sn) < tn <==> i < TableSize(tn, sn)
  {
    var p2 := tn * sn;
    var p1 := tn * p2;
    assert p1 == tn * tn * sn && TableSize(tn, sn) == tn * p1;
    DigitBelow(i % p2, tn, sn);
    DigitBelow(i % p1, tn, p2);
    LeadingDigit(i, tn, p1);
  }

  /** The three digit steps of an index below tn * p1, with p1 = tn * p2 and p2 = tn * sn. */
  lemma SplitSteps(tn: nat, sn: nat, p2: nat, p1: nat, i: nat)
    requires tn >= 1 && sn >= 1 && p2 == tn * sn && p1 == tn * p2 && i < tn * p1
    ensures i / p1 < tn && (i % p1) / p2 < tn && (i % p2) / sn < tn
    ensures i == (i / p1) * p1 + ((i % p1) / p2) * p2 + ((i % p2) / sn) * sn + i % sn
  {
    var r1 := i % p1;
    var r2 := r1 % p2;
    assert i == (i / p1) * p1 + r1;
    assert r1 == (r1 / p2) * p2 + r2;
    assert r2 == (r2 / sn) * sn + r2 % sn;
    assert p1 > 0 && p2 > 0;
    DigitBelow(i, tn, p1);
    DigitBelow(r1, tn, p2);
    DigitBelow(r2, tn, sn);
    ModOfMultiple(i, tn, p2);
    ModOfMultiple(i, tn, sn);
  }

  /** Every index below the table size splits into in-range digits that join back to it. */
  lemma SplitJoin(tn: nat, sn: nat, i: nat)
    requires tn >= 1 && sn >= 1 && i < TableSize(tn, sn)
    ensures DigitsInRange(tn, sn, Split(tn, sn, i))
    ensures Join(tn, sn, Split(tn, sn, i)) == i
  {
    var p2 := tn * sn;
    var p1 := tn * p2;
    assert p1 == tn * tn * sn;
    assert TableSize(tn, sn) == tn * p1;
    SplitSteps(tn, sn, p2, p1, i);
  }

  /** The digit steps of a joined index, with p1 = tn * p2 and p2 = tn * sn. */
  lemma JoinSteps(tn: nat, sn: nat, p2: nat, p1: nat, x: Digits)
    requires tn >= 1 && sn >= 1 && p2 == tn * sn && p1 == tn * p2 && DigitsInRange(tn, sn, x)
    ensures x.a * p1 + x.b * p2 + x.c * sn + x.d < tn * p1
    ensures (x.a * p1 + x.b * p2 + x.c * sn + x.d) / p1 == x.a
    ensures (x.a * p1 + x.b * p2 + x.c * sn + x.d) % p1 / p2 == x.b
    ensures (x.a * p1 + x.b * p2 + x.c * sn + x.d) % p2 / sn == x.c
    ensures (x.a * p1 + x.b * p2 + x.c * sn + x.d) % sn == x.d
  {
    var r2 := x.c * sn + x.d;
    DigitJoin(x.c, x.d, tn, sn);
    var r1 := x.b * p2 + r2;
    DigitJoin(x.b, r2, tn, p2);
    var i := x.a * p1 + r1;
    DigitJoin(x.a, r1, tn, p1);
    ModOfMultiple(i, tn, p2);
    ModOfMultiple(i, tn, sn);
  }

  /** Every in-range digit tuple has an index below the table size that splits back into it. */
  lemma JoinSplit(tn: nat, sn: nat, x: Digits)
    requires tn >= 1 && sn >= 1 && DigitsInRange(tn, sn, x)
    ensures Join(tn, sn, x) < TableSize(tn, sn)
    ensures Split(tn, sn, Join(tn, sn, x)) == x
  {
    var p2 := tn * sn;
    var p1 := tn * p2;
    assert tn * tn * sn == p1;
    assert TableSize(tn, sn) == tn * p1;
    JoinSteps(tn, sn, p2, p1, x);
  }

  // ---------------------------------------------------------------------------------
  // The two tables

  /** The element typeGen<i> writes. */
  function EntryAt(t: seq<nat>, s: seq<(nat, nat)>, i: nat): Entry
    requires WellFormed(t, s) && i < TableSize(|t|, |s|)
  {
    SplitJoin(|t|, |s|, i);
    var x := Split(|t|, |s|, i);
    Entry(t[x.a], t[x.b], t[x.c], s[x.d].0, s[x.d].1)
  }

  /** The element simGen<i> writes: the factory for the engine instantiated with the decoded
      types and the size of the same digits. */
  function EngineAt(t: seq<nat>, s: seq<(nat, nat)>, i: nat): EngineType
    requires WellFormed(t, s) && i < TableSize(|t|, |s|)
  {
    SplitJoin(|t|, |s|, i);
    var x := Split(|t|, |s|, i);
    EngineType(NToT(t[x.a]), NToT(t[x.b]), NToT(t[x.c]), s[x.d].0, s[x.d].1)
  }

  /** typeGen<index>: the table built for index + 1, with slot `index` then written. The
      terminating specialisation is a value-initialised array of zero tuples. */
  function TypeGen(t: seq<nat>, s: seq<(nat, nat)>, index: nat): (res: seq<Entry>)
    requires WellFormed(t, s) && index <= TableSize(|t|, |s|)
    ensures |res| == TableSize(|t|, |s|)
    ensures forall i :: index <= i < |res| ==> res[i] == EntryAt(t, s, i)
    ensures forall i :: 0 <= i < index ==> res[i] == Entry(0, 0, 0, 0, 0)
    decreases TableSize(|t|, |s|) - index
  {
    if index == TableSize(|t|, |s|) then seq(TableSize(|t|, |s|), _ => Entry(0, 0, 0, 0, 0))
    else TypeGen(t, s, index + 1)[index := EntryAt(t, s, index)]
  }

  /** simGen<index>, built the same way; None is a null factory pointer. */
  function SimGen(t: seq<nat>, s: seq<(nat, nat)>, index: nat): (res: seq<Option<EngineType>>)
    requires WellFormed(t, s) && index <= TableSize(|t|, |s|)
    ensures |res| == TableSize(|t|, |s|)
    ensures forall i :: index <= i < |res| ==> res[i] == Some(EngineAt(t, s, i))
    ensures forall i :: 0 <= i < index ==> res[i] == None
    decreases TableSize(|t|, |s|) - index
  {
    if index == TableSize(|t|, |s|) then seq(TableSize(|t|, |s|), _ => None)
    else SimGen(t, s, index + 1)[index := Some(EngineAt(t, s, index))]
  }

  /** The engine an entry of `types` asks for. */
  function Instantiate(e: Entry): EngineType
  {
    EngineType(NToT(e.p), NToT(e.v), NToT(e.vf), e.height, e.width)
  }

  /** The complete `types` table lists every combination of three codes of t and one size
      of s exactly once, at the index of its digits. */
  lemma TypesListEveryCombination(t: seq<nat>, s: seq<(nat, nat)>, x: Digits)
    requires WellFormed(t, s) && DigitsInRange(|t|, |s|, x)
    ensures Join(|t|, |s|, x) < |TypeGen(t, s, 0)|
    ensures TypeGen(t, s, 0)[Join(|t|, |s|, x)] == Entry(t[x.a], t[x.b], t[x.c], s[x.d].0, s[x.d].1)
  {
    JoinSplit(|t|, |s|, x);
  }

  /** Because the size list starts with DYNAMIC, every combination of three listed codes
      has an entry at the wildcard size (0, 0): for listed codes the lookup in main always
      finds an engine, whatever height and width the input asks for. */
  lemma SizeListCoversListed(t: seq<nat>, sizes: seq<(nat, nat)>, p: nat, v: nat, vf: nat)
    requires p in t && v in t && vf in t
    ensures WellFormed(t, SizeList(sizes))
    ensures Entry(p, v, vf, 0, 0) in TypeGen(t, SizeList(sizes), 0)
  {
    var s := SizeList(sizes);
    var a :| 0 <= a < |t| && t[a] == p;
    var b :| 0 <= b < |t| && t[b] == v;
    var c :| 0 <= c < |t| && t[c] == vf;
    TypesListEveryCombination(t, s, Digits(a, b, c, 0));
  }

  /** simulators[i] is instantiated with exactly the types and size that types[i] lists. */
  lemma SimulatorsMatchTypes(t: seq<nat>, s: seq<(nat, nat)>, i: nat)
    requires WellFormed(t, s) && i < TableSize(|t|, |s|)
    ensures SimGen(t, s, 0)[i] == Some(Instantiate(TypeGen(t, s, 0)[i]))
  {
  }

  // ---------------------------------------------------------------------------------
  // The lookup in main.cpp

  /** std::find: the first index holding `need`, or |types| when there is none. */
  method Find(types: seq<Entry>, need: Entry) returns (index: nat)
    ensures index <= |types|
    ensures index < |types| ==> types[index] == need
    ensures forall j :: 0 <= j < index ==> types[j] != need
  {
    index := 0;
    while index < |types| && types[index] != need
      invariant index <= |types|
      invariant forall j :: 0 <= j < index ==> types[j] != need
    {
      index := index + 1;
    }
  }

  datatype Selection = Selected(index: nat) | DoesNotExist

  /** The exact (p, v, vf, height, width) entry is searched first; only if it is absent is
      the (p, v, vf, 0, 0) wildcard searched; if both are absent the program stops with
      "Simulator does not exist". */
  method SelectSimulator(types: seq<Entry>, setts: SimSetts, height: nat, width: nat)
    returns (r: Selection)
    ensures r.DoesNotExist? <==>
      Entry(setts.pType, setts.vType, setts.vfType, height, width) !in types &&
      Entry(setts.pType, setts.vType, setts.vfType, 0, 0) !in types
    ensures r.Selected? ==> r.index < |types|
    ensures r.Selected? && Entry(setts.pType, setts.vType, setts.vfType, height, width) in types ==>
      types[r.index] == Entry(setts.pType, setts.vType, setts.vfType, height, width) &&
      forall j :: 0 <= j < r.index ==> types[j] != types[r.index]
    ensures r.Selected? && Entry(setts.pType, setts.vType, setts.vfType, height, width) !in types ==>
      types[r.index] == Entry(setts.pType, setts.vType, setts.vfType, 0, 0) &&
      forall j :: 0 <= j < r.index ==> types[j] != types[r.index]
  {
    var need := Entry(setts.pType, setts.vType, setts.vfType, height, width);
    var index := Find(types, need);
    if index == |types| {
      need := Entry(setts.pType, setts.vType, setts.vfType, 0, 0);
      index := Find(types, need);
    }
    if index == |types| {
      return DoesNotExist;
    }
    r := Selected(index);
  }

  /** On success the factory chosen from the generated tables builds the engine for the
      decoded requested types, at the requested size or at the dynamic (0, 0) size. */
  lemma SelectedEngine(t: seq<nat>, s: seq<(nat, nat)>, setts: SimSetts, height: nat, width: nat, i: nat)
    requires WellFormed(t, s) && i < TableSize(|t|, |s|)
    requires TypeGen(t, s, 0)[i] in {Entry(setts.pType, setts.vType, setts.vfType, height, width),
                                     Entry(setts.pType, setts.vType, setts.vfType, 0, 0)}
    ensures SimGen(t, s, 0)[i].Some?
    ensures SimGen(t, s, 0)[i].value.p == NToT(setts.pType)
    ensures SimGen(t, s, 0)[i].value.v == NToT(setts.vType)
    ensures SimGen(t, s, 0)[i].value.vf == NToT(setts.vfType)
    ensures (SimGen(t, s, 0)[i].value.height, SimGen(t, s, 0)[i].value.width) in {(height, width), (0, 0)}
  {
    SimulatorsMatchTypes(t, s, i);
  }
}
