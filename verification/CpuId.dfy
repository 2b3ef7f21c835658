/** CPUID enumeration: which leaves are queried, in which order, and what is listed from them. */
module CpuId {
  import opened Common
  import Hex

  const VENDOR_LEAF: u32 := 0
  const SIGNATURE_LEAF: u32 := 1
  const FEATURES_LEAF: u32 := 7
  const XSTATE_LEAF: u32 := 0xD
  const HYPERVISOR_LEAF: u32 := 0x4000_0000
  const HYPERVISOR_INTERFACE: u32 := 0x4000_0001
  const EXTENDED_LIMIT_LEAF: u32 := 0x8000_0000
  const EXTENDED_FEATURES_LEAF: u32 := 0x8000_0001
  const BRAND_FIRST_LEAF: u32 := 0x8000_0002
  const BRAND_LAST_LEAF: u32 := 0x8000_0004
  const ADDRESS_WIDTH_LEAF: u32 := 0x8000_0008
  const MAX_FEATURES_SUBLEAF := 128

  datatype Answer = Answer(eax: u32, ebx: u32, ecx: u32, edx: u32)

  datatype Record = Record(leaf: u32, subleaf: u32, answer: Answer)

  /** A query source may answer every call differently: it sees how many calls were made before. */
  type Source = (nat, u32, u32) -> Answer

  function Pow2(n: nat): (p: nat)
    ensures p > 0
  {
    if n == 0 then 1 else 2 * Pow2(n - 1)
  }

  predicate Bit(x: u32, n: nat) {
    x / Pow2(n) % 2 == 1
  }

  /** A 64-bit mask as its low and high words. */
  datatype Mask = Mask(low: u32, high: u32)

  predicate MaskBit(mask: Mask, n: nat) {
    if n < 32 then Bit(mask.low, n) else Bit(mask.high, n - 32)
  }

  /** The extended control registers, by number of the read and of the register. Reads, too, may be answered differently. */
  type StateSource = (nat, u32) -> Mask

  /** One read of an extended control register, after those in the log. */
  method ReadState(xgetbv: StateSource, made: seq<u32>, register: u32) returns (mask: Mask, log: seq<u32>)
    ensures mask == xgetbv(|made|, register) && log == made + [register]
  {
    mask := xgetbv(|made|, register);
    log := made + [register];
  }

  /** `stateReads` logs the extended control registers that were read, in order. */
  datatype Fingerprint = Fingerprint(
    maximumBasicLeaf: u32, maximumExtendedLeaf: u32, hypervisorPresent: bool,
    xcr0Supported: Option<Mask>, xssSupported: Option<Mask>, xcr0: Option<Mask>, stateReads: seq<u32>,
    records: seq<Record>)

  // ---------------------------------------------------------------- order and lookup

  predicate Before(a: Record, b: Record) {
    a.leaf < b.leaf || (a.leaf == b.leaf && a.subleaf < b.subleaf)
  }

  ghost predicate Sorted(records: seq<Record>) {
    forall i, j :: 0 <= i < j < |records| ==> Before(records[i], records[j])
  }

  function Keys(records: seq<Record>): set<(int, int)> {
    set r | r in records :: (r.leaf, r.subleaf)
  }

  /** The records as a map. */
  ghost function Table(records: seq<Record>): map<(int, int), Answer>
  {
    map key | key in Keys(records) :: Lookup(records, key.0, key.1).answer
  }

  ghost function Lookup(records: seq<Record>, leaf: int, subleaf: int): Record
    requires (leaf, subleaf) in Keys(records)
    ensures Lookup(records, leaf, subleaf) in records
  {
    var r :| r in records && r.leaf == leaf && r.subleaf == subleaf; r
  }

  function Find(records: seq<Record>, leaf: int, subleaf: int): Option<Record> {
    if records == [] then None
    else if records[0].leaf == leaf && records[0].subleaf == subleaf then Some(records[0])
    else Find(records[1..], leaf, subleaf)
  }

  lemma {:induction false} FindSound(records: seq<Record>, leaf: int, subleaf: int)
    ensures Find(records, leaf, subleaf).Some? <==> (leaf, subleaf) in Keys(records)
    ensures Find(records, leaf, subleaf).Some? ==>
      var r := Find(records, leaf, subleaf).value; r in records && r.leaf == leaf && r.subleaf == subleaf
  {
    if records != [] {
      FindSound(records[1..], leaf, subleaf);
      assert records == [records[0]] + records[1..];
    }
  }

  predicate HasKey(r: Record, leaf: int, subleaf: int) {
    r.leaf == leaf && r.subleaf == subleaf
  }

  /** The search returns the first record with the key. */
  lemma {:induction false} FindFirst(records: seq<Record>, leaf: int, subleaf: int) returns (i: nat)
    ensures i <= |records| && forall j :: 0 <= j < i ==> !HasKey(records[j], leaf, subleaf)
    ensures if i == |records| then Find(records, leaf, subleaf) == None
            else HasKey(records[i], leaf, subleaf) && Find(records, leaf, subleaf) == Some(records[i])
  {
    i := 0;
    if records != [] && !HasKey(records[0], leaf, subleaf) {
      i := FindFirst(records[1..], leaf, subleaf);
      i := i + 1;
      forall j | 0 <= j < i ensures !HasKey(records[j], leaf, subleaf) {
        if j > 0 { assert records[j] == records[1..][j - 1]; }
      }
    }
  }

  /** On sorted records the linear search agrees with a map. */
  lemma FindIsMapLookup(records: seq<Record>, leaf: int, subleaf: int)
    requires Sorted(records)
    ensures (leaf, subleaf) in Table(records) <==> Find(records, leaf, subleaf).Some?
    ensures (leaf, subleaf) in Table(records) ==>
      Find(records, leaf, subleaf).Some? && Find(records, leaf, subleaf).value.answer == Table(records)[(leaf, subleaf)]
  {
    FindSound(records, leaf, subleaf);
    if (leaf, subleaf) in Keys(records) {
      var a, b := Lookup(records, leaf, subleaf), Find(records, leaf, subleaf).value;
      var i :| 0 <= i < |records| && records[i] == a;
      var j :| 0 <= j < |records| && records[j] == b;
    }
  }

  lemma SortedAppend(records: seq<Record>, more: seq<Record>)
    requires Sorted(records) && Sorted(more)
    requires forall a, b :: a in records && b in more ==> Before(a, b)
    ensures Sorted(records + more)
  {
    var all := records + more;
    forall i, j | 0 <= i < j < |all| ensures Before(all[i], all[j]) {
      if i < |records| <= j {
        assert all[i] in records && all[j] in more;
      }
    }
  }

  // ---------------------------------------------------------------- the enumeration

  /** Every recorded leaf is at most `leaf`. */
  ghost predicate UpTo(records: seq<Record>, leaf: u32) {
    forall r :: r in records ==> r.leaf <= leaf
  }

  /** Record number k holds the answer to call number k. */
  ghost predicate Answers(source: Source, records: seq<Record>) {
    forall k :: 0 <= k < |records| ==> records[k].answer == source(k, records[k].leaf, records[k].subleaf)
  }

  /** The key is after every recorded one. */
  ghost predicate After(records: seq<Record>, leaf: int, subleaf: int) {
    forall r :: r in records ==> r.leaf < leaf || (r.leaf == leaf && r.subleaf < subleaf)
  }

  /** One query on a key after all recorded ones. */
  method Query(source: Source, records: seq<Record>, leaf: u32, subleaf: u32) returns (result: seq<Record>, answer: Answer)
    requires Sorted(records) && After(records, leaf, subleaf) && Answers(source, records)
    ensures result == records + [Record(leaf, subleaf, answer)]
    ensures Sorted(result) && UpTo(result, leaf) && Answers(source, result)
    ensures After(result, leaf, subleaf + 1) && After(result, leaf + 1, 0)
    ensures Keys(result) == Keys(records) + {(leaf, subleaf)}
    ensures Find(result, leaf, subleaf) == Some(Record(leaf, subleaf, answer))
    ensures forall l: int, s: int :: l != leaf || s != subleaf ==> Find(result, l, s) == Find(records, l, s)
  {
    answer := source(|records|, leaf, subleaf);
    var record := Record(leaf, subleaf, answer);
    result := records + [record];
    SortedAppend(records, [record]);
    forall l: int, s: int
      ensures Find(result, l, s)
        == if Find(records, l, s).Some? then Find(records, l, s) else if l == leaf
          && s == subleaf then Some(record) else None
    {
      FindAppendAt(records, [record], l, s);
      assert [record][1..] == [];
    }
    FindSound(records, leaf, subleaf);
  }

  lemma {:induction false} FindAppendAt(records: seq<Record>, more: seq<Record>, l: int, s: int)
    ensures Find(records + more, l, s) == if Find(records, l, s).Some? then Find(records, l, s) else Find(more, l, s)
    ensures (forall r :: r in more ==> r.leaf != l) ==> Find(more, l, s) == None
    ensures (forall r :: r in records ==> r.leaf != l || r.subleaf != s) ==> Find(records, l, s) == None
  {
    FindSound(more, l, s);
    FindSound(records, l, s);
    if records == [] {
      assert records + more == more;
    } else {
      assert (records + more)[1..] == records[1..] + more;
      FindAppendAt(records[1..], more, l, s);
    }
  }

  /** The subleaves from `first` up to `end` that the mask selects, on the leaf recorded last. */
  method QuerySubleaves(source: Source, records: seq<Record>, leaf: u32, first: u32, end: int, masks: Option<(Mask, Mask)>)
    returns (result: seq<Record>)
    requires 0 < first <= end < 0x1_0000_0000 && Sorted(records) && Answers(source, records)
    requires After(records, leaf, first)
    ensures records <= result && |result| <= |records| + end - first
    ensures Sorted(result) && Answers(source, result)
    ensures After(result, leaf, end)
    ensures Keys(result) == Keys(records) + SubleafKeys(leaf, first, end, masks)
    ensures forall l: int, s: int :: l != leaf || s < first ==> Find(result, l, s) == Find(records, l, s)
  {
    ghost var more: seq<Record> := [];
    result := records;
    var subleaf: int := first;
    while subleaf < end
      invariant first <= subleaf <= end
      invariant result == records + more && |more| <= subleaf - first
      invariant Sorted(result) && Answers(source, result)
      invariant After(result, leaf, subleaf)
      invariant forall r :: r in more ==> r.leaf == leaf && first <= r.subleaf
      invariant Keys(result) == Keys(records) + SubleafKeys(leaf, first, subleaf, masks)
    {
      if Selected(masks, subleaf) {
        var record := Record(leaf, subleaf, source(|result|, leaf, subleaf));
        SortedAppend(result, [record]);
        ghost var before := result;
        result := result + [record];
        more := more + [record];
        assert Keys(result) == Keys(before) + {(leaf, subleaf)};
      }
      assert SubleafKeys(leaf, first, subleaf + 1, masks)
        == SubleafKeys(leaf, first, subleaf, masks) + if Selected(masks, subleaf) then {(leaf, subleaf)} else {};
      subleaf := subleaf + 1;
    }
    forall l: int, s: int | l != leaf || s < first ensures Find(result, l, s) == Find(records, l, s) {
      FindAppendAt(records, more, l, s);
      FindSound(more, l, s);
    }
  }

  predicate Selected(masks: Option<(Mask, Mask)>, subleaf: nat) {
    masks == None || MaskBit(masks.value.0, subleaf) || MaskBit(masks.value.1, subleaf)
  }

  function SubleafKeys(leaf: int, first: int, end: int, masks: Option<(Mask, Mask)>): set<(int, int)> {
    set s: int | first <= s < end && 0 <= s && Selected(masks, s) :: (leaf, s)
  }

  // ---------------------------------------------------------------- the policy

  predicate HasBits(records: seq<Record>, bit: nat) {
    Find(records, SIGNATURE_LEAF, 0).Some? && Bit(Find(records, SIGNATURE_LEAF, 0).value.answer.ecx, bit)
  }

  function EaxOf(records: seq<Record>, leaf: int): u32 {
    if Find(records, leaf, 0).Some? then Find(records, leaf, 0).value.answer.eax else 0
  }

  /** The supported-state masks as their two records answer them: XCR0 in EAX and EDX, IA32_XSS in ECX and EDX. */
  function MasksOf(records: seq<Record>): Option<(Mask, Mask)> {
    match (Find(records, XSTATE_LEAF, 0), Find(records, XSTATE_LEAF, 1))
    case (Some(x), Some(s)) => Some((Mask(x.answer.eax, x.answer.edx), Mask(s.answer.ecx, s.answer.edx)))
    case _ => None
  }

  /** The leaves before the extended state: what is queried follows from what earlier leaves answered. */
  function FeatureKeys(p: Fingerprint): set<(int, int)> {
    {(VENDOR_LEAF, 0)}
    + (if p.maximumBasicLeaf >= SIGNATURE_LEAF then {(SIGNATURE_LEAF, 0)} else {})
    + (if p.maximumBasicLeaf >= FEATURES_LEAF then
         {(FEATURES_LEAF, 0)} + SubleafKeys(FEATURES_LEAF, 1, Min(EaxOf(p.records, FEATURES_LEAF),
           MAX_FEATURES_SUBLEAF) + 1, None)
       else {})
  }

  function StateKeys(p: Fingerprint): set<(int, int)> {
    if p.xcr0Supported.Some? && p.xssSupported.Some? then
      {(XSTATE_LEAF, 0), (XSTATE_LEAF, 1)}
      + SubleafKeys(XSTATE_LEAF, 2, 64, Some((p.xcr0Supported.value, p.xssSupported.value)))
    else {}
  }

  // ---------------------------------------------------------------- the whole query

  /** Nothing changes below `leaf`. */
  ghost predicate KeepsBelow(records: seq<Record>, result: seq<Record>, leaf: int) {
    forall l: int, s: int :: l < leaf ==> Find(result, l, s) == Find(records, l, s)
  }

  lemma KeepsAnswers(records: seq<Record>, result: seq<Record>, leaf: int)
    requires KeepsBelow(records, result, leaf) && leaf > FEATURES_LEAF
    ensures EaxOf(result, VENDOR_LEAF) == EaxOf(records, VENDOR_LEAF)
    ensures EaxOf(result, FEATURES_LEAF) == EaxOf(records, FEATURES_LEAF)
    ensures forall bit: nat :: HasBits(result, bit) == HasBits(records, bit)
    ensures leaf > HYPERVISOR_LEAF ==> EaxOf(result, HYPERVISOR_LEAF) == EaxOf(records, HYPERVISOR_LEAF)
    ensures leaf > XSTATE_LEAF ==> MasksOf(result) == MasksOf(records)
  {
    hide Find, Bit;
  }

  /** The structured feature leaf and its subleaves, at most 128 of them. */
  method QueryStructured(source: Source, records: seq<Record>) returns (result: seq<Record>)
    requires Sorted(records) && After(records, FEATURES_LEAF, 0) && Answers(source, records)
    ensures Sorted(result) && After(result, XSTATE_LEAF, 0) && Answers(source, result)
    ensures |result| <= |records| + 129 && KeepsBelow(records, result, FEATURES_LEAF)
    ensures Keys(result) == Keys(records) + {(FEATURES_LEAF, 0)}
      + SubleafKeys(FEATURES_LEAF, 1, Min(EaxOf(result, FEATURES_LEAF), MAX_FEATURES_SUBLEAF) + 1, None)
  {
    hide Bit, Find, Before, SubleafKeys, Sorted, Answers;
    var features;
    result, features := Query(source, records, FEATURES_LEAF, 0);
    result := QuerySubleaves(source, result, FEATURES_LEAF, 1, Min(features.eax, MAX_FEATURES_SUBLEAF) + 1, None);
  }

  /** The extended state leaf: its first two subleaves give the masks that select the others. */
  method QueryState(source: Source, records: seq<Record>) returns (result: seq<Record>, xcr0: Mask, xss: Mask)
    requires Sorted(records) && After(records, XSTATE_LEAF, 0) && Answers(source, records)
    ensures Sorted(result) && After(result, HYPERVISOR_LEAF, 0) && Answers(source, result)
    ensures |result| <= |records| + 64 && KeepsBelow(records, result, XSTATE_LEAF)
    ensures Keys(result) == Keys(records) + ({(XSTATE_LEAF, 0), (XSTATE_LEAF, 1)}
      + SubleafKeys(XSTATE_LEAF, 2, 64, Some((xcr0, xss))))
    ensures MasksOf(result) == Some((xcr0, xss))
  {
    hide Bit, Find, Before, SubleafKeys, Sorted, Answers;
    var state;
    result, state := Query(source, records, XSTATE_LEAF, 0);
    xcr0 := Mask(state.eax, state.edx);
    result, state := Query(source, result, XSTATE_LEAF, 1);
    xss := Mask(state.ecx, state.edx);
    result := QuerySubleaves(source, result, XSTATE_LEAF, 2, 64, Some((xcr0, xss)));
  }

  lemma AfterLater(records: seq<Record>, leaf: int, later: int)
    requires After(records, leaf, 0) && leaf <= later
    ensures After(records, later, 0)
  {
  }

  /** The basic leaves: the extended state only under XSAVE, and the enabled state read once and only under OSXSAVE. */
  method QueryBasic(source: Source, xgetbv: StateSource) returns (p: Fingerprint)
    ensures Sorted(p.records) && After(p.records, HYPERVISOR_LEAF, 0) && Answers(source, p.records)
    ensures |p.records| <= 195 && Keys(p.records) == FeatureKeys(p) + StateKeys(p)
    ensures p.maximumBasicLeaf == EaxOf(p.records, VENDOR_LEAF) && p.hypervisorPresent == HasBits(p.records, 31)
    ensures p.xcr0Supported.Some? == p.xssSupported.Some? == (p.maximumBasicLeaf >= XSTATE_LEAF && HasBits(p.records, 26))
    ensures p.stateReads == (if p.xcr0Supported.Some? && HasBits(p.records, 27) then [0] else [])
    ensures p.xcr0 == if p.stateReads == [0] then Some(xgetbv(0, 0)) else None
    ensures p.xcr0Supported.Some? ==> MasksOf(p.records) == Some((p.xcr0Supported.value, p.xssSupported.value))
  {
    hide Bit, Find, Before, SubleafKeys, Sorted, Answers, After, KeepsBelow, Keys, MasksOf;
    var records, signature;
    records, p, signature := QuerySignature(source);
    if p.maximumBasicLeaf >= FEATURES_LEAF {
      ghost var before := records;
      AfterLater(records, 2, FEATURES_LEAF);
      records := QueryStructured(source, records);
      SignatureKept(before, records);
    } else {
      AfterLater(records, 2, XSTATE_LEAF);
    }
    ghost var features := records;
    if p.maximumBasicLeaf >= XSTATE_LEAF && Bit(signature, 26) {
      var xcr0, xss;
      records, xcr0, xss := QueryState(source, records);
      KeepsAnswers(features, records, XSTATE_LEAF);
      p := p.(xcr0Supported := Some(xcr0), xssSupported := Some(xss));
      if Bit(signature, 27) {
        var enabled, log := ReadState(xgetbv, p.stateReads, 0);
        p := p.(xcr0 := Some(enabled), stateReads := log);
      }
    } else {
      AfterLater(records, XSTATE_LEAF, HYPERVISOR_LEAF);
    }
    p := p.(records := records);
  }

  lemma SignatureKept(records: seq<Record>, result: seq<Record>)
    requires KeepsBelow(records, result, FEATURES_LEAF)
    ensures EaxOf(result, VENDOR_LEAF) == EaxOf(records, VENDOR_LEAF)
    ensures forall bit: nat :: HasBits(result, bit) == HasBits(records, bit)
  {
    hide Find, Bit;
  }

  /** The vendor leaf and, when there is one, the signature leaf. Without it every signature bit is clear. */
  method QuerySignature(source: Source) returns (records: seq<Record>, p: Fingerprint, signature: u32)
    ensures Sorted(records) && After(records, 2, 0) && Answers(source, records) && |records| <= 2
    ensures p == Fingerprint(EaxOf(records, VENDOR_LEAF), 0, HasBits(records, 31), None, None, None, [], [])
    ensures Keys(records) == {(VENDOR_LEAF, 0)} + if p.maximumBasicLeaf >= SIGNATURE_LEAF then {(SIGNATURE_LEAF, 0)} else {}
    ensures forall bit: nat :: HasBits(records, bit) == Bit(signature, bit)
  {
    hide Find, Before, Sorted, Answers, Bit;
    EmptyRecords(source);
    var vendor, answer;
    records, vendor := Query(source, [], VENDOR_LEAF, 0);
    p := Fingerprint(vendor.eax, 0, false, None, None, None, [], []);
    signature := 0;
    forall bit: nat ensures !Bit(0, bit) { ZeroBit(bit); }
    if p.maximumBasicLeaf >= SIGNATURE_LEAF {
      records, answer := Query(source, records, SIGNATURE_LEAF, 0);
      signature := answer.ecx;
      p := p.(hypervisorPresent := Bit(signature, 31));
    }
  }

  lemma ZeroBit(bit: nat)
    ensures !Bit(0, bit)
  {
    assert 0 / Pow2(bit) == 0;
  }

  lemma EmptyRecords(source: Source)
    ensures Sorted([]) && Answers(source, []) && forall l: int, s: int :: Find([], l, s) == None
  {
  }

  /** The hypervisor leaf and, when it is announced, the interface leaf. */
  method QueryHypervisor(source: Source, records: seq<Record>) returns (result: seq<Record>)
    requires Sorted(records) && After(records, HYPERVISOR_LEAF, 0) && Answers(source, records)
    ensures Sorted(result) && After(result, EXTENDED_LIMIT_LEAF, 0) && Answers(source, result)
    ensures |result| <= |records| + 2 && KeepsBelow(records, result, HYPERVISOR_LEAF)
    ensures Keys(result) == Keys(records)
      + ({(HYPERVISOR_LEAF, 0)} + if EaxOf(result, HYPERVISOR_LEAF) >= HYPERVISOR_INTERFACE
        then {(HYPERVISOR_INTERFACE, 0)} else {})
  {
    hide Find, Before, Sorted, Answers;
    var answer, interface;
    result, answer := Query(source, records, HYPERVISOR_LEAF, 0);
    if answer.eax >= HYPERVISOR_INTERFACE {
      result, interface := Query(source, result, HYPERVISOR_INTERFACE, 0);
    }
  }

  function ExtendedKeys(maximum: u32): set<(int, int)> {
    {(EXTENDED_LIMIT_LEAF, 0)}
    + (if maximum >= EXTENDED_FEATURES_LEAF then {(EXTENDED_FEATURES_LEAF, 0)} else {})
    + (if maximum >= BRAND_LAST_LEAF then
         {(BRAND_FIRST_LEAF, 0), (BRAND_FIRST_LEAF + 1, 0), (BRAND_LAST_LEAF, 0)} else {})
    + (if maximum >= ADDRESS_WIDTH_LEAF then {(ADDRESS_WIDTH_LEAF, 0)} else {})
  }

  /** The extended leaves, up to the limit that the first of them answers. */
  method QueryExtended(source: Source, records: seq<Record>) returns (result: seq<Record>, maximum: u32)
    requires Sorted(records) && After(records, EXTENDED_LIMIT_LEAF, 0) && Answers(source, records)
    ensures Sorted(result) && Answers(source, result)
    ensures |result| <= |records| + 6 && KeepsBelow(records, result, EXTENDED_LIMIT_LEAF)
    ensures maximum == EaxOf(result, EXTENDED_LIMIT_LEAF)
    ensures Keys(result) == Keys(records) + ExtendedKeys(maximum)
  {
    hide Find, Before, Sorted, Answers, After, Keys;
    var answer;
    result, answer := Query(source, records, EXTENDED_LIMIT_LEAF, 0);
    maximum := answer.eax;
    if maximum >= EXTENDED_FEATURES_LEAF {
      AfterLater(result, EXTENDED_LIMIT_LEAF + 1, EXTENDED_FEATURES_LEAF);
      result, answer := Query(source, result, EXTENDED_FEATURES_LEAF, 0);
    }
    if maximum >= BRAND_LAST_LEAF {
      AfterLater(result, EXTENDED_FEATURES_LEAF + 1, BRAND_FIRST_LEAF);
      result := QueryBrand(source, result);
    }
    if maximum >= ADDRESS_WIDTH_LEAF {
      AfterLater(result, BRAND_LAST_LEAF + 1, ADDRESS_WIDTH_LEAF);
      result, answer := Query(source, result, ADDRESS_WIDTH_LEAF, 0);
    }
  }

  method QueryBrand(source: Source, records: seq<Record>) returns (result: seq<Record>)
    requires Sorted(records) && After(records, BRAND_FIRST_LEAF, 0) && Answers(source, records)
    ensures Sorted(result) && After(result, BRAND_LAST_LEAF + 1, 0) && Answers(source, result)
    ensures |result| == |records| + 3 && KeepsBelow(records, result, BRAND_FIRST_LEAF)
    ensures Keys(result) == Keys(records) + {(BRAND_FIRST_LEAF, 0), (BRAND_FIRST_LEAF + 1, 0), (BRAND_LAST_LEAF, 0)}
  {
    hide Find, Before, Sorted, Answers, After;
    result := records;
    var leaf: int := BRAND_FIRST_LEAF;
    while leaf <= BRAND_LAST_LEAF
      invariant BRAND_FIRST_LEAF <= leaf <= BRAND_LAST_LEAF + 1
      invariant Sorted(result) && After(result, leaf, 0) && Answers(source, result)
      invariant |result| == |records| + (leaf - BRAND_FIRST_LEAF) && KeepsBelow(records, result, BRAND_FIRST_LEAF)
      invariant Keys(result) == Keys(records) + set l: int | BRAND_FIRST_LEAF <= l < leaf :: (l, 0)
    {
      ghost var before := Keys(result);
      var answer;
      result, answer := Query(source, result, leaf, 0);
      assert (set l: int | BRAND_FIRST_LEAF <= l < leaf + 1 :: (l, 0))
        == (set l: int | BRAND_FIRST_LEAF <= l < leaf :: (l, 0)) + {(leaf, 0)};
      leaf := leaf + 1;
    }
  }

  /** Every key that the policy asks for, in terms of what the fingerprint itself records. */
  function PolicyKeys(p: Fingerprint): set<(int, int)> {
    FeatureKeys(p) + StateKeys(p)
    + (if p.hypervisorPresent then
         {(HYPERVISOR_LEAF, 0)} + if EaxOf(p.records, HYPERVISOR_LEAF) >= HYPERVISOR_INTERFACE
           then {(HYPERVISOR_INTERFACE, 0)} else {}
       else {})
    + ExtendedKeys(p.maximumExtendedLeaf)
  }

  /** The leaf limits, the hypervisor bit and the state masks of a fingerprint are those its own records answer. */
  ghost predicate Consistent(p: Fingerprint, enabled: Mask) {
    && p.maximumBasicLeaf == EaxOf(p.records, VENDOR_LEAF)
    && p.maximumExtendedLeaf == EaxOf(p.records, EXTENDED_LIMIT_LEAF)
    && p.hypervisorPresent == HasBits(p.records, 31)
    && p.xcr0Supported.Some? == p.xssSupported.Some? == (p.maximumBasicLeaf >= XSTATE_LEAF && HasBits(p.records, 26))
    && (p.xcr0Supported.Some? ==> MasksOf(p.records) == Some((p.xcr0Supported.value, p.xssSupported.value)))
    && p.stateReads == (if p.xcr0Supported.Some? && HasBits(p.records, 27) then [0] else [])
    && p.xcr0 == (if p.stateReads == [0] then Some(enabled) else None)
  }

  /**
   * The whole enumeration, for any source: the records are strictly increasing, bounded, hold exactly the keys that the
   * policy asks for, and the enabled state is read at most once, only under XSAVE and OSXSAVE.
   */
  method QueryFingerprint(source: Source, xgetbv: StateSource) returns (p: Fingerprint)
    ensures Sorted(p.records) && Answers(source, p.records) && |p.records| <= 203
    ensures Keys(p.records) == PolicyKeys(p)
    ensures Consistent(p, xgetbv(0, 0))
  {
    hide Find, Before, Sorted, Answers, After, SubleafKeys, Bit, KeepsBelow, Keys, ExtendedKeys, HasBits, EaxOf, MasksOf;
    p := QueryBasic(source, xgetbv);
    var records, maximum := p.records, 0;
    if p.hypervisorPresent {
      records := QueryHypervisor(source, records);
      KeepsAnswers(p.records, records, HYPERVISOR_LEAF);
    } else {
      AfterLater(records, HYPERVISOR_LEAF, EXTENDED_LIMIT_LEAF);
    }
    ghost var before := records;
    records, maximum := QueryExtended(source, records);
    KeepsAnswers(before, records, EXTENDED_LIMIT_LEAF);
    p := p.(records := records, maximumExtendedLeaf := maximum);
  }

  // ---------------------------------------------------------------- features

  datatype RegisterName = EAX | EBX | ECX | EDX

  datatype Feature = Feature(leaf: u32, subleaf: u32, reg: RegisterName, bit: nat, name: string)

  function ValueOf(answer: Answer, reg: RegisterName): u32 {
    match reg
    case EAX => answer.eax
    case EBX => answer.ebx
    case ECX => answer.ecx
    case EDX => answer.edx
  }

  /** The feature's leaf was queried and its bit is set in the answer. */
  ghost predicate Advertised(records: seq<Record>, feature: Feature) {
    var key := (feature.leaf as int, feature.subleaf as int);
    key in Table(records) && Bit(ValueOf(Table(records)[key], feature.reg), feature.bit)
  }

  /** The names of the advertised features, in the order of the table. */
  ghost function AdvertisedNames(records: seq<Record>, table: seq<Feature>): seq<string> {
    if table == [] then []
    else
      AdvertisedNames(records, table[..|table| - 1])
      + if Advertised(records, table[|table| - 1]) then [table[|table| - 1].name] else []
  }

  method DecodeFeatures(records: seq<Record>, table: seq<Feature>) returns (names: seq<string>)
    requires Sorted(records)
    ensures forall name :: name in names <==>
      exists k :: 0 <= k < |table| && table[k].name == name && Advertised(records, table[k])
    ensures names == AdvertisedNames(records, table) && |names| <= |table|
  {
    hide Advertised, Find, Bit, Table;
    names := [];
    for i := 0 to |table|
      invariant |names| <= i && names == AdvertisedNames(records, table[..i])
      invariant forall name :: name in names <==>
        exists k :: 0 <= k < i && table[k].name == name && Advertised(records, table[k])
    {
      var record := Find(records, table[i].leaf, table[i].subleaf);
      assert table[..i + 1][..i] == table[..i];
      AdvertisedIff(records, table[i]);
      if record.Some? && Bit(ValueOf(record.value.answer, table[i].reg), table[i].bit) {
        names := names + [table[i].name];
      }
    }
    assert table[..|table|] == table;
  }

  lemma AdvertisedIff(records: seq<Record>, feature: Feature)
    requires Sorted(records)
    ensures var record := Find(records, feature.leaf, feature.subleaf);
      Advertised(records, feature) <==> record.Some? && Bit(ValueOf(record.value.answer, feature.reg), feature.bit)
  {
    FindIsMapLookup(records, feature.leaf, feature.subleaf);
  }

  // ---------------------------------------------------------------- enabled state components

  datatype Component = Component(bit: nat, name: string)

  /** The names of the components with their bit set in both masks, in the order of the table. */
  function EnabledNames(supported: Mask, enabled: Mask, table: seq<Component>): seq<string> {
    if table == [] then []
    else
      var last := table[|table| - 1];
      EnabledNames(supported, enabled, table[..|table| - 1])
      + if MaskBit(supported, last.bit) && MaskBit(enabled, last.bit) then [last.name] else []
  }

  /**
   * A component is listed exactly if its bit is set both in the supported and in the enabled mask; nothing is listed when
   * either mask was not read.
   */
  method DecodeEnabledState(p: Fingerprint, table: seq<Component>) returns (names: seq<string>)
    ensures p.xcr0Supported == None || p.xcr0 == None ==> names == []
    ensures p.xcr0Supported.Some? && p.xcr0.Some? ==> names == EnabledNames(p.xcr0Supported.value, p.xcr0.value, table)
    ensures p.xcr0Supported.Some? && p.xcr0.Some? ==>
      forall name :: name in names <==>
        exists k :: 0 <= k < |table| && table[k].name == name && MaskBit(p.xcr0Supported.value, table[k].bit)
          && MaskBit(p.xcr0.value, table[k].bit)
  {
    hide MaskBit;
    names := [];
    if p.xcr0Supported == None || p.xcr0 == None {
      return;
    }
    for i := 0 to |table|
      invariant names == EnabledNames(p.xcr0Supported.value, p.xcr0.value, table[..i])
      invariant forall name :: name in names <==>
        exists k :: 0 <= k < i && table[k].name == name && MaskBit(p.xcr0Supported.value, table[k].bit)
          && MaskBit(p.xcr0.value, table[k].bit)
    {
      assert table[..i + 1][..i] == table[..i];
      if MaskBit(p.xcr0Supported.value, table[i].bit) && MaskBit(p.xcr0.value, table[i].bit) {
        names := names + [table[i].name];
      }
    }
    assert table[..|table|] == table;
  }

  // ---------------------------------------------------------------- leaves, registers and bits, written out

  lemma Pow2Literals()
    ensures Pow2(0) == 1 && Pow2(1) == 2 && Pow2(2) == 4 && Pow2(3) == 8
    ensures Pow2(26) == 0x400_0000 && Pow2(27) == 0x800_0000 && Pow2(31) == 0x8000_0000
  {
    assert Pow2(4) == 16 && Pow2(8) == 0x100;
    assert Pow2(12) == 0x1000 && Pow2(16) == 0x1_0000;
    assert Pow2(20) == 0x10_0000 && Pow2(24) == 0x100_0000;
    assert Pow2(28) == 0x1000_0000;
  }

  /** Bit `n` is the binary digit of weight two to the n: a number is what lies above it, the digit, and what lies below. */
  lemma BitIsDigit(x: u32, n: nat)
    ensures x == x / (2 * Pow2(n)) * (2 * Pow2(n)) + (if Bit(x, n) then Pow2(n) else 0) + x % Pow2(n)
  {
    hide Pow2;
    var p := Pow2(n);
    Halve(x, p, x / p, x % p);
    DigitTimes(x / p % 2, p);
  }

  lemma DigitTimes(b: nat, p: nat)
    requires b < 2
    ensures b * p == if b == 1 then p else 0
  {
  }

  lemma Halve(x: nat, p: nat, q: nat, r: nat)
    requires p > 0 && x == p * q + r && r < p
    ensures x / (2 * p) == q / 2 && x == q / 2 * (2 * p) + q % 2 * p + r
  {
    var h, b := q / 2, q % 2;
    DigitTimes(b, p);
    Spread(p, h, b);
    Hex.ModUnique(x, 2 * p, h, b * p + r);
  }

  lemma Spread(p: nat, h: nat, b: nat)
    ensures p * (2 * h + b) == (2 * p) * h + b * p && (2 * p) * h == h * (2 * p)
  {
    assert p * (2 * h + b) == p * (2 * h) + p * b;
    assert p * (2 * h) == (2 * p) * h;
  }

  /** The bit of a feature is taken from the register that its table entry names. */
  lemma AdvertisedByRegister(records: seq<Record>, feature: Feature)
    requires Sorted(records)
    ensures var found := Find(records, feature.leaf, feature.subleaf);
      && (found == None ==> !Advertised(records, feature))
      && (found.Some? && feature.reg == EAX ==> (Advertised(records, feature) <==> Bit(found.value.answer.eax, feature.bit)))
      && (found.Some? && feature.reg == EBX ==> (Advertised(records, feature) <==> Bit(found.value.answer.ebx, feature.bit)))
      && (found.Some? && feature.reg == ECX ==> (Advertised(records, feature) <==> Bit(found.value.answer.ecx, feature.bit)))
      && (found.Some? && feature.reg == EDX ==> (Advertised(records, feature) <==> Bit(found.value.answer.edx, feature.bit)))
  {
    hide Advertised, Bit, Find;
    AdvertisedIff(records, feature);
  }

  /** The answer recorded for a key. */
  function Recorded(records: seq<Record>, leaf: int, subleaf: int): Answer
    requires Find(records, leaf, subleaf).Some?
  {
    Find(records, leaf, subleaf).value.answer
  }

  /** A signature bit is a bit of ECX of leaf 1. */
  predicate SignatureBit(records: seq<Record>, n: nat) {
    Find(records, 1, 0).Some? && Bit(Recorded(records, 1, 0).ecx, n)
  }

  /** The largest basic leaf is EAX of leaf 0. */
  predicate BasicLeaves(records: seq<Record>, limit: int) {
    Find(records, 0, 0).Some? && Recorded(records, 0, 0).eax >= limit
  }

  predicate ExtendedLeaves(records: seq<Record>, limit: int) {
    Find(records, 0x8000_0000, 0).Some? && Recorded(records, 0x8000_0000, 0).eax >= limit
  }

  /** A state component is supported in XCR0 (leaf 13, subleaf 0: EAX and EDX) or in IA32_XSS (subleaf 1: ECX and EDX). */
  predicate SupportedComponent(records: seq<Record>, n: nat) {
    && Find(records, 13, 0).Some? && Find(records, 13, 1).Some?
    && if n < 32 then Bit(Recorded(records, 13, 0).eax, n) || Bit(Recorded(records, 13, 1).ecx, n)
       else Bit(Recorded(records, 13, 0).edx, n - 32) || Bit(Recorded(records, 13, 1).edx, n - 32)
  }

  predicate AskedFeature(records: seq<Record>, leaf: int, subleaf: int) {
    || (leaf == 0 && subleaf == 0)
    || (leaf == 1 && subleaf == 0 && BasicLeaves(records, 1))
    || (leaf == 7 && subleaf == 0 && BasicLeaves(records, 7))
    || (leaf == 7 && 1 <= subleaf <= 128 && BasicLeaves(records, 7)
        && Find(records, 7, 0).Some? && subleaf <= Recorded(records, 7, 0).eax)
  }

  predicate AskedState(records: seq<Record>, leaf: int, subleaf: int) {
    && leaf == 13 && 0 <= subleaf < 64 && BasicLeaves(records, 13) && SignatureBit(records, 26)
    && (subleaf >= 2 ==> SupportedComponent(records, subleaf))
  }

  predicate AskedHypervisor(records: seq<Record>, leaf: int, subleaf: int) {
    && subleaf == 0 && SignatureBit(records, 31)
    && (leaf == 0x4000_0000
        || (leaf == 0x4000_0001 && Find(records, 0x4000_0000, 0).Some? && Recorded(records, 0x4000_0000, 0).eax >= leaf))
  }

  predicate AskedExtended(records: seq<Record>, leaf: int, subleaf: int) {
    && subleaf == 0
    && (leaf == 0x8000_0000
        || (leaf == 0x8000_0001 && ExtendedLeaves(records, 0x8000_0001))
        || (0x8000_0002 <= leaf <= 0x8000_0004 && ExtendedLeaves(records, 0x8000_0004))
        || (leaf == 0x8000_0008 && ExtendedLeaves(records, 0x8000_0008)))
  }

  /** The keys that are asked for, by number, in terms of the answers alone. */
  predicate Asked(records: seq<Record>, leaf: int, subleaf: int) {
    || AskedFeature(records, leaf, subleaf)
    || AskedState(records, leaf, subleaf)
    || AskedHypervisor(records, leaf, subleaf)
    || AskedExtended(records, leaf, subleaf)
  }

  lemma AskedFeatures(p: Fingerprint, enabled: Mask, leaf: int, subleaf: int)
    requires Consistent(p, enabled)
    ensures (leaf, subleaf) in FeatureKeys(p) <==> AskedFeature(p.records, leaf, subleaf)
  {
    hide Bit, Find, MasksOf, HasBits;
  }

  lemma AskedStates(p: Fingerprint, enabled: Mask, leaf: int, subleaf: int)
    requires Consistent(p, enabled)
    ensures (leaf, subleaf) in StateKeys(p) <==> AskedState(p.records, leaf, subleaf)
  {
    hide Bit, Find;
  }

  lemma AskedExtension(p: Fingerprint, enabled: Mask, leaf: int, subleaf: int)
    requires Consistent(p, enabled)
    ensures (leaf, subleaf) in ExtendedKeys(p.maximumExtendedLeaf) <==> AskedExtended(p.records, leaf, subleaf)
  {
    hide Bit, Find, MasksOf, HasBits;
  }

  /** A consistent fingerprint holds exactly the keys that its own answers ask for. */
  lemma KeysAreAsked(p: Fingerprint, enabled: Mask, leaf: int, subleaf: int)
    requires Consistent(p, enabled) && Keys(p.records) == PolicyKeys(p)
    ensures (leaf, subleaf) in Keys(p.records) <==> Asked(p.records, leaf, subleaf)
  {
    hide Keys, Bit, Find, MasksOf, FeatureKeys, StateKeys, ExtendedKeys, AskedFeature, AskedState, AskedExtended;
    AskedFeatures(p, enabled, leaf, subleaf);
    AskedStates(p, enabled, leaf, subleaf);
    AskedExtension(p, enabled, leaf, subleaf);
  }

  // ---------------------------------------------------------------- the fingerprint with its lists

  /** The processor has the state leaf, XSAVE and OSXSAVE. */
  predicate UsesState(records: seq<Record>) {
    BasicLeaves(records, 13) && SignatureBit(records, 26) && SignatureBit(records, 27)
  }

  lemma StateIsUsed(p: Fingerprint, enabled: Mask)
    requires Consistent(p, enabled)
    ensures UsesState(p.records) <==> p.xcr0Supported.Some? && p.xcr0.Some?
    ensures UsesState(p.records) ==>
      && MasksOf(p.records).Some? && p.xcr0Supported == Some(MasksOf(p.records).value.0) && p.xcr0 == Some(enabled)
  {
    hide Find, Bit;
  }

  /**
   * The whole query. The lists follow from the records and from one read of the enabled mask: features by their queried
   * bit, and state components by both masks where the processor has XSAVE and OSXSAVE, and none where it has not.
   */
  method ReadFingerprint(source: Source, xgetbv: StateSource, features: seq<Feature>, components: seq<Component>)
    returns (p: Fingerprint, featureNames: seq<string>, componentNames: seq<string>)
    ensures Sorted(p.records) && Answers(source, p.records) && |p.records| <= 203
    ensures forall leaf: int, subleaf: int :: (leaf, subleaf) in Keys(p.records) <==> Asked(p.records, leaf, subleaf)
    ensures featureNames == AdvertisedNames(p.records, features)
    ensures UsesState(p.records) ==>
      MasksOf(p.records).Some? && componentNames == EnabledNames(MasksOf(p.records).value.0, xgetbv(0, 0), components)
    ensures !UsesState(p.records) ==> componentNames == []
  {
    hide Sorted, Answers, Keys, PolicyKeys, Consistent, MasksOf, EnabledNames, AdvertisedNames, MaskBit, Advertised, Asked,
      UsesState;
    p := QueryFingerprint(source, xgetbv);
    forall leaf: int, subleaf: int ensures (leaf, subleaf) in Keys(p.records) <==> Asked(p.records, leaf, subleaf) {
      KeysAreAsked(p, xgetbv(0, 0), leaf, subleaf);
    }
    StateIsUsed(p, xgetbv(0, 0));
    featureNames := DecodeFeatures(p.records, features);
    componentNames := DecodeEnabledState(p, components);
  }
}
