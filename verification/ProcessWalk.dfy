/**
 * The two loops that look for the parent process on Windows: the query buffer that grows until the system's answer fits,
 * and the walk over the variable-size process records in it. The system's answers, and every byte of the buffer, are
 * arbitrary.
 */
module ProcessWalk {
  import opened Common

  const QUERY_INITIAL_BYTES: nat := 0x1_0000
  const QUERY_MAX_BYTES: nat := 0x400_0000

  // ---------------------------------------------------------------- query buffer

  /** Both "the buffer is too short" statuses are one case. The length is what the system reports it needs or has written. */
  datatype Answer = Fits(length: u32) | TooShort(length: u32) | Failed

  /** The system's answer, by number of the query and size of the buffer. */
  type Query = (nat, nat) -> Answer

  datatype Buffer = Buffer(size: nat, length: nat)

  /** The size the program tries after a buffer of this size was too short. */
  function NextSize(size: nat, reported: u32): (next: Option<nat>)
    requires QUERY_INITIAL_BYTES <= size <= QUERY_MAX_BYTES
    ensures next.Some? ==> size < next.value <= QUERY_MAX_BYTES && reported <= next.value
  {
    var next :=
      if reported > size then reported
      else if size <= QUERY_MAX_BYTES / 2 then size * 2
      else QUERY_MAX_BYTES;
    if next <= size || next > QUERY_MAX_BYTES then None else Some(next)
  }

  /** The program gives up on growing only at the limit, or when the system asks for more than the limit. */
  lemma GrowsIff(size: nat, reported: u32)
    requires QUERY_INITIAL_BYTES <= size <= QUERY_MAX_BYTES
    ensures NextSize(size, reported).Some? <==> size < QUERY_MAX_BYTES && reported <= QUERY_MAX_BYTES
  {
    assert QUERY_MAX_BYTES / 2 * 2 == QUERY_MAX_BYTES;
  }

  /** The next size is what the system asks for, if that is more, and else the double, but not beyond 64 MiB. */
  lemma NextSizes(size: nat, reported: u32)
    requires 0x1_0000 <= size < 0x400_0000 && reported <= 0x400_0000
    ensures NextSize(size, reported) == Some(if reported > size then reported else Min(2 * size, 0x400_0000))
  {
  }

  /** At the limit, or asked for more than the limit, the buffer does not grow. */
  lemma LimitInstance()
    ensures NextSize(QUERY_MAX_BYTES, 0) == None && NextSize(QUERY_INITIAL_BYTES, 0x400_0001) == None
    ensures NextSize(QUERY_INITIAL_BYTES, 0) == Some(0x2_0000) && NextSize(QUERY_INITIAL_BYTES, 0x1_0001) == Some(0x1_0001)
  {
  }

  /** The buffer sizes tried from the given query on. */
  function Sizes(query: Query, n: nat, size: nat): (sizes: seq<nat>)
    requires QUERY_INITIAL_BYTES <= size <= QUERY_MAX_BYTES
    ensures sizes != [] && sizes[0] == size
    ensures forall i :: 0 <= i < |sizes| ==> size <= sizes[i] <= QUERY_MAX_BYTES
    decreases QUERY_MAX_BYTES - size
  {
    match query(n, size)
    case TooShort(reported) =>
      (match NextSize(size, reported)
       case Some(next) => [size] + Sizes(query, n + 1, next)
       case None => [size])
    case _ => [size]
  }

  /** The answer that is used: the last one, if it fits the buffer it was given. */
  function Used(query: Query, sizes: seq<nat>): Option<Buffer>
    requires sizes != []
  {
    var last := |sizes| - 1;
    match query(last, sizes[last])
    case Fits(length) => if length > sizes[last] then None else Some(Buffer(sizes[last], length))
    case _ => None
  }

  lemma {:induction false} SizesGrow(query: Query, n: nat, size: nat, i: nat, j: nat)
    requires QUERY_INITIAL_BYTES <= size <= QUERY_MAX_BYTES
    requires i < j < |Sizes(query, n, size)|
    ensures Sizes(query, n, size)[i] < Sizes(query, n, size)[j]
    decreases j
  {
    var next := Sizes(query, n, size)[1];
    assert Sizes(query, n, size)[1..] == Sizes(query, n + 1, next);
    if i > 0 {
      SizesGrow(query, n + 1, next, i - 1, j - 1);
    }
  }

  /** Every query but the last was answered "too short"; after the last the program has stopped asking. */
  lemma {:induction false} LastAnswer(query: Query, n: nat, size: nat)
    requires QUERY_INITIAL_BYTES <= size <= QUERY_MAX_BYTES
    ensures var sizes := Sizes(query, n, size);
            var last := |sizes| - 1;
            query(n + last, sizes[last]).TooShort? ==>
              sizes[last] == QUERY_MAX_BYTES || query(n + last, sizes[last]).length > QUERY_MAX_BYTES
    decreases QUERY_MAX_BYTES - size
  {
    if query(n, size).TooShort? {
      GrowsIff(size, query(n, size).length);
      var next := NextSize(size, query(n, size).length);
      if next.Some? {
        LastAnswer(query, n + 1, next.value);
        var rest := Sizes(query, n + 1, next.value);
        assert Sizes(query, n, size)[|rest|] == rest[|rest| - 1];
      }
    }
  }

  /** A system that has an answer of at most `need` bytes and says so truthfully. */
  ghost predicate Truthful(query: Query, need: nat) {
    forall n: nat, size: nat ::
      if size < need then query(n, size).TooShort? && query(n, size).length <= QUERY_MAX_BYTES
      else query(n, size).Fits? && query(n, size).length <= size
  }

  /** A truthful system with an answer within the limit is always heard, whatever hints it gave on the way. */
  lemma TruthfulAnswerIsUsed(query: Query, need: nat)
    requires Truthful(query, need) && need <= QUERY_MAX_BYTES
    ensures Used(query, Sizes(query, 0, QUERY_INITIAL_BYTES)).Some?
    ensures Used(query, Sizes(query, 0, QUERY_INITIAL_BYTES)).value.size >= need
  {
    LastAnswer(query, 0, QUERY_INITIAL_BYTES);
    var sizes := Sizes(query, 0, QUERY_INITIAL_BYTES);
    var last: nat := |sizes| - 1;
    assert query(0 + last, sizes[last]) == query(last, sizes[last]);
  }

  /** The last buffer tried, where the answer is not "too short" or the buffer cannot grow. */
  lemma SizesEnd(query: Query, n: nat, size: nat)
    requires QUERY_INITIAL_BYTES <= size <= QUERY_MAX_BYTES
    requires query(n, size).TooShort? ==> NextSize(size, query(n, size).length) == None
    ensures Sizes(query, n, size) == [size]
  {
  }

  lemma SizesStep(query: Query, n: nat, size: nat, tried: seq<nat>)
    requires QUERY_INITIAL_BYTES <= size <= QUERY_MAX_BYTES
    requires query(n, size).TooShort? && NextSize(size, query(n, size).length).Some?
    ensures tried + Sizes(query, n, size)
         == (tried + [size]) + Sizes(query, n + 1, NextSize(size, query(n, size).length).value)
  {
  }

  method QueryProcesses(query: Query) returns (buffer: Option<Buffer>, ghost tried: seq<nat>)
    ensures tried == Sizes(query, 0, QUERY_INITIAL_BYTES)
    ensures buffer == Used(query, tried)
    ensures buffer.Some? ==> buffer.value.length <= buffer.value.size <= QUERY_MAX_BYTES
  {
    hide Sizes;
    var size, n := QUERY_INITIAL_BYTES, 0;
    tried := [];
    while true
      invariant QUERY_INITIAL_BYTES <= size <= QUERY_MAX_BYTES
      invariant n == |tried|
      invariant tried + Sizes(query, n, size) == Sizes(query, 0, QUERY_INITIAL_BYTES)
      decreases QUERY_MAX_BYTES - size
    {
      var answer := query(n, size);
      if answer.TooShort? && NextSize(size, answer.length).Some? {
        SizesStep(query, n, size, tried);
      } else {
        SizesEnd(query, n, size);
      }
      tried := tried + [size];
      match answer {
        case Fits(length) =>
          if length > size {
            return None, tried;
          }
          return Some(Buffer(size, length)), tried;
        case Failed =>
          return None, tried;
        case TooShort(reported) =>
          var next := size;
          if reported > next {
            next := reported;
          } else if next <= QUERY_MAX_BYTES / 2 {
            next := next * 2;
          } else {
            next := QUERY_MAX_BYTES;
          }
          if next <= size || next > QUERY_MAX_BYTES {
            return None, tried;
          }
          size := next;
          n := n + 1;
      }
    }
  }

  // ---------------------------------------------------------------- process records

  // Layout of a process record for 64-bit processes.
  const PROCESS_ID_OFFSET: nat := 80
  const PARENT_ID_OFFSET: nat := 88
  const RECORD_MIN_BYTES: nat := 96

  function Read32(buffer: seq<u8>, offset: nat): u32
    requires offset + 4 <= |buffer|
  {
    var a: int, b: int, c: int, d: int := buffer[offset], buffer[offset + 1], buffer[offset + 2], buffer[offset + 3];
    a + 0x100 * b + 0x1_0000 * c + 0x100_0000 * d
  }

  /** A whole record header fits at the offset. */
  predicate Holds(buffer: seq<u8>, offset: nat) {
    offset + RECORD_MIN_BYTES <= |buffer|
  }

  /** The process number of a record: the low 32 bits of its 64-bit handle. */
  function ProcessId(buffer: seq<u8>, offset: nat): u32
    requires Holds(buffer, offset)
  {
    Read32(buffer, offset + PROCESS_ID_OFFSET)
  }

  function ParentId(buffer: seq<u8>, offset: nat): u32
    requires Holds(buffer, offset)
  {
    Read32(buffer, offset + PARENT_ID_OFFSET)
  }

  function Link(buffer: seq<u8>, offset: nat): u32
    requires Holds(buffer, offset)
  {
    Read32(buffer, offset)
  }

  /** Byte `i` of a 32-bit field is the digit with weight 256 to the i, least significant first. */
  lemma FieldBytes(buffer: seq<u8>, offset: nat)
    requires offset + 4 <= |buffer|
    ensures var value := Read32(buffer, offset);
      && value % 0x100 == buffer[offset] && value / 0x100 % 0x100 == buffer[offset + 1]
      && value / 0x1_0000 % 0x100 == buffer[offset + 2] && value / 0x100_0000 == buffer[offset + 3]
  {
    var a: int, b: int, c: int, d: int := buffer[offset], buffer[offset + 1], buffer[offset + 2], buffer[offset + 3];
    var value := a + 0x100 * b + 0x1_0000 * c + 0x100_0000 * d;
    assert value / 0x100 == b + 0x100 * c + 0x1_0000 * d;
    assert value / 0x1_0000 == c + 0x100 * d;
  }

  /** The fields of a record of a 64-bit system: link at 0, process at 80, its parent at 88, and 96 bytes at least. */
  lemma RecordFields(buffer: seq<u8>, offset: nat)
    ensures Holds(buffer, offset) <==> offset + 96 <= |buffer|
    ensures Holds(buffer, offset) ==>
      && Link(buffer, offset) == Read32(buffer, offset) && ProcessId(buffer, offset) == Read32(buffer, offset + 80)
      && ParentId(buffer, offset) == Read32(buffer, offset + 88)
  {
  }

  /** The record at `offset` links to one that starts behind its own header and inside the buffer. */
  predicate Linked(buffer: seq<u8>, offset: nat, next: nat) {
    Holds(buffer, offset) && next == offset + Link(buffer, offset)
    && offset + RECORD_MIN_BYTES <= next <= |buffer|
  }

  /** Record offsets from the start of the buffer, each linked to the next, all whole. */
  ghost predicate Chain(buffer: seq<u8>, offsets: seq<nat>) {
    offsets != [] && offsets[0] == 0
    && (forall i :: 0 <= i < |offsets| ==> Holds(buffer, offsets[i]))
    && (forall i, j :: 0 <= i && j == i + 1 && j < |offsets| ==> Linked(buffer, offsets[i], offsets[j]))
  }

  /** The chain ends in a record of the process, and no earlier record in it is of that process. */
  ghost predicate FirstInChain(buffer: seq<u8>, offsets: seq<nat>, target: u32) {
    Chain(buffer, offsets)
    && ProcessId(buffer, offsets[|offsets| - 1]) == target
    && forall i :: 0 <= i < |offsets| - 1 ==> ProcessId(buffer, offsets[i]) != target
  }

  /** Records do not overlap, so a chain is strictly increasing and no longer than the buffer allows. */
  lemma {:induction false} RecordsDoNotOverlap(buffer: seq<u8>, offsets: seq<nat>, i: nat, j: nat)
    requires Chain(buffer, offsets) && i < j < |offsets|
    ensures offsets[i] + RECORD_MIN_BYTES * (j - i) <= offsets[j]
    decreases j
  {
    assert Linked(buffer, offsets[j - 1], offsets[j]);
    if i < j - 1 {
      RecordsDoNotOverlap(buffer, offsets, i, j - 1);
    }
  }

  lemma ChainIsShort(buffer: seq<u8>, offsets: seq<nat>)
    requires Chain(buffer, offsets)
    ensures |offsets| * RECORD_MIN_BYTES <= |buffer|
  {
    assert Holds(buffer, offsets[|offsets| - 1]);
    if |offsets| > 1 {
      RecordsDoNotOverlap(buffer, offsets, 0, |offsets| - 1);
    }
  }

  /** Two chains go through the same records as far as both go. */
  lemma {:induction false} ChainsAgree(buffer: seq<u8>, a: seq<nat>, b: seq<nat>, i: nat)
    requires Chain(buffer, a) && Chain(buffer, b) && i < |a| && i < |b|
    ensures a[i] == b[i]
  {
    if i > 0 {
      ChainsAgree(buffer, a, b, i - 1);
      assert Linked(buffer, a[i - 1], a[i]) && Linked(buffer, b[i - 1], b[i]);
    }
  }

  /** The first record of a process is unique. */
  lemma FirstIsUnique(buffer: seq<u8>, a: seq<nat>, b: seq<nat>, target: u32)
    requires FirstInChain(buffer, a, target) && FirstInChain(buffer, b, target)
    ensures a[|a| - 1] == b[|b| - 1]
  {
    if |a| < |b| {
      ChainsAgree(buffer, a, b, |a| - 1);
      assert false;
    } else if |b| < |a| {
      ChainsAgree(buffer, a, b, |b| - 1);
      assert false;
    } else {
      ChainsAgree(buffer, a, b, |a| - 1);
    }
  }

  /** The walk stops at an offset from which no chain goes on. */
  predicate Stuck(buffer: seq<u8>, offset: nat) {
    !Holds(buffer, offset) || offset + Link(buffer, offset) < offset + RECORD_MIN_BYTES
    || offset + Link(buffer, offset) > |buffer|
  }

  lemma GoesOn(buffer: seq<u8>, offsets: seq<nat>, i: nat)
    requires Chain(buffer, offsets) && i + 1 < |offsets|
    ensures !Stuck(buffer, offsets[i])
  {
    assert Linked(buffer, offsets[i], offsets[i + 1]);
  }

  /** No chain reaches a record of the process. */
  ghost predicate Absent(buffer: seq<u8>, target: u32) {
    forall offsets :: !FirstInChain(buffer, offsets, target)
  }

  /**
   * A chain that avoids the process and then stops (at a bad link, or at a linked offset with no whole record) shows that
   * no chain finds the process.
   */
  lemma AbsentAfter(buffer: seq<u8>, walked: seq<nat>, offset: nat, target: u32)
    requires Walked(buffer, walked, offset, target)
    requires !Holds(buffer, offset) || (ProcessId(buffer, offset) != target && Stuck(buffer, offset))
    ensures Absent(buffer, target)
  {
    forall offsets ensures !FirstInChain(buffer, offsets, target) {
      if FirstInChain(buffer, offsets, target) {
        OnWalk(buffer, walked, offset, target, offsets, Min(|walked|, |offsets| - 1));
        if |walked| + 1 < |offsets| {
          GoesOn(buffer, offsets, |walked|);
        }
        assert false;
      }
    }
  }

  /** The records passed so far, none of the process, and the offset they lead to. */
  ghost predicate Walked(buffer: seq<u8>, walked: seq<nat>, offset: nat, target: u32) {
    var path := walked + [offset];
    path[0] == 0 && offset <= |buffer|
    && (forall i :: 0 <= i < |walked| ==> Holds(buffer, walked[i]) && ProcessId(buffer, walked[i]) != target)
    && (forall i, j :: 0 <= i && j == i + 1 && j < |path| ==> Linked(buffer, path[i], path[j]))
  }

  lemma {:induction false} OnWalk(buffer: seq<u8>, walked: seq<nat>, offset: nat, target: u32, offsets: seq<nat>, i: nat)
    requires Walked(buffer, walked, offset, target) && Chain(buffer, offsets)
    requires i <= |walked| && i < |offsets|
    ensures offsets[i] == (walked + [offset])[i]
  {
    if i > 0 {
      OnWalk(buffer, walked, offset, target, offsets, i - 1);
      assert Linked(buffer, offsets[i - 1], offsets[i]);
      assert Linked(buffer, (walked + [offset])[i - 1], (walked + [offset])[i]);
    }
  }

  /**
   * The walk. Every read lies inside the buffer; the result is the first record of the process in the chain, and there is
   * none exactly if no chain finds it.
   */
  method FindProcess(buffer: seq<u8>, target: u32) returns (found: Option<nat>, ghost chain: seq<nat>)
    ensures found.Some? <==> !Absent(buffer, target)
    ensures found.Some? ==> FirstInChain(buffer, chain, target) && found.value == chain[|chain| - 1]
    ensures found.Some? ==> Holds(buffer, found.value)
  {
    var offset: nat := 0;
    ghost var walked: seq<nat> := [];
    while true
      invariant Walked(buffer, walked, offset, target)
      decreases |buffer| - offset
    {
      if offset > |buffer| || |buffer| - offset < RECORD_MIN_BYTES {
        AbsentAfter(buffer, walked, offset, target);
        return None, [];
      }
      if Read32(buffer, offset + PROCESS_ID_OFFSET) == target {
        chain := walked + [offset];
        assert FirstInChain(buffer, chain, target);
        return Some(offset), chain;
      }
      var next := Read32(buffer, offset);
      if next == 0 || next < RECORD_MIN_BYTES || next > |buffer| - offset {
        AbsentAfter(buffer, walked, offset, target);
        return None, [];
      }
      assert Linked(buffer, offset, offset + next);
      walked := walked + [offset];
      offset := offset + next;
    }
  }

  /** A process whose parent is named by a first record of its own, and the parent's first record. */
  ghost predicate HasParent(buffer: seq<u8>, own: seq<nat>, parent: seq<nat>, self: u32) {
    FirstInChain(buffer, own, self)
    && FirstInChain(buffer, parent, ParentId(buffer, own[|own| - 1]))
  }

  method FindParent(buffer: seq<u8>, self: u32) returns (parent: Option<nat>)
    ensures parent.Some? <==> exists a, b :: HasParent(buffer, a, b, self)
    ensures forall a, b :: HasParent(buffer, a, b, self) ==> parent == Some(b[|b| - 1])
  {
    var own, chain := FindProcess(buffer, self);
    if own == None {
      return None;
    }
    var above, parents := FindProcess(buffer, Read32(buffer, own.value + PARENT_ID_OFFSET));
    if above.Some? {
      assert HasParent(buffer, chain, parents, self);
    }
    forall a, b | HasParent(buffer, a, b, self) ensures above == Some(b[|b| - 1]) {
      FirstIsUnique(buffer, a, chain, self);
      FirstIsUnique(buffer, b, parents, ParentId(buffer, own.value));
    }
    return above;
  }

  // ---------------------------------------------------------------- image name

  /** The bytes of the name, as a range of the buffer. */
  datatype Range = Range(offset: nat, size: nat)

  /** The name the record points to, if the pointer is not null and the whole name lies inside the buffer. */
  function NameRange(base: u64, length: nat, pointer: u64, bytes: u32): (range: Option<Range>)
    requires base + length < TWO_64
    ensures range.Some? <==>
              pointer != 0 && bytes % 2 == 0 && base <= pointer && pointer + bytes <= base + length
    ensures range.Some? ==> range.value.offset + range.value.size <= length && base + range.value.offset == pointer
  {
    if pointer == 0 || bytes % 2 != 0 then None
    else if pointer < base || pointer > base + length then None
    else if bytes > base + length - pointer then None
    else Some(Range(pointer - base, bytes))
  }
}
