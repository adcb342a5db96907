/**
 The growable buffer behind the output (CanonOutputT and RawCanonOutputT in url_canon.h): an array with a length, and
 what any number of writes to it and rewinds of it come to.
 */
module RawBuffer {
  import opened Bytes

  const MAX_INT := 0x7FFF_FFFF
  const MIN_BUFFER_LEN := 16
  const GROW_LIMIT := 0x4000_0000

  // ---- The buffer as a value -------------------------------------------------

  /** What is written, the room there is, and how many characters have been moved to a new array so far. */
  datatype Raw = Raw(contents: bytes, capacity: nat, copied: nat)

  /** The doubling in Grow: a length that does for the need, None if doubling might overflow. */
  function Doubled(len: nat, need: nat): Option<nat>
    requires len > 0
    decreases GROW_LIMIT - len
  {
    if len >= GROW_LIMIT then None
    else if len * 2 >= need then Some(len * 2)
    else Doubled(len * 2, need)
  }

  function StartLength(capacity: nat): nat { if capacity == 0 then MIN_BUFFER_LEN else capacity }

  /** The capacity that Grow finds for a number of characters there is no room for. */
  function GrownCapacity(capacity: nat, need: nat): Option<nat> { Doubled(StartLength(capacity), need) }

  /** Room for this many characters is there, or can be made. */
  predicate CanHold(r: Raw, need: nat) { need <= r.capacity || GrownCapacity(r.capacity, need).Some? }

  /** Writing a text. If there is no room to be had, nothing happens. */
  function Write(r: Raw, text: bytes): Raw {
    var need := |r.contents| + |text|;
    if need <= r.capacity then r.(contents := r.contents + text)
    else
      match GrownCapacity(r.capacity, need)
      case None => r
      case Some(capacity) => Raw(r.contents + text, capacity, r.copied + |r.contents|)
  }

  function Shrunk(contents: bytes, newLen: nat): bytes { if newLen <= |contents| then contents[..newLen] else contents }

  // ---- The array -------------------------------------------------------------

  class RawCanonOutput {
    var buffer: array<byte>
    var curLen: nat
    ghost var copied: nat

    ghost predicate Valid()
      reads this
    {
      curLen <= buffer.Length <= MAX_INT
    }

    ghost function State(): Raw
      requires Valid()
      reads this, buffer
    {
      Raw(buffer[..curLen], buffer.Length, copied)
    }

    constructor (fixedCapacity: nat)
      requires fixedCapacity <= MAX_INT
      ensures Valid() && fresh(buffer) && State() == Raw([], fixedCapacity, 0)
    {
      buffer := new byte[fixedCapacity](_ => 0);
      curLen, copied := 0, 0;
    }

    /** Moves what has been written to a larger array. */
    method Resize(sz: nat)
      requires Valid() && buffer.Length < sz <= MAX_INT
      modifies this
      ensures Valid() && fresh(buffer) && curLen == old(curLen)
      ensures State() == Raw(old(State().contents), sz, old(copied) + curLen)
    {
      var newBuf := new byte[sz](_ => 0);
      for i := 0 to curLen
        invariant newBuf[..i] == old(buffer[..i])
        modifies newBuf
      {
        newBuf[i] := buffer[i];
      }
      buffer := newBuf;
      copied := copied + curLen;
    }

    /** Makes room for at least so many characters more. */
    method Grow(minAdditional: nat) returns (ok: bool)
      requires Valid() && 0 < minAdditional && buffer.Length + minAdditional <= MAX_INT
      modifies this
      ensures Valid() && curLen == old(curLen) && (buffer == old(buffer) || fresh(buffer))
      ensures var capacity := GrownCapacity(old(buffer.Length), old(buffer.Length) + minAdditional);
        && ok == capacity.Some?
        && State() == (if ok then Raw(old(State().contents), capacity.value, old(copied) + curLen) else old(State()))
    {
      var newLen := if buffer.Length == 0 then MIN_BUFFER_LEN else buffer.Length;
      ghost var need := buffer.Length + minAdditional;
      while true
        invariant buffer.Length <= newLen && 0 < newLen <= MAX_INT
        invariant State() == old(State()) && buffer == old(buffer) && curLen == old(curLen) && Valid()
        invariant GrownCapacity(buffer.Length, need) == Doubled(newLen, need)
        decreases GROW_LIMIT - newLen
      {
        if newLen >= GROW_LIMIT {
          return false;
        }
        newLen := newLen * 2;
        if newLen >= buffer.Length + minAdditional {
          break;
        }
      }
      Resize(newLen);
      return true;
    }

    method PushBack(ch: byte)
      requires Valid() && curLen < MAX_INT
      modifies this, buffer
      ensures Valid() && (buffer == old(buffer) || fresh(buffer)) && State() == Write(old(State()), [ch])
    {
      if curLen < buffer.Length {
        buffer[curLen] := ch;
        curLen := curLen + 1;
        return;
      }
      var ok := Grow(1);
      if !ok {
        return;
      }
      buffer[curLen] := ch;
      curLen := curLen + 1;
    }

    /** The characters of a text that has room behind the others. */
    method Fill(str: bytes)
      requires Valid() && curLen + |str| <= buffer.Length
      modifies this`curLen, buffer
      ensures Valid() && State() == old(State()).(contents := old(State().contents) + str)
    {
      for i := 0 to |str|
        invariant buffer[..curLen] == old(buffer[..curLen]) && buffer[curLen..curLen + i] == str[..i]
        modifies buffer
      {
        buffer[curLen + i] := str[i];
      }
      assert str[..|str|] == str;
      assert buffer[..curLen + |str|] == buffer[..curLen] + buffer[curLen..curLen + |str|];
      curLen := curLen + |str|;
    }

    method Append(str: bytes)
      requires Valid() && curLen + |str| <= MAX_INT
      modifies this, buffer
      ensures Valid() && (buffer == old(buffer) || fresh(buffer)) && State() == Write(old(State()), str)
    {
      if curLen + |str| > buffer.Length {
        DoubledFits(StartLength(buffer.Length), curLen + |str|);
        var ok := Grow(curLen + |str| - buffer.Length);
        if !ok {
          return;
        }
      }
      Fill(str);
    }

    /** Only ever used to back up. */
    method SetLength(newLen: nat)
      requires Valid() && newLen <= curLen
      modifies this`curLen
      ensures Valid() && State() == old(State()).(contents := Shrunk(old(State().contents), newLen))
    {
      curLen := newLen;
    }
  }

  // ---- Any sequence of operations ----------------------------------------------

  datatype Op = PushBackOp(ch: byte) | AppendOp(str: bytes) | SetLengthOp(newLen: nat)

  function Step(r: Raw, op: Op): Raw {
    match op
    case PushBackOp(ch) => Write(r, [ch])
    case AppendOp(str) => Write(r, str)
    case SetLengthOp(newLen) => r.(contents := Shrunk(r.contents, newLen))
  }

  function Run(r: Raw, ops: seq<Op>): Raw
    decreases |ops|
  {
    if |ops| == 0 then r else Step(Run(r, ops[..|ops| - 1]), ops[|ops| - 1])
  }

  /** The same operations on a list. */
  function ListStep(s: bytes, op: Op): bytes {
    match op
    case PushBackOp(ch) => s + [ch]
    case AppendOp(str) => s + str
    case SetLengthOp(newLen) => Shrunk(s, newLen)
  }

  function ListRun(ops: seq<Op>): bytes
    decreases |ops|
  {
    if |ops| == 0 then [] else ListStep(ListRun(ops[..|ops| - 1]), ops[|ops| - 1])
  }

  function Written(op: Op): nat {
    match op
    case PushBackOp(_) => 1
    case AppendOp(str) => |str|
    case SetLengthOp(_) => 0
  }

  /** How many characters are written altogether. */
  function TotalWritten(ops: seq<Op>): nat
    decreases |ops|
  {
    if |ops| == 0 then 0 else TotalWritten(ops[..|ops| - 1]) + Written(ops[|ops| - 1])
  }

  function Max(a: nat, b: nat): nat { if a < b then b else a }

  /** What Grow finds: enough, never more than an int holds, and less than twice the need unless it is the first
      doubling. */
  lemma {:induction false} DoubledFits(len: nat, need: nat)
    requires len > 0
    ensures var d := Doubled(len, need);
      && (d.Some? ==> need <= d.value <= MAX_INT && 2 * len <= d.value && (d.value == 2 * len || d.value < 2 * need))
      && (d == None ==> len >= GROW_LIMIT || need > GROW_LIMIT)
    decreases GROW_LIMIT - len
  {
    if len < GROW_LIMIT && len * 2 < need { DoubledFits(len * 2, need); }
  }

  function TwoTo(n: nat): nat { if n == 0 then 1 else 2 * TwoTo(n - 1) }

  lemma TwiceTimes(a: nat, x: nat)
    ensures a * (2 * x) == a * 2 * x
  {
  }

  /** The doubling goes on until there is room, or the length it arrives at might overflow. */
  lemma {:induction false} DoublingIs(len: nat, need: nat) returns (n: nat)
    requires len > 0
    ensures match Doubled(len, need)
      case Some(found) =>
        && n > 0 && found == len * TwoTo(n) >= need
        && len * TwoTo(n - 1) < 0x4000_0000 && (n > 1 ==> len * TwoTo(n - 1) < need)
      case None => len * TwoTo(n) >= 0x4000_0000 && (n > 0 ==> len * TwoTo(n) < need)
    decreases GROW_LIMIT - len
  {
    if len >= GROW_LIMIT {
      n := 0;
    } else if len * 2 >= need {
      n := 1;
      assert TwoTo(1) == 2 * TwoTo(0);
    } else {
      var m := DoublingIs(len * 2, need);
      n := m + 1;
      TwiceTimes(len, TwoTo(m));
      if m > 0 { TwiceTimes(len, TwoTo(m - 1)); }
    }
  }

  /** What Grow finds, in numbers: sixteen or the old capacity, doubled as often as needed, and not at 2^30 or above. */
  lemma GrowthIs(capacity: nat, need: nat) returns (n: nat)
    ensures var start := if capacity == 0 then 16 else capacity;
      match GrownCapacity(capacity, need)
      case Some(found) =>
        && n > 0 && found == start * TwoTo(n) >= need
        && start * TwoTo(n - 1) < 0x4000_0000 && (n > 1 ==> start * TwoTo(n - 1) < need)
      case None => start * TwoTo(n) >= 0x4000_0000 && (n > 0 ==> start * TwoTo(n) < need)
  {
    n := DoublingIs(StartLength(capacity), need);
  }

  /** The buffer after writes of so many characters, begun with the given capacity. Each growth at least doubles the
      capacity, so the characters moved so far never outnumber the room that was gained. */
  predicate Inv(r: Raw, fixedCapacity: nat, written: nat) {
    && |r.contents| <= r.capacity <= MAX_INT && |r.contents| <= written
    && r.copied + fixedCapacity <= r.capacity
    && r.capacity <= Max(Max(fixedCapacity, 2 * MIN_BUFFER_LEN), 2 * written)
  }

  lemma WriteKeeps(r: Raw, text: bytes, fixedCapacity: nat, written: nat)
    requires Inv(r, fixedCapacity, written)
    ensures Inv(Write(r, text), fixedCapacity, written + |text|)
  {
    var need := |r.contents| + |text|;
    if need > r.capacity { DoubledFits(StartLength(r.capacity), need); }
  }

  lemma {:induction false} RunKeeps(fixedCapacity: nat, ops: seq<Op>)
    requires fixedCapacity <= MAX_INT
    ensures Inv(Run(Raw([], fixedCapacity, 0), ops), fixedCapacity, TotalWritten(ops))
    decreases |ops|
  {
    if |ops| > 0 {
      var init := ops[..|ops| - 1];
      RunKeeps(fixedCapacity, init);
      var r := Run(Raw([], fixedCapacity, 0), init);
      match ops[|ops| - 1] {
        case PushBackOp(ch) => WriteKeeps(r, [ch], fixedCapacity, TotalWritten(init));
        case AppendOp(str) => WriteKeeps(r, str, fixedCapacity, TotalWritten(init));
        case SetLengthOp(_) =>
      }
    }
  }

  /** Whatever is written and rewound: the characters moved to new arrays are linear in those written. */
  lemma CopyingIsLinear(fixedCapacity: nat, ops: seq<Op>)
    requires fixedCapacity <= MAX_INT
    ensures Run(Raw([], fixedCapacity, 0), ops).copied <= 2 * TotalWritten(ops) + 2 * MIN_BUFFER_LEN
  {
    RunKeeps(fixedCapacity, ops);
  }

  /** A write that fails changes nothing. It fails exactly when doubling cannot give enough room, which takes a buffer
      or a need of more than 2^30 characters. */
  lemma FailedWrite(r: Raw, text: bytes)
    requires |r.contents| <= r.capacity
    ensures Write(r, text).contents == (if CanHold(r, |r.contents| + |text|) then r.contents + text else r.contents)
    ensures !CanHold(r, |r.contents| + |text|) ==>
      Write(r, text) == r && (r.capacity >= GROW_LIMIT || |r.contents| + |text| > GROW_LIMIT)
  {
    DoubledFits(StartLength(r.capacity), |r.contents| + |text|);
  }

  /** Each write in turn finds room. */
  predicate AllHeld(r: Raw, ops: seq<Op>)
    decreases |ops|
  {
    |ops| > 0 ==>
      var init := ops[..|ops| - 1];
      AllHeld(r, init) && var before := Run(r, init);
      CanHold(before, |before.contents| + Written(ops[|ops| - 1]))
  }

  /** The buffer holds what the list holds, as long as every growth succeeds. */
  lemma {:induction false} RefinesList(fixedCapacity: nat, ops: seq<Op>)
    requires fixedCapacity <= MAX_INT && AllHeld(Raw([], fixedCapacity, 0), ops)
    ensures Run(Raw([], fixedCapacity, 0), ops).contents == ListRun(ops)
    decreases |ops|
  {
    if |ops| > 0 {
      var init := ops[..|ops| - 1];
      RefinesList(fixedCapacity, init);
      RunKeeps(fixedCapacity, init);
      var r := Run(Raw([], fixedCapacity, 0), init);
      match ops[|ops| - 1] {
        case PushBackOp(ch) => FailedWrite(r, [ch]);
        case AppendOp(str) => FailedWrite(r, str);
        case SetLengthOp(_) =>
      }
    }
  }

  lemma CapacityStaysSmall(fixedCapacity: nat, ops: seq<Op>)
    requires fixedCapacity < GROW_LIMIT && 2 * TotalWritten(ops) < GROW_LIMIT
    ensures Run(Raw([], fixedCapacity, 0), ops).capacity < GROW_LIMIT
  {
    RunKeeps(fixedCapacity, ops);
  }

  /** No growth fails before half of 2^30 characters are written altogether. */
  lemma {:induction false} SmallNeverFails(fixedCapacity: nat, ops: seq<Op>)
    requires fixedCapacity < GROW_LIMIT && 2 * TotalWritten(ops) < GROW_LIMIT
    ensures AllHeld(Raw([], fixedCapacity, 0), ops)
    decreases |ops|
  {
    if |ops| > 0 {
      var init := ops[..|ops| - 1];
      SmallNeverFails(fixedCapacity, init);
      CapacityStaysSmall(fixedCapacity, init);
      RunKeeps(fixedCapacity, init);
      var r := Run(Raw([], fixedCapacity, 0), init);
      DoubledFits(StartLength(r.capacity), |r.contents| + Written(ops[|ops| - 1]));
    }
  }

  /** So below that the buffer is a list. */
  lemma BufferIsList(fixedCapacity: nat, ops: seq<Op>)
    requires fixedCapacity < GROW_LIMIT && 2 * TotalWritten(ops) < GROW_LIMIT
    ensures Run(Raw([], fixedCapacity, 0), ops).contents == ListRun(ops)
  {
    SmallNeverFails(fixedCapacity, ops);
    RefinesList(fixedCapacity, ops);
  }
}
