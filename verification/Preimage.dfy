/** The pre-image request protocol of op-preimage, and the same requests made by a program inside the
    VM through its write-6 and read-5 system calls, which move at most one word's bytes each. */
module Preimage {
  import opened Words
  import opened Merkle
  import opened Cpu
  import opened Replay
  import opened MemoryRange
  import Exec
  import Witness

  // ------------------------------------------------------------------ client and server over a stream

  datatype Served = Ok | Eof | Failed

  /** A blocking two-way stream: what the client has sent, and what it can still receive. */
  class Stream {
    var toServer: Bytes
    var toClient: Bytes

    constructor ()
      ensures toServer == [] && toClient == []
    {
      toServer, toClient := [], [];
    }

    /** OracleServer.NextPreimageRequest: answer the next 32-byte key. */
    method NextPreimageRequest(getPreimage: Bytes32 -> Option<Bytes>) returns (r: Served)
      modifies this
      ensures old(toServer) == [] ==> r == Eof && toServer == [] && toClient == old(toClient)
      ensures 0 < |old(toServer)| < 32 ==> r == Failed && toClient == old(toClient)
      ensures |old(toServer)| >= 32 ==>
        && toServer == old(toServer)[32..]
        && match getPreimage(old(toServer)[..32])
           case None => r == Failed && toClient == old(toClient)
           case Some(value) => r == Ok && toClient == old(toClient) + Prefixed(value)
    {
      if toServer == [] {
        return Eof;
      }
      if |toServer| < 32 {
        toServer := [];
        return Failed;
      }
      var key: Bytes := toServer[..32];
      toServer := toServer[32..];
      var value := getPreimage(key);
      if value.None? {
        return Failed;
      }
      toClient := toClient + BE(8, |value.value| % W64);
      if |value.value| == 0 {
        return Ok;
      }
      toClient := toClient + value.value;
      r := Ok;
    }

    /** The first half of OracleClient.Get. */
    method Request(key: Bytes32)
      modifies this`toServer
      ensures toServer == old(toServer) + key
    {
      toServer := toServer + key;
    }

    /** The second half of OracleClient.Get: a length, then that many bytes. None where it panics. */
    method Receive() returns (payload: Option<Bytes>)
      modifies this`toClient
      ensures |old(toClient)| < 8 ==> toClient == old(toClient)
      ensures payload.Some? <==> |old(toClient)| >= 8 && 8 + FromBE(old(toClient)[..8]) <= |old(toClient)|
      ensures payload.Some? ==>
        |payload.value| == FromBE(old(toClient)[..8]) && old(toClient) == old(toClient)[..8] + payload.value + toClient
    {
      if |toClient| < 8 {
        return None;
      }
      var length := FromBE(toClient[..8]);
      toClient := toClient[8..];
      if length > |toClient| {
        return None;
      }
      payload := Some(toClient[..length]);
      toClient := toClient[length..];
    }
  }

  lemma PrefixLength(data: Bytes)
    requires |data| < W64
    ensures FromBE(BE(8, |data| % W64)) == |data|
  {
    hide BE, FromBE;
    Witness.StepRoundTrip(|data|);
  }

  /** OracleClient.Get against the server: the payload is the server's value, and the stream is
      drained, so the next request starts afresh. */
  method Get(s: Stream, key: Bytes32, getPreimage: Bytes32 -> Option<Bytes>) returns (payload: Option<Bytes>)
    requires s.toServer == [] && s.toClient == []
    requires getPreimage(key).Some? ==> |getPreimage(key).value| < W64
    modifies s
    ensures payload == getPreimage(key)
    ensures s.toServer == [] && s.toClient == []
  {
    hide BE, FromBE;
    s.Request(key);
    assert s.toServer[..32] == key;
    var r := s.NextPreimageRequest(getPreimage);
    if r == Ok {
      var value := getPreimage(key).value;
      PrefixLength(value);
      assert s.toClient[..8] == BE(8, |value| % W64);
      ghost var sent := s.toClient;
      payload := s.Receive();
      assert sent == sent[..8] + value;
      assert |payload.value| == |value| && payload.value == sent[8..8 + |value|] == value;
    } else {
      payload := s.Receive();
    }
  }

  // ------------------------------------------------------------------ system calls

  /** The word holding a's bytes: which of them an aligned access reaches. */
  lemma WordSlice(im: Image, a: u32, n: nat)
    requires WellFormed(im) && n <= 4 - a % 4
    ensures Put32(Load(im, AlignDown(a)))[a % 4..a % 4 + n] == RangeBytes(im, a, n)
  {
    hide ByteAt;
    Put32InvertsGet32(WordBytes(im, AlignDown(a)));
    forall k | 0 <= k < n
      ensures WordBytes(im, AlignDown(a))[a % 4 + k] == ByteAt(im, AddrAt(a, k))
    {
      assert AddrAt(a, k) == AlignDown(a) + (a % 4 + k);
    }
  }

  /** A write to the pre-image file takes the bytes up to the end of the word, shifts them into the
      key from the right, restarts the offset, and reports how many it took. */
  lemma WriteCall(c: Cpu, im: Image)
    requires WellFormed(im) && IsPreimageWrite(c)
    ensures var n := Min(A2(c), 4 - A1(c) % 4);
            var c' := GoPreimageWrite(c, Load(im, AlignDown(A1(c)))).cpu;
            && c'.preimageKey == c.preimageKey[n..] + RangeBytes(im, A1(c), n)
            && c'.preimageOffset == 0 && c'.registers[2] == n && c'.registers[7] == 0
  {
    WordSlice(im, A1(c), Min(A2(c), 4 - A1(c) % 4));
  }

  /** How many bytes one read delivers. */
  function ReadCount(c: Cpu, available: nat): nat {
    Min(Min(Min(32, available), 4 - A1(c) % 4), A2(c))
  }

  /** The state after a read from the pre-image file. */
  ghost function AfterRead(c: Cpu, im: Image, preimage: Bytes): (r: (Cpu, Image))
    requires WellFormed(im) && c.preimageOffset <= |preimage|
    ensures WellFormed(r.1)
  {
    var w := AlignDown(A1(c));
    var e := GoPreimageRead(c, Load(im, w), ReadPreimage(preimage, c.preimageOffset).value);
    (e.cpu, Store(im, w, e.store.value))
  }

  /** A read advances the offset by the bytes it delivers and reports their number; it delivers nothing
      only if nothing is asked for or nothing is left. */
  lemma ReadCall(c: Cpu, im: Image, preimage: Bytes)
    requires WellFormed(im) && c.preimageOffset <= |preimage| < W32
    ensures var n := ReadCount(c, |preimage| - c.preimageOffset);
            var c' := AfterRead(c, im, preimage).0;
            && c'.preimageKey == c.preimageKey && c'.preimageOffset == c.preimageOffset + n <= |preimage|
            && c'.registers[2] == n && c'.registers[7] == 0
            && (n == 0 <==> A2(c) == 0 || c.preimageOffset == |preimage|)
  {
    hide Put32, Get32, WriteAt, Load, Store;
  }

  /** The delivered bytes are the next ones of the pre-image, at the buffer's address; no other byte of
      memory changes. */
  lemma ReadMemory(c: Cpu, im: Image, preimage: Bytes)
    requires WellFormed(im) && c.preimageOffset <= |preimage| < W32
    ensures var n := ReadCount(c, |preimage| - c.preimageOffset);
            var im' := AfterRead(c, im, preimage).1;
            && RangeBytes(im', A1(c), n) == preimage[c.preimageOffset..c.preimageOffset + n]
            && forall a: u32 :: !(A1(c) <= a < A1(c) + n) ==> ByteAt(im', a) == ByteAt(im, a)
  {
    var b := preimage[c.preimageOffset..c.preimageOffset + ReadCount(c, |preimage| - c.preimageOffset)];
    ReadWord(c, im, preimage, b);
    hide *;
    PatchedWord(im, A1(c), b);
  }

  lemma ReadWord(c: Cpu, im: Image, preimage: Bytes, b: Bytes)
    requires WellFormed(im) && c.preimageOffset <= |preimage| < W32
    requires b == preimage[c.preimageOffset..c.preimageOffset + ReadCount(c, |preimage| - c.preimageOffset)]
    ensures A1(c) % 4 + |b| <= 4 && |b| == ReadCount(c, |preimage| - c.preimageOffset)
    ensures AfterRead(c, im, preimage).1
            == Store(im, AlignDown(A1(c)), Get32(WriteAt(Put32(Load(im, AlignDown(A1(c)))), A1(c) % 4, b)))
  {
    hide Put32, Get32, WriteAt, Load, Store;
    var dat := ReadPreimage(preimage, c.preimageOffset).value;
    assert dat[..|b|] == b;
  }

  /** Storing a word with some of its bytes replaced replaces those bytes of memory. */
  lemma PatchedWord(im: Image, a: u32, b: Bytes)
    requires WellFormed(im) && a % 4 + |b| <= 4
    ensures var im' := Store(im, AlignDown(a), Get32(WriteAt(Put32(Load(im, AlignDown(a))), a % 4, b)));
            && RangeBytes(im', a, |b|) == b
            && forall x: u32 :: !(a <= x < a + |b|) ==> ByteAt(im', x) == ByteAt(im, x)
  {
    var im' := Store(im, AlignDown(a), Get32(WriteAt(Put32(Load(im, AlignDown(a))), a % 4, b)));
    hide *;
    PatchedBytes(im, a, b);
    NearAddresses(a, |b|);
    assert forall k :: 0 <= k < |b| ==> ByteAt(im', AddrAt(a, k)) == b[k];
  }

  lemma NearAddresses(a: u32, n: nat)
    requires a % 4 + n <= 4
    ensures forall k :: 0 <= k < n ==> AddrAt(a, k) == a + k
  {
  }

  lemma PatchedBytes(im: Image, a: u32, b: Bytes)
    requires WellFormed(im) && a % 4 + |b| <= 4
    ensures var im' := Store(im, AlignDown(a), Get32(WriteAt(Put32(Load(im, AlignDown(a))), a % 4, b)));
            forall x: u32 :: ByteAt(im', x) == if a <= x < a + |b| then b[x - a] else ByteAt(im, x)
  {
    hide ByteAt, Put32, Get32, Load, StoreBytes;
    var w := AlignDown(a);
    var word := WriteAt(Put32(Load(im, w)), a % 4, b);
    Put32InvertsGet32(word);
    LoadBytes(im, w);
    assert forall x: u32 :: w <= x < w + 4 ==> ByteAt(Store(im, w, Get32(word)), x) == word[x - w];
  }

  lemma LoadBytes(im: Image, w: u32)
    requires WellFormed(im) && w % 4 == 0
    ensures forall b: u32 :: w <= b < w + 4 ==> Put32(Load(im, w))[b - w] == ByteAt(im, b)
  {
    hide ByteAt;
    Put32InvertsGet32(WordBytes(im, w));
  }

  /** Only the two pre-image system calls touch the key and the offset, in any instruction. */
  lemma KeyAndOffsetFrame(c: Cpu, im: Image, preimage: Bytes)
    requires WellFormed(im) && GoStep(c, im, preimage).Some?
    requires c.exited || !IsSyscall(Load(im, c.pc)) || !(IsPreimageRead(c) || IsPreimageWrite(c))
    ensures var c' := GoStep(c, im, preimage).value.0;
            c'.preimageKey == c.preimageKey && c'.preimageOffset == c.preimageOffset
  {
    hide Load, Store, Exec.Execute;
  }

  /** The offset never runs past the length prefix and the data. */
  lemma OffsetBounded(c: Cpu, im: Image, oracle: Bytes32 -> Bytes)
    requires WellFormed(im) && c.preimageOffset <= |Prefixed(oracle(c.preimageKey))|
    requires GoStep(c, im, Prefixed(oracle(c.preimageKey))).Some?
    ensures var c' := GoStep(c, im, Prefixed(oracle(c.preimageKey))).value.0;
            c'.preimageOffset <= |Prefixed(oracle(c'.preimageKey))|
  {
    var preimage := Prefixed(oracle(c.preimageKey));
    if c.exited || !IsSyscall(Load(im, c.pc)) || !(IsPreimageRead(c) || IsPreimageWrite(c)) {
      KeyAndOffsetFrame(c, im, preimage);
    } else {
      var insn, c1 := Load(im, c.pc), Tick(c);
      CallOffset(c1, OperandWord(im, EffectiveAddress(c1, insn)), preimage);
      hide Load, Store, Prefixed, GoSyscall, OperandWord, EffectiveAddress;
      assert GoEffect(c1, insn, OperandWord(im, EffectiveAddress(c1, insn)), preimage).Some?;
    }
  }

  lemma CallOffset(c: Cpu, mem: u32, preimage: Bytes)
    requires IsPreimageRead(c) || IsPreimageWrite(c)
    requires c.preimageOffset <= |preimage| && GoSyscall(c, mem, preimage).Some?
    ensures var c' := GoSyscall(c, mem, preimage).value.cpu;
            if IsPreimageRead(c) then c'.preimageKey == c.preimageKey && c'.preimageOffset <= |preimage| else c'.preimageOffset == 0
  {
  }

  /** Which successful reads and writes report more than four bytes: those on the output streams and the hint
      files that ask for more, never those on the pre-image files. */
  lemma CountAboveFour(c: Cpu, mem: u32, preimage: Bytes)
    requires c.registers[2] == SYS_READ || c.registers[2] == SYS_WRITE
    requires GoSyscall(c, mem, preimage).Some? && GoSyscall(c, mem, preimage).value.cpu.registers[7] == 0
    ensures var large := if c.registers[2] == SYS_READ then {FD_HINT_READ} else {FD_STDOUT, FD_STDERR, FD_HINT_WRITE};
            GoSyscall(c, mem, preimage).value.cpu.registers[2] > 4 <==> A0(c) in large && A2(c) > 4
  {
    hide Put32, Get32, WriteAt;
    if IsPreimageRead(c) {
      ReadPlainCount(c, mem, ReadPreimage(preimage, c.preimageOffset).value);
    }
  }

  lemma ReadPlainCount(c: Cpu, mem: u32, dat: Bytes)
    requires |dat| <= 32
    ensures GoPreimageRead(c, mem, dat).cpu.registers[2] <= 4
  {
    hide Put32, Get32, WriteAt;
  }

  // ------------------------------------------------------------------ whole requests

  /** A system call: the registers and the memory just before it. */
  datatype Call = Call(cpu: Cpu, memory: Image)

  /** The system calls of one blocking write of data: every
      call offers the next bytes from a buffer the program chose; what a call reports as written is
      skipped, and the key and offset carry over to the next call. */
  ghost predicate WriteRun(calls: seq<Call>, key: Bytes32, offset: u32, data: Bytes)
    decreases |calls|
  {
    if calls == [] then data == []
    else
      var (c, im) := (calls[0].cpu, calls[0].memory);
      && WellFormed(im) && IsPreimageWrite(c) && c.preimageKey == key && c.preimageOffset == offset
      && 0 < A2(c) <= |data| && RangeBytes(im, A1(c), A2(c)) == data[..A2(c)]
      && var c' := AfterWrite(c, im);
         c'.registers[2] <= |data| && WriteRun(calls[1..], c'.preimageKey, c'.preimageOffset, data[c'.registers[2]..])
  }

  ghost function AfterWrite(c: Cpu, im: Image): Cpu
    requires WellFormed(im)
  {
    GoPreimageWrite(c, Load(im, AlignDown(A1(c)))).cpu
  }

  ghost function KeyAfter(calls: seq<Call>, key: Bytes32): Bytes32 {
    if calls == [] || !WellFormed(calls[|calls| - 1].memory) then key
    else AfterWrite(calls[|calls| - 1].cpu, calls[|calls| - 1].memory).preimageKey
  }

  /** Whatever the alignment and the chunks, the key is the last 32 bytes written, reading restarts at
      offset zero, and every call makes progress. */
  lemma {:induction false} WrittenKey(calls: seq<Call>, key: Bytes32, offset: u32, data: Bytes)
    requires WriteRun(calls, key, offset, data)
    ensures |calls| <= |data| && (data != [] ==> calls != [])
    ensures KeyAfter(calls, key) == (key + data)[|data|..]
    ensures calls != [] ==> WellFormed(calls[|calls| - 1].memory) && AfterWrite(calls[|calls| - 1].cpu, calls[|calls| - 1].memory).preimageOffset == 0
    decreases |calls|
  {
    hide AfterWrite, IsPreimageWrite, RangeBytes;
    if calls == [] {
      assert (key + data)[|data|..] == key;
    } else {
      var (c, im) := (calls[0].cpu, calls[0].memory);
      var n := FirstWrite(calls, key, offset, data);
      var c' := AfterWrite(c, im);
      WrittenKey(calls[1..], c'.preimageKey, 0, data[n..]);
      assert (key[n..] + data[..n]) + data[n..] == key[n..] + data;
      if |calls| > 1 {
        assert calls[1..][|calls| - 2] == calls[|calls| - 1];
      } else {
        assert data[n..] == [];
      }
    }
  }

  /** The first call of a write: how many bytes it takes, and the run that is left. */
  lemma FirstWrite(calls: seq<Call>, key: Bytes32, offset: u32, data: Bytes) returns (n: nat)
    requires WriteRun(calls, key, offset, data) && calls != []
    ensures WellFormed(calls[0].memory)
    ensures 0 < n <= |data| && n <= 4
    ensures AfterWrite(calls[0].cpu, calls[0].memory).preimageKey == key[n..] + data[..n]
    ensures AfterWrite(calls[0].cpu, calls[0].memory).preimageOffset == 0
    ensures WriteRun(calls[1..], AfterWrite(calls[0].cpu, calls[0].memory).preimageKey, 0, data[n..])
  {
    var (c, im) := (calls[0].cpu, calls[0].memory);
    WriteCall(c, im);
    n := AfterWrite(c, im).registers[2];
    hide RangeBytes;
    assert RangeBytes(im, A1(c), n) == RangeBytes(im, A1(c), A2(c))[..n] == data[..n];
  }

  /** The system calls of one blocking read of count bytes, with the bytes each delivers. A call that
      reports zero bytes ends the run early. */
  ghost predicate ReadRun(calls: seq<Call>, key: Bytes32, offset: nat, preimage: Bytes, count: nat)
    decreases |calls|
  {
    if calls == [] then count == 0
    else
      var (c, im) := (calls[0].cpu, calls[0].memory);
      && WellFormed(im) && IsPreimageRead(c) && c.preimageKey == key && c.preimageOffset == offset <= |preimage|
      && 0 < A2(c) <= count
      && var c' := AfterRead(c, im, preimage).0;
         if c'.registers[2] == 0 then |calls| == 1
         else
           && c'.registers[2] <= count
           && ReadRun(calls[1..], c'.preimageKey, c'.preimageOffset, preimage, count - c'.registers[2])
  }

  /** What the program finds in its buffers, call by call. */
  ghost function Delivered(calls: seq<Call>, preimage: Bytes): Bytes
    decreases |calls|
  {
    if calls == [] || !WellFormed(calls[0].memory) || calls[0].cpu.preimageOffset > |preimage| then []
    else
      var (c, im) := (calls[0].cpu, calls[0].memory);
      var (c', im') := AfterRead(c, im, preimage);
      RangeBytes(im', A1(c), c'.registers[2]) + Delivered(calls[1..], preimage)
  }

  /** A blocking read of bytes that exist delivers exactly the next ones, with no gap and no repeat; a
      read past the end delivers what is left, then nothing. */
  lemma {:induction false} DeliveredBytes(calls: seq<Call>, key: Bytes32, offset: nat, preimage: Bytes, count: nat)
    requires ReadRun(calls, key, offset, preimage, count) && offset <= |preimage| < W32
    ensures Delivered(calls, preimage) == preimage[offset..if offset + count < |preimage| then offset + count else |preimage|]
    ensures |calls| <= count
    decreases |calls|
  {
    hide AfterRead, IsPreimageRead;
    if calls != [] {
      var n := FirstRead(calls, key, offset, preimage, count);
      if n > 0 {
        DeliveredBytes(calls[1..], key, offset + n, preimage, count - n);
        JoinedTo(preimage, offset, n, count);
      }
    }
  }

  lemma JoinedTo(b: Bytes, i: nat, n: nat, count: nat)
    requires n <= count && i + n <= |b|
    ensures b[i..i + n] + b[i + n..if i + n + (count - n) < |b| then i + n + (count - n) else |b|]
            == b[i..if i + count < |b| then i + count else |b|]
  {
  }

  /** The first call of a run: what it delivers, and the run that is left. */
  lemma FirstRead(calls: seq<Call>, key: Bytes32, offset: nat, preimage: Bytes, count: nat) returns (n: nat)
    requires ReadRun(calls, key, offset, preimage, count) && offset <= |preimage| < W32 && calls != []
    ensures n <= count && offset + n <= |preimage|
    ensures Delivered(calls, preimage) == preimage[offset..offset + n] + Delivered(calls[1..], preimage)
    ensures if n == 0 then |calls| == 1 && offset == |preimage| && count > 0 && Delivered(calls[1..], preimage) == []
            else ReadRun(calls[1..], key, offset + n, preimage, count - n)
  {
    hide AfterRead, RangeBytes, IsPreimageRead, ReadCount, A1;
    n := ReadFacts(calls[0].cpu, calls[0].memory, preimage);
  }

  lemma ReadFacts(c: Cpu, im: Image, preimage: Bytes) returns (n: nat)
    requires WellFormed(im) && c.preimageOffset <= |preimage| < W32
    ensures var (c', im') := AfterRead(c, im, preimage);
            && n == c'.registers[2] && c'.preimageKey == c.preimageKey && c'.preimageOffset == c.preimageOffset + n <= |preimage|
            && RangeBytes(im', A1(c), n) == preimage[c.preimageOffset..c.preimageOffset + n]
            && n <= A2(c) && (n == 0 <==> A2(c) == 0 || c.preimageOffset == |preimage|)
  {
    hide AfterRead, RangeBytes, ByteAt;
    n := ReadCount(c, |preimage| - c.preimageOffset);
    ReadCall(c, im, preimage);
    ReadMemory(c, im, preimage);
  }

  /** A request made by a program in the VM: the calls writing the key, then those reading the length
      prefix, then those reading the payload. */
  ghost predicate RequestRun(writes: seq<Call>, lengthReads: seq<Call>, payloadReads: seq<Call>,
                             before: Bytes32, offset: u32, key: Bytes32, oracle: Bytes32 -> Bytes) {
    && WriteRun(writes, before, offset, key)
    && var preimage := Prefixed(oracle(KeyAfter(writes, before)));
    && ReadRun(lengthReads, KeyAfter(writes, before), 0, preimage, 8)
    && ReadRun(payloadReads, KeyAfter(writes, before), 8, preimage, FromBE(Delivered(lengthReads, preimage)))
  }

  /** Through the VM's system calls a request yields the oracle's value for the key, the same as
      `Get` yields through a server of that oracle, whatever the alignment and chunking of the calls
      and whatever was requested before. */
  lemma SamePayload(writes: seq<Call>, lengthReads: seq<Call>, payloadReads: seq<Call>,
                    before: Bytes32, offset: u32, key: Bytes32, oracle: Bytes32 -> Bytes)
    requires RequestRun(writes, lengthReads, payloadReads, before, offset, key, oracle)
    requires |oracle(key)| + 8 < W32
    ensures KeyAfter(writes, before) == key
    ensures Delivered(payloadReads, Prefixed(oracle(key))) == oracle(key)
  {
    hide BE, FromBE, WriteRun, ReadRun, KeyAfter, Delivered;
    WrittenKey(writes, before, offset, key);
    assert (before + key)[|key|..] == key;
    LengthDelivered(lengthReads, key, oracle);
    DeliveredBytes(payloadReads, key, 8, Prefixed(oracle(key)), |oracle(key)|);
  }

  // ------------------------------------------------------------------ requests in a run of the VM

  ghost predicate MakesCall(c: Cpu, im: Image)
    requires WellFormed(im)
  {
    !c.exited && c.pc % 4 == 0 && IsSyscall(Load(im, c.pc)) && (IsPreimageRead(c) || IsPreimageWrite(c))
  }

  /** The pre-image system calls of the first n steps of a run, up to a step that panics. */
  ghost function CallsOf(c: Cpu, im: Image, oracle: Bytes32 -> Bytes, n: nat): seq<Call>
    requires WellFormed(im)
    decreases n
  {
    if n == 0 then []
    else
      match GoStep(c, im, Prefixed(oracle(c.preimageKey)))
      case None => []
      case Some((c', im')) => (if MakesCall(c, im) then [Call(Tick(c), im)] else []) + CallsOf(c', im', oracle, n - 1)
  }

  /** The registers after a call that does not panic. */
  ghost function AfterCall(call: Call, oracle: Bytes32 -> Bytes): Cpu
    requires WellFormed(call.memory)
    requires IsPreimageWrite(call.cpu) || call.cpu.preimageOffset <= |Prefixed(oracle(call.cpu.preimageKey))|
  {
    if IsPreimageWrite(call.cpu) then AfterWrite(call.cpu, call.memory)
    else AfterRead(call.cpu, call.memory, Prefixed(oracle(call.cpu.preimageKey))).0
  }

  /** The first call finds this key and offset, and every other call those that the one before it left. */
  ghost predicate Linked(calls: seq<Call>, key: Bytes32, offset: u32, oracle: Bytes32 -> Bytes)
    decreases |calls|
  {
    if calls == [] then true
    else
      && WellFormed(calls[0].memory) && calls[0].cpu.preimageKey == key && calls[0].cpu.preimageOffset == offset
      && (IsPreimageWrite(calls[0].cpu) || (IsPreimageRead(calls[0].cpu) && offset <= |Prefixed(oracle(key))|))
      && Linked(calls[1..], AfterCall(calls[0], oracle).preimageKey, AfterCall(calls[0], oracle).preimageOffset, oracle)
  }

  /** A step that makes a call leaves the registers `AfterCall` says. */
  lemma CallStep(c: Cpu, im: Image, oracle: Bytes32 -> Bytes)
    requires WellFormed(im) && MakesCall(c, im)
    requires GoStep(c, im, Prefixed(oracle(c.preimageKey))).Some?
    ensures IsPreimageWrite(c) || c.preimageOffset <= |Prefixed(oracle(c.preimageKey))|
    ensures GoStep(c, im, Prefixed(oracle(c.preimageKey))).value.0 == AfterCall(Call(Tick(c), im), oracle)
  {
    hide Load, Store, Prefixed, GoPreimageRead, GoPreimageWrite, PlainSyscall, Dispatch, AlignDown;
    assert EffectiveAddress(Tick(c), Load(im, c.pc)) == Some(AlignDown(A1(c)));
  }

  /** Whatever the program does in between, the key and the offset carry over from call to call. */
  lemma {:induction false} RunLinks(c: Cpu, im: Image, oracle: Bytes32 -> Bytes, n: nat)
    requires WellFormed(im)
    ensures Linked(CallsOf(c, im, oracle, n), c.preimageKey, c.preimageOffset, oracle)
    decreases n
  {
    hide GoStep, MakesCall, AfterCall, Prefixed;
    var next := GoStep(c, im, Prefixed(oracle(c.preimageKey)));
    if n > 0 && next.Some? {
      var (c', im') := next.value;
      RunLinks(c', im', oracle, n - 1);
      var rest := CallsOf(c', im', oracle, n - 1);
      if MakesCall(c, im) {
        CallStep(c, im, oracle);
        CallKind(c, im);
        assert ([Call(Tick(c), im)] + rest)[1..] == rest;
      } else {
        StepKeeps(c, im, oracle);
        assert [] + rest == rest;
      }
    }
  }

  lemma CallKind(c: Cpu, im: Image)
    requires WellFormed(im) && MakesCall(c, im)
    ensures IsPreimageRead(Tick(c)) || IsPreimageWrite(Tick(c))
    ensures IsPreimageWrite(Tick(c)) <==> IsPreimageWrite(c)
    ensures Tick(c).preimageKey == c.preimageKey && Tick(c).preimageOffset == c.preimageOffset
  {
  }

  lemma StepKeeps(c: Cpu, im: Image, oracle: Bytes32 -> Bytes)
    requires WellFormed(im) && !MakesCall(c, im) && GoStep(c, im, Prefixed(oracle(c.preimageKey))).Some?
    ensures var c' := GoStep(c, im, Prefixed(oracle(c.preimageKey))).value.0;
            c'.preimageKey == c.preimageKey && c'.preimageOffset == c.preimageOffset
  {
    hide Load, Prefixed, GoEffect;
    KeyAndOffsetFrame(c, im, Prefixed(oracle(c.preimageKey)));
  }

  /** The program's part of a write: each call offers the next bytes from a buffer it chose, and what a call
      reports as written is skipped. */
  ghost predicate Writes(calls: seq<Call>, data: Bytes)
    decreases |calls|
  {
    if calls == [] then data == []
    else
      var (c, im) := (calls[0].cpu, calls[0].memory);
      && WellFormed(im) && IsPreimageWrite(c) && 0 < A2(c) <= |data| && RangeBytes(im, A1(c), A2(c)) == data[..A2(c)]
      && var n := AfterWrite(c, im).registers[2];
         n <= |data| && Writes(calls[1..], data[n..])
  }

  /** The program's part of a read of count bytes: each call asks for no more than what is still missing;
      a call that reports zero bytes ends the read. */
  ghost predicate Reads(calls: seq<Call>, oracle: Bytes32 -> Bytes, count: nat)
    decreases |calls|
  {
    if calls == [] then count == 0
    else
      var (c, im) := (calls[0].cpu, calls[0].memory);
      && WellFormed(im) && IsPreimageRead(c) && 0 < A2(c) <= count
      && (c.preimageOffset <= |Prefixed(oracle(c.preimageKey))| ==>
            var n := AfterCall(calls[0], oracle).registers[2];
            if n == 0 then |calls| == 1 else n <= count && Reads(calls[1..], oracle, count - n))
  }

  lemma {:induction false} LinkedWrites(calls: seq<Call>, rest: seq<Call>, key: Bytes32, offset: u32, oracle: Bytes32 -> Bytes, data: Bytes)
    requires Linked(calls + rest, key, offset, oracle) && Writes(calls, data)
    ensures WriteRun(calls, key, offset, data) && forall i :: 0 <= i < |calls| ==> WellFormed(calls[i].memory)
    ensures Linked(rest, KeyAfter(calls, key), if calls == [] then offset else 0, oracle)
    decreases |calls|
  {
    hide AfterWrite, IsPreimageWrite, IsPreimageRead, RangeBytes, Prefixed, AfterRead, A2, A1;
    if calls == [] {
      assert calls + rest == rest;
    } else {
      assert (calls + rest)[0] == calls[0] && (calls + rest)[1..] == calls[1..] + rest;
      var (c, im) := (calls[0].cpu, calls[0].memory);
      WriteCall(c, im);
      var c' := AfterWrite(c, im);
      assert AfterCall(calls[0], oracle) == c' && c'.preimageOffset == 0 by { WriteRestarts(c, im); }
      var n := c'.registers[2];
      LinkedWrites(calls[1..], rest, c'.preimageKey, c'.preimageOffset, oracle, data[n..]);
      assert WriteRun(calls[1..], c'.preimageKey, c'.preimageOffset, data[n..]);
      assert forall i :: 0 < i < |calls| ==> calls[i] == calls[1..][i - 1];
      KeyAfterRest(calls, key, c'.preimageKey);
    }
  }

  lemma KeyAfterRest(calls: seq<Call>, key: Bytes32, next: Bytes32)
    requires calls != [] && WellFormed(calls[0].memory) && next == AfterWrite(calls[0].cpu, calls[0].memory).preimageKey
    requires forall i :: 0 <= i < |calls| ==> WellFormed(calls[i].memory)
    ensures KeyAfter(calls, key) == KeyAfter(calls[1..], next)
  {
    hide AfterWrite;
    if |calls| > 1 {
      assert calls[1..][|calls| - 2] == calls[|calls| - 1];
    }
  }

  lemma WriteRestarts(c: Cpu, im: Image)
    requires WellFormed(im)
    ensures AfterWrite(c, im).preimageOffset == 0
  {
  }

  lemma {:induction false} LinkedReads(calls: seq<Call>, rest: seq<Call>, key: Bytes32, offset: u32, oracle: Bytes32 -> Bytes, count: nat)
    requires Linked(calls + rest, key, offset, oracle) && Reads(calls, oracle, count) && offset <= |Prefixed(oracle(key))| < W32
    ensures var preimage := Prefixed(oracle(key));
            && ReadRun(calls, key, offset, preimage, count)
            && Linked(rest, key, if offset + count < |preimage| then offset + count else |preimage|, oracle)
    decreases |calls|
  {
    hide AfterRead, IsPreimageWrite, IsPreimageRead, Prefixed;
    var preimage := Prefixed(oracle(key));
    if calls == [] {
      assert calls + rest == rest;
    } else {
      assert (calls + rest)[0] == calls[0] && (calls + rest)[1..] == calls[1..] + rest;
      var (c, im) := (calls[0].cpu, calls[0].memory);
      NotBoth(c);
      var n := ReadFacts(c, im, preimage);
      var c' := AfterRead(c, im, preimage).0;
      assert AfterCall(calls[0], oracle) == c';
      if n == 0 {
        assert calls[1..] + rest == rest;
      } else {
        LinkedReads(calls[1..], rest, key, offset + n, oracle, count - n);
      }
    }
  }

  lemma NotBoth(c: Cpu)
    ensures !(IsPreimageRead(c) && IsPreimageWrite(c))
  {
  }

  lemma {:induction false} LinkedFrom(before: seq<Call>, calls: seq<Call>, key: Bytes32, offset: u32, oracle: Bytes32 -> Bytes)
    returns (key': Bytes32, offset': u32)
    requires Linked(before + calls, key, offset, oracle)
    ensures Linked(calls, key', offset', oracle)
    decreases |before|
  {
    hide AfterCall, IsPreimageWrite, IsPreimageRead, Prefixed;
    if before == [] {
      assert before + calls == calls;
      key', offset' := key, offset;
    } else {
      assert (before + calls)[0] == before[0] && (before + calls)[1..] == before[1..] + calls;
      var c' := AfterCall(before[0], oracle);
      key', offset' := LinkedFrom(before[1..], calls, c'.preimageKey, c'.preimageOffset, oracle);
    }
  }

  /** In any run of the VM a program that writes a key and reads the length, then as many bytes, finds the
      oracle's value in its buffers, as `Get` does through a server of that oracle: whatever the alignment
      and chunks of its calls, whatever it does between them, and whatever calls it made before. */
  lemma SamePayloadInRun(c: Cpu, im: Image, oracle: Bytes32 -> Bytes, n: nat, before: seq<Call>, writes: seq<Call>,
                         lengthReads: seq<Call>, payloadReads: seq<Call>, after: seq<Call>, key: Bytes32)
    requires WellFormed(im) && CallsOf(c, im, oracle, n) == before + (writes + (lengthReads + (payloadReads + after)))
    requires |oracle(key)| + 8 < W32
    requires Writes(writes, key) && Reads(lengthReads, oracle, 8)
    requires Reads(payloadReads, oracle, FromBE(Delivered(lengthReads, Prefixed(oracle(key)))))
    ensures Delivered(lengthReads, Prefixed(oracle(key))) == BE(8, |oracle(key)|)
    ensures Delivered(payloadReads, Prefixed(oracle(key))) == oracle(key)
  {
    hide BE, FromBE, WriteRun, ReadRun, KeyAfter, Delivered, Linked, Writes, Reads, CallsOf;
    RunLinks(c, im, oracle, n);
    var key0, offset0 := LinkedFrom(before, writes + (lengthReads + (payloadReads + after)), c.preimageKey, c.preimageOffset, oracle);
    LinkedWrites(writes, lengthReads + (payloadReads + after), key0, offset0, oracle, key);
    WrittenKey(writes, key0, offset0, key);
    assert (key0 + key)[|key|..] == key;
    LinkedReads(lengthReads, payloadReads + after, key, 0, oracle, 8);
    LengthDelivered(lengthReads, key, oracle);
    LinkedReads(payloadReads, after, key, 8, oracle, |oracle(key)|);
    SamePayload(writes, lengthReads, payloadReads, key0, offset0, key, oracle);
  }

  lemma LengthDelivered(calls: seq<Call>, key: Bytes32, oracle: Bytes32 -> Bytes)
    requires ReadRun(calls, key, 0, Prefixed(oracle(key)), 8) && |oracle(key)| + 8 < W32
    ensures Delivered(calls, Prefixed(oracle(key))) == BE(8, |oracle(key)|) && FromBE(BE(8, |oracle(key)|)) == |oracle(key)|
  {
    hide BE, FromBE, ReadRun, Delivered;
    DeliveredBytes(calls, key, 0, Prefixed(oracle(key)), 8);
    PrefixLength(oracle(key));
    assert Prefixed(oracle(key))[0..8] == BE(8, |oracle(key)| % W64);
  }
}
