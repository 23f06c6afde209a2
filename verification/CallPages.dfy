/** The system call page of each process (library/syscall/syscall.h): its layout, and the kernel's access to it through
    the software TLB.  What the kernel's model keeps as one system call for each process is what these pages hold. */
module CallPages {
  import opened Memory
  import opened Processes
  import opened Ipc
  import opened SoftTlb

  const SYSCALL_ARG := 0x8030_1000
  const CALL_BYTES := 1040  // sizeof(struct syscall): 4 words and 1024 bytes

  predicate Int32(x: int) {
    -0x8000_0000 <= x < 0x8000_0000
  }

  /** A system call that fits the struct. */
  predicate CallOk(call: Syscall) {
    Int32(call.kind) && Int32(call.sender) && Int32(call.receiver) && |call.content| == 1024
  }

  /** The bytes of a C int in memory, and back. */
  function IntBytes(x: int): (bytes: seq<byte>)
    requires Int32(x)
    ensures |bytes| == 4
  {
    WordBytes(if x < 0 then x + 0x1_0000_0000 else x)
  }

  function IntOf(bytes: seq<byte>): (x: int)
    requires |bytes| == 4
    ensures Int32(x)
  {
    if WordOf(bytes) >= 0x8000_0000 then WordOf(bytes) - 0x1_0000_0000 else WordOf(bytes)
  }

  lemma IntRoundTrip(x: int)
    requires Int32(x)
    ensures IntOf(IntBytes(x)) == x
  {
    WordRoundTrip(if x < 0 then x + 0x1_0000_0000 else x);
  }

  lemma IntBytesRoundTrip(bytes: seq<byte>)
    requires |bytes| == 4
    ensures IntBytes(IntOf(bytes)) == bytes
  {
    BytesRoundTrip(bytes);
  }

  // ---------------------------------------------------------------- the struct

  function StatusWord(status: CallStatus): int {
    if status == Pending then 0 else 1
  }

  function Encode(call: Syscall): (bytes: seq<byte>)
    requires CallOk(call)
    ensures |bytes| == CALL_BYTES
  {
    IntBytes(call.kind) + IntBytes(call.sender) + IntBytes(call.receiver) + call.content
      + IntBytes(StatusWord(call.status))
  }

  /** The system call in the first bytes of a page; any status but PENDING counts as done. */
  function Decode(bytes: seq<byte>): (call: Syscall)
    requires |bytes| >= CALL_BYTES
    ensures CallOk(call)
  {
    Syscall(IntOf(bytes[0..4]), IntOf(bytes[4..8]), IntOf(bytes[8..12]), bytes[12..1036],
            if IntOf(bytes[1036..1040]) == 0 then Pending else Done)
  }

  /** What is copied in is what is read back, whatever follows it on the page. */
  lemma EncodeDecode(call: Syscall, rest: seq<byte>)
    requires CallOk(call)
    ensures Decode(Encode(call) + rest) == call
  {
    var bytes := Encode(call) + rest;
    assert bytes[0..4] == IntBytes(call.kind);
    assert bytes[4..8] == IntBytes(call.sender);
    assert bytes[8..12] == IntBytes(call.receiver);
    assert bytes[12..1036] == call.content;
    assert bytes[1036..1040] == IntBytes(StatusWord(call.status));
    IntRoundTrip(call.kind);
    IntRoundTrip(call.sender);
    IntRoundTrip(call.receiver);
    IntRoundTrip(StatusWord(call.status));
  }

  /** And the kernel's record of a call is the very bytes of the page, if these are a struct. */
  lemma DecodeEncode(bytes: seq<byte>)
    requires |bytes| == CALL_BYTES && (IntOf(bytes[1036..1040]) == 0 || IntOf(bytes[1036..1040]) == 1)
    ensures Encode(Decode(bytes)) == bytes
  {
    IntBytesRoundTrip(bytes[0..4]);
    IntBytesRoundTrip(bytes[4..8]);
    IntBytesRoundTrip(bytes[8..12]);
    IntBytesRoundTrip(bytes[1036..1040]);
    assert bytes == bytes[0..4] + bytes[4..8] + bytes[8..12] + bytes[12..1036] + bytes[1036..1040];
  }

  /** Where each field is: type, sender and receiver in the first three words, the message in 1024 bytes from the
      twelfth on, and the status, 0 or 1, in the word after it. */
  lemma FieldsOf(call: Syscall, rest: seq<byte>)
    requires CallOk(call)
    ensures var bytes := Encode(call) + rest;
            && HoldsWord(bytes, 0, call.kind) && HoldsWord(bytes, 4, call.sender) && HoldsWord(bytes, 8, call.receiver)
            && bytes[12..1036] == call.content
            && HoldsWord(bytes, 1036, if call.status == Pending then 0 else 1)
  {
    var bytes := Encode(call) + rest;
    assert bytes[0..4] == IntBytes(call.kind);
    assert bytes[4..8] == IntBytes(call.sender);
    assert bytes[8..12] == IntBytes(call.receiver);
    assert bytes[12..1036] == call.content;
    assert bytes[1036..1040] == IntBytes(StatusWord(call.status));
    IntHeld(bytes, 0, call.kind);
    IntHeld(bytes, 4, call.sender);
    IntHeld(bytes, 8, call.receiver);
    IntHeld(bytes, 1036, StatusWord(call.status));
  }

  /** Negative numbers are stored as two's complement. */
  lemma IntHeld(bytes: seq<byte>, at: int, x: int)
    requires 0 <= at <= |bytes| - 4 && Int32(x) && bytes[at..at + 4] == IntBytes(x)
    ensures HoldsWord(bytes, at, x)
  {
    WordHeld(bytes, at);
    var v := if x < 0 then x + 0x1_0000_0000 else x;
    WordRoundTrip(v);
    Wraps(x, v);
  }

  lemma ShiftedBy(x: int, d: int, k: int)
    requires d == 1 || d == 256 || d == 65536 || d == 16777216
    ensures (x + d * k) / d == x / d + k
  {
    if d == 1 {
    } else if d == 256 {
    } else if d == 65536 {
    }
  }

  lemma SameByte(y: int, k: int)
    ensures (y + 256 * k) % 256 == y % 256
  {
  }

  lemma Wraps(x: int, v: int)
    requires v == x || v == x + 0x1_0000_0000
    ensures x % 256 == v % 256 && x / 256 % 256 == v / 256 % 256
    ensures x / 65536 % 256 == v / 65536 % 256 && x / 16777216 % 256 == v / 16777216 % 256
  {
    if v == x + 0x1_0000_0000 {
      SameByte(x, 0x100_0000);
      ShiftedBy(x, 256, 0x100_0000);
      SameByte(x / 256, 0x1_0000);
      ShiftedBy(x, 65536, 0x1_0000);
      SameByte(x / 65536, 256);
      ShiftedBy(x, 16777216, 256);
      SameByte(x / 16777216, 1);
    }
  }

  // ---------------------------------------------------------------- the pages

  function WithCall(page: Page, call: Syscall): Page
    requires CallOk(call)
  {
    Encode(call) + page[1040..]
  }

  /** So on a page with the call: these fields, and after them what was there before. */
  lemma FieldsOnPage(page: Page, call: Syscall)
    requires CallOk(call)
    ensures var bytes := WithCall(page, call);
            && HoldsWord(bytes, 0, call.kind) && HoldsWord(bytes, 4, call.sender) && HoldsWord(bytes, 8, call.receiver)
            && bytes[12..1036] == call.content
            && HoldsWord(bytes, 1036, if call.status == Pending then 0 else 1)
            && bytes[1040..] == page[1040..]
  {
    FieldsOf(call, page[1040..]);
  }

  /** The system call in the private memory of each process. */
  function CallsIn(spaces: Spaces): UserCalls {
    map a | a in spaces && a.vpageNo == SYSCALL_PAGE :: a.pid := Decode(spaces[a])
  }

  lemma CallAt(spaces: Spaces, pid: int)
    ensures pid in CallsIn(spaces) <==> Addr(pid, SYSCALL_PAGE) in spaces
    ensures pid in CallsIn(spaces) ==> CallsIn(spaces)[pid] == Decode(spaces[Addr(pid, SYSCALL_PAGE)])
  {
    if Addr(pid, SYSCALL_PAGE) in spaces {
      assert Addr(pid, SYSCALL_PAGE).pid in CallsIn(spaces);
    }
  }

  /** Putting a call on the page of one process changes that call only. */
  lemma CallPut(spaces: Spaces, spaces': Spaces, pid: int, call: Syscall)
    requires Addr(pid, SYSCALL_PAGE) in spaces && CallOk(call)
    requires spaces' == spaces[Addr(pid, SYSCALL_PAGE) := WithCall(spaces[Addr(pid, SYSCALL_PAGE)], call)]
    ensures CallsIn(spaces') == CallsIn(spaces)[pid := call]
  {
    EncodeDecode(call, spaces[Addr(pid, SYSCALL_PAGE)][1040..]);
    var calls, calls' := CallsIn(spaces)[pid := call], CallsIn(spaces');
    forall p
      ensures p in calls <==> p in calls'
      ensures p in calls ==> calls[p] == calls'[p]
    {
      CallAt(spaces, p);
      CallAt(spaces', p);
    }
  }

  /** What system calls leave alone on a page: all of it, but for the struct on a system call page. */
  ghost predicate KeptAt(a: Addr, page: Page, page': Page) {
    if a.vpageNo == SYSCALL_PAGE then page'[CALL_BYTES..] == page[CALL_BYTES..] else page' == page
  }

  /** The same pages are mapped, and hold the same except for system calls. */
  ghost predicate SameButCalls(spaces: Spaces, spaces': Spaces) {
    && (forall a :: a in spaces' <==> a in spaces)
    && (forall a :: a in spaces ==> KeptAt(a, spaces[a], spaces'[a]))
  }

  lemma KeptTwice(spaces: Spaces, spaces1: Spaces, spaces2: Spaces)
    requires SameButCalls(spaces, spaces1) && SameButCalls(spaces1, spaces2)
    ensures SameButCalls(spaces, spaces2)
  {
  }

  lemma CallKeeps(spaces: Spaces, a: Addr, call: Syscall)
    requires a in spaces && a.vpageNo == SYSCALL_PAGE && CallOk(call)
    ensures SameButCalls(spaces, spaces[a := WithCall(spaces[a], call)])
  {
  }

  /** excp_entry copies the arguments of a system call from user space. */
  method Fetch(mmu: Mmu, pid: int) returns (call: Syscall)
    requires mmu.Valid() && pid > 0 && pid in CallsIn(mmu.spaces)
    modifies mmu`currVmPid, mmu.mem
    ensures mmu.Valid() && mmu.currVmPid == pid
    ensures pid in CallsIn(mmu.spaces) && call == CallsIn(mmu.spaces)[pid]
  {
    CallAt(mmu.spaces, pid);
    var paddr := mmu.Translate(pid, SYSCALL_ARG);
    var page := mmu.Load(paddr / 4096);
    call := Decode(page);
  }

  /** The rest of Deliver, once the page is accessible. */
  method CopyCall(mmu: Mmu, call: Syscall)
    requires mmu.Valid() && Addr(mmu.currVmPid, SYSCALL_PAGE) in mmu.spaces && CallOk(call)
    modifies mmu`spaces, mmu.mem
    ensures mmu.Valid() && CallsIn(mmu.spaces) == CallsIn(old(mmu.spaces))[mmu.currVmPid := call]
    ensures SameButCalls(old(mmu.spaces), mmu.spaces)
    ensures var a := Addr(mmu.currVmPid, SYSCALL_PAGE);
            mmu.spaces == old(mmu.spaces)[a := WithCall(old(mmu.spaces)[a], call)]
  {
    ghost var before := mmu.spaces;
    var page := mmu.Load(SYSCALL_PAGE);
    CallKeeps(before, Addr(mmu.currVmPid, SYSCALL_PAGE), call);
    mmu.Store(SYSCALL_PAGE, WithCall(page, call));
    CallPut(before, mmu.spaces, mmu.currVmPid, call);
  }

  /** proc_try_recv copies a completed call to the page of the receiver, whichever process is current.  Only that page
      changes, and only where the struct is. */
  method Deliver(mmu: Mmu, pid: int, call: Syscall)
    requires mmu.Valid() && pid > 0 && pid in CallsIn(mmu.spaces) && CallOk(call)
    modifies mmu`currVmPid, mmu`spaces, mmu.mem
    ensures mmu.Valid() && mmu.currVmPid == pid
    ensures CallsIn(mmu.spaces) == CallsIn(old(mmu.spaces))[pid := call] && SameButCalls(old(mmu.spaces), mmu.spaces)
    ensures var a := Addr(pid, SYSCALL_PAGE);
            a in old(mmu.spaces) && mmu.spaces == old(mmu.spaces)[a := WithCall(old(mmu.spaces)[a], call)]
  {
    CallAt(mmu.spaces, pid);
    var paddr := mmu.Translate(pid, SYSCALL_ARG);
    assert paddr / 4096 == SYSCALL_PAGE;
    CopyCall(mmu, call);
  }
}
