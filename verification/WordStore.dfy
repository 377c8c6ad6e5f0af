// The memory contents of core-project/memory.cc:64-98: a byte array read and written a
// word at a time, and the map of 64-bit words it stands for.
module WordStore {
  import opened MachineWords
  import opened Channels

  type Byte = x: int | 0 <= x < 256

  const MEM_SIZE: int := 64 * 1024 * 1024
  const WORD_BYTES: int := 8
  const INST_BYTES: int := 16

  ghost function Limit(n: nat): nat {
    if n == 0 then 1 else 256 * Limit(n - 1)
  }

  // The value of bytes whose first byte is the least significant one.
  ghost function LittleEndian(s: seq<Byte>): (v: nat)
    ensures v < Limit(|s|)
  {
    if s == [] then 0 else s[0] + 256 * LittleEndian(s[1..])
  }

  // The value of bytes whose first byte is the most significant one.
  ghost function BigEndian(s: seq<Byte>): nat {
    if s == [] then 0 else 256 * BigEndian(s[..|s| - 1]) + s[|s| - 1]
  }

  // Byte k of a value, counted from the least significant one.
  function ByteAt(v: nat, k: nat): Byte {
    if k == 0 then v % 256 else ByteAt(v / 256, k - 1)
  }

  lemma {:induction false} BytesDenote(v: nat, s: seq<Byte>)
    requires v < Limit(|s|)
    requires forall k :: 0 <= k < |s| ==> s[k] == ByteAt(v, k)
    ensures LittleEndian(s) == v
  {
    if s != [] {
      assert forall k :: 0 <= k < |s| - 1 ==> s[1..][k] == ByteAt(v, k + 1);
      BytesDenote(v / 256, s[1..]);
    }
  }

  // The decoder finds the bytes of an instruction word in memory order, first byte on top.
  lemma {:induction false} InstructionBytes(s: seq<Byte>, k: nat)
    requires k < |s|
    ensures ByteAt(BigEndian(s), |s| - 1 - k) == s[k]
  {
    if k < |s| - 1 {
      InstructionBytes(s[..|s| - 1], k);
    }
  }

  // The value of a data word, byte by byte.
  lemma WordOfBytes(s: seq<Byte>)
    requires |s| == WORD_BYTES
    ensures LittleEndian(s) == (s[0] as int) + 0x100 * (s[1] as int) + 0x1_0000 * (s[2] as int)
                               + 0x100_0000 * (s[3] as int) + 0x1_0000_0000 * (s[4] as int)
                               + 0x100_0000_0000 * (s[5] as int) + 0x1_0000_0000_0000 * (s[6] as int)
                               + 0x100_0000_0000_0000 * (s[7] as int)
  {
    TwoBytes(s);
    TwoBytes(s[2..]);
    TwoBytes(s[4..]);
    TwoBytes(s[6..]);
    assert s[2..][2..] == s[4..] && s[4..][2..] == s[6..] && s[6..][2..] == [];
  }

  lemma TwoBytes(s: seq<Byte>)
    requires |s| >= 2
    ensures LittleEndian(s) == (s[0] as int) + 0x100 * (s[1] as int) + 0x1_0000 * LittleEndian(s[2..])
  {
    assert s[1..][1..] == s[2..];
  }

  lemma WordLimit()
    ensures Limit(WORD_BYTES) == TWO64
  {
    assert Limit(4) == 0x1_0000_0000;
    assert Limit(6) == 0x1_0000_0000_0000;
  }

  ghost predicate IsWordAddress(addr: Addr, size: nat) {
    0 <= addr && addr + WORD_BYTES <= size && addr % WORD_BYTES == 0
  }

  ghost function WordAt(bytes: seq<Byte>, addr: Addr): Word
    requires IsWordAddress(addr, |bytes|)
  {
    WordLimit();
    LittleEndian(bytes[addr..addr + WORD_BYTES])
  }

  // The word map a byte array stands for.
  ghost function Words(bytes: seq<Byte>): map<Addr, Word> {
    map addr | 0 <= addr < |bytes| && IsWordAddress(addr, |bytes|) :: WordAt(bytes, addr)
  }

  // Storing the eight bytes of a word changes that word of the map and no other.
  lemma StoreRefines(before: seq<Byte>, after: seq<Byte>, addr: Addr, data: Word)
    requires |after| == |before| && IsWordAddress(addr, |before|)
    requires forall k :: 0 <= k < WORD_BYTES ==> after[addr + k] == ByteAt(data, k)
    requires forall x :: 0 <= x < |before| && !(addr <= x < addr + WORD_BYTES) ==> after[x] == before[x]
    ensures Words(after) == Words(before)[addr := data]
  {
    WordLimit();
    BytesDenote(data, after[addr..addr + WORD_BYTES]);
    forall other | IsWordAddress(other, |before|) && other != addr
      ensures WordAt(after, other) == WordAt(before, other)
    {
      assert other + WORD_BYTES <= addr || addr + WORD_BYTES <= other;
      assert after[other..other + WORD_BYTES] == before[other..other + WORD_BYTES];
    }
  }

  // memory.cc:88-98
  method MemDWrite(mem: array<Byte>, addr: Addr, data: Word)
    requires IsWordAddress(addr, mem.Length)
    modifies mem
    ensures Words(mem[..]) == old(Words(mem[..]))[addr := data]
    ensures forall k :: 0 <= k < WORD_BYTES ==> mem[addr + k] == ByteAt(data, k)
  {
    for bytes := 0 to WORD_BYTES
      invariant forall k :: 0 <= k < bytes ==> mem[addr + k] == ByteAt(data, k)
      invariant forall x :: 0 <= x < mem.Length && !(addr <= x < addr + WORD_BYTES) ==> mem[x] == old(mem[x])
    {
      mem[addr + bytes] := ByteAt(data, bytes);
    }
    StoreRefines(old(mem[..]), mem[..], addr, data);
  }

  // memory.cc:75-86
  method MemDRead(mem: array<Byte>, addr: Addr) returns (v: Word)
    requires IsWordAddress(addr, mem.Length)
    ensures v == Words(mem[..])[addr]
  {
    var value: nat := 0;
    ghost var word := mem[addr..addr + WORD_BYTES];
    for bytes := 0 to WORD_BYTES
      invariant value == LittleEndian(word[WORD_BYTES - bytes..])
    {
      value := value * 256 + mem[addr + WORD_BYTES - bytes - 1];
      assert word[WORD_BYTES - bytes - 1..][1..] == word[WORD_BYTES - bytes..];
    }
    assert mem[..][addr..addr + WORD_BYTES] == word[0..];
    WordLimit();
    v := value;
  }

  ghost predicate IsInstAddress(addr: Addr, size: nat) {
    0 <= addr && addr + INST_BYTES <= size && addr % INST_BYTES == 0
  }

  ghost function InstAt(bytes: seq<Byte>, addr: Addr): nat
    requires IsInstAddress(addr, |bytes|)
  {
    BigEndian(bytes[addr..addr + INST_BYTES])
  }

  // memory.cc:63-73
  method MemIRead(mem: array<Byte>, addr: Addr) returns (v: nat)
    requires IsInstAddress(addr, mem.Length)
    ensures v == InstAt(mem[..], addr)
  {
    v := 0;
    ghost var line := mem[..][addr..addr + INST_BYTES];
    for bytes := 0 to INST_BYTES
      invariant v == BigEndian(line[..bytes])
    {
      v := v * 256 + mem[addr + bytes];
      assert line[..bytes + 1][..bytes] == line[..bytes];
    }
    assert line[..INST_BYTES] == line;
  }

  // ---- the requests, and the words they leave behind ----

  // What one request port asks for (const.h:28-32).
  datatype Request = Idle | Read(tag: Tag, addr: Addr) | Write(tag: Tag, addr: Addr, data: Word)

  ghost function WriteOne(words: map<Addr, Word>, r: Request): map<Addr, Word> {
    if r.Write? then words[r.addr := r.data] else words
  }

  ghost function WriteAll(words: map<Addr, Word>, reqs: seq<Request>): map<Addr, Word> {
    if reqs == [] then words else WriteOne(WriteAll(words, reqs[..|reqs| - 1]), reqs[|reqs| - 1])
  }

  ghost predicate WritesTo(r: Request, addr: Addr) {
    r.Write? && r.addr == addr
  }

  // A word holds what the last write to it stored,
  lemma {:induction false} LastWriteWins(words: map<Addr, Word>, reqs: seq<Request>, addr: Addr, k: nat)
    requires k < |reqs| && WritesTo(reqs[k], addr)
    requires forall j :: k < j < |reqs| ==> !WritesTo(reqs[j], addr)
    ensures addr in WriteAll(words, reqs) && WriteAll(words, reqs)[addr] == reqs[k].data
    decreases |reqs|
  {
    if k < |reqs| - 1 {
      LastWriteWins(words, reqs[..|reqs| - 1], addr, k);
    }
  }

  // and what it held at first when there was none.
  lemma {:induction false} NeverWritten(words: map<Addr, Word>, reqs: seq<Request>, addr: Addr)
    requires forall j :: 0 <= j < |reqs| ==> !WritesTo(reqs[j], addr)
    ensures addr in WriteAll(words, reqs) <==> addr in words
    ensures addr in words ==> WriteAll(words, reqs)[addr] == words[addr]
    decreases |reqs|
  {
    if reqs != [] {
      NeverWritten(words, reqs[..|reqs| - 1], addr);
    }
  }
}
