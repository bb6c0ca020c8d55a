/**
 FileBucket: a key-to-bytes store over one flat file, with slots rounded up to a block size
 (example/conduits/FileBucket.d).
 */
module FileBuckets {
  import opened BlockRounding

  newtype byte = x: int | 0 <= x < 256

  type Bytes = seq<byte>

  function Greatest(a: nat, b: nat): nat {
    if a >= b then a else b
  }

  /** `s` cut or zero-extended to `n` bytes. */
  function Resized(s: Bytes, n: nat): (r: Bytes)
    ensures |r| == n
    ensures forall i | 0 <= i < n && i < |s| :: r[i] == s[i]
  {
    if n <= |s| then s[..n] else s + seq(n - |s|, _ => 0)
  }

  /** `s` with `data` written at `off`, and grown as far as that takes. */
  function WriteAt(s: Bytes, off: nat, data: Bytes): (r: Bytes)
    ensures |r| == if data == [] then |s| else Greatest(|s|, off + |data|)
    ensures off <= |s| ==> r[off..off + |data|] == data
    ensures forall i | 0 <= i < |s| && !(off <= i < off + |data|) :: r[i] == s[i]
  {
    if data == [] then s
    else
      var t := Resized(s, Greatest(|s|, off + |data|));
      t[..off] + data + t[off + |data|..]
  }

  // ---------------------------------------------------------------- the bucket as a value

  /** The fields of a record; `relocations` and `longest` are for the proofs. */
  datatype Slot = Slot(offset: int, length: int, capacity: int, relocations: nat, longest: nat)

  const NO_SLOT := Slot(0, 0, -1, 0, 0)

  /** The file and how much of it is in use; `used` holds the capacity of every slot ever created. */
  datatype Space = Space(content: Bytes, fileSize: nat, waterLine: int, used: seq<int>)

  datatype Store = Store(slots: map<string, Slot>, space: Space)

  datatype Reply = Done | NotFound | Failed | Found(data: Bytes)

  function SlotOf(st: Store, key: string): Slot {
    if key in st.slots then st.slots[key] else NO_SLOT
  }

  /** A content of `n` bytes needs a new slot. */
  predicate Moves(was: Slot, n: nat) {
    ToSigned(n) > was.capacity
  }

  /** A record after a write of `n` bytes: in place, or moved to a new slot at the waterline. */
  function Rewrite(was: Slot, n: nat, mask: nat, line: int): Slot {
    var longest := Greatest(was.longest, n);
    if !Moves(was, n) then Slot(was.offset, ToSigned(n), was.capacity, was.relocations, longest)
    else
      Slot(line, ToSigned(n), NewCapacity(ToSigned(n), mask),
           was.relocations + (if was.capacity == -1 then 0 else 1), longest)
  }

  /** A new slot raises the waterline, and a file it does not fit grows to twice that. */
  function Allocate(sp: Space, capacity: int): Space {
    var line, used := sp.waterLine + capacity, sp.used + [capacity];
    if line > sp.fileSize then Space(Resized(sp.content, 2 * line), 2 * line, line, used)
    else Space(sp.content, sp.fileSize, line, used)
  }

  /** What `write` does to the file; a negative position is an error. */
  function WriteSpace(sp: Space, was: Slot, data: Bytes, mask: nat): Space {
    var now := Rewrite(was, |data|, mask, sp.waterLine);
    var room := if Moves(was, |data|) then Allocate(sp, now.capacity) else sp;
    if now.offset < 0 then room else room.(content := WriteAt(room.content, now.offset, data))
  }

  function PutIn(st: Store, key: string, data: Bytes, mask: nat): Store {
    var was := SlotOf(st, key);
    Store(st.slots[key := Rewrite(was, |data|, mask, st.space.waterLine)], WriteSpace(st.space, was, data, mask))
  }

  /** What `read` returns or raises. */
  function ReadSlot(content: Bytes, s: Slot): Reply {
    if s.offset < 0 || s.length < 0 then Failed
    else if s.length == 0 then Found([])
    else if s.offset + s.length > |content| then Failed
    else Found(content[s.offset..s.offset + s.length])
  }

  function GetFrom(st: Store, key: string): Reply {
    if key in st.slots then ReadSlot(st.space.content, st.slots[key]) else NotFound
  }

  /** A bucket just opened. */
  function Empty(mask: nat, initialRecords: nat): Store {
    var size := (initialRecords * mask) % TWO_32;
    Store(map[], Space(Resized([], size), size, 0, []))
  }

  function RemoveFrom(st: Store, key: string): Store {
    st.(slots := st.slots - {key})
  }

  // ---------------------------------------------------------------- the layout of the file

  /** Rounding up a content of this size does not overflow an `int`. */
  predicate Fits(bytes: nat, mask: nat) {
    bytes + mask <= INT_MAX
  }

  function Sum(s: seq<int>): int {
    if s == [] then 0 else Sum(s[..|s| - 1]) + s[|s| - 1]
  }

  predicate Disjoint(r: Slot, s: Slot) {
    r.offset + r.capacity <= s.offset || s.offset + s.capacity <= r.offset
  }

  /**
   A slot in place: inside the used part of the file, with room for its content, a whole number of
   blocks long.  Every relocation has gained a block, and no more blocks than the longest content needs.
   */
  ghost predicate Placed(r: Slot, waterLine: int, block: int)
    requires block > 0
  {
    && 0 <= r.offset && 0 <= r.length <= r.capacity && r.offset + r.capacity <= waterLine
    && r.capacity % block == 0 && r.capacity <= INT_MAX
    && r.relocations * block <= r.capacity
    && r.length <= r.longest && r.capacity < r.longest + block
  }

  ghost predicate Layout(slots: map<string, Slot>, waterLine: int, block: int)
    requires block > 0
  {
    && (forall k | k in slots :: Placed(slots[k], waterLine, block))
    && (forall k, l | k in slots && l in slots && k != l :: Disjoint(slots[k], slots[l]))
  }

  ghost predicate SoundSpace(sp: Space) {
    |sp.content| == sp.fileSize && 0 <= sp.waterLine <= sp.fileSize && sp.waterLine == Sum(sp.used)
  }

  /** Slots are disjoint and lie below the waterline, which is the sum of all capacities and within the file. */
  ghost predicate Sound(st: Store, mask: nat) {
    IsMask(mask) && SoundSpace(st.space) && Layout(st.slots, st.space.waterLine, mask + 1)
  }

  /** The bytes of a slot's content; `[]` outside the file. */
  function Slice(content: Bytes, r: Slot): Bytes {
    if 0 <= r.offset && 0 <= r.length && r.offset + r.length <= |content|
    then content[r.offset..r.offset + r.length] else []
  }

  /** What is stored, read off the file. */
  ghost function Stored(slots: map<string, Slot>, content: Bytes): map<string, Bytes> {
    map k | k in slots :: Slice(content, slots[k])
  }

  ghost function Contents(st: Store): map<string, Bytes> {
    Stored(st.slots, st.space.content)
  }

  /** What fits a slot in use also fits an `int` when rounded up, since 2^31 is a multiple of the block. */
  lemma InPlaceFits(r: Slot, n: nat, mask: nat)
    requires IsMask(mask) && n <= r.capacity <= INT_MAX && r.capacity % (mask + 1) == 0
    ensures Fits(n, mask)
  {
    MaskDivides(mask);
    MultiplesAreApart(r.capacity, INT_MAX + 1, mask + 1);
  }

  /** Moving from one block multiple to a larger one gains at least a block. */
  lemma RelocationGrows(before: int, after: int, relocations: nat, block: int)
    requires block > 0 && after % block == 0 && after >= 0
    requires if before == -1 then relocations == 0 else before >= 0 && before % block == 0 && before < after
    requires relocations * block <= if before == -1 then 0 else before
    ensures before == -1 || after >= before + block
    ensures (relocations + if before == -1 then 0 else 1) * block <= after
  {
    if before >= 0 {
      MultiplesAreApart(before, after, block);
      assert (relocations + 1) * block == relocations * block + block;
    }
  }

  /** When the rounded size fits, the rewritten record is in place, in its old slot or at the old waterline. */
  lemma RewrittenFits(was: Slot, n: nat, mask: nat, line: int)
    requires IsMask(mask) && Fits(n, mask) && 0 <= line
    requires was == NO_SLOT || Placed(was, line, mask + 1)
    ensures var now := Rewrite(was, n, mask, line);
      && now.length == n
      && (Moves(was, n) <==> n > was.capacity)
      && Placed(now, if n > was.capacity then line + now.capacity else line, mask + 1)
      && if n > was.capacity then now.offset == line && IsRoundedUp(now.capacity, n, mask + 1)
         else was != NO_SLOT && now.offset == was.offset && now.capacity == was.capacity
  {
    SlotHoldsData(n, mask);
    if Moves(was, n) {
      RelocationGrows(was.capacity, NewCapacity(n, mask), was.relocations, mask + 1);
    }
  }

  lemma AllocationIsSound(sp: Space, capacity: nat)
    requires SoundSpace(sp)
    ensures var sp' := Allocate(sp, capacity);
      SoundSpace(sp') && sp.content <= sp'.content && sp.used <= sp'.used && sp.fileSize <= sp'.fileSize
  {
    assert (sp.used + [capacity])[..|sp.used|] == sp.used;
  }

  /** What one write may do to the file: only the bytes of `r` change, and the file may grow. */
  ghost predicate WritesOnly(before: Bytes, after: Bytes, r: Slot, data: Bytes) {
    && |before| <= |after| && 0 <= r.offset && r.length == |data| && r.offset + |data| <= |after|
    && after[r.offset..r.offset + |data|] == data
    && forall i | 0 <= i < |before| && !(r.offset <= i < r.offset + |data|) :: after[i] == before[i]
  }

  /** Slot `r` replaces the slot of `key` in place, or lies beyond everything used so far. */
  ghost predicate Claims(slots: map<string, Slot>, key: string, r: Slot, waterLine: int) {
    r.offset >= waterLine || (key in slots && r.offset == slots[key].offset && r.capacity == slots[key].capacity)
  }

  lemma WriteKeepsLayout(slots: map<string, Slot>, key: string, r: Slot, waterLine: int, waterLine': int, block: int)
    requires block > 0 && Layout(slots, waterLine, block) && Claims(slots, key, r, waterLine)
    requires waterLine <= waterLine' && Placed(r, waterLine', block)
    ensures Layout(slots[key := r], waterLine', block)
  {
  }

  predicate InFile(s: Slot, content: Bytes) {
    0 <= s.offset && 0 <= s.length && s.offset + s.length <= |content|
  }

  /** The content of `s` ends where `n` bytes written to `r` start, or starts where they end. */
  predicate Apart(s: Slot, r: Slot, n: nat) {
    s.offset + s.length <= r.offset || r.offset + n <= s.offset
  }

  lemma WriteKeepsBytes(s: Slot, r: Slot, before: Bytes, after: Bytes, data: Bytes)
    requires InFile(s, before) && Apart(s, r, |data|) && WritesOnly(before, after, r, data)
    ensures Slice(after, s) == Slice(before, s)
  {
  }

  /** Writing one slot apart from all other contents sets exactly that key. */
  lemma WriteSetsOneKey(slots: map<string, Slot>, key: string, r: Slot, before: Bytes, after: Bytes, data: Bytes)
    requires WritesOnly(before, after, r, data)
    requires forall k | k in slots && k != key :: InFile(slots[k], before) && Apart(slots[k], r, |data|)
    ensures Stored(slots[key := r], after) == Stored(slots, before)[key := data]
  {
    forall k | k in slots && k != key ensures Slice(after, slots[k]) == Slice(before, slots[k]) {
      WriteKeepsBytes(slots[k], r, before, after, data);
    }
    assert Slice(after, r) == data;
  }

  /** Writing one slot, in place or at the waterline, keeps the layout and every other key's bytes. */
  lemma WriteKeepsOthers(slots: map<string, Slot>, key: string, r: Slot, before: Bytes, after: Bytes, data: Bytes,
                         waterLine: int, waterLine': int, block: int)
    requires block > 0 && Layout(slots, waterLine, block) && waterLine <= |before|
    requires waterLine <= waterLine' <= |after| && Placed(r, waterLine', block)
    requires Claims(slots, key, r, waterLine)
    requires WritesOnly(before, after, r, data)
    ensures Layout(slots[key := r], waterLine', block)
    ensures Stored(slots[key := r], after) == Stored(slots, before)[key := data]
  {
    WriteKeepsLayout(slots, key, r, waterLine, waterLine', block);
    assert forall k | k in slots && k != key :: InFile(slots[k], before) && Apart(slots[k], r, |data|);
    WriteSetsOneKey(slots, key, r, before, after, data);
  }

  /** What a write of a size that fits does to the space of a sound store. */
  lemma WriteFits(sp: Space, was: Slot, data: Bytes, mask: nat)
    requires IsMask(mask) && Fits(|data|, mask) && SoundSpace(sp)
    requires was == NO_SLOT || Placed(was, sp.waterLine, mask + 1)
    ensures var sp', now := WriteSpace(sp, was, data, mask), Rewrite(was, |data|, mask, sp.waterLine);
      && SoundSpace(sp') && WritesOnly(sp.content, sp'.content, now, data) && Placed(now, sp'.waterLine, mask + 1)
      && sp.waterLine <= sp'.waterLine && sp.used <= sp'.used && sp.fileSize <= sp'.fileSize
  {
    RewrittenFits(was, |data|, mask, sp.waterLine);
    if Moves(was, |data|) {
      AllocationIsSound(sp, Rewrite(was, |data|, mask, sp.waterLine).capacity);
    }
  }

  /** If the rounded size fits, `put` keeps the store sound and sets exactly that key. */
  lemma PutThatFits(st: Store, key: string, data: Bytes, mask: nat)
    requires Sound(st, mask) && Fits(|data|, mask)
    ensures var st' := PutIn(st, key, data, mask);
      && Sound(st', mask) && Contents(st') == Contents(st)[key := data] && st'.slots[key].offset >= 0
      && st.space.waterLine <= st'.space.waterLine && st.space.used <= st'.space.used
      && st.space.fileSize <= st'.space.fileSize
  {
    var st', was := PutIn(st, key, data, mask), SlotOf(st, key);
    WriteFits(st.space, was, data, mask);
    RewrittenFits(was, |data|, mask, st.space.waterLine);
    WriteKeepsOthers(st.slots, key, st'.slots[key], st.space.content, st'.space.content, data,
                     st.space.waterLine, st'.space.waterLine, mask + 1);
  }

  lemma SoundReads(s: Slot, content: Bytes)
    requires InFile(s, content)
    ensures ReadSlot(content, s) == Found(Slice(content, s))
  {
  }

  // ---------------------------------------------------------------- after an overflow

  /** The slot of a content whose rounding has overflowed: at the waterline of the time, without room. */
  predicate Tail(s: Slot, line: int, content: Bytes) {
    s.offset == line && s.capacity == -INT_MAX - 1 && 0 < s.length <= INT_MAX && line + s.length <= |content|
  }

  /** The put of `over` has overflowed: its content lies behind all others, and the waterline 2^31 too low. */
  ghost predicate Tipped(st: Store, over: string, line: int, mask: nat) {
    && IsMask(mask)
    && 0 <= line <= st.space.fileSize <= |st.space.content| && st.space.waterLine == line - INT_MAX - 1
    && Layout(st.slots - {over}, line, mask + 1)
    && (over in st.slots ==> Tail(st.slots[over], line, st.space.content))
  }

  lemma OverflowWrites(sp: Space, was: Slot, data: Bytes, mask: nat)
    requires IsMask(mask) && SoundSpace(sp) && |data| <= INT_MAX && !Fits(|data|, mask)
    requires was == NO_SLOT || Placed(was, sp.waterLine, mask + 1)
    ensures var sp', now := WriteSpace(sp, was, data, mask), Rewrite(was, |data|, mask, sp.waterLine);
      && Tail(now, sp.waterLine, sp'.content) && WritesOnly(sp.content, sp'.content, now, data)
      && sp'.fileSize == sp.fileSize && sp'.waterLine == sp.waterLine - INT_MAX - 1
  {
    SlotHoldsData(|data|, mask);
    MaskDivides(mask);
    if !Moves(was, |data|) {
      InPlaceFits(was, |data|, mask);
    }
  }

  /** Right after the first overflow the store is no longer sound, but everything is still read back. */
  lemma OverflowTips(st: Store, key: string, data: Bytes, mask: nat)
    requires Sound(st, mask) && |data| <= INT_MAX && !Fits(|data|, mask)
    ensures var st' := PutIn(st, key, data, mask);
      && Tipped(st', key, st.space.waterLine, mask) && Contents(st') == Contents(st)[key := data]
      && !Sound(st', mask)
  {
    var st', was := PutIn(st, key, data, mask), SlotOf(st, key);
    var now := st'.slots[key];
    OverflowWrites(st.space, was, data, mask);
    assert st'.slots - {key} == st.slots - {key};
    forall k | k in st.slots && k != key
      ensures InFile(st.slots[k], st.space.content) && Apart(st.slots[k], now, |data|)
    {
      assert Placed(st.slots[k], st.space.waterLine, mask + 1);
    }
    WriteSetsOneKey(st.slots, key, now, st.space.content, st'.space.content, data);
  }

  /** A content of 2^31 bytes or more gets a negative length and no slot that holds it. */
  lemma HugeIsUnsound(st: Store, key: string, data: Bytes, mask: nat)
    requires INT_MAX < |data| < TWO_32
    ensures !Sound(PutIn(st, key, data, mask), mask) && GetFrom(PutIn(st, key, data, mask), key) == Failed
  {
    ToUnsignedOfSigned(|data|);
    var st' := PutIn(st, key, data, mask);
    assert st'.slots[key].length < 0;
    assert IsMask(mask) ==> !Placed(st'.slots[key], st'.space.waterLine, mask + 1);
  }

  /**
   What a `put` does to a sound store: it stays sound if and only if the rounded size of the data fits an `int`;
   data shorter than 2^31 bytes are then stored under the key, and no other key changes.
   */
  ghost predicate PutDoes(st: Store, st': Store, key: string, data: Bytes, mask: nat) {
    && (Sound(st', mask) <==> Fits(|data|, mask))
    && (|data| <= INT_MAX ==>
          key in st'.slots && st'.slots[key].offset >= 0 && Contents(st') == Contents(st)[key := data])
    && (Fits(|data|, mask) ==>
          && st.space.waterLine <= st'.space.waterLine && st.space.used <= st'.space.used
          && st.space.fileSize <= st'.space.fileSize)
  }

  lemma PutOnSound(st: Store, key: string, data: Bytes, mask: nat)
    requires Sound(st, mask) && |data| < TWO_32
    ensures PutDoes(st, PutIn(st, key, data, mask), key, data, mask)
  {
    if Fits(|data|, mask) {
      PutThatFits(st, key, data, mask);
    } else if |data| <= INT_MAX {
      OverflowTips(st, key, data, mask);
    } else {
      HugeIsUnsound(st, key, data, mask);
    }
  }

  /** After an overflow, a `put` that needs no new slot still does what it should. */
  lemma PutInPlaceAfterOverflow(st: Store, over: string, line: int, key: string, data: Bytes, mask: nat)
    requires Tipped(st, over, line, mask) && |data| <= INT_MAX && !Moves(SlotOf(st, key), |data|)
    ensures var st' := PutIn(st, key, data, mask);
      Tipped(st', over, line, mask) && Contents(st') == Contents(st)[key := data] && st'.slots[key].offset >= 0
  {
    var st' := PutIn(st, key, data, mask);
    var others, now := st.slots - {over}, st'.slots[key];
    assert key in others && Placed(others[key], line, mask + 1) && Placed(now, line, mask + 1);
    assert st'.slots - {over} == others[key := now];
    WriteKeepsLayout(others, key, now, line, line, mask + 1);
    forall k | k in st.slots && k != key
      ensures InFile(st.slots[k], st.space.content) && Apart(st.slots[k], now, |data|)
    {
      if k != over {
        assert others[k] == st.slots[k];
      }
    }
    WriteSetsOneKey(st.slots, key, now, st.space.content, st'.space.content, data);
  }

  lemma TippedIsInFile(st: Store, over: string, line: int, mask: nat, k: string)
    requires Tipped(st, over, line, mask) && k in st.slots
    ensures InFile(st.slots[k], st.space.content)
  {
    if k != over {
      assert k in st.slots - {over};
      assert Placed((st.slots - {over})[k], line, mask + 1);
    }
  }

  /** `now` is `was` with `data` written over it from position `-at` on, as far as the two meet. */
  ghost predicate OverwrittenBy(was: Bytes, now: Bytes, at: int, data: Bytes) {
    && |now| == |was|
    && forall i | 0 <= i < |was| :: now[i] == if 0 <= at + i < |data| then data[at + i] else was[i]
  }

  lemma WriteAtByte(content: Bytes, off: nat, data: Bytes, j: nat)
    requires off + |data| <= |content| && j < |content|
    ensures WriteAt(content, off, data)[j] == if 0 <= j - off < |data| then data[j - off] else content[j]
  {
    if 0 <= j - off < |data| {
      var end := off + |data|;
      assert WriteAt(content, off, data)[off..end][j - off] == data[j - off];
    }
  }

  lemma WriteOverSlot(s: Slot, content: Bytes, off: nat, data: Bytes)
    requires InFile(s, content) && off + |data| <= |content|
    ensures OverwrittenBy(Slice(content, s), Slice(WriteAt(content, off, data), s), s.offset - off, data)
  {
    forall i | 0 <= i < s.length
      ensures Slice(WriteAt(content, off, data), s)[i] ==
              if 0 <= s.offset - off + i < |data| then data[s.offset - off + i] else Slice(content, s)[i]
    {
      WriteAtByte(content, off, data, s.offset + i);
    }
  }

  lemma NewSlotWrites(st: Store, over: string, line: int, key: string, data: Bytes, mask: nat)
    requires Tipped(st, over, line, mask) && |data| <= INT_MAX && Moves(SlotOf(st, key), |data|)
    ensures var sp', now := PutIn(st, key, data, mask).space, PutIn(st, key, data, mask).slots[key];
      && now.offset == line - INT_MAX - 1 && now.length == |data|
      && now.offset + |data| <= |st.space.content|
      && sp'.content == if now.offset < 0 then st.space.content else WriteAt(st.space.content, now.offset, data)
  {
    assert NewCapacity(|data|, mask) <= INT_MAX;
  }

  /** What is left of the content of another key, when `data` was written at `low`, unless that fails. */
  ghost predicate LeftOver(s: Slot, was: Bytes, now: Bytes, low: int, data: Bytes) {
    if low < 0 then now == was else OverwrittenBy(was, now, s.offset - low, data)
  }

  /**
   After an overflow, a `put` that needs a new slot goes 2^31 bytes too low.  Below the start of the file it
   fails, and nothing but that key is lost; otherwise every byte that another key has in the way is overwritten.
   */
  lemma NewSlotAfterOverflow(st: Store, over: string, line: int, key: string, data: Bytes, mask: nat)
    requires Tipped(st, over, line, mask) && |data| <= INT_MAX && Moves(SlotOf(st, key), |data|)
    ensures var st', low := PutIn(st, key, data, mask), line - INT_MAX - 1;
      && st'.slots[key].offset == low
      && GetFrom(st', key) == (if low < 0 then Failed else Found(data))
      && forall k | k in st.slots && k != key ::
           LeftOver(st.slots[k], Contents(st)[k], Contents(st')[k], low, data)
  {
    NewSlotWrites(st, over, line, key, data, mask);
    var st', low := PutIn(st, key, data, mask), line - INT_MAX - 1;
    if low >= 0 {
      SoundReads(st'.slots[key], st'.space.content);
    }
    forall k | k in st.slots && k != key
      ensures LeftOver(st.slots[k], Contents(st)[k], Contents(st')[k], low, data)
    {
      TippedIsInFile(st, over, line, mask, k);
      OthersAfterNewSlot(st.slots[k], st.space.content, st'.space.content, low, data);
    }
  }

  lemma OthersAfterNewSlot(s: Slot, content: Bytes, content': Bytes, low: int, data: Bytes)
    requires InFile(s, content) && low + |data| <= |content|
    requires content' == if low < 0 then content else WriteAt(content, low, data)
    ensures LeftOver(s, Slice(content, s), Slice(content', s), low, data)
  {
    if low >= 0 {
      WriteOverSlot(s, content, low, data);
    }
  }

  // ---------------------------------------------------------------- the file and the classes

  /** The storage file: its bytes and the position of the next transfer. */
  class File {
    var content: Bytes
    var pos: nat

    constructor ()
      ensures content == [] && pos == 0
    {
      content, pos := [], 0;
    }

    /** A position before the start of the file is an error. */
    method Seek(offset: int) returns (ok: bool)
      modifies this`pos
      ensures ok <==> offset >= 0
      ensures pos == if ok then offset else old(pos)
    {
      ok := offset >= 0;
      if ok {
        pos := offset;
      }
    }

    /** Sets the file size to the current position. */
    method Truncate()
      modifies this`content
      ensures content == Resized(old(content), pos)
    {
      content := Resized(content, pos);
    }

    method Read(n: nat) returns (data: Bytes)
      modifies this`pos
      ensures old(pos) + n <= |content| ==> data == content[old(pos)..old(pos) + n]
      ensures old(pos) + n > |content| ==> n == |data| == 0 || |data| < n
      ensures pos == old(pos) + |data|
    {
      data := if pos + n <= |content| then content[pos..pos + n] else if pos <= |content| then content[pos..] else [];
      pos := pos + |data|;
    }

    method Write(data: Bytes) returns (written: nat)
      modifies this
      ensures written == |data| && pos == old(pos) + |data|
      ensures content == WriteAt(old(content), old(pos), data)
    {
      content := WriteAt(content, pos, data);
      pos, written := pos + |data|, |data|;
    }
  }

  class Record {
    var offset: int
    var length: int
    var capacity: int
    ghost var relocations: nat   // times the content moved to a new slot
    ghost var longest: nat       // the longest content so far

    constructor ()
      ensures View() == NO_SLOT
    {
      offset, length, capacity := 0, 0, -1;
      relocations, longest := 0, 0;
    }

    ghost function View(): Slot
      reads this
    {
      Slot(offset, length, capacity, relocations, longest)
    }

    /**
     `createBucket`: a new slot at the waterline, growing the file when it does not fit.  When the rounding
     overflows an `int`, the capacity is -2^31 and the waterline falls by as much.
     */
    method CreateBucket(bucket: FileBucket, bytes: int)
      modifies this`offset, this`capacity, bucket`waterLine, bucket`fileSize, bucket`used, bucket.file
      ensures offset == old(bucket.waterLine) && capacity == NewCapacity(bytes, bucket.mask)
      ensures bytes >= 0 && IsMask(bucket.mask) && Fits(bytes, bucket.mask) ==>
        IsRoundedUp(capacity, bytes, bucket.mask + 1)
      ensures 0 <= bytes <= INT_MAX && IsMask(bucket.mask) && !Fits(bytes, bucket.mask) ==> capacity == -INT_MAX - 1
      ensures bucket.Disk() == Allocate(old(bucket.Disk()), capacity)
      ensures bucket.waterLine == old(bucket.waterLine) + capacity
      ensures bucket.fileSize ==
        if bucket.waterLine > old(bucket.fileSize) then 2 * bucket.waterLine else old(bucket.fileSize)
      ensures if bucket.waterLine <= old(bucket.fileSize) then bucket.file.content == old(bucket.file.content)
              else |bucket.file.content| == bucket.fileSize
    {
      if 0 <= bytes <= INT_MAX && IsMask(bucket.mask) {
        SlotHoldsData(bytes, bucket.mask);
      }
      offset := bucket.waterLine;
      capacity := NewCapacity(bytes, bucket.mask);
      bucket.used := bucket.used + [capacity];
      bucket.waterLine := bucket.waterLine + capacity;
      if bucket.waterLine > bucket.fileSize {
        bucket.fileSize := bucket.waterLine * 2;
        var sought := bucket.file.Seek(bucket.fileSize);
        bucket.file.Truncate();
      }
    }

    /** `write`; `ok` is false where the source raises an error. */
    method Write(bucket: FileBucket, data: Bytes) returns (ok: bool)
      requires |data| < TWO_32
      modifies this, bucket`waterLine, bucket`fileSize, bucket`used, bucket.file
      ensures View() == Rewrite(old(View()), |data|, bucket.mask, old(bucket.waterLine))
      ensures bucket.Disk() == WriteSpace(old(bucket.Disk()), old(View()), data, bucket.mask)
      ensures ok <==> offset >= 0
    {
      longest := Greatest(longest, |data|);
      length := ToSigned(|data|);
      if length > capacity {
        relocations := relocations + if capacity == -1 then 0 else 1;
        CreateBucket(bucket, length);
      }
      ok := bucket.file.Seek(offset);
      if ok {
        var written := bucket.file.Write(data);
        ToUnsignedOfSigned(|data|);
        ok := written == ToUnsigned(length);
      }
    }

    /** `read`. */
    method Read(bucket: FileBucket) returns (r: Reply)
      modifies bucket.file`pos
      ensures r == ReadSlot(bucket.file.content, View())
    {
      var ok := bucket.file.Seek(offset);
      if length < 0 || !ok {
        return Failed;
      }
      var data := bucket.file.Read(length);
      r := if |data| != length then Failed else Found(data);
    }
  }

  class FileBucket {
    const mask: nat        // block.capacity
    const file: File
    var records: map<string, Record>
    var fileSize: nat
    var waterLine: int
    ghost var used: seq<int>      // the capacity of every slot ever created
    ghost var Repr: set<Record>   // the records in use

    /** Every key has a record of its own. */
    ghost predicate Owned()
      reads this, Repr
    {
      && (forall k | k in records :: records[k] in Repr)
      && (forall k, l | k in records && l in records && k != l :: records[k] != records[l])
    }

    ghost function View(): map<string, Slot>
      requires Owned()
      reads this, Repr
    {
      map k | k in records :: records[k].View()
    }

    ghost function Disk(): Space
      reads this, file
    {
      Space(file.content, fileSize, waterLine, used)
    }

    ghost function State(): Store
      requires Owned()
      reads this, file, Repr
    {
      Store(View(), Disk())
    }

    constructor (mask: nat, initialRecords: nat)
      ensures Owned() && fresh(file) && Repr == {} && this.mask == mask
      ensures State() == Empty(mask, initialRecords)
      ensures fileSize == |file.content| == (initialRecords * mask) % TWO_32 && waterLine == 0 && records == map[]
    {
      this.mask := mask;
      var f := new File();
      file := f;
      records := map[];
      waterLine, used, Repr := 0, [], {};
      fileSize := (initialRecords * mask) % TWO_32;
      new;
      var sought := file.Seek(fileSize);
      file.Truncate();
    }

    /** `get`: on a sound bucket, the stored bytes, and never an error. */
    method Get(key: string) returns (r: Reply)
      requires Owned()
      modifies file`pos
      ensures Owned() && State() == old(State()) && r == GetFrom(State(), key)
      ensures Sound(State(), mask) ==> r == if key in Contents(State()) then Found(Contents(State())[key]) else NotFound
    {
      if key in records {
        r := records[key].Read(this);
        assert View()[key] == records[key].View();
        if Sound(State(), mask) {
          assert Placed(View()[key], waterLine, mask + 1);
          SoundReads(View()[key], file.content);
        }
      } else {
        r := NotFound;
      }
    }

    method Remove(key: string)
      requires Owned()
      modifies this`records
      ensures Owned() && State() == RemoveFrom(old(State()), key)
      ensures old(Sound(State(), mask)) ==> Sound(State(), mask)
      ensures Contents(State()) == old(Contents(State())) - {key}
    {
      records := records - {key};
      assert View() == old(View()) - {key};
    }

    /** `put`; on a sound bucket it does what `PutDoes` says. */
    method Put(key: string, data: Bytes) returns (ok: bool)
      requires Owned() && |data| < TWO_32
      modifies this, file, Repr
      ensures Owned() && fresh(Repr - old(Repr))
      ensures State() == PutIn(old(State()), key, data, mask) && (ok <==> State().slots[key].offset >= 0)
      ensures old(Sound(State(), mask)) ==> PutDoes(old(State()), State(), key, data, mask)
    {
      ghost var was := State();
      var r := Lookup(key);
      ok := WriteRecord(key, r, data, was.slots);
      if Sound(was, mask) {
        PutOnSound(was, key, data, mask);
      }
    }

    /** The first half of `put`: the record of the key, new and empty when there is none. */
    method Lookup(key: string) returns (r: Record)
      requires Owned()
      modifies this`records, this`Repr
      ensures Owned() && records == old(records)[key := r] && Repr == old(Repr) + {r}
      ensures r.View() == SlotOf(old(State()), key)
      ensures if key in old(records) then r == old(records)[key] else fresh(r)
      ensures View() == old(View())[key := r.View()]
    {
      if key in records {
        r := records[key];
      } else {
        r := new Record();
        records, Repr := records[key := r], Repr + {r};
      }
    }

    /** The second half, which changes no other record. */
    method WriteRecord(key: string, r: Record, data: Bytes, ghost view: map<string, Slot>) returns (ok: bool)
      requires Owned() && key in records && records[key] == r && View() == view[key := r.View()]
      requires |data| < TWO_32
      modifies this`waterLine, this`fileSize, this`used, file, r
      ensures Owned() && View() == view[key := r.View()]
      ensures r.View() == Rewrite(old(r.View()), |data|, mask, old(waterLine))
      ensures Disk() == WriteSpace(old(Disk()), old(r.View()), data, mask)
      ensures ok <==> r.offset >= 0
    {
      ok := r.Write(this, data);
      forall k | k in records && k != key ensures k in view && records[k].View() == view[k] {
        assert records[k] != r && k in old(View()) && old(View())[k] == view[k];
      }
    }
  }

  // ---------------------------------------------------------------- whole runs

  datatype Op = PutOp(key: string, data: Bytes) | GetOp(key: string) | RemoveOp(key: string)

  function Step(st: Store, op: Op, mask: nat): Store {
    match op
    case PutOp(key, data) => PutIn(st, key, data, mask)
    case GetOp(_) => st
    case RemoveOp(key) => RemoveFrom(st, key)
  }

  function ReplyTo(st: Store, op: Op, mask: nat): Reply {
    match op
    case PutOp(key, data) => if PutIn(st, key, data, mask).slots[key].offset >= 0 then Done else Failed
    case GetOp(key) => GetFrom(st, key)
    case RemoveOp(_) => Done
  }

  /** The store after `ops`. */
  function After(st: Store, ops: seq<Op>, mask: nat): Store {
    if ops == [] then st else Step(After(st, ops[..|ops| - 1], mask), ops[|ops| - 1], mask)
  }

  /** The replies to all of `ops`. */
  function Replies(st: Store, ops: seq<Op>, mask: nat): seq<Reply> {
    if ops == [] then []
    else Replies(st, ops[..|ops| - 1], mask) + [ReplyTo(After(st, ops[..|ops| - 1], mask), ops[|ops| - 1], mask)]
  }

  lemma RunNext(start: Store, done: seq<Op>, op: Op, ops: seq<Op>, mask: nat, st: Store, st': Store, reply: Reply)
    requires After(start, done, mask) == st && ops == done + [op]
    requires st' == Step(st, op, mask) && reply == ReplyTo(st, op, mask)
    ensures After(start, ops, mask) == st' && Replies(start, ops, mask) == Replies(start, done, mask) + [reply]
  {
    assert ops[..|ops| - 1] == done;
  }

  /** What key `key` must read back after `ops`: the last bytes put, unless removed since. */
  function LastPut(ops: seq<Op>, key: string): Reply {
    if ops == [] then NotFound
    else
      var op := ops[|ops| - 1];
      if op.PutOp? && op.key == key then Found(op.data)
      else if op.RemoveOp? && op.key == key then NotFound
      else LastPut(ops[..|ops| - 1], key)
  }

  /** What a map from keys to bytes replies to `op` after `done`. */
  function MapReply(done: seq<Op>, op: Op): Reply {
    if op.GetOp? then LastPut(done, op.key) else Done
  }

  /** What it replies to all of `ops`. */
  function MapReplies(ops: seq<Op>): seq<Reply> {
    if ops == [] then [] else MapReplies(ops[..|ops| - 1]) + [MapReply(ops[..|ops| - 1], ops[|ops| - 1])]
  }

  ghost predicate Reflects(contents: map<string, Bytes>, ops: seq<Op>) {
    forall key :: LastPut(ops, key) == if key in contents then Found(contents[key]) else NotFound
  }

  lemma ReflectsNext(contents: map<string, Bytes>, contents': map<string, Bytes>, done: seq<Op>, op: Op)
    requires Reflects(contents, done)
    requires match op
      case PutOp(key, data) => contents' == contents[key := data]
      case GetOp(_) => contents' == contents
      case RemoveOp(key) => contents' == contents - {key}
    ensures Reflects(contents', done + [op])
  {
  }

  predicate OpFits(op: Op, mask: nat) {
    op.PutOp? ==> Fits(|op.data|, mask)
  }

  predicate AllFit(ops: seq<Op>, mask: nat) {
    forall k | 0 <= k < |ops| :: OpFits(ops[k], mask)
  }

  lemma AllFitNext(done: seq<Op>, op: Op, ops: seq<Op>, mask: nat)
    requires ops == done + [op]
    ensures AllFit(ops, mask) <==> AllFit(done, mask) && OpFits(op, mask)
  {
    assert ops[|done|] == op && forall k | 0 <= k < |done| :: ops[k] == done[k];
  }

  /**
   An operation that does no harm: contents are shorter than 2^31 bytes, and once a rounding has overflowed
   nothing is put that needs a new slot.
   */
  predicate Harmless(st: Store, op: Op, fine: bool) {
    op.PutOp? ==> |op.data| <= INT_MAX && (fine || !Moves(SlotOf(st, op.key), |op.data|))
  }

  /** Every one of `ops` is harmless where it comes. */
  predicate HarmlessRun(st: Store, ops: seq<Op>, mask: nat) {
    ops == [] ||
    (var done := ops[..|ops| - 1];
     HarmlessRun(st, done, mask) && Harmless(After(st, done, mask), ops[|ops| - 1], AllFit(done, mask)))
  }

  /** Sound, or with one overflow behind it. */
  ghost predicate Right(st: Store, fine: bool, mask: nat) {
    if fine then Sound(st, mask) else exists over, line :: Tipped(st, over, line, mask)
  }

  lemma RightReads(st: Store, fine: bool, key: string, mask: nat)
    requires Right(st, fine, mask)
    ensures GetFrom(st, key) == if key in Contents(st) then Found(Contents(st)[key]) else NotFound
  {
    if key in st.slots {
      if fine {
        assert Placed(st.slots[key], st.space.waterLine, mask + 1);
      } else {
        var over, line :| Tipped(st, over, line, mask);
        TippedIsInFile(st, over, line, mask, key);
      }
      SoundReads(st.slots[key], st.space.content);
    }
  }

  lemma RemoveKeepsRight(st: Store, fine: bool, key: string, mask: nat)
    requires Right(st, fine, mask)
    ensures Right(RemoveFrom(st, key), fine, mask)
    ensures Contents(RemoveFrom(st, key)) == Contents(st) - {key}
  {
    if !fine {
      var over, line :| Tipped(st, over, line, mask);
      assert RemoveFrom(st, key).slots - {over} == (st.slots - {over}) - {key};
      assert Tipped(RemoveFrom(st, key), over, line, mask);
    }
  }

  lemma PutKeepsRight(st: Store, fine: bool, key: string, data: Bytes, mask: nat)
    requires Right(st, fine, mask) && Harmless(st, PutOp(key, data), fine)
    ensures var st' := PutIn(st, key, data, mask);
      && Right(st', fine && Fits(|data|, mask), mask)
      && Contents(st') == Contents(st)[key := data] && st'.slots[key].offset >= 0
  {
    if fine && Fits(|data|, mask) {
      PutThatFits(st, key, data, mask);
    } else if fine {
      OverflowTips(st, key, data, mask);
    } else {
      var over, line :| Tipped(st, over, line, mask);
      PutInPlaceAfterOverflow(st, over, line, key, data, mask);
    }
  }

  /** One harmless operation. */
  lemma StepKeepsRight(st: Store, fine: bool, op: Op, mask: nat, done: seq<Op>)
    requires Right(st, fine, mask) && Harmless(st, op, fine) && Reflects(Contents(st), done)
    ensures Right(Step(st, op, mask), fine && OpFits(op, mask), mask)
    ensures Reflects(Contents(Step(st, op, mask)), done + [op]) && ReplyTo(st, op, mask) == MapReply(done, op)
  {
    match op
    case PutOp(key, data) =>
      PutKeepsRight(st, fine, key, data, mask);
      ReflectsNext(Contents(st), Contents(Step(st, op, mask)), done, op);
    case GetOp(key) =>
      RightReads(st, fine, key, mask);
      ReflectsNext(Contents(st), Contents(st), done, op);
    case RemoveOp(key) =>
      RemoveKeepsRight(st, fine, key, mask);
      ReflectsNext(Contents(st), Contents(Step(st, op, mask)), done, op);
  }

  /**
   Every run of harmless operations behaves as a map from keys to bytes, and the bucket is sound as long as
   everything put fits when rounded.
   */
  lemma {:induction false} HarmlessRunsAreMaps(mask: nat, initialRecords: nat, ops: seq<Op>)
    requires IsMask(mask) && HarmlessRun(Empty(mask, initialRecords), ops, mask)
    ensures var end := After(Empty(mask, initialRecords), ops, mask);
      && Right(end, AllFit(ops, mask), mask) && Reflects(Contents(end), ops)
      && Replies(Empty(mask, initialRecords), ops, mask) == MapReplies(ops)
  {
    var start := Empty(mask, initialRecords);
    if ops != [] {
      var done, op := ops[..|ops| - 1], ops[|ops| - 1];
      HarmlessRunsAreMaps(mask, initialRecords, done);
      StepKeepsRight(After(start, done, mask), AllFit(done, mask), op, mask, done);
      RunNext(start, done, op, ops, mask, After(start, done, mask), After(start, ops, mask), MapReply(done, op));
      AllFitNext(done, op, ops, mask);
    }
  }

  lemma {:induction false} FittingRunIsHarmless(st: Store, ops: seq<Op>, mask: nat)
    requires AllFit(ops, mask)
    ensures HarmlessRun(st, ops, mask)
  {
    if ops != [] {
      FittingRunIsHarmless(st, ops[..|ops| - 1], mask);
    }
  }

  /**
   As long as everything put fits when rounded, a run behaves as a map from keys to bytes and leaves the bucket
   sound; and it stays sound after one more operation if and only if that fits too.
   */
  lemma FittingRunsAreMaps(mask: nat, initialRecords: nat, ops: seq<Op>, op: Op)
    requires IsMask(mask) && AllFit(ops, mask) && (op.PutOp? ==> |op.data| < TWO_32)
    ensures var end := After(Empty(mask, initialRecords), ops, mask);
      && Sound(end, mask) && Reflects(Contents(end), ops)
      && Replies(Empty(mask, initialRecords), ops, mask) == MapReplies(ops)
      && (Sound(Step(end, op, mask), mask) <==> OpFits(op, mask))
  {
    var start := Empty(mask, initialRecords);
    FittingRunIsHarmless(start, ops, mask);
    HarmlessRunsAreMaps(mask, initialRecords, ops);
    if op.PutOp? {
      PutOnSound(After(start, ops, mask), op.key, op.data, mask);
    }
  }

  /** Any run on a bucket opened empty: state and replies are those of the store as a value. */
  method Serve(mask: nat, initialRecords: nat, ops: seq<Op>) returns (bucket: FileBucket, replies: seq<Reply>)
    requires forall k | 0 <= k < |ops| && ops[k].PutOp? :: |ops[k].data| < TWO_32
    ensures fresh(bucket) && bucket.Owned() && bucket.State() == After(Empty(mask, initialRecords), ops, mask)
    ensures replies == Replies(Empty(mask, initialRecords), ops, mask)
  {
    bucket := new FileBucket(mask, initialRecords);
    replies := [];
    ghost var start := Empty(mask, initialRecords);
    var k := 0;
    while k < |ops|
      invariant 0 <= k <= |ops|
      invariant fresh(bucket) && fresh(bucket.file) && fresh(bucket.Repr) && bucket.Owned() && bucket.mask == mask
      invariant bucket.State() == After(start, ops[..k], mask) && replies == Replies(start, ops[..k], mask)
    {
      ghost var st := bucket.State();
      var reply := Do(bucket, ops[k]);
      assert ops[..k + 1] == ops[..k] + [ops[k]];
      RunNext(start, ops[..k], ops[k], ops[..k + 1], mask, st, bucket.State(), reply);
      replies := replies + [reply];
      k := k + 1;
    }
    assert ops[..|ops|] == ops;
  }

  /** One operation. */
  method Do(bucket: FileBucket, op: Op) returns (reply: Reply)
    requires bucket.Owned() && (op.PutOp? ==> |op.data| < TWO_32)
    modifies bucket, bucket.file, bucket.Repr
    ensures bucket.Owned() && fresh(bucket.Repr - old(bucket.Repr))
    ensures bucket.State() == Step(old(bucket.State()), op, bucket.mask)
    ensures reply == ReplyTo(old(bucket.State()), op, bucket.mask)
  {
    match op
    case PutOp(key, data) =>
      var ok := bucket.Put(key, data);
      reply := if ok then Done else Failed;
    case GetOp(key) =>
      reply := bucket.Get(key);
    case RemoveOp(key) =>
      bucket.Remove(key);
      reply := Done;
  }

  // ---------------------------------------------------------------- a run that overwrites another key

  /** The least multiple of 128 is one block for one byte, and the byte count itself when that is a multiple. */
  lemma SmallestSlot(n: nat)
    requires n == 1 || (n % 128 == 0 && n <= INT_MAX - 127)
    ensures IsMask(127) && NewCapacity(n, 127) == if n == 1 then 128 else n
  {
    assert Pow2(7) == 128;
    SlotHoldsData(n, 127);
    var c := if n == 1 then 128 else n;
    RoundedUpIsLeast(NewCapacity(n, 127), n, 128, c);
    if NewCapacity(n, 127) < c {
      MultiplesAreApart(NewCapacity(n, 127), c, 128);
    }
  }

  /** A new key starts at the waterline, which rises by its capacity. */
  lemma NewKey(st: Store, key: string, data: Bytes, mask: nat, capacity: nat)
    requires Sound(st, mask) && key !in st.slots && Fits(|data|, mask) && NewCapacity(|data|, mask) == capacity
    ensures var st' := PutIn(st, key, data, mask);
      && Sound(st', mask) && st'.space.waterLine == st.space.waterLine + capacity
      && st'.slots.Keys == st.slots.Keys + {key} && (forall k | k in st.slots :: st'.slots[k] == st.slots[k])
      && st'.slots[key].offset == st.space.waterLine && st'.slots[key].length == |data|
  {
    PutThatFits(st, key, data, mask);
  }

  lemma FirstPut(a: byte) returns (st: Store)
    ensures st == PutIn(Empty(127, 0), "a", [a], 127)
    ensures Sound(st, 127) && st.space.waterLine == 128 && st.slots.Keys == {"a"}
    ensures st.slots["a"].offset == 0 && st.slots["a"].length == 1
  {
    SmallestSlot(1);
    NewKey(Empty(127, 0), "a", [a], 127, 128);
    st := PutIn(Empty(127, 0), "a", [a], 127);
  }

  lemma SecondPut(s1: Store, big: Bytes) returns (st: Store)
    requires Sound(s1, 127) && s1.space.waterLine == 128 && s1.slots.Keys == {"a"} && |big| == INT_MAX - 127
    requires s1.slots["a"].offset == 0 && s1.slots["a"].length == 1
    ensures st == PutIn(s1, "big", big, 127)
    ensures Sound(st, 127) && st.space.waterLine == INT_MAX + 1 && st.slots.Keys == {"a", "big"}
    ensures st.slots["a"].offset == 0 && st.slots["a"].length == 1
  {
    SmallestSlot(|big|);
    NewKey(s1, "big", big, 127, |big|);
    st := PutIn(s1, "big", big, 127);
  }

  lemma OverflowThenPut(st: Store, b: byte, over: Bytes)
    requires Sound(st, 127) && st.space.waterLine == INT_MAX + 1 && st.slots.Keys == {"a", "big"}
    requires st.slots["a"].offset == 0 && st.slots["a"].length == 1 && |over| == INT_MAX
    ensures GetFrom(PutIn(PutIn(st, "over", over, 127), "b", [b], 127), "a") == Found([b])
  {
    OverflowTips(st, "over", over, 127);
    AfterOverflow(PutIn(st, "over", over, 127), b);
  }

  lemma AfterOverflow(st: Store, b: byte)
    requires Tipped(st, "over", INT_MAX + 1, 127) && "a" in st.slots && "b" !in st.slots
    requires st.slots["a"].offset == 0 && st.slots["a"].length == 1
    ensures GetFrom(PutIn(st, "b", [b], 127), "a") == Found([b])
  {
    NewSlotAfterOverflow(st, "over", INT_MAX + 1, "b", [b], 127);
    NewSlotWrites(st, "over", INT_MAX + 1, "b", [b], 127);
    TippedIsInFile(st, "over", INT_MAX + 1, 127, "a");
    assert LeftOver(st.slots["a"], Contents(st)["a"], Contents(PutIn(st, "b", [b], 127))["a"], 0, [b]);
    SoundReads(st.slots["a"], PutIn(st, "b", [b], 127).space.content);
  }

  lemma FourSteps(s: Store, o1: Op, o2: Op, o3: Op, o4: Op, mask: nat, s1: Store, s2: Store, s3: Store, s4: Store)
    requires s1 == Step(s, o1, mask) && s2 == Step(s1, o2, mask)
    requires s3 == Step(s2, o3, mask) && s4 == Step(s3, o4, mask)
    ensures After(s, [o1, o2, o3, o4], mask) == s4
  {
    RunNext(s, [], o1, [o1], mask, s, s1, ReplyTo(s, o1, mask));
    RunNext(s, [o1], o2, [o1, o2], mask, s1, s2, ReplyTo(s1, o2, mask));
    RunNext(s, [o1, o2], o3, [o1, o2, o3], mask, s2, s3, ReplyTo(s2, o3, mask));
    RunNext(s, [o1, o2, o3], o4, [o1, o2, o3, o4], mask, s3, s4, ReplyTo(s3, o4, mask));
  }

  /**
   Put one byte under `a`; fill the file up to 2^31; put as much as an `int` can count; put one byte under `b`:
   then `a` reads back what was put under `b`.
   */
  lemma OverflowOverwrites(a: byte, b: byte, big: Bytes, over: Bytes)
    requires |big| == INT_MAX - 127 && |over| == INT_MAX
    ensures var ops := [PutOp("a", [a]), PutOp("big", big), PutOp("over", over), PutOp("b", [b])];
      GetFrom(After(Empty(127, 0), ops, 127), "a") == Found([b])
  {
    var s0 := Empty(127, 0);
    var s1 := FirstPut(a);
    var s2 := SecondPut(s1, big);
    OverflowThenPut(s2, b, over);
    var s3 := PutIn(s2, "over", over, 127);
    FourSteps(s0, PutOp("a", [a]), PutOp("big", big), PutOp("over", over), PutOp("b", [b]), 127,
              s1, s2, s3, PutIn(s3, "b", [b], 127));
  }
}
