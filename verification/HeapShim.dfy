/** `EmbassyArch::malloc` and `free`: a size header in front of every block, from which `free`
    rebuilds the layout that the allocator must be given back. */
module HeapShim {
  import opened Bytes
  import opened Runs

  const ALIGN: nat := 8

  datatype Layout = Layout(size: nat, align: nat)

  /** A target: the width of `usize` in bytes, four or eight. */
  type Word = w: nat | w == 4 || w == 8 witness 4

  function UsizeMax(w: Word): nat {
    Range(w) - 1
  }

  function IsizeMax(w: Word): nat {
    (Range(w) - 1) / 2
  }

  /** The memory of the heap, and the blocks the allocator has out, by base address. */
  datatype Heap = Heap(mem: seq<byte>, live: map<nat, Layout>)

  ghost predicate Disjoint(b1: nat, n1: nat, b2: nat, n2: nat) {
    b1 + n1 <= b2 || b2 + n2 <= b1
  }

  /** What `GlobalAlloc::alloc` promises about its answer. */
  ghost predicate AllocMayReturn(h: Heap, layout: Layout, answer: Ptr)
    requires layout.align > 0
  {
    answer.At? ==>
      && answer.addr > 0 && answer.addr % layout.align == 0
      && answer.addr + layout.size <= |h.mem|
      && forall b :: b in h.live ==> Disjoint(answer.addr, layout.size, b, h.live[b].size)
  }

  /** `Layout::from_size_align(total, ALIGN)` succeeds. */
  predicate LayoutOk(w: Word, total: nat) {
    total <= IsizeMax(w) - (ALIGN - 1)
  }

  /** The layout `malloc(size)` asks for, if it gets as far as asking. */
  predicate Asks(w: Word, size: nat) {
    size + ALIGN <= UsizeMax(w) && LayoutOk(w, size + ALIGN)
  }

  /** The number stored in the header of the block at `base`. */
  function Header(h: Heap, w: Word, base: nat): nat
    requires base + w <= |h.mem|
  {
    FromLe(h.mem[base..base + w])
  }

  /** Overwrite memory from `at`. */
  function Stored(mem: seq<byte>, at: nat, bytes: seq<byte>): (r: seq<byte>)
    requires at + |bytes| <= |mem|
    ensures |r| == |mem|
    ensures forall k :: 0 <= k < |mem| ==>
              r[k] == if at <= k < at + |bytes| then bytes[k - at] else mem[k]
  {
    mem[..at] + bytes + mem[at + |bytes|..]
  }

  /** Every block out is aligned, within memory, and of a size that `size + ALIGN` cannot overflow. */
  ghost predicate Placed(h: Heap, w: Word) {
    forall b :: b in h.live ==>
      && b > 0 && b % ALIGN == 0
      && h.live[b].align == ALIGN && ALIGN <= h.live[b].size
      && LayoutOk(w, h.live[b].size)
      && b + h.live[b].size <= |h.mem|
  }

  /** Headers included, no two blocks overlap. */
  ghost predicate Apart(h: Heap) {
    forall b, c :: b in h.live && c in h.live && b != c ==> Disjoint(b, h.live[b].size, c, h.live[c].size)
  }

  /** Every header still holds the size of its block. */
  ghost predicate Headed(h: Heap, w: Word)
    requires Placed(h, w)
  {
    forall b :: b in h.live ==> Header(h, w, b) + ALIGN == h.live[b].size
  }

  ghost predicate Inv(h: Heap, w: Word) {
    Placed(h, w) && Apart(h) && Headed(h, w)
  }

  // ---------------------------------------------------------------- the operations

  function Malloc(h: Heap, w: Word, size: nat, answer: Ptr): (r: (Heap, Ptr))
    requires answer.At? ==> answer.addr + size + ALIGN <= |h.mem|
  {
    if !Asks(w, size) || answer.Null? then (h, Null)
    else
      var base := answer.addr;
      (Heap(Stored(h.mem, base, ToLe(size, w)), h.live[base := Layout(size + ALIGN, ALIGN)]), At(base + ALIGN))
  }

  /** The largest size served, in numbers, on either target. */
  lemma AsksIs(w: Word, size: nat)
    ensures Asks(w, size) <==> size <= if w == 4 then 0x7FFF_FFF0 else 0x7FFF_FFFF_FFFF_FFF0
  {
    RangeValues();
    hide Range;
  }

  /** A block in plain terms: its size, least significant byte first, in front of the pointer that
      is returned, and nothing else in memory changed. */
  lemma MallocIs(h: Heap, w: Word, size: nat, base: nat, k: nat)
    requires Asks(w, size) && base + size + 8 <= |h.mem| && k < |h.mem|
    ensures var (h', p) := Malloc(h, w, size, At(base));
            && p == At(base + 8) && h'.live == h.live[base := Layout(size + 8, 8)] && |h'.mem| == |h.mem|
            && h'.mem[k] == if base <= k < base + w then size / Range(k - base) % 0x100 else h.mem[k]
  {
    hide Range, Asks, ToLe;
    if base <= k < base + w {
      LeByte(size, w, k - base);
    }
  }

  /** What the invariant says of two blocks, in plain terms. */
  lemma InvIs(h: Heap, w: Word, b: nat, c: nat)
    requires Inv(h, w) && b in h.live && c in h.live && b != c
    ensures b > 0 && b % 8 == 0 && b + h.live[b].size <= |h.mem| && h.live[b].align == 8
    ensures b + h.live[b].size <= c || c + h.live[c].size <= b
    ensures 8 <= h.live[b].size && FromLe(h.mem[b..b + w]) == h.live[b].size - 8
  {
  }

  /** An allocator may answer with any aligned spot of an empty heap. */
  lemma MayAnswerAnywhere(mem: seq<byte>, size: nat, addr: nat)
    requires addr > 0 && addr % 8 == 0 && addr + size + 8 <= |mem|
    ensures AllocMayReturn(Heap(mem, map[]), Layout(size + ALIGN, ALIGN), At(addr))
  {
  }

  /** A client writes one byte of a block it was given. */
  function Poke(h: Heap, addr: nat, value: byte): Heap
    requires addr < |h.mem|
  {
    h.(mem := h.mem[addr := value])
  }

  ghost predicate OwnedByClient(h: Heap, addr: nat) {
    exists b :: b in h.live && b + ALIGN <= addr < b + h.live[b].size
  }

  /** Every byte behind a header is its client's, up to the size asked for. */
  lemma ClientOwns(h: Heap, b: nat, k: nat)
    requires b in h.live && 8 + k < h.live[b].size
    ensures OwnedByClient(h, b + 8 + k)
  {
  }

  /** Memory outside every block that is out. */
  ghost predicate OwnedByAllocator(h: Heap, addr: nat) {
    forall b :: b in h.live ==> !(b <= addr < b + h.live[b].size)
  }

  /** The pair `free` hands to `GlobalAlloc::dealloc`. */
  function Returned(h: Heap, w: Word, ptr: nat): (r: (nat, Layout))
    requires ALIGN <= ptr && ptr - ALIGN + w <= |h.mem|
  {
    (ptr - ALIGN, Layout(Header(h, w, ptr - ALIGN) + ALIGN, ALIGN))
  }

  function Dealloc(h: Heap, base: nat): Heap {
    h.(live := h.live - {base})
  }

  // ---------------------------------------------------------------- they keep the invariant

  lemma SameHeader(mem: seq<byte>, mem': seq<byte>, base: nat, w: Word)
    requires |mem| == |mem'| && base + w <= |mem|
    requires forall k :: base <= k < base + w ==> mem[k] == mem'[k]
    ensures mem[base..base + w] == mem'[base..base + w]
  {
  }

  lemma FitsMemory(h: Heap, layout: Layout, answer: Ptr)
    requires layout.align > 0 && AllocMayReturn(h, layout, answer)
    ensures answer.At? ==> answer.addr + layout.size <= |h.mem|
  {
  }

  lemma MallocPlaced(h: Heap, w: Word, size: nat, base: nat)
    requires Placed(h, w) && Apart(h) && Asks(w, size)
    requires AllocMayReturn(h, Layout(size + ALIGN, ALIGN), At(base))
    ensures base !in h.live
    ensures Placed(Malloc(h, w, size, At(base)).0, w) && Apart(Malloc(h, w, size, At(base)).0)
    ensures Malloc(h, w, size, At(base)).1 == At(base + ALIGN) && (base + ALIGN) % ALIGN == 0
  {
    hide Range, ToLe;
  }

  lemma MallocHeaded(h: Heap, w: Word, size: nat, base: nat)
    requires Placed(h, w) && Headed(h, w) && Asks(w, size) && base !in h.live
    requires AllocMayReturn(h, Layout(size + ALIGN, ALIGN), At(base))
    requires Placed(Malloc(h, w, size, At(base)).0, w)
    ensures Headed(Malloc(h, w, size, At(base)).0, w)
  {
    hide Range, ToLe, FromLe;
    var h' := Malloc(h, w, size, At(base)).0;
    forall b | b in h'.live
      ensures Header(h', w, b) + ALIGN == h'.live[b].size
    {
      if b == base {
        assert h'.mem[base..base + w] == ToLe(size, w);
        LeRoundTrip(size, w);
      } else {
        assert Disjoint(base, size + ALIGN, b, h.live[b].size);
        SameHeader(h.mem, h'.mem, b, w);
      }
    }
  }

  lemma MallocKeeps(h: Heap, w: Word, size: nat, answer: Ptr)
    requires Inv(h, w) && AllocMayReturn(h, Layout(size + ALIGN, ALIGN), answer)
    ensures Inv(Malloc(h, w, size, answer).0, w)
    ensures Malloc(h, w, size, answer).1.At? ==> Malloc(h, w, size, answer).1.addr % ALIGN == 0
  {
    if Asks(w, size) && answer.At? {
      hide Placed, Apart, Headed, Malloc;
      MallocPlaced(h, w, size, answer.addr);
      MallocHeaded(h, w, size, answer.addr);
    }
  }

  /** Client writes, wherever in whichever block, never reach a header. */
  lemma PokeKeeps(h: Heap, w: Word, addr: nat, value: byte)
    requires Inv(h, w) && OwnedByClient(h, addr)
    ensures addr < |h.mem| && Inv(Poke(h, addr, value), w)
  {
    hide Range, FromLe;
    var own :| own in h.live && own + ALIGN <= addr < own + h.live[own].size;
    var h' := Poke(h, addr, value);
    forall b | b in h.live
      ensures Header(h', w, b) == Header(h, w, b)
    {
      SameHeader(h.mem, h'.mem, b, w);
    }
  }

  lemma DeallocKeeps(h: Heap, w: Word, base: nat)
    requires Inv(h, w)
    ensures Inv(Dealloc(h, base), w)
  {
    var h' := Dealloc(h, base);
    forall b | b in h'.live
      ensures Header(h', w, b) == Header(h, w, b)
    {
    }
  }

  /** `free` gives back exactly the base and layout that the `malloc` of the block passed to the
      allocator, and the addition it does not check cannot overflow. */
  lemma FreeRebuildsLayout(h: Heap, w: Word, ptr: nat)
    requires Inv(h, w) && ALIGN <= ptr && ptr - ALIGN in h.live
    ensures Returned(h, w, ptr) == (ptr - ALIGN, h.live[ptr - ALIGN])
    ensures Header(h, w, ptr - ALIGN) + ALIGN <= UsizeMax(w)
  {
  }

  // ---------------------------------------------------------------- any client

  /** The allocator links its free memory together however it likes, between two calls, before an
      `alloc` answers or after a `dealloc`; headers belong to live blocks and are out of its reach. */
  lemma ScribbleKeeps(h: Heap, w: Word, addr: nat, value: byte)
    requires Inv(h, w) && addr < |h.mem| && OwnedByAllocator(h, addr)
    ensures Inv(Poke(h, addr, value), w)
  {
    hide Range, FromLe;
    var h' := Poke(h, addr, value);
    forall b | b in h.live
      ensures Header(h', w, b) == Header(h, w, b)
    {
      SameHeader(h.mem, h'.mem, b, w);
    }
  }

  datatype Op =
    | Allocate(size: nat, answer: Ptr)
    | Write(addr: nat, value: byte)
    | Release(ptr: nat)
    | Scribble(addr: nat, value: byte)    // the allocator writes into memory of its own

  ghost predicate Allowed(h: Heap, op: Op) {
    match op
    case Allocate(size, answer) => AllocMayReturn(h, Layout(size + ALIGN, ALIGN), answer)
    case Write(addr, _) => OwnedByClient(h, addr) && addr < |h.mem|
    case Release(ptr) => ALIGN <= ptr && ptr - ALIGN in h.live
    case Scribble(addr, _) => OwnedByAllocator(h, addr) && addr < |h.mem|
  }

  /** What a client and the allocator may always do. */
  lemma AlwaysAllowed(h: Heap, b: nat, k: nat, addr: nat, value: byte, size: nat, answer: Ptr)
    requires b in h.live && b + h.live[b].size <= |h.mem|
    ensures Allowed(h, Release(b + 8))
    ensures 8 + k < h.live[b].size ==> Allowed(h, Write(b + 8 + k, value))
    ensures addr < |h.mem| && (forall c :: c in h.live ==> addr < c || c + h.live[c].size <= addr) ==>
              Allowed(h, Scribble(addr, value))
    ensures answer.Null? ==> Allowed(h, Allocate(size, answer))
  {
    if 8 + k < h.live[b].size { ClientOwns(h, b, k); }
  }

  ghost function Apply(h: Heap, w: Word, op: Op): Heap
    requires Allowed(h, op)
  {
    match op
    case Allocate(size, answer) => Malloc(h, w, size, answer).0
    case Write(addr, value) => Poke(h, addr, value)
    case Release(ptr) => Dealloc(h, ptr - ALIGN)
    case Scribble(addr, value) => Poke(h, addr, value)
  }

  ghost function Step(w: Word): (Heap, Op) -> Outcome<Heap> {
    (h: Heap, op: Op) => if Allowed(h, op) then Reached(Apply(h, w, op)) else Stuck
  }

  lemma ApplyKeeps(h: Heap, w: Word, op: Op)
    requires Inv(h, w) && Allowed(h, op)
    ensures Inv(Apply(h, w, op), w)
  {
    hide Inv, Malloc;
    match op
    case Allocate(size, answer) => MallocKeeps(h, w, size, answer);
    case Write(addr, value) => PokeKeeps(h, w, addr, value);
    case Release(ptr) => DeallocKeeps(h, w, ptr - ALIGN);
    case Scribble(addr, value) => ScribbleKeeps(h, w, addr, value);
  }

  /** Over every sequence of allocations, client writes, frees and writes of the allocator into its
      own memory, starting with nothing out: the blocks stay aligned, disjoint and correctly
      headed, so every `free` is exact. */
  lemma RunKeeps(mem: seq<byte>, w: Word, ops: seq<Op>)
    requires Exec(Heap(mem, map[]), ops, Step(w)).Reached?
    ensures Inv(Exec(Heap(mem, map[]), ops, Step(w)).s, w)
  {
    hide Inv, Allowed, Apply;
    forall h, op | Inv(h, w) && Step(w)(h, op).Reached?
      ensures Inv(Step(w)(h, op).s, w)
    {
      ApplyKeeps(h, w, op);
    }
    assert Inv(Heap(mem, map[]), w) by { NothingOut(mem, w); }
    ExecKeeps(Heap(mem, map[]), ops, Step(w), (h: Heap) => Inv(h, w));
  }

  lemma NothingOut(mem: seq<byte>, w: Word)
    ensures Inv(Heap(mem, map[]), w)
  {
  }

  // ---------------------------------------------------------------- the code

  class Arch {
    const w: Word
    var mem: array<byte>
    ghost var live: map<nat, Layout>

    ghost function State(): Heap
      reads this, mem
    {
      Heap(mem[..], live)
    }

    constructor (w: Word, mem: array<byte>)
      ensures this.w == w && this.mem == mem && State() == Heap(mem[..], map[])
    {
      this.w, this.mem, live := w, mem, map[];
    }

    /** `GlobalAlloc::alloc`, as far as callers may rely on it: `answer` is its choice. */
    method AllocGlobal(layout: Layout, answer: Ptr) returns (base: Ptr)
      requires layout.align > 0 && AllocMayReturn(State(), layout, answer)
      modifies this`live
      ensures base == answer
      ensures live == if answer.At? then old(live)[answer.addr := layout] else old(live)
    {
      if answer.At? {
        live := live[answer.addr := layout];
      }
      base := answer;
    }

    /** `GlobalAlloc::dealloc`: the caller must give back the very layout it allocated with. */
    method DeallocGlobal(base: nat, layout: Layout)
      requires base in live && layout == live[base]
      modifies this`live
      ensures live == old(live) - {base}
    {
      live := live - {base};
    }

    method StoreWord(at: nat, value: nat)
      requires at + w <= mem.Length
      modifies mem
      ensures mem[..] == Stored(old(mem[..]), at, ToLe(value, w))
    {
      var bytes := ToLe(value, w);
      forall k | 0 <= k < w {
        mem[at + k] := bytes[k];
      }
    }

    method Allocate(size: nat, answer: Ptr) returns (p: Ptr)
      requires Inv(State(), w) && AllocMayReturn(State(), Layout(size + ALIGN, ALIGN), answer)
      modifies this`live, mem
      ensures (State(), p) == Malloc(old(State()), w, size, answer)
      ensures p.Null? <==> answer.Null? || size > if w == 4 then 0x7FFF_FFF0 else 0x7FFF_FFFF_FFFF_FFF0
      ensures p.Null? ==> live == old(live) && mem[..] == old(mem[..])
      ensures p.At? ==> p == At(answer.addr + 8) && live == old(live)[answer.addr := Layout(size + 8, 8)]
      ensures Inv(State(), w)
    {
      hide Inv, Range, ToLe, FromLe, Stored, AllocMayReturn;
      AsksIs(w, size);
      ghost var h := State();
      MallocKeeps(h, w, size, answer);
      if size + ALIGN > UsizeMax(w) {
        return Null;
      }
      var total := size + ALIGN;
      if !LayoutOk(w, total) {
        return Null;
      }
      var base := AllocGlobal(Layout(total, ALIGN), answer);
      if base.Null? {
        return Null;
      }
      assert base.addr + total <= mem.Length by { FitsMemory(h, Layout(total, ALIGN), answer); }
      StoreWord(base.addr, size);
      assert State() == Malloc(h, w, size, answer).0;
      return At(base.addr + ALIGN);
    }

    method Free(ptr: Ptr)
      requires Inv(State(), w)
      requires ptr.At? ==> ALIGN <= ptr.addr && ptr.addr - ALIGN in live
      modifies this`live
      ensures State() == if ptr.Null? then old(State()) else Dealloc(old(State()), ptr.addr - ALIGN)
      ensures live == if ptr.Null? then old(live) else old(live) - {ptr.addr - 8}
      ensures Inv(State(), w)
    {
      if ptr.Null? {
        return;
      }
      var base := ptr.addr - ALIGN;
      FreeRebuildsLayout(State(), w, ptr.addr);
      DeallocKeeps(State(), w, base);
      var size := FromLe(mem[base..base + w]);
      assert mem[base..base + w] == mem[..][base..base + w];
      DeallocGlobal(base, Layout(size + ALIGN, ALIGN));
    }
  }
}
