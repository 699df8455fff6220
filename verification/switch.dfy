/** The stack switch as register and memory steps, and what it saves and restores. */
module Switch {
  import opened Words

  /** Word memory by address; all accesses here are 4-aligned. */
  type Memory = int -> u32

  function Put(m: Memory, a: int, v: u32): Memory {
    (x: int) => if x == a then v else m(x)
  }

  /** The registers a switch must carry over, with the address execution continues at. */
  datatype Context = Context(esp: u32, ebp: u32, ebx: u32, esi: u32, edi: u32, eip: u32)

  /** Saved registers and return address, five words upwards from the saved stack pointer. */
  const FRAME: int := 20

  predicate FrameAt(m: Memory, e: int, c: Context) {
    c.esp == e + FRAME &&
    m(e) == c.edi && m(e + 4) == c.esi && m(e + 8) == c.ebx && m(e + 12) == c.ebp && m(e + 16) == c.eip
  }

  /** The four pushes below esp. */
  function PushAll(m: Memory, esp: int, ebp: u32, ebx: u32, esi: u32, edi: u32): Memory {
    Put(Put(Put(Put(m, esp - 4, ebp), esp - 8, ebx), esp - 12, esi), esp - 16, edi)
  }

  class Cpu {
    var esp: u32
    var ebp: u32
    var ebx: u32
    var esi: u32
    var edi: u32
    var eax: u32
    var eip: u32
    var mem: Memory

    constructor (c: Context, mem: Memory)
      ensures Now() == c && this.mem == mem
    {
      esp, ebp, ebx, esi, edi, eax, eip := c.esp, c.ebp, c.ebx, c.esi, c.edi, 0, c.eip;
      this.mem := mem;
    }

    function Now(): Context
      reads this
    {
      Context(esp, ebp, ebx, esi, edi, eip)
    }

    method Push(v: u32)
      requires esp >= 4
      modifies `esp, `mem
      ensures esp == old(esp) - 4 && mem == Put(old(mem), esp, v)
    {
      esp := esp - 4;
      mem := Put(mem, esp, v);
    }

    method Pop() returns (v: u32)
      requires esp + 4 < TWO_32
      modifies `esp
      ensures esp == old(esp) + 4 && v == mem(old(esp))
    {
      v := mem(esp);
      esp := esp + 4;
    }

    /** switch_to, instruction by instruction; on entry esp points at the return address, above it the two arguments. */
    method SwitchTo()
      requires 16 <= esp && esp + 8 < TWO_32
      requires mem(esp + 8) + FRAME < TWO_32
      requires mem(esp + 4) != esp + 8
      modifies this
      ensures mem ==
        Put(PushAll(old(mem), old(esp), old(ebp), old(ebx), old(esi), old(edi)), old(mem(esp + 4)), old(esp) - 16)
      ensures FrameAt(mem, old(mem(esp + 8)), Now())
    {
      hide Put;
      ArgumentsStay(mem, esp, ebp, ebx, esi, edi, esp - 16);
      PushRegisters();
      eax := mem(esp + 20);
      mem := Put(mem, eax, esp);
      esp := mem(esp + 24);
      PopRegisters();
    }

    method PushRegisters()
      requires 16 <= esp
      modifies `esp, `mem
      ensures esp == old(esp) - 16 && mem == PushAll(old(mem), old(esp), ebp, ebx, esi, edi)
    {
      hide Put;
      Push(ebp);
      Push(ebx);
      Push(esi);
      Push(edi);
    }

    method PopRegisters()
      requires esp + FRAME < TWO_32
      modifies `esp, `edi, `esi, `ebx, `ebp, `eip
      ensures FrameAt(mem, old(esp), Now())
    {
      edi := Pop();
      esi := Pop();
      ebx := Pop();
      ebp := Pop();
      eip := Pop();
    }
  }

  /** The pushes and the store of the old stack pointer leave both arguments readable. */
  lemma ArgumentsStay(m: Memory, esp: int, ebp: u32, ebx: u32, esi: u32, edi: u32, v: u32)
    requires m(esp + 4) != esp + 8
    ensures PushAll(m, esp, ebp, ebx, esi, edi)(esp + 4) == m(esp + 4)
    ensures Put(PushAll(m, esp, ebp, ebx, esi, edi), m(esp + 4), v)(esp + 8) == m(esp + 8)
  {
  }

  /** What a suspended caller must find again: its own registers, the return address, and esp just above it. */
  function Suspended(m: Memory, c: Context): Context
    requires c.esp + 4 < TWO_32
  {
    Context(c.esp + 4, c.ebp, c.ebx, c.esi, c.edi, m(c.esp))
  }

  /** The frame a switch leaves behind is the caller's context, wherever the saved pointer is stored outside it. */
  lemma SwitchSavesFrame(m: Memory, c: Context, slot: int)
    requires c.esp + 4 < TWO_32 && 16 <= c.esp
    requires slot !in {c.esp - 16, c.esp - 12, c.esp - 8, c.esp - 4, c.esp as int}
    ensures FrameAt(Put(PushAll(m, c.esp, c.ebp, c.ebx, c.esi, c.edi), slot, c.esp - 16), c.esp - 16, Suspended(m, c))
  {
  }

  /** A frame determines the context resumed from it: saving and resuming is the identity. */
  lemma FrameDetermines(m: Memory, e: int, c: Context, c': Context)
    requires FrameAt(m, e, c) && FrameAt(m, e, c')
    ensures c == c'
  {
  }
}
