// First-level allocator `__malloc_alloc_template` of mini_memory_alloc.h.
//
// The C library's malloc and free are foreign calls; they are modelled by the
// oracle class SystemHeap: memory is a space of byte addresses (0 is null),
// every successful malloc hands out the next `n` bytes above the break (at an
// address aligned to 8 bytes, as malloc guarantees), and a
// script chosen by the caller decides which of the coming calls fail.

module MallocAlloc {

  /** The null address. */
  const Null: nat := 0

  /** The installed out-of-memory handler; 0 stands for the null function pointer. */
  const NoHandler: nat := 0

  /** The alignment malloc guarantees for every address it returns. */
  const Granule: nat := 8

  /** The space a malloc of `n` bytes takes from the system: `n` rounded up to
      whole granules, so that the next address handed out is aligned too. */
  function Granular(n: nat): (r: nat)
    ensures r % Granule == 0 && n <= r < n + Granule
  {
    (n + Granule - 1) / Granule * Granule
  }

  /** Result of an allocation: an address, or the fatal out-of-memory exit
      (`__THROW_BAD_ALLOC` prints a message and calls exit(1)). */
  datatype Outcome = Ok(addr: nat) | OutOfMemory

  /** What is left of a malloc script once the first successful call has been made. */
  function AfterSuccess(script: seq<bool>): (rest: seq<bool>)
    ensures |rest| < |script| || script == rest == []
  {
    if script == [] then []
    else if script[0] then AfterSuccess(script[1..])
    else script[1..]
  }

  /** The system heap that malloc and free act on.  Nothing below `brk` is ever
      handed out twice; `script[i]` says whether the i-th coming malloc fails. */
  class SystemHeap {
    var brk: nat
    var script: seq<bool>
    var freed: set<nat>

    ghost predicate Valid()
      reads this`brk
    {
      Null < brk && brk % Granule == 0
    }

    constructor (script: seq<bool>)
      ensures Valid() && this.script == script && freed == {}
    {
      brk := 8;
      this.script := script;
      freed := {};
    }

    /** Whether the next malloc fails. */
    predicate NextFails()
      reads this
    {
      script != [] && script[0]
    }

    /** malloc(n): null on failure, otherwise the `n` bytes starting at the
        break, which moves past them to the next aligned address. */
    method Malloc(n: nat) returns (p: nat)
      requires Valid()
      modifies this
      ensures Valid() && freed == old(freed)
      ensures script == if old(script) == [] then [] else old(script)[1..]
      ensures old(NextFails()) ==> p == Null && brk == old(brk)
      ensures !old(NextFails()) ==> p == old(brk) && p % Granule == 0 && brk == old(brk) + Granular(n)
    {
      var fails := NextFails();
      if script != [] {
        script := script[1..];
      }
      if fails {
        p := Null;
      } else {
        p := brk;
        brk := brk + Granular(n);
      }
    }

    /** free(p): the block goes back to the system, which the model never reuses. */
    method Free(p: nat)
      modifies this
      ensures brk == old(brk) && script == old(script)
      ensures freed == old(freed) + {p}
    {
      freed := freed + {p};
    }
  }

  /** `__malloc_alloc_template`: malloc and free with a C++-new-handler-like hook. */
  class MallocAllocator {
    const sys: SystemHeap
    var handler: nat

    /** The static handler starts out null. */
    constructor (sys: SystemHeap)
      ensures this.sys == sys && handler == NoHandler
    {
      this.sys := sys;
      handler := NoHandler;
    }

    /** set_malloc_handler: installs `f` and returns the handler installed before. */
    method SetMallocHandler(f: nat) returns (previous: nat)
      modifies this
      ensures previous == old(handler) && handler == f
    {
      previous := handler;
      handler := f;
    }

    /** allocate(n): malloc, and on failure the out-of-memory loop. */
    method Allocate(n: nat) returns (r: Outcome)
      requires sys.Valid()
      modifies sys
      ensures sys.Valid() && sys.freed == old(sys.freed)
      ensures r.OutOfMemory? <==> old(sys.NextFails()) && handler == NoHandler
      ensures r.OutOfMemory? ==> sys.brk == old(sys.brk) && sys.script == old(sys.script)[1..]
      ensures r.Ok? ==> r == Ok(old(sys.brk)) && r.addr % Granule == 0 && sys.brk == old(sys.brk) + Granular(n)
      ensures r.Ok? ==> sys.script == AfterSuccess(old(sys.script))
    {
      var p := sys.Malloc(n);
      if p == Null {
        r := OomMalloc(n);
      } else {
        r := Ok(p);
      }
    }

    /** oom_malloc: while no block is obtained, call the user's handler (fatal
        when none is installed) and retry malloc.  The handler is foreign code;
        the model gives it no effect on the heap. */
    method OomMalloc(n: nat) returns (r: Outcome)
      requires sys.Valid()
      modifies sys
      ensures sys.Valid() && sys.freed == old(sys.freed)
      ensures r.OutOfMemory? <==> handler == NoHandler
      ensures r.OutOfMemory? ==> sys.brk == old(sys.brk) && sys.script == old(sys.script)
      ensures r.Ok? ==> r == Ok(old(sys.brk)) && r.addr % Granule == 0 && sys.brk == old(sys.brk) + Granular(n)
      ensures r.Ok? ==> sys.script == AfterSuccess(old(sys.script))
    {
      while true
        invariant sys.Valid() && sys.freed == old(sys.freed) && sys.brk == old(sys.brk)
        invariant AfterSuccess(sys.script) == AfterSuccess(old(sys.script))
        invariant handler == NoHandler ==> sys.script == old(sys.script)
        decreases |sys.script|
      {
        if handler == NoHandler {
          return OutOfMemory;
        }
        ghost var before := sys.script;
        var p := sys.Malloc(n);
        if p != Null {
          return Ok(p);
        }
        assert before != [] && before[0];
      }
    }

    /** deallocate(p, n): free(p); the size is ignored. */
    method Deallocate(p: nat, n: nat)
      modifies sys
      ensures sys.brk == old(sys.brk) && sys.script == old(sys.script)
      ensures sys.freed == old(sys.freed) + {p}
    {
      sys.Free(p);
    }
  }
}
