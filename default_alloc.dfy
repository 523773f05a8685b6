// Second-level allocator `__default_alloc_template` and the `simple_alloc`
// wrapper of mini_memory_alloc.h.
//
// Memory is a space of byte addresses (0 is null).  The pool keeps sixteen
// intrusive LIFO free lists for the block sizes 8, 16, ..., 128: the first word
// of a free block holds the address of the next one (the `free_list_link` of
// `union obj`), modelled by the map `link` from block address to that word.
// The ghost state records what the words mean: `lists[i]` is the chain of list
// i from its head, `blocks` maps every block the pool has carved to its size,
// and `live` holds the blocks currently handed out to callers.

module DefaultAlloc {
  import opened MallocAlloc

  const Align: nat := 8          // __ALIGN
  const MaxBytes: nat := 128     // __MAX_BYTES
  const NFreeLists: nat := 16    // __NFREELISTS
  const RefillObjs: nat := 20    // refill's default batch size

  /** ROUND_UP: the least multiple of 8 that is at least `bytes`. */
  function RoundUp(bytes: nat): (r: nat)
    ensures r % Align == 0 && bytes <= r < bytes + Align
  {
    (bytes + Align - 1) / Align * Align
  }

  /** FREELSIT_INDEX: the free list serving requests of `bytes` bytes.  For
      zero bytes the unsigned subtraction wraps, so callers never pass 0. */
  function FreeListIndex(bytes: nat): (i: nat)
    requires 1 <= bytes <= MaxBytes
    ensures i < NFreeLists && RoundUp(bytes) == Align * (i + 1)
  {
    (bytes + Align - 1) / Align - 1
  }

  /** The block sizes the sixteen lists serve. */
  predicate SmallSize(n: nat)
  {
    Align <= n <= MaxBytes && n % Align == 0
  }

  lemma BlockSizeIndex(n: nat)
    requires SmallSize(n)
    ensures RoundUp(n) == n && FreeListIndex(n) == n / Align - 1
  {
  }

  // ---------------------------------------------------------------------
  // Ghost vocabulary: chains, blocks and strides

  /** The intrusive list starting at `head` visits exactly `l` and ends in null. */
  ghost predicate Chain(head: nat, l: seq<nat>, link: map<nat, nat>)
    decreases |l|
  {
    if l == [] then head == Null
    else head == l[0] && l[0] in link && Chain(link[l[0]], l[1..], link)
  }

  ghost predicate NoDup(l: seq<nat>)
  {
    forall j, k :: 0 <= j < k < |l| ==> l[j] != l[k]
  }

  /** The blocks, as byte ranges [a, a + size), do not overlap. */
  ghost predicate Disjoint(blocks: map<nat, nat>)
  {
    forall a, b :: a in blocks && b in blocks && a < b ==> a + blocks[a] <= b
  }

  /** No block overlaps the byte range [lo, hi). */
  ghost predicate Clear(blocks: map<nat, nat>, lo: nat, hi: nat)
  {
    forall a :: a in blocks ==> a + blocks[a] <= lo || hi <= a
  }

  /** Every block is a non-empty range of memory obtained from the system. */
  ghost predicate Within(blocks: map<nat, nat>, brk: nat)
  {
    forall a :: a in blocks ==> Null < a && 0 < blocks[a] && a + blocks[a] <= brk
  }

  /** Every listed block is a pool block of its list's size and is not handed out. */
  ghost predicate Listed(lists: seq<seq<nat>>, blocks: map<nat, nat>, live: set<nat>)
    requires |lists| == NFreeLists
  {
    forall i, a :: 0 <= i < NFreeLists && a in lists[i] ==>
      a in blocks && blocks[a] == Align * (i + 1) && a !in live
  }

  /** The addresses of the blocks, all on 8-byte boundaries. */
  ghost predicate Aligned(blocks: map<nat, nat>)
  {
    forall a :: a in blocks ==> a % Align == 0
  }

  /** The size of `k` consecutive blocks of `n` bytes, n * k, built up block by
      block so that the allocator's proofs reason about it through the lemmas below. */
  function Bytes(n: nat, k: nat): nat
    decreases k
  {
    if k == 0 then 0 else Bytes(n, k - 1) + n
  }

  lemma {:induction false} BytesIsProduct(n: nat, k: nat)
    ensures Bytes(n, k) == n * k
    decreases k
  {
    if k > 0 {
      BytesIsProduct(n, k - 1);
    }
  }

  /** Blocks of a multiple of 8 bytes add up to a multiple of 8. */
  lemma {:induction false} BytesAligned(n: nat, k: nat)
    requires n % Align == 0
    ensures Bytes(n, k) % Align == 0
    decreases k
  {
    if k > 0 {
      BytesAligned(n, k - 1);
    }
  }

  /** One more block takes `n` more bytes. */
  lemma {:induction false} BytesMono(n: nat, j: nat, k: nat)
    requires j < k
    ensures Bytes(n, j) + n <= Bytes(n, k)
    decreases k - j
  {
    if j + 1 < k {
      BytesMono(n, j + 1, k);
    }
  }

  /** chunk_alloc's malloc request 2 * total_bytes + ROUND_UP(heap_size >> 4) covers one block and
      is a multiple of 8. */
  lemma RequestBytes(n: nat, nObjs: nat, heapSize: nat)
    requires n % Align == 0 && 1 <= nObjs
    ensures n <= 2 * Bytes(n, nObjs) + RoundUp(heapSize / 16)
    ensures (2 * Bytes(n, nObjs) + RoundUp(heapSize / 16)) % Align == 0
  {
    BytesAligned(n, nObjs);
    BytesMono(n, 0, nObjs);
  }

  /** Fewer bytes means fewer blocks. */
  lemma BytesLess(n: nat, j: nat, k: nat)
    requires Bytes(n, j) < Bytes(n, k)
    ensures j < k
  {
    if k < j {
      BytesMono(n, k, j);
    }
  }

  /** The number of whole blocks of `n` bytes that fit in `x` bytes, x / n,
      counted block by block like Bytes. */
  function Fit(x: nat, n: nat): nat
    requires 0 < n
    decreases x
  {
    if x < n then 0 else Fit(x - n, n) + 1
  }

  /** `k` blocks fit in `x` bytes exactly when Fit(x, n) is at least `k`. */
  lemma FitCount(x: nat, n: nat, k: nat)
    requires 0 < n
    ensures Fit(x, n) >= k <==> x >= Bytes(n, k)
  {
    FitBound(x, n);
    if Fit(x, n) < k {
      BytesMono(n, Fit(x, n), k);
    } else if Fit(x, n) > k {
      BytesMono(n, k, Fit(x, n));
    }
  }

  /** Fit(x, n) blocks fit in `x` bytes and one more does not. */
  lemma {:induction false} FitBound(x: nat, n: nat)
    requires 0 < n
    ensures Bytes(n, Fit(x, n)) <= x < Bytes(n, Fit(x, n)) + n
    decreases x
  {
    if x >= n {
      FitBound(x - n, n);
    }
  }

  /** Fit(x, n) is the only count of blocks that fits in `x` bytes with less
      than one block to spare. */
  lemma FitUnique(x: nat, n: nat, q: nat)
    requires 0 < n && Bytes(n, q) <= x < Bytes(n, q) + n
    ensures Fit(x, n) == q
  {
    FitBound(x, n);
    if Fit(x, n) < q {
      BytesMono(n, Fit(x, n), q);
    } else if q < Fit(x, n) {
      BytesMono(n, q, Fit(x, n));
    }
  }

  /** Fit is truncating division. */
  lemma FitIsQuotient(x: nat, n: nat)
    requires 0 < n
    ensures Fit(x, n) == x / n
  {
    var q := x / n;
    BytesIsProduct(n, q);
    assert n * q + x % n == x;
    FitUnique(x, n, q);
  }

  /** Address of the j-th block of a batch starting at `a` with stride `n`. */
  function Slot(a: nat, n: nat, j: nat): nat
  {
    a + Bytes(n, j)
  }

  /** The addresses of `k` consecutive blocks of `n` bytes, starting at `a`. */
  ghost function Stride(a: nat, n: nat, k: nat): (s: seq<nat>)
    decreases k
  {
    if k == 0 then [] else [a] + Stride(a + n, n, k - 1)
  }

  /** The same batch as a block map. */
  ghost function StrideBlocks(a: nat, n: nat, k: nat): map<nat, nat>
  {
    map x | x in Stride(a, n, k) :: n
  }

  lemma {:induction false} StrideAt(a: nat, n: nat, k: nat, j: nat)
    requires j < k
    ensures |Stride(a, n, k)| == k && Stride(a, n, k)[j] == Slot(a, n, j)
    decreases k
  {
    if j == 0 {
      StrideLength(a + n, n, k - 1);
    } else {
      StrideAt(a + n, n, k - 1, j - 1);
    }
  }

  lemma {:induction false} StrideLength(a: nat, n: nat, k: nat)
    ensures |Stride(a, n, k)| == k
    decreases k
  {
    if k > 0 {
      StrideLength(a + n, n, k - 1);
    }
  }

  /** A batch lies inside [a, a + n*k), in increasing order with gaps of `n`. */
  lemma {:induction false} StrideShape(a: nat, n: nat, k: nat)
    requires 0 < n
    ensures |Stride(a, n, k)| == k
    ensures forall x :: x in Stride(a, n, k) ==> a <= x && x + n <= a + Bytes(n, k)
    ensures forall j, j' :: 0 <= j < j' < k ==> Stride(a, n, k)[j] + n <= Stride(a, n, k)[j']
    decreases k
  {
    if k > 0 {
      StrideShape(a + n, n, k - 1);
      var s := Stride(a, n, k);
      forall j, j' | 0 <= j < j' < k ensures s[j] + n <= s[j'] {
        if j > 0 {
          assert s[j] == Stride(a + n, n, k - 1)[j - 1];
        }
        assert s[j'] == Stride(a + n, n, k - 1)[j' - 1];
        assert s[j'] in Stride(a + n, n, k - 1);
      }
    }
  }

  /** A batch from an aligned start at an aligned stride is aligned. */
  lemma {:induction false} StrideAligned(a: nat, n: nat, k: nat)
    requires a % Align == 0 && n % Align == 0
    ensures forall x :: x in Stride(a, n, k) ==> x % Align == 0
    decreases k
  {
    if k > 0 {
      StrideAligned(a + n, n, k - 1);
      forall x | x in Stride(a, n, k) ensures x % Align == 0 {
        assert Stride(a, n, k) == [a] + Stride(a + n, n, k - 1);
        if x != a {
          assert x in Stride(a + n, n, k - 1);
        }
      }
    }
  }

  /** A batch is duplicate-free and, as a block map, free of overlaps. */
  lemma StrideDisjoint(a: nat, n: nat, k: nat)
    requires 0 < n
    ensures NoDup(Stride(a, n, k))
    ensures Disjoint(StrideBlocks(a, n, k))
  {
    StrideShape(a, n, k);
    var s := Stride(a, n, k);
    var m := StrideBlocks(a, n, k);
    forall x, y | x in m && y in m && x < y ensures x + m[x] <= y {
      var j :| 0 <= j < |s| && s[j] == x;
      var j' :| 0 <= j' < |s| && s[j'] == y;
    }
  }

  /** Linking a batch block by block yields a chain over the batch. */
  lemma {:induction false} StrideChain(a: nat, n: nat, k: nat, link: map<nat, nat>)
    requires 0 < k
    requires forall j :: 0 <= j < k - 1 ==> Slot(a, n, j) in link && link[Slot(a, n, j)] == Slot(a, n, j) + n
    requires Slot(a, n, k - 1) in link && link[Slot(a, n, k - 1)] == Null
    ensures Chain(a, Stride(a, n, k), link)
    decreases k
  {
    var b := a + n;
    assert Slot(a, n, 0) == a;
    assert Stride(a, n, k) == [a] + Stride(b, n, k - 1);
    if k == 1 {
      assert link[Slot(a, n, 0)] == Null;
    } else {
      forall j | 0 <= j < k - 2
        ensures Slot(b, n, j) in link && link[Slot(b, n, j)] == Slot(b, n, j) + n
      {
        assert Slot(b, n, j) == Slot(a, n, j + 1);
      }
      assert Slot(b, n, k - 2) == Slot(a, n, k - 1);
      assert link[Slot(a, n, 0)] == Slot(a, n, 1);
      assert Slot(a, n, 1) == b;
      StrideChain(b, n, k - 1, link);
    }
  }

  /** Rewriting words outside a chain leaves the chain intact. */
  lemma {:induction false} ChainFrame(head: nat, l: seq<nat>, link: map<nat, nat>, link': map<nat, nat>)
    requires Chain(head, l, link)
    requires forall a :: a in l && a in link ==> a in link' && link'[a] == link[a]
    ensures Chain(head, l, link')
    decreases |l|
  {
    if l != [] {
      ChainFrame(link[l[0]], l[1..], link, link');
    }
  }

  /** Adding blocks carved from a range of system memory that no block
      overlaps keeps the blocks apart and within the system's memory. */
  lemma AddBlocks(blocks: map<nat, nat>, extra: map<nat, nat>, lo: nat, hi: nat, brk: nat)
    requires Disjoint(blocks) && Disjoint(extra) && Clear(blocks, lo, hi) && Within(blocks, brk)
    requires Null < lo && hi <= brk
    requires forall x :: x in extra ==> lo <= x && x + extra[x] <= hi && 0 < extra[x]
    ensures Disjoint(blocks + extra) && Within(blocks + extra, brk)
    ensures forall x :: x in extra ==> x !in blocks
  {
    var u := blocks + extra;
    forall x, y | x in u && y in u && x < y ensures x + u[x] <= y {
      if x in extra && y !in extra {
        assert y + blocks[y] <= lo || hi <= y;
      } else if x !in extra && y in extra {
        assert x + blocks[x] <= lo || hi <= x;
      }
    }
  }

  /** Taking a block out keeps the rest apart, and no other block overlaps its range. */
  lemma RemoveBlock(blocks: map<nat, nat>, p: nat, brk: nat)
    requires Disjoint(blocks) && Within(blocks, brk) && Aligned(blocks) && p in blocks
    ensures Disjoint(blocks - {p}) && Within(blocks - {p}, brk) && Aligned(blocks - {p})
    ensures Clear(blocks - {p}, p, p + blocks[p]) && p % Align == 0
  {
  }

  /** Memory at or above the break overlaps no block. */
  lemma ClearAbove(blocks: map<nat, nat>, brk: nat, hi: nat)
    requires Within(blocks, brk)
    ensures Clear(blocks, brk, hi)
  {
  }

  /** Blocks below the break stay below a higher break. */
  lemma WithinGrow(blocks: map<nat, nat>, brk: nat, brk': nat)
    requires Within(blocks, brk) && brk <= brk'
    ensures Within(blocks, brk')
  {
  }

  /** The lists after the leftover arena fragment of `left` bytes at `addr` is
      pushed onto its list (nothing happens to an empty fragment). */
  ghost function Donated(lists: seq<seq<nat>>, addr: nat, left: nat): (d: seq<seq<nat>>)
    requires |lists| == NFreeLists && left < MaxBytes
    ensures |d| == NFreeLists
  {
    if left == 0 then lists
    else lists[FreeListIndex(left) := [addr] + lists[FreeListIndex(left)]]
  }

  /** A fragment shorter than a block of `n` bytes goes to a list other than n's. */
  lemma DonatedKeeps(lists: seq<seq<nat>>, addr: nat, left: nat, n: nat)
    requires |lists| == NFreeLists && SmallSize(n) && left < n && left % Align == 0
    ensures Donated(lists, addr, left)[FreeListIndex(n)] == lists[FreeListIndex(n)]
  {
    BlockSizeIndex(n);
    if left > 0 {
      BlockSizeIndex(left);
    }
  }

  /** An arena [start, end) of whole 8-byte units from an aligned address: when non-empty it is system
      memory below `brk` that no block overlaps. */
  ghost predicate Arena(start: nat, end: nat, blocks: map<nat, nat>, brk: nat)
  {
    start <= end && start % Align == 0 && (end - start) % Align == 0 &&
    (start < end ==> Null < start && end <= brk && Clear(blocks, start, end))
  }

  /** Taking whole units off the front of an arena leaves an arena. */
  lemma ArenaTake(start: nat, end: nat, blocks: map<nat, nat>, brk: nat, k: nat)
    requires Arena(start, end, blocks, brk) && k % Align == 0 && start + k <= end
    ensures Arena(start + k, end, blocks, brk)
  {
  }

  /** Blocks carved outside an arena leave it an arena. */
  lemma ArenaAdd(start: nat, end: nat, blocks: map<nat, nat>, brk: nat, extra: map<nat, nat>, lo: nat, hi: nat)
    requires Arena(start, end, blocks, brk)
    requires start < end ==> end <= lo || hi <= start
    requires forall x :: x in extra ==> lo <= x && x + extra[x] <= hi && 0 < extra[x]
    ensures Arena(start, end, blocks + extra, brk)
  {
  }

  /** A non-empty arena does not start at a block. */
  lemma ArenaStart(start: nat, end: nat, blocks: map<nat, nat>, brk: nat)
    requires Arena(start, end, blocks, brk) && start < end && Within(blocks, brk)
    ensures start !in blocks
  {
  }

  /** A non-empty arena [q, hi) shorter than a largest block becomes one free
      block at the head of the list of its size; the pool stays well formed. */
  lemma PushFragment(heads: seq<nat>, lists: seq<seq<nat>>, link: map<nat, nat>,
                     blocks: map<nat, nat>, live: set<nat>, q: nat, hi: nat, brk: nat)
    requires FreeLists(heads, lists, link, blocks, live) && Disjoint(blocks) && Within(blocks, brk)
    requires Arena(q, hi, blocks, brk) && 0 < hi - q < MaxBytes && Aligned(blocks)
    ensures FreeListIndex(hi - q) < NFreeLists
    ensures var idx := FreeListIndex(hi - q);
      FreeLists(heads[idx := q], lists[idx := [q] + lists[idx]], link[q := heads[idx]], blocks[q := hi - q], live)
    ensures Disjoint(blocks[q := hi - q]) && Within(blocks[q := hi - q], brk) && Aligned(blocks[q := hi - q])
    ensures q !in blocks && Arena(hi, hi, blocks[q := hi - q], brk)
  {
    var left := hi - q;
    BlockSizeIndex(left);
    ArenaStart(q, hi, blocks, brk);
    FreeListsGrow(heads, lists, link, blocks, live, q, left);
    FreeListsPush(heads, lists, link, blocks[q := left], live + {q}, FreeListIndex(left), q);
    AddBlocks(blocks, map[q := left], q, hi, brk);
    assert blocks + map[q := left] == blocks[q := left];
    assert live + {q} - {q} == live;
  }

  /** Taking the head block of non-empty list k out of the pool leaves a
      well-formed pool, and the block's range is an arena. */
  lemma StealFacts(heads: seq<nat>, lists: seq<seq<nat>>, link: map<nat, nat>,
                   blocks: map<nat, nat>, live: set<nat>, k: nat, brk: nat)
    requires FreeLists(heads, lists, link, blocks, live) && Disjoint(blocks) && Within(blocks, brk) && Aligned(blocks)
    requires k < NFreeLists && lists[k] != []
    ensures var p := lists[k][0];
      var b := blocks - {p};
      p == heads[k] && p in link &&
      FreeLists(heads[k := link[p]], lists[k := lists[k][1..]], link, b, live) &&
      Disjoint(b) && Within(b, brk) && Aligned(b) && Arena(p, p + Align * (k + 1), b, brk)
  {
    FreeListsPop(heads, lists, link, blocks, live, k);
    RemoveBlock(blocks, lists[k][0], brk);
  }

  /** The first non-empty list at or after index `from`, or NFreeLists if none. */
  ghost function FirstNonEmpty(lists: seq<seq<nat>>, from: nat): (k: nat)
    requires |lists| == NFreeLists && from <= NFreeLists
    ensures from <= k <= NFreeLists
    ensures k < NFreeLists ==> lists[k] != []
    ensures forall i :: from <= i < k ==> lists[i] == []
    decreases NFreeLists - from
  {
    if from == NFreeLists then NFreeLists
    else if lists[from] != [] then from
    else FirstNonEmpty(lists, from + 1)
  }

  // ---------------------------------------------------------------------
  // The free lists as values

  /** Every pool block not handed out is on the list of its size. */
  ghost predicate Accounted(lists: seq<seq<nat>>, blocks: map<nat, nat>, live: set<nat>)
    requires |lists| == NFreeLists
  {
    forall a :: a in blocks && a !in live ==> SmallSize(blocks[a]) && a in lists[FreeListIndex(blocks[a])]
  }

  /** The sixteen lists with heads `heads`: each is a null-terminated chain
      through `link` without repeats, made of pool blocks of its own size that
      are not handed out; every pool block is handed out or on a list. */
  ghost predicate FreeLists(heads: seq<nat>, lists: seq<seq<nat>>, link: map<nat, nat>,
                            blocks: map<nat, nat>, live: set<nat>)
  {
    |heads| == NFreeLists && |lists| == NFreeLists &&
    (forall i :: 0 <= i < NFreeLists ==> Chain(heads[i], lists[i], link)) &&
    (forall i :: 0 <= i < NFreeLists ==> NoDup(lists[i])) &&
    Listed(lists, blocks, live) && live <= blocks.Keys && Accounted(lists, blocks, live)
  }

  /** A list head is null exactly when the list is empty. */
  lemma FreeListsHead(heads: seq<nat>, lists: seq<seq<nat>>, link: map<nat, nat>,
                      blocks: map<nat, nat>, live: set<nat>, idx: nat)
    requires FreeLists(heads, lists, link, blocks, live) && idx < NFreeLists && Null !in blocks
    ensures heads[idx] == Null <==> lists[idx] == []
  {
    assert Chain(heads[idx], lists[idx], link);
    if lists[idx] != [] {
      assert lists[idx][0] in lists[idx];
    }
  }

  /** Popping the head of a non-empty list: the head is a free block of the
      list's size, and the rest are free lists whether the head is handed out
      or leaves the pool. */
  lemma FreeListsPop(heads: seq<nat>, lists: seq<seq<nat>>, link: map<nat, nat>,
                     blocks: map<nat, nat>, live: set<nat>, idx: nat)
    requires FreeLists(heads, lists, link, blocks, live) && idx < NFreeLists && lists[idx] != []
    ensures var p := lists[idx][0];
      p == heads[idx] && p in link && p in blocks && blocks[p] == Align * (idx + 1) && p !in live &&
      FreeLists(heads[idx := link[p]], lists[idx := lists[idx][1..]], link, blocks, live + {p}) &&
      FreeLists(heads[idx := link[p]], lists[idx := lists[idx][1..]], link, blocks - {p}, live)
  {
    var p := lists[idx][0];
    assert Chain(heads[idx], lists[idx], link);
    assert NoDup(lists[idx]);
    assert p in lists[idx];
    var h' := heads[idx := link[p]];
    var l' := lists[idx := lists[idx][1..]];
    assert lists[idx] == [p] + lists[idx][1..];
    forall i | 0 <= i < NFreeLists ensures Chain(h'[i], l'[i], link) && NoDup(l'[i]) {
      if i != idx {
        assert Chain(heads[i], lists[i], link) && NoDup(lists[i]);
      }
    }
    forall i, a | 0 <= i < NFreeLists && a in l'[i]
      ensures a in blocks && blocks[a] == Align * (i + 1) && a !in live + {p} && a != p
    {
      assert a in lists[i];
      if i == idx {
        assert a != p;
      }
    }
  }

  /** Pushing a handed-out block of list idx's size onto that list. */
  lemma FreeListsPush(heads: seq<nat>, lists: seq<seq<nat>>, link: map<nat, nat>,
                      blocks: map<nat, nat>, live: set<nat>, idx: nat, p: nat)
    requires FreeLists(heads, lists, link, blocks, live) && idx < NFreeLists
    requires p in live && p in blocks && blocks[p] == Align * (idx + 1)
    ensures FreeLists(heads[idx := p], lists[idx := [p] + lists[idx]], link[p := heads[idx]], blocks, live - {p})
  {
    var link' := link[p := heads[idx]];
    var h' := heads[idx := p];
    var l' := lists[idx := [p] + lists[idx]];
    forall i | 0 <= i < NFreeLists ensures Chain(heads[i], lists[i], link') && NoDup(lists[i]) {
      assert Chain(heads[i], lists[i], link) && NoDup(lists[i]);
      assert p !in lists[i];
      ChainFrame(heads[i], lists[i], link, link');
    }
    assert ([p] + lists[idx])[1..] == lists[idx];
    BlockSizeIndex(Align * (idx + 1));
    forall i | 0 <= i < NFreeLists ensures Chain(h'[i], l'[i], link') && NoDup(l'[i]) {
      if i != idx {
        assert Chain(heads[i], lists[i], link') && NoDup(lists[i]);
      }
    }
    forall i, a | 0 <= i < NFreeLists && a in l'[i]
      ensures a in blocks && blocks[a] == Align * (i + 1) && a !in live - {p}
    {
      if a != p {
        assert a in lists[i];
      }
    }
  }

  /** A new pool block, handed out, leaves the lists free lists. */
  lemma FreeListsGrow(heads: seq<nat>, lists: seq<seq<nat>>, link: map<nat, nat>,
                      blocks: map<nat, nat>, live: set<nat>, q: nat, size: nat)
    requires FreeLists(heads, lists, link, blocks, live) && q !in blocks
    ensures FreeLists(heads, lists, link, blocks[q := size], live + {q})
  {
    forall i, a | 0 <= i < NFreeLists && a in lists[i]
      ensures a in blocks[q := size] && blocks[q := size][a] == Align * (i + 1) && a !in live + {q}
    {
      assert a in blocks;
    }
  }

  /** Installing a fresh batch of blocks `extra` as list idx, chained from `h`
      in the order `l`, with the batch's blocks `out` handed out instead; the
      new words touch no other pool block. */
  lemma FreeListsInstall(heads: seq<nat>, lists: seq<seq<nat>>, link: map<nat, nat>,
                         blocks: map<nat, nat>, live: set<nat>, idx: nat,
                         h: nat, l: seq<nat>, link': map<nat, nat>, extra: map<nat, nat>, out: set<nat>)
    requires FreeLists(heads, lists, link, blocks, live) && idx < NFreeLists && lists[idx] == []
    requires Chain(h, l, link') && NoDup(l)
    requires forall a :: a in l ==> a in extra && extra[a] == Align * (idx + 1) && a !in out
    requires out <= extra.Keys && forall a :: a in extra ==> a in out || a in l
    requires forall a :: a in extra ==> a !in blocks
    requires forall a :: a in blocks && a in link ==> a in link' && link'[a] == link[a]
    ensures FreeLists(heads[idx := h], lists[idx := l], link', blocks + extra, live + out)
  {
    InstallChains(heads, lists, link, blocks, live, idx, h, l, link', heads[idx := h], lists[idx := l]);
    InstallListed(lists, blocks, live, idx, l, extra, out);
    InstallAccounted(lists, blocks, live, idx, l, extra, out);
    var l' := lists[idx := l];
    forall i | 0 <= i < NFreeLists ensures NoDup(l'[i]) {
      if i != idx {
        assert NoDup(lists[i]);
      }
    }
  }

  /** The chains of FreeListsInstall: list idx becomes the chain from `h`,
      and the others keep theirs since their words are unchanged. */
  lemma InstallChains(heads: seq<nat>, lists: seq<seq<nat>>, link: map<nat, nat>,
                      blocks: map<nat, nat>, live: set<nat>, idx: nat, h: nat, l: seq<nat>, link': map<nat, nat>,
                      heads': seq<nat>, lists': seq<seq<nat>>)
    requires |heads| == NFreeLists && |lists| == NFreeLists && idx < NFreeLists
    requires heads' == heads[idx := h] && lists' == lists[idx := l]
    requires forall i :: 0 <= i < NFreeLists ==> Chain(heads[i], lists[i], link)
    requires Listed(lists, blocks, live) && Chain(h, l, link')
    requires forall a :: a in blocks && a in link ==> a in link' && link'[a] == link[a]
    ensures forall i :: 0 <= i < NFreeLists ==> Chain(heads'[i], lists'[i], link')
  {
    forall i | 0 <= i < NFreeLists ensures Chain(heads'[i], lists'[i], link') {
      if i != idx {
        assert Chain(heads[i], lists[i], link);
        forall a | a in lists[i] && a in link ensures a in link' && link'[a] == link[a] {
          assert a in blocks;
        }
        ChainFrame(heads[i], lists[i], link, link');
      }
    }
  }

  /** The sizes of FreeListsInstall: every listed block, old or new, is a pool
      block of its list's size that is not handed out. */
  lemma InstallListed(lists: seq<seq<nat>>, blocks: map<nat, nat>, live: set<nat>, idx: nat,
                      l: seq<nat>, extra: map<nat, nat>, out: set<nat>)
    requires |lists| == NFreeLists && idx < NFreeLists && Listed(lists, blocks, live) && live <= blocks.Keys
    requires forall a :: a in l ==> a in extra && extra[a] == Align * (idx + 1) && a !in out
    requires out <= extra.Keys && forall a :: a in extra ==> a !in blocks
    ensures Listed(lists[idx := l], blocks + extra, live + out)
  {
    var l' := lists[idx := l];
    forall i, a | 0 <= i < NFreeLists && a in l'[i]
      ensures a in blocks + extra && (blocks + extra)[a] == Align * (i + 1) && a !in live + out
    {
      if i != idx {
        assert a in lists[i];
        assert a !in extra;
      }
    }
  }

  /** The accounting of FreeListsInstall: a new block not handed out is on
      list idx, and an old one stays on its list, which is not idx. */
  lemma InstallAccounted(lists: seq<seq<nat>>, blocks: map<nat, nat>, live: set<nat>, idx: nat,
                         l: seq<nat>, extra: map<nat, nat>, out: set<nat>)
    requires |lists| == NFreeLists && idx < NFreeLists && lists[idx] == [] && Accounted(lists, blocks, live)
    requires forall a :: a in l ==> a in extra && extra[a] == Align * (idx + 1)
    requires forall a :: a in extra ==> a in out || a in l
    ensures Accounted(lists[idx := l], blocks + extra, live + out)
  {
    var l' := lists[idx := l];
    BlockSizeIndex(Align * (idx + 1));
    forall a | a in blocks + extra && a !in live + out
      ensures SmallSize((blocks + extra)[a]) && a in l'[FreeListIndex((blocks + extra)[a])]
    {
      if a in extra {
        assert a in l;
      } else {
        assert a in lists[FreeListIndex(blocks[a])];
      }
    }
  }

  /** What refill's linking loop achieves: the batch at `chunk` of `cnt`
      blocks of `n` bytes, its first handed out and the rest chained in address
      order from `first`, joins the pool as list index(n). */
  lemma InstallBatch(heads: seq<nat>, lists: seq<seq<nat>>, link0: map<nat, nat>, link: map<nat, nat>,
                     blocks: map<nat, nat>, live: set<nat>, brk: nat, start: nat, end: nat,
                     chunk: nat, first: nat, n: nat, cnt: nat)
    requires FreeLists(heads, lists, link0, blocks, live) && Disjoint(blocks) && Within(blocks, brk)
    requires Arena(start, end, blocks, brk) && (start < end ==> end <= chunk || chunk + Bytes(n, cnt) <= start)
    requires SmallSize(n) && 2 <= cnt && first == chunk + n && lists[FreeListIndex(n)] == []
    requires Null < chunk && chunk + Bytes(n, cnt) <= brk && Clear(blocks, chunk, chunk + Bytes(n, cnt))
    requires Aligned(blocks) && chunk % Align == 0
    requires forall j :: 0 <= j < cnt - 2 ==>
      Slot(first, n, j) in link && link[Slot(first, n, j)] == Slot(first, n, j) + n
    requires Slot(first, n, cnt - 2) in link && link[Slot(first, n, cnt - 2)] == Null
    requires forall a :: a in link0 && (a < first || Slot(first, n, cnt - 2) < a) ==>
      a in link && link[a] == link0[a]
    ensures var b := blocks + StrideBlocks(chunk, n, cnt);
      FreeLists(heads[FreeListIndex(n) := first], lists[FreeListIndex(n) := Stride(first, n, cnt - 1)],
                link, b, live + {chunk}) &&
      Disjoint(b) && Within(b, brk) && Arena(start, end, b, brk) && Aligned(b) &&
      chunk !in live && chunk in b && b[chunk] == n
  {
    var sb := StrideBlocks(chunk, n, cnt);
    var l := Stride(first, n, cnt - 1);
    BlockSizeIndex(n);
    assert Chain(first, l, link) by {
      StrideChain(first, n, cnt - 1, link);
    }
    assert forall a :: a in blocks && a in link0 ==> a in link && link[a] == link0[a] by {
      BatchFrame(blocks, link0, link, chunk, first, n, cnt);
    }
    assert Aligned(blocks + sb) by {
      StrideAligned(chunk, n, cnt);
    }
    BatchJoin(blocks, brk, start, end, chunk, n, cnt);
    FreeListsInstall(heads, lists, link0, blocks, live, FreeListIndex(n), first, l, link, sb, {chunk});
  }

  /** Linking a batch changes no link of a block outside it. */
  lemma BatchFrame(blocks: map<nat, nat>, link0: map<nat, nat>, link: map<nat, nat>,
                   chunk: nat, first: nat, n: nat, cnt: nat)
    requires 0 < n && 2 <= cnt && first == chunk + n && Clear(blocks, chunk, chunk + Bytes(n, cnt))
    requires forall a :: a in link0 && (a < first || Slot(first, n, cnt - 2) < a) ==>
      a in link && link[a] == link0[a]
    ensures forall a :: a in blocks && a in link0 ==> a in link && link[a] == link0[a]
  {
    assert Bytes(n, cnt) == Bytes(n, cnt - 1) + n;
    BytesMono(n, cnt - 2, cnt - 1);
    forall a | a in blocks && a in link0 ensures a in link && link[a] == link0[a] {
      assert a + blocks[a] <= chunk || chunk + Bytes(n, cnt) <= a;
    }
  }

  /** A batch carved from fresh memory joins the block map without overlap,
      outside the arena. */
  lemma BatchJoin(blocks: map<nat, nat>, brk: nat, start: nat, end: nat, chunk: nat, n: nat, cnt: nat)
    requires Disjoint(blocks) && Within(blocks, brk) && Arena(start, end, blocks, brk)
    requires start < end ==> end <= chunk || chunk + Bytes(n, cnt) <= start
    requires 0 < n && 2 <= cnt
    requires Null < chunk && chunk + Bytes(n, cnt) <= brk && Clear(blocks, chunk, chunk + Bytes(n, cnt))
    ensures var sb := StrideBlocks(chunk, n, cnt);
      var l := Stride(chunk + n, n, cnt - 1);
      Disjoint(blocks + sb) && Within(blocks + sb, brk) && Arena(start, end, blocks + sb, brk) &&
      (forall a :: a in sb ==> a !in blocks) && NoDup(l) && chunk in sb && sb[chunk] == n && (forall x :: x in sb ==> x == chunk || x in l) &&
      (forall a :: a in l ==> a in sb && sb[a] == n && a != chunk)
  {
    BatchShape(chunk, n, cnt);
    var sb := StrideBlocks(chunk, n, cnt);
    AddBlocks(blocks, sb, chunk, chunk + Bytes(n, cnt), brk);
    ArenaAdd(start, end, blocks, brk, sb, chunk, chunk + Bytes(n, cnt));
  }

  /** A batch of `cnt` blocks at `chunk`: its blocks lie in [chunk, chunk + n*cnt)
      without overlap, and all but the first form the list from `chunk + n`. */
  lemma BatchShape(chunk: nat, n: nat, cnt: nat)
    requires 0 < n && 2 <= cnt
    ensures var sb := StrideBlocks(chunk, n, cnt);
      var l := Stride(chunk + n, n, cnt - 1);
      Disjoint(sb) && NoDup(l) && chunk in sb && sb[chunk] == n && (forall x :: x in sb ==> x == chunk || x in l) &&
      (forall x :: x in sb ==> chunk <= x && x + sb[x] <= chunk + Bytes(n, cnt) && 0 < sb[x]) &&
      (forall a :: a in l ==> a in sb && sb[a] == n && a != chunk)
  {
    var first := chunk + n;
    StrideShape(chunk, n, cnt);
    StrideShape(first, n, cnt - 1);
    StrideDisjoint(chunk, n, cnt);
    StrideDisjoint(first, n, cnt - 1);
    assert Stride(chunk, n, cnt) == [chunk] + Stride(first, n, cnt - 1);
    assert Bytes(n, cnt) == Bytes(n, cnt - 1) + n;
  }

  /** The lists once refill has filed a batch of `cnt` blocks of `n` bytes at
      `chunk`: all but the first become list index(n), in address order. */
  ghost function Refilled(l: seq<seq<nat>>, n: nat, chunk: nat, cnt: nat): seq<seq<nat>>
    requires |l| == NFreeLists && SmallSize(n) && 1 <= cnt
  {
    l[FreeListIndex(n) := Stride(chunk + n, n, cnt - 1)]
  }

  /** The lists once chunk_alloc has stolen the head block of the first
      non-empty list of size n or more, when there is one. */
  ghost function Stolen(l: seq<seq<nat>>, n: nat): seq<seq<nat>>
    requires |l| == NFreeLists && SmallSize(n)
  {
    var k := FirstNonEmpty(l, FreeListIndex(n));
    if k < NFreeLists then l[k := l[k][1..]] else l
  }

  /** The lists chunk_alloc(n, ...) leaves, from the lists `l`, an arena of
      `left` bytes at `start` and whether the next malloc fails: unchanged when
      the arena holds one block; otherwise the fragment is donated and, when
      malloc fails, the head of the first non-empty list of size n or more is
      taken as the new arena. */
  ghost function ChunkLists(n: nat, l: seq<seq<nat>>, start: nat, left: nat, fails: bool): (l': seq<seq<nat>>)
    requires SmallSize(n) && |l| == NFreeLists
  {
    if left >= n then l
    else if fails then Stolen(Donated(l, start, left), n)
    else Donated(l, start, left)
  }

  /** What refill(n) does from the lists `l`, the arena of `left` bytes at
      `start`, whether the next malloc fails and the break `brk`: chunk_alloc
      delivers `got` blocks at `r`, and the lists `l2` are those chunk_alloc
      leaves, with the blocks after the first filed as list index(n). */
  ghost predicate RefillOutcome(n: nat, l: seq<seq<nat>>, start: nat, left: nat, fails: bool, brk: nat,
                                r: Outcome, got: nat, l2: seq<seq<nat>>)
    requires SmallSize(n) && |l| == NFreeLists
  {
    ChunkOutcome(n, RefillObjs, l, start, left, fails, brk, r, got) &&
    (r.Ok? ==> 1 <= got <= RefillObjs) &&
    var l' := ChunkLists(n, l, start, left, fails);
    l2 == if r.Ok? && 1 <= got then Refilled(l', n, r.addr, got) else l'
  }

  /** What chunk_alloc(n, nObjs) delivers (result `r`, `got` blocks) from the
      lists `l`, an arena of `left` bytes at `start`, whether the next malloc
      fails and the break `brk`: an arena holding one block is carved from its
      start; otherwise the blocks come from a fresh malloc at the break or, when
      malloc fails, from the head of the first non-empty list of size n or more
      (with the first-level allocator as the last resort). */
  ghost predicate ChunkOutcome(n: nat, nObjs: nat, l: seq<seq<nat>>, start: nat, left: nat, fails: bool, brk: nat,
                               r: Outcome, got: nat)
    requires SmallSize(n) && |l| == NFreeLists
  {
    (left >= n ==> r == Ok(start) && got == (if Fit(left, n) >= nObjs then nObjs else Fit(left, n))) &&
    (left < n && !fails ==> r == Ok(brk) && got == nObjs) &&
    (left < n && fails ==>
       var d := Donated(l, start, left);
       var k := FirstNonEmpty(d, FreeListIndex(n));
       k < NFreeLists ==>
         r == Ok(d[k][0]) &&
         got == (if Fit(Align * (k + 1), n) >= nObjs then nObjs else Fit(Align * (k + 1), n)))
  }

  /** chunk_alloc's outcome after case 3 refilled the arena: the tail call carves from the new
      arena, the fresh malloc at the old break or the stolen block. */
  lemma ChunkRetried(n: nat, nObjs: nat, l: seq<seq<nat>>, start: nat, left: nat, fails: bool, brk: nat,
                     heap: nat, start1: nat, left1: nat, r: Outcome, got: nat)
    requires SmallSize(n) && |l| == NFreeLists && 1 <= nObjs && left < n
    requires !fails ==> start1 == brk && left1 == 2 * Bytes(n, nObjs) + RoundUp(heap / 16)
    requires fails ==>
      var d := Donated(l, start, left);
      var k := FirstNonEmpty(d, FreeListIndex(n));
      k < NFreeLists ==> start1 == d[k][0] && left1 == Align * (k + 1)
    requires r == Ok(start1) && got == (if Fit(left1, n) >= nObjs then nObjs else Fit(left1, n))
    ensures ChunkOutcome(n, nObjs, l, start, left, fails, brk, r, got)
  {
    if !fails {
      FitCount(left1, n, nObjs);
    }
  }

  // ---------------------------------------------------------------------
  // The allocator

  class PoolAllocator {
    const sys: SystemHeap
    const malloc: MallocAllocator
    const freeList: array<nat>
    var startFree: nat
    var endFree: nat
    var heapSize: nat
    var link: map<nat, nat>

    ghost var lists: seq<seq<nat>>
    ghost var blocks: map<nat, nat>
    ghost var live: set<nat>

    /** Free lists and blocks are consistent. */
    ghost predicate PoolOK()
      reads this`lists, this`blocks, this`live, this`link, freeList, sys`brk
    {
      malloc.sys == sys && sys.Valid() && freeList.Length == NFreeLists &&
      FreeLists(freeList[..], lists, link, blocks, live) &&
      Disjoint(blocks) && Within(blocks, sys.brk) && Aligned(blocks)
    }

    /** The arena [startFree, endFree) is system memory that no block overlaps,
        and its size is a multiple of 8. */
    ghost predicate ArenaOK()
      reads this`startFree, this`endFree, this`blocks, sys`brk
    {
      Arena(startFree, endFree, blocks, sys.brk)
    }

    ghost predicate Valid()
      reads this`lists, this`blocks, this`live, this`link, this`startFree, this`endFree, freeList, sys`brk
    {
      PoolOK() && ArenaOK()
    }

    /** The range [a, a + len) from an aligned address is system memory outside
        every block and outside the arena. */
    ghost predicate Unowned(a: nat, len: nat)
      reads this`startFree, this`endFree, this`blocks, sys`brk
    {
      Null < a && a % Align == 0 && a + len <= sys.brk && Clear(blocks, a, a + len) &&
      (startFree < endFree ==> endFree <= a || a + len <= startFree)
    }

    /** The static state starts out empty: no lists, no arena, heap_size 0. */
    constructor (malloc: MallocAllocator)
      requires malloc.sys.Valid()
      ensures Valid() && this.malloc == malloc && sys == malloc.sys && fresh(freeList)
      ensures freeList[..] == seq(NFreeLists, _ => Null) && lists == seq(NFreeLists, _ => [])
      ensures startFree == 0 && endFree == 0 && heapSize == 0
      ensures blocks == map[] && live == {}
    {
      this.malloc := malloc;
      sys := malloc.sys;
      freeList := new nat[NFreeLists](_ => Null);
      startFree, endFree, heapSize := 0, 0, 0;
      link := map[];
      lists := seq(NFreeLists, _ => []);
      blocks, live := map[], {};
    }

    /** allocate(n): requests above 128 bytes go to the first-level allocator;
        smaller ones pop the head of their list, or refill an empty list. */
    method Allocate(n: nat) returns (r: Outcome, ghost got: nat)
      requires Valid() && 1 <= n
      modifies this, freeList, sys
      ensures Valid()
      ensures n > MaxBytes ==> lists == old(lists) && blocks == old(blocks) && live == old(live)
      ensures n > MaxBytes ==> startFree == old(startFree) && endFree == old(endFree) && heapSize == old(heapSize)
      ensures n > MaxBytes ==> freeList[..] == old(freeList[..]) && link == old(link)
      ensures n > MaxBytes ==> (r.OutOfMemory? <==> old(sys.NextFails()) && malloc.handler == NoHandler)
      ensures n > MaxBytes && r.Ok? ==> r.addr == old(sys.brk) && sys.brk == old(sys.brk) + Granular(n)
      ensures r.Ok? ==> r.addr % Align == 0
      ensures n <= MaxBytes && r.Ok? ==>
        r.addr !in old(live) && live == old(live) + {r.addr} && r.addr in blocks && blocks[r.addr] == RoundUp(n)
      ensures n <= MaxBytes && old(lists[FreeListIndex(n)]) != [] ==>
        r == Ok(old(lists[FreeListIndex(n)][0])) &&
        lists == old(lists)[FreeListIndex(n) := old(lists[FreeListIndex(n)][1..])] &&
        freeList[..] == old(freeList[..])[FreeListIndex(n) := old(link[lists[FreeListIndex(n)][0]])] &&
        blocks == old(blocks) && link == old(link) && startFree == old(startFree) && endFree == old(endFree) &&
        heapSize == old(heapSize) && sys.brk == old(sys.brk) && sys.script == old(sys.script)
      ensures n <= MaxBytes && old(lists[FreeListIndex(n)]) == [] ==>
        RefillOutcome(RoundUp(n), old(lists), old(startFree), old(endFree - startFree), old(sys.NextFails()),
                      old(sys.brk), r, got, lists)
    {
      got := 0;
      if n > MaxBytes {
        r := malloc.Allocate(n);
        WithinGrow(blocks, old(sys.brk), sys.brk);
        return;
      }
      r, got := AllocateSmall(n);
    }

    /** allocate(n) for 1 <= n <= 128: pop the head of list index(n), or refill it when it is empty. */
    method AllocateSmall(n: nat) returns (r: Outcome, ghost got: nat)
      requires Valid() && 1 <= n <= MaxBytes
      modifies this, freeList, sys
      ensures Valid() && (r.Ok? ==> r.addr % Align == 0)
      ensures r.Ok? ==>
        r.addr !in old(live) && live == old(live) + {r.addr} && r.addr in blocks && blocks[r.addr] == RoundUp(n)
      ensures old(lists[FreeListIndex(n)]) != [] ==>
        r == Ok(old(lists[FreeListIndex(n)][0])) &&
        lists == old(lists)[FreeListIndex(n) := old(lists[FreeListIndex(n)][1..])] &&
        freeList[..] == old(freeList[..])[FreeListIndex(n) := old(link[lists[FreeListIndex(n)][0]])] &&
        blocks == old(blocks) && link == old(link) && startFree == old(startFree) && endFree == old(endFree) &&
        heapSize == old(heapSize) && sys.brk == old(sys.brk) && sys.script == old(sys.script)
      ensures old(lists[FreeListIndex(n)]) == [] ==>
        RefillOutcome(RoundUp(n), old(lists), old(startFree), old(endFree - startFree), old(sys.NextFails()),
                      old(sys.brk), r, got, lists)
    {
      got := 0;
      var miss := ListEmpty(n);
      if miss {
        r, got := Miss(n);
      } else {
        r := PopHead(n);
      }
    }

    /** free_list[index(n)] == 0, the test allocate makes before it pops: the list is empty. */
    function ListEmpty(n: nat): (b: bool)
      reads this`lists, this`blocks, this`live, this`link, this`startFree, this`endFree, freeList, sys`brk
      requires Valid() && 1 <= n <= MaxBytes
      ensures b <==> lists[FreeListIndex(n)] == []
    {
      FreeListsHead(freeList[..], lists, link, blocks, live, FreeListIndex(n));
      freeList[FreeListIndex(n)] == Null
    }

    /** The miss path of allocate(n): list index(n) is empty, so refill(ROUND_UP(n)) serves the request. */
    method Miss(n: nat) returns (r: Outcome, ghost got: nat)
      requires Valid() && 1 <= n <= MaxBytes && lists[FreeListIndex(n)] == []
      modifies this, freeList, sys
      ensures Valid() && (r.Ok? ==> r.addr % Align == 0)
      ensures r.Ok? ==>
        r.addr !in old(live) && live == old(live) + {r.addr} && r.addr in blocks && blocks[r.addr] == RoundUp(n)
      ensures RefillOutcome(RoundUp(n), old(lists), old(startFree), old(endFree - startFree), old(sys.NextFails()),
                            old(sys.brk), r, got, lists)
    {
      r, got := Refill(RoundUp(n));
    }

    /** The hit path of allocate(n): the head of list index(n) is unlinked and handed out. */
    method PopHead(n: nat) returns (r: Outcome)
      requires Valid() && 1 <= n <= MaxBytes && lists[FreeListIndex(n)] != []
      modifies this`lists, this`live, freeList
      ensures Valid() && r.Ok? && r.addr % Align == 0
      ensures r.addr !in old(live) && live == old(live) + {r.addr} && r.addr in blocks && blocks[r.addr] == RoundUp(n)
      ensures old(lists[FreeListIndex(n)]) != [] ==>
        r == Ok(old(lists[FreeListIndex(n)][0])) &&
        lists == old(lists)[FreeListIndex(n) := old(lists[FreeListIndex(n)][1..])] &&
        freeList[..] == old(freeList[..])[FreeListIndex(n) := old(link[lists[FreeListIndex(n)][0]])] &&
        blocks == old(blocks) && link == old(link) && startFree == old(startFree) && endFree == old(endFree) &&
        heapSize == old(heapSize) && sys.brk == old(sys.brk) && sys.script == old(sys.script)
    {
      var idx := FreeListIndex(n);
      var result := freeList[idx];
      FreeListsPop(freeList[..], lists, link, blocks, live, idx);
      ghost var heads := freeList[..];
      freeList[idx] := link[result];
      assert freeList[..] == heads[idx := link[result]];
      lists := lists[idx := lists[idx][1..]];
      live := live + {result};
      r := Ok(result);
    }

    /** deallocate(p, n): null is ignored, blocks above 128 bytes are freed by the
        first-level allocator, smaller ones are pushed onto their list. */
    method Deallocate(p: nat, n: nat)
      requires Valid()
      requires p != Null && n <= MaxBytes ==> p in live && p in blocks && blocks[p] == RoundUp(n)
      modifies this, freeList, sys
      ensures Valid()
      ensures p == Null ==> unchanged(this, freeList, sys)
      ensures p != Null && n > MaxBytes ==>
        unchanged(this, freeList) &&
        sys.freed == old(sys.freed) + {p} && sys.brk == old(sys.brk) && sys.script == old(sys.script)
      ensures p != Null && n <= MaxBytes ==>
        1 <= n &&
        lists == old(lists)[FreeListIndex(n) := [p] + old(lists[FreeListIndex(n)])] &&
        freeList[..] == old(freeList[..])[FreeListIndex(n) := p] &&
        link == old(link)[p := old(freeList[FreeListIndex(n)])] &&
        live == old(live) - {p} && blocks == old(blocks) && unchanged(sys) &&
        startFree == old(startFree) && endFree == old(endFree) && heapSize == old(heapSize)
    {
      if p == Null {
        return;
      }
      if n > MaxBytes {
        malloc.Deallocate(p, n);
        return;
      }
      var idx := FreeListIndex(n);
      FreeListsPush(freeList[..], lists, link, blocks, live, idx, p);
      ghost var heads := freeList[..];
      link := link[p := freeList[idx]];
      freeList[idx] := p;
      assert freeList[..] == heads[idx := p];
      lists := lists[idx := [p] + lists[idx]];
      live := live - {p};
    }

    /** deallocate(p, n) followed at once by allocate(n) hands back p and
        restores the free lists. */
    method DeallocateThenAllocate(p: nat, n: nat) returns (r: Outcome)
      requires Valid() && p != Null && 1 <= n <= MaxBytes
      requires p in live && p in blocks && blocks[p] == RoundUp(n)
      modifies this, freeList, sys
      ensures Valid() && r == Ok(p)
      ensures lists == old(lists) && live == old(live) && blocks == old(blocks)
      ensures freeList[..] == old(freeList[..])
    {
      Deallocate(p, n);
      ghost var got;
      r, got := Allocate(n);
    }

    /** chunk_alloc cases 1 and 2: carve as many of the `nObjs` blocks of `n`
        bytes as fit, at least one, from the front of the arena. */
    method Carve(n: nat, nObjs: nat) returns (r: Outcome, got: nat)
      requires Valid() && SmallSize(n) && 1 <= nObjs && n <= endFree - startFree
      modifies this`startFree
      ensures Valid() && r == Ok(old(startFree))
      ensures got == if old(endFree - startFree) >= Bytes(n, nObjs) then nObjs else Fit(old(endFree - startFree), n)
      ensures 1 <= got <= nObjs && Bytes(n, got) <= old(endFree - startFree)
      ensures startFree == old(startFree) + Bytes(n, got)
      ensures Unowned(r.addr, Bytes(n, got))
    {
      var total := Bytes(n, nObjs);
      var left := endFree - startFree;
      if left >= total {
        got := nObjs;
      } else {
        got := Fit(left, n);
        FitBound(left, n);
        BytesLess(n, got, nObjs);
        total := Bytes(n, got);
      }
      r := Ok(startFree);
      BytesMono(n, 0, got);
      BytesAligned(n, got);
      ArenaTake(startFree, endFree, blocks, sys.brk, total);
      startFree := startFree + total;
    }

    /** chunk_alloc: obtains up to `nObjs` contiguous blocks of `n` bytes,
        growing the arena (case 3) when it cannot supply even one. */
    method ChunkAlloc(n: nat, nObjs: nat) returns (r: Outcome, got: nat)
      requires Valid() && SmallSize(n) && 1 <= nObjs
      modifies this, freeList, sys
      ensures Valid() && live == old(live) && heapSize >= old(heapSize)
      ensures old(lists[FreeListIndex(n)]) == [] ==> lists[FreeListIndex(n)] == []
      ensures r.Ok? ==> 1 <= got <= nObjs && Unowned(r.addr, Bytes(n, got))
      ensures r.OutOfMemory? ==>
        old(endFree - startFree) < n && old(sys.NextFails()) && malloc.handler == NoHandler
      ensures malloc.handler != NoHandler ==> r.Ok?
      ensures ChunkOutcome(n, nObjs, old(lists), old(startFree), old(endFree - startFree), old(sys.NextFails()),
                           old(sys.brk), r, got)
      ensures lists == ChunkLists(n, old(lists), old(startFree), old(endFree - startFree), old(sys.NextFails()))
      ensures old(endFree - startFree) >= n ==> blocks == old(blocks) && heapSize == old(heapSize) && unchanged(sys)
      ensures old(endFree - startFree) < n && !old(sys.NextFails()) ==>
        heapSize == old(heapSize) + 2 * Bytes(n, nObjs) + RoundUp(old(heapSize) / 16)
      ensures old(endFree - startFree) < n && old(sys.NextFails()) &&
              FirstNonEmpty(Donated(old(lists), old(startFree), old(endFree - startFree)), FreeListIndex(n)) < NFreeLists ==>
        heapSize == old(heapSize)
      decreases if endFree - startFree >= n then 0 else 1
    {
      var left := endFree - startFree;
      if left >= n {
        FitCount(left, n, nObjs);
        r, got := Carve(n, nObjs);
        return;
      }
      var ok := Replenish(n, nObjs);
      if !ok {
        return OutOfMemory, 0;
      }
      ghost var start1, left1 := startFree, endFree - startFree;
      r, got := ChunkAlloc(n, nObjs);
      ChunkRetried(n, nObjs, old(lists), old(startFree), left, old(sys.NextFails()), old(sys.brk), old(heapSize),
                   start1, left1, r, got);
    }

    /** chunk_alloc case 3, up to its recursive call: donate the leftover
        fragment, then get 2*total + ROUND_UP(heap_size >> 4) bytes from malloc,
        else steal a block from a list of size n or larger, else fall back to
        the first-level allocator. */
    method Replenish(n: nat, nObjs: nat) returns (ok: bool)
      requires Valid() && SmallSize(n) && 1 <= nObjs && endFree - startFree < n
      modifies this, freeList, sys
      ensures Valid() && live == old(live) && heapSize >= old(heapSize)
      ensures old(lists[FreeListIndex(n)]) == [] ==> lists[FreeListIndex(n)] == []
      ensures ok ==> endFree - startFree >= n
      ensures !ok ==> old(sys.NextFails()) && malloc.handler == NoHandler
      ensures malloc.handler != NoHandler ==> ok
      ensures lists == ChunkLists(n, old(lists), old(startFree), old(endFree - startFree), old(sys.NextFails()))
      ensures !old(sys.NextFails()) ==>
        ok && startFree == old(sys.brk) &&
        endFree - startFree == 2 * Bytes(n, nObjs) + RoundUp(old(heapSize) / 16) &&
        heapSize == old(heapSize) + 2 * Bytes(n, nObjs) + RoundUp(old(heapSize) / 16)
      ensures old(sys.NextFails()) ==>
        var d := Donated(old(lists), old(startFree), old(endFree - startFree));
        var k := FirstNonEmpty(d, FreeListIndex(n));
        k < NFreeLists ==> ok && startFree == d[k][0] && endFree - startFree == Align * (k + 1) && heapSize == old(heapSize)
    {
      var total := Bytes(n, nObjs);
      RequestBytes(n, nObjs, heapSize);
      var bytesToGet := 2 * total + RoundUp(heapSize / 16);
      var left := endFree - startFree;
      DonateFragment();
      DonatedKeeps(old(lists), old(startFree), left, n);
      ok := Restock(n, bytesToGet);
    }

    /** chunk_alloc case 3 once the arena is empty: malloc `bytes` bytes as the
        new arena, else steal a block from a list of size n or larger, else ask
        the first-level allocator. */
    method Restock(n: nat, bytes: nat) returns (ok: bool)
      requires Valid() && SmallSize(n) && startFree == endFree && n <= bytes && bytes % Align == 0
      modifies this, freeList, sys
      ensures Valid() && live == old(live) && heapSize >= old(heapSize)
      ensures ok ==> endFree - startFree >= n
      ensures !ok ==> old(sys.NextFails()) && malloc.handler == NoHandler
      ensures malloc.handler != NoHandler ==> ok
      ensures !old(sys.NextFails()) ==>
        ok && startFree == old(sys.brk) && endFree - startFree == bytes &&
        heapSize == old(heapSize) + bytes && lists == old(lists)
      ensures old(sys.NextFails()) ==> lists == Stolen(old(lists), n)
      ensures old(sys.NextFails()) ==>
        var k := FirstNonEmpty(old(lists), FreeListIndex(n));
        k < NFreeLists ==> ok && startFree == old(lists[k][0]) && endFree - startFree == Align * (k + 1) && heapSize == old(heapSize)
    {
      ghost var brk0 := sys.brk;
      var p := sys.Malloc(bytes);
      WithinGrow(blocks, brk0, sys.brk);
      if p == Null {
        ok := Salvage(n, bytes);
        return;
      }
      ClearAbove(blocks, brk0, brk0 + bytes);
      startFree := p;
      heapSize := heapSize + bytes;
      endFree := startFree + bytes;
      ok := true;
    }

    /** Restock after malloc has failed: steal the head block of the first
        non-empty list of size n or larger, else call the first-level allocator,
        whose success yields `bytes` fresh bytes as the arena. */
    method Salvage(n: nat, bytes: nat) returns (ok: bool)
      requires Valid() && SmallSize(n) && startFree == endFree && n <= bytes && bytes % Align == 0
      modifies this, freeList, sys
      ensures Valid() && live == old(live) && heapSize >= old(heapSize)
      ensures ok ==> endFree - startFree >= n
      ensures !ok ==> malloc.handler == NoHandler
      ensures malloc.handler != NoHandler ==> ok
      ensures lists == Stolen(old(lists), n)
      ensures var k := FirstNonEmpty(old(lists), FreeListIndex(n));
        k < NFreeLists ==> ok && startFree == old(lists[k][0]) && endFree - startFree == Align * (k + 1) && heapSize == old(heapSize)
    {
      var found := StealBlock(n);
      if found {
        return true;
      }
      endFree := 0;
      startFree := 0;
      ghost var brk0 := sys.brk;
      var m := malloc.Allocate(bytes);
      WithinGrow(blocks, brk0, sys.brk);
      if m.OutOfMemory? {
        return false;
      }
      ClearAbove(blocks, brk0, brk0 + bytes);
      startFree := m.addr;
      heapSize := heapSize + bytes;
      endFree := startFree + bytes;
      ok := true;
    }

    /** Pushes the leftover arena fragment [startFree, endFree), if any and
        shorter than a largest block, onto the list of its size; the arena is
        then empty. */
    method DonateFragment()
      requires Valid() && endFree - startFree < MaxBytes
      modifies this, freeList
      ensures Valid() && startFree == endFree && sys.brk == old(sys.brk)
      ensures lists == Donated(old(lists), old(startFree), old(endFree - startFree))
      ensures live == old(live) && heapSize == old(heapSize)
    {
      var left := endFree - startFree;
      if left == 0 {
        return;
      }
      var idx := FreeListIndex(left);
      var q: nat := startFree;
      PushFragment(freeList[..], lists, link, blocks, live, q, endFree, sys.brk);
      ghost var heads, l', b' := freeList[..], lists[idx := [q] + lists[idx]], blocks[q := left];
      link := link[q := freeList[idx]];
      freeList[idx] := q;
      assert freeList[..] == heads[idx := q];
      startFree := endFree;
      Book(l', b', live);
    }

    /** The scan of chunk_alloc lines 294-303: the first list for the sizes
        n, n+8, ..., 128 whose head is not null, or NFreeLists if there is none. */
    method FindStocked(n: nat) returns (k: nat)
      requires PoolOK() && SmallSize(n)
      ensures k == FirstNonEmpty(lists, FreeListIndex(n))
    {
      var i := n;
      while i <= MaxBytes
        invariant n <= i <= MaxBytes + Align && i % Align == 0
        invariant FirstNonEmpty(lists, FreeListIndex(n)) == FirstNonEmpty(lists, i / Align - 1)
      {
        var idx := FreeListIndex(i);
        FreeListsHead(freeList[..], lists, link, blocks, live, idx);
        if freeList[idx] != Null {
          return idx;
        }
        i := i + Align;
      }
      k := NFreeLists;
    }

    /** The steal of chunk_alloc lines 294-303: the first non-empty list for
        sizes n, n+8, ..., 128 gives up its head block, which becomes the arena. */
    method StealBlock(n: nat) returns (found: bool)
      requires PoolOK() && SmallSize(n)
      modifies this, freeList
      ensures PoolOK() && live == old(live) && link == old(link) && heapSize == old(heapSize)
      ensures lists == Stolen(old(lists), n)
      ensures var k := FirstNonEmpty(old(lists), FreeListIndex(n));
        found == (k < NFreeLists) &&
        (found ==> startFree == old(lists[k][0]) &&
                   endFree == startFree + Align * (k + 1) && blocks == old(blocks) - {startFree} && ArenaOK()) &&
        (!found ==> unchanged(this, freeList))
    {
      var k := FindStocked(n);
      if k == NFreeLists {
        return false;
      }
      var p: nat := freeList[k];
      ghost var heads, l', b' := freeList[..], lists[k := lists[k][1..]], blocks - {p};
      StealFacts(heads, lists, link, blocks, live, k, sys.brk);
      freeList[k] := link[p];
      assert freeList[..] == heads[k := link[p]];
      startFree := p;
      endFree := p + Align * (k + 1);
      Book(l', b', live);
      found := true;
    }

    /** refill(n): takes a batch from chunk_alloc; a single block goes straight to
        the caller, otherwise block 0 does and blocks 1.. become list index(n), in
        address order at stride n, the last one linked to null.  It is called
        only when that list is empty, and the other lists are as chunk_alloc
        left them. */
    method Refill(n: nat) returns (r: Outcome, ghost got: nat)
      requires Valid() && SmallSize(n) && lists[FreeListIndex(n)] == []
      modifies this, freeList, sys
      ensures Valid() && heapSize >= old(heapSize)
      ensures r.OutOfMemory? ==> old(sys.NextFails()) && malloc.handler == NoHandler
      ensures r.Ok? ==>
        1 <= got <= RefillObjs && r.addr % Align == 0 &&
        r.addr !in old(live) && live == old(live) + {r.addr} && r.addr in blocks && blocks[r.addr] == n
      ensures RefillOutcome(n, old(lists), old(startFree), old(endFree - startFree), old(sys.NextFails()),
                            old(sys.brk), r, got, lists)
    {
      var nObjs := RefillObjs;
      var cnt;
      r, cnt := ChunkAlloc(n, nObjs);
      got := cnt;
      if r.OutOfMemory? {
        return;
      }
      Distribute(r.addr, n, cnt);
    }

    /** The rest of refill once chunk_alloc has delivered `cnt` blocks at
        `chunk`: one block is handed out alone, more are split by TakeBatch. */
    method Distribute(chunk: nat, n: nat, cnt: nat)
      requires Valid() && SmallSize(n) && 1 <= cnt && Unowned(chunk, Bytes(n, cnt)) && lists[FreeListIndex(n)] == []
      modifies this`link, this`blocks, this`live, this`lists, freeList
      ensures Valid()
      ensures chunk !in old(live) && live == old(live) + {chunk} && chunk in blocks && blocks[chunk] == n
      ensures lists == Refilled(old(lists), n, chunk, cnt)
    {
      BytesMono(n, 0, cnt);
      if cnt == 1 {
        HandOut(chunk, n);
        assert lists == old(lists)[FreeListIndex(n) := []];
      } else {
        TakeBatch(chunk, n, cnt);
      }
    }

    /** refill's single-block case: the one block chunk_alloc delivered goes
        straight to the caller. */
    ghost method HandOut(chunk: nat, n: nat)
      requires Valid() && SmallSize(n) && Unowned(chunk, n)
      modifies this`lists, this`blocks, this`live
      ensures Valid() && lists == old(lists)
      ensures chunk !in old(live) && live == old(live) + {chunk} && chunk in blocks && blocks[chunk] == n
    {
      AddBlocks(blocks, map[chunk := n], chunk, chunk + n, sys.brk);
      ArenaAdd(startFree, endFree, blocks, sys.brk, map[chunk := n], chunk, chunk + n);
      FreeListsGrow(freeList[..], lists, link, blocks, live, chunk, n);
      assert blocks + map[chunk := n] == blocks[chunk := n];
      Book(lists, blocks[chunk := n], live + {chunk});
    }

    /** The rest of refill once chunk_alloc has delivered `cnt` > 1 blocks of
        `n` bytes at `chunk`: the first is handed out and the others replace
        list index(n). */
    method TakeBatch(chunk: nat, n: nat, cnt: nat)
      requires Valid() && SmallSize(n) && 2 <= cnt && Unowned(chunk, Bytes(n, cnt)) && lists[FreeListIndex(n)] == []
      modifies this`link, this`blocks, this`live, this`lists, freeList
      ensures Valid()
      ensures chunk !in old(live) && live == old(live) + {chunk} && chunk in blocks && blocks[chunk] == n
      ensures lists == Refilled(old(lists), n, chunk, cnt)
      ensures freeList[..] == old(freeList[..])[FreeListIndex(n) := chunk + n]
    {
      var idx := FreeListIndex(n);
      var nextObj: nat := chunk + n;
      ghost var heads, link0 := freeList[..], link;
      freeList[idx] := nextObj;
      assert freeList[..] == heads[idx := nextObj];
      LinkBatch(nextObj, n, cnt - 1);
      ghost var l0 := lists;
      AdmitBatch(chunk, nextObj, n, cnt, heads, link0);
      assert lists == Refilled(l0, n, chunk, cnt);
    }

    /** The bookkeeping of refill's batch once its words are linked: the batch
        joins the pool blocks, its first block is handed out and the others
        are list index(n). */
    ghost method AdmitBatch(chunk: nat, first: nat, n: nat, cnt: nat, heads: seq<nat>, link0: map<nat, nat>)
      requires malloc.sys == sys && sys.Valid() && freeList.Length == NFreeLists
      requires FreeLists(heads, lists, link0, blocks, live) && Disjoint(blocks) && Within(blocks, sys.brk) && ArenaOK()
      requires SmallSize(n) && 2 <= cnt && first == chunk + n && Unowned(chunk, Bytes(n, cnt))
      requires Aligned(blocks) && lists[FreeListIndex(n)] == []
      requires freeList[..] == heads[FreeListIndex(n) := first]
      requires forall j :: 0 <= j < cnt - 2 ==>
        Slot(first, n, j) in link && link[Slot(first, n, j)] == Slot(first, n, j) + n
      requires Slot(first, n, cnt - 2) in link && link[Slot(first, n, cnt - 2)] == Null
      requires forall a :: a in link0 && (a < first || Slot(first, n, cnt - 2) < a) ==>
        a in link && link[a] == link0[a]
      modifies this`blocks, this`live, this`lists
      ensures Valid()
      ensures chunk !in old(live) && live == old(live) + {chunk} && chunk in blocks && blocks[chunk] == n
      ensures lists == old(lists)[FreeListIndex(n) := Stride(first, n, cnt - 1)]
    {
      InstallBatch(heads, lists, link0, link, blocks, live, sys.brk, startFree, endFree, chunk, first, n, cnt);
      Book(lists[FreeListIndex(n) := Stride(first, n, cnt - 1)], blocks + StrideBlocks(chunk, n, cnt), live + {chunk});
    }

    /** Records new ghost bookkeeping for the pool, once it is known to describe it. */
    ghost method Book(l: seq<seq<nat>>, b: map<nat, nat>, v: set<nat>)
      requires malloc.sys == sys && sys.Valid() && freeList.Length == NFreeLists
      requires FreeLists(freeList[..], l, link, b, v) && Disjoint(b) && Within(b, sys.brk) && Aligned(b)
      requires Arena(startFree, endFree, b, sys.brk)
      modifies this`lists, this`blocks, this`live
      ensures Valid() && lists == l && blocks == b && live == v
    {
      lists, blocks, live := l, b, v;
    }

    /** The linking loop of refill: the `k` blocks of `n` bytes from `first` on
        are chained in address order, the last one to null; no word below the
        first block or past the start of the last one changes. */
    method LinkBatch(first: nat, n: nat, k: nat)
      requires 0 < n && 1 <= k
      modifies this`link
      ensures forall j :: 0 <= j < k - 1 ==>
        Slot(first, n, j) in link && link[Slot(first, n, j)] == Slot(first, n, j) + n
      ensures Slot(first, n, k - 1) in link && link[Slot(first, n, k - 1)] == Null
      ensures forall a :: a in old(link) && (a < first || Slot(first, n, k - 1) < a) ==>
        a in link && link[a] == old(link)[a]
    {
      var nextObj := first;
      var i := 1;
      while true
        invariant 1 <= i <= k && nextObj == Slot(first, n, i - 1)
        invariant forall j :: 0 <= j < i - 1 ==>
          Slot(first, n, j) in link && link[Slot(first, n, j)] == Slot(first, n, j) + n
        invariant forall a :: a in old(link) && (a < first || Slot(first, n, i - 1) <= a) ==>
          a in link && link[a] == old(link)[a]
        decreases k - i
      {
        var cur := nextObj;
        nextObj := cur + n;
        forall j | 0 <= j < i - 1 ensures Slot(first, n, j) + n <= cur {
          BytesMono(n, j, i - 1);
        }
        if i == k {
          link := link[cur := Null];
          break;
        }
        link := link[cur := nextObj];
        i := i + 1;
      }
    }
  }

  /** simple_alloc<T, Alloc>: the typed interface the containers use, forwarding
      counts of objects of `size` bytes (sizeof(T)) to the pool as byte counts. */
  class SimpleAlloc {
    const pool: PoolAllocator
    const size: nat

    constructor (pool: PoolAllocator, size: nat)
      requires 0 < size
      ensures this.pool == pool && this.size == size
    {
      this.pool := pool;
      this.size := size;
    }

    /** allocate(n): null for n == 0, otherwise n * sizeof(T) bytes from the pool. */
    method Allocate(n: nat) returns (r: Outcome)
      requires pool.Valid() && 0 < size
      modifies pool, pool.freeList, pool.sys
      ensures pool.Valid()
      ensures n == 0 ==> r == Ok(Null) && unchanged(pool, pool.freeList, pool.sys)
      ensures r.Ok? ==> r.addr % Align == 0
      ensures 0 < n && Bytes(size, n) <= MaxBytes && r.Ok? ==>
        r.addr !in old(pool.live) && pool.live == old(pool.live) + {r.addr} &&
        r.addr in pool.blocks && pool.blocks[r.addr] == RoundUp(Bytes(size, n))
      ensures 0 < n && Bytes(size, n) > MaxBytes ==>
        (r.OutOfMemory? <==> old(pool.sys.NextFails()) && pool.malloc.handler == NoHandler)
    {
      if n == 0 {
        return Ok(Null);
      }
      BytesMono(size, 0, n);
      ghost var got;
      r, got := pool.Allocate(Bytes(size, n));
    }

    /** allocate(): one object. */
    method AllocateOne() returns (r: Outcome)
      requires pool.Valid() && 0 < size
      modifies pool, pool.freeList, pool.sys
      ensures pool.Valid()
      ensures r.Ok? ==> r.addr % Align == 0
      ensures size <= MaxBytes && r.Ok? ==>
        r.addr !in old(pool.live) && pool.live == old(pool.live) + {r.addr} &&
        r.addr in pool.blocks && pool.blocks[r.addr] == RoundUp(size)
    {
      ghost var got;
      r, got := pool.Allocate(size);
    }

    /** deallocate(p, n): nothing for a null pointer or n == 0, otherwise the
        n * sizeof(T) bytes go back to the pool. */
    method Deallocate(p: nat, n: nat)
      requires pool.Valid() && 0 < size
      requires p != Null && 0 < n && Bytes(size, n) <= MaxBytes ==>
        p in pool.live && p in pool.blocks && pool.blocks[p] == RoundUp(Bytes(size, n))
      modifies pool, pool.freeList, pool.sys
      ensures pool.Valid()
      ensures p == Null || n == 0 ==> unchanged(pool, pool.freeList, pool.sys)
      ensures p != Null && 0 < n && Bytes(size, n) <= MaxBytes ==>
        pool.live == old(pool.live) - {p} && pool.blocks == old(pool.blocks) &&
        pool.lists == old(pool.lists)[FreeListIndex(Bytes(size, n)) := [p] + old(pool.lists[FreeListIndex(Bytes(size, n))])]
    {
      if p == Null || n == 0 {
        return;
      }
      pool.Deallocate(p, Bytes(size, n));
    }

    /** deallocate(p): one object; the pool itself ignores a null pointer. */
    method DeallocateOne(p: nat)
      requires pool.Valid() && 0 < size
      requires p != Null && size <= MaxBytes ==> p in pool.live && p in pool.blocks && pool.blocks[p] == RoundUp(size)
      modifies pool, pool.freeList, pool.sys
      ensures pool.Valid()
      ensures p == Null ==> unchanged(pool, pool.freeList, pool.sys)
      ensures p != Null && size <= MaxBytes ==>
        pool.live == old(pool.live) - {p} && pool.blocks == old(pool.blocks) &&
        pool.lists == old(pool.lists)[FreeListIndex(size) := [p] + old(pool.lists[FreeListIndex(size)])]
    {
      pool.Deallocate(p, size);
    }
  }

  /** allocate(size) on a pool with every list empty, an empty arena and a malloc that does not
      fail: refill gets a fresh chunk at the break, hands out its first block and files the
      other 19 blocks, at stride ROUND_UP(size), as list index(size). */
  method AllocateFromFresh(pool: PoolAllocator, size: nat) returns (p: Outcome)
    requires pool.Valid() && 1 <= size <= MaxBytes
    requires pool.lists[FreeListIndex(size)] == [] && pool.startFree == pool.endFree && !pool.sys.NextFails()
    modifies pool, pool.freeList, pool.sys
    ensures pool.Valid() && p == Ok(old(pool.sys.brk))
    ensures pool.lists[FreeListIndex(size)] == Stride(p.addr + RoundUp(size), RoundUp(size), RefillObjs - 1)
  {
    ghost var l0 := pool.lists;
    ghost var got;
    p, got := pool.Allocate(size);
    assert ChunkLists(RoundUp(size), l0, pool.startFree, 0, false) == l0;
  }

  /** Two allocate(size) calls on a list that holds a stride of blocks: they pop its first two
      blocks, ROUND_UP(size) bytes apart. */
  method AllocateTwoFromList(pool: PoolAllocator, size: nat, ghost a: nat, ghost k: nat) returns (p2: Outcome, p3: Outcome)
    requires pool.Valid() && 1 <= size <= MaxBytes && 2 <= k
    requires pool.lists[FreeListIndex(size)] == Stride(a, RoundUp(size), k)
    modifies pool, pool.freeList, pool.sys
    ensures pool.Valid() && p2 == Ok(a) && p3 == Ok(a + RoundUp(size))
  {
    ghost var got;
    p2, got := pool.Allocate(size);
    assert pool.lists[FreeListIndex(size)] == Stride(a + RoundUp(size), RoundUp(size), k - 1);
    p3, got := pool.Allocate(size);
  }

  /**
   * The test mini_memory_alloc.primitive_type: on a fresh pool whose malloc does not fail, three
   * simple_alloc<T, alloc>::allocate() calls, each alloc::allocate(sizeof(T)), return consecutive
   * blocks of sizeof(T) rounded up to 8 bytes: 8 bytes apart for a 4-byte uint32_t, and 16 bytes
   * apart for a 16-byte __uint128_t when it too starts from a fresh pool.
   */
  method ConsecutiveScenario(size: nat) returns (p1: Outcome, p2: Outcome, p3: Outcome)
    requires 1 <= size <= MaxBytes
    ensures p1.Ok? && p2.Ok? && p3.Ok?
    ensures p2.addr == p1.addr + RoundUp(size) && p3.addr == p2.addr + RoundUp(size)
    ensures size == 4 ==> p2.addr - p1.addr == 8 && p3.addr - p2.addr == 8
    ensures size == 16 ==> p2.addr - p1.addr == 16 && p3.addr - p2.addr == 16
  {
    var sys := new SystemHeap([]);
    var malloc := new MallocAllocator(sys);
    var pool := new PoolAllocator(malloc);
    p1 := AllocateFromFresh(pool, size);
    p2, p3 := AllocateTwoFromList(pool, size, p1.addr + RoundUp(size), RefillObjs - 1);
  }
}
