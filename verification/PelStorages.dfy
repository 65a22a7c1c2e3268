/** The picture buffers of Buffer.cpp that own their memory: PelStorage. */
module PelStorages {
  import opened Arithmetic
  import opened BorderExtension

  const MAX_NUM_COMP: nat := 3

  datatype ChromaFormat = CHROMA_400 | CHROMA_420 | CHROMA_422 | CHROMA_444 | NUM_CHROMA_FORMAT

  function NumberValidComponents(fmt: ChromaFormat): nat { if fmt == CHROMA_400 then 1 else 3 }

  function ScaledX(x: nat, comp: nat, fmt: ChromaFormat): nat { if comp == 0 || fmt == CHROMA_444 then x else x / 2 }

  function ScaledY(y: nat, comp: nat, fmt: ChromaFormat): nat { if comp == 0 || fmt != CHROMA_420 then y else y / 2 }

  /** The allocations that have been handed out and not been freed. */
  class Allocator {
    var live: set<array?<int>>

    constructor ()
      ensures live == {}
    {
      live := {};
    }

    method Malloc(n: nat) returns (a: array<int>)
      modifies this
      ensures fresh(a) && a.Length == n && live == old(live) + {a}
    {
      a := new int[n];
      live := live + {a};
    }

    /** An allocation can be freed only once. */
    method Free(a: array<int>)
      requires a in live
      modifies this
      ensures live == old(live) - {a}
    {
      live := live - {a};
    }
  }

  /** All samples of the view lie inside its allocation. */
  ghost predicate InMemory(view: AreaBuf)
  {
    view.width >= 1 && view.height >= 1 ==> view.Holds(0, 0)
  }

  class PelStorage {
    var chromaFormat: ChromaFormat
    var bufs: seq<AreaBuf>
    var origin: seq<array?<int>>

    constructor ()
      ensures Valid() && bufs == [] && NoOrigins()
    {
      chromaFormat, bufs := NUM_CHROMA_FORMAT, [];
      origin := [null, null, null];
    }

    ghost predicate NoOrigins()
      reads this
    {
      forall k :: 0 <= k < |origin| ==> origin[k] == null
    }

    /** Every view lies inside an allocation that the storage itself has recorded; without views nothing is recorded. */
    ghost predicate Valid()
      reads this
    {
      && |origin| == MAX_NUM_COMP && |bufs| <= MAX_NUM_COMP
      && (bufs == [] ==> NoOrigins())
      && forall i :: 0 <= i < |bufs| ==> bufs[i].mem in origin[..|bufs|] && InMemory(bufs[i])
    }

    /** All components have their view. */
    predicate Created()
      reads this
    {
      |bufs| == NumberValidComponents(chromaFormat)
    }
  }

  /** The allocations in some slots. */
  function Recordings(slots: seq<array?<int>>): set<array?<int>>
  {
    set a | a in slots && a != null
  }

  // Which slot records which allocation.
  type Ledger = map<(PelStorage, int), array?<int>>

  ghost function LedgerOf(all: set<PelStorage>): (g: Ledger)
    requires forall s :: s in all ==> |s.origin| == MAX_NUM_COMP
    reads all`origin
  {
    map s, k | s in all && 0 <= k < MAX_NUM_COMP :: (s, k) := s.origin[k]
  }

  ghost predicate Records(g: Ledger, a: array?<int>)
  {
    exists p :: p in g && g[p] == a
  }

  /** Each live allocation is recorded in exactly one slot, and the slots record nothing else. */
  ghost predicate ExactlyOnce(live: set<array?<int>>, g: Ledger)
  {
    && null !in live
    && (forall p :: p in g && g[p] != null ==> g[p] in live)
    && (forall a :: a in live ==> Records(g, a))
    && (forall p, q :: p in g && q in g && g[p] == g[q] && g[p] != null ==> p == q)
  }

  lemma FreeSlot(live: set<array?<int>>, g: Ledger, p: (PelStorage, int))
    requires ExactlyOnce(live, g) && p in g && g[p] != null
    ensures ExactlyOnce(live - {g[p]}, g[p := null])
  {
    forall a | a in live - {g[p]} ensures Records(g[p := null], a) {
      assert Records(g, a);
      var q :| q in g && g[q] == a;
      assert g[p := null][q] == a;
    }
  }

  lemma FillSlot(live: set<array?<int>>, g: Ledger, p: (PelStorage, int), a: array<int>)
    requires ExactlyOnce(live, g) && p in g && g[p] == null && a !in live
    ensures ExactlyOnce(live + {a}, g[p := a])
  {
    forall b | b in live + {a} ensures Records(g[p := a], b) {
      if b == a {
        assert g[p := a][p] == a;
      } else {
        assert Records(g, b);
        var q :| q in g && g[q] == b;
        assert g[p := a][q] == b;
      }
    }
  }

  lemma SwapSlots(live: set<array?<int>>, g: Ledger, p: (PelStorage, int), q: (PelStorage, int))
    requires ExactlyOnce(live, g) && p in g && q in g
    ensures ExactlyOnce(live, g[p := g[q]][q := g[p]])
  {
    var g' := g[p := g[q]][q := g[p]];
    forall a | a in live ensures Records(g', a) {
      assert Records(g, a);
      var r :| r in g && g[r] == a;
      assert g'[if r == p then q else if r == q then p else r] == a;
    }
  }

  /** The allocations are exactly those that the storages record, each once. */
  ghost predicate Recorded(heap: Allocator, all: set<PelStorage>)
    reads heap, all`origin
  {
    (forall s :: s in all ==> |s.origin| == MAX_NUM_COMP) && ExactlyOnce(heap.live, LedgerOf(all))
  }

  ghost predicate Owned(heap: Allocator, all: set<PelStorage>)
    reads heap, all
  {
    Recorded(heap, all) && forall s :: s in all ==> s.Valid()
  }

  /** One slot is overwritten. */
  method SetOrigin(s: PelStorage, k: nat, a: array?<int>, ghost all: set<PelStorage>)
    requires s in all && k < MAX_NUM_COMP && forall t :: t in all ==> |t.origin| == MAX_NUM_COMP
    modifies s`origin
    ensures s.origin == old(s.origin)[k := a]
    ensures LedgerOf(all) == old(LedgerOf(all))[(s, k) := a]
  {
    s.origin := s.origin[k := a];
    assert LedgerOf(all) == old(LedgerOf(all))[(s, k) := a];
  }

  lemma InLive(live: set<array?<int>>, g: Ledger, p: (PelStorage, int))
    requires ExactlyOnce(live, g) && p in g && g[p] != null
    ensures g[p] in live
  {}

  method FreeOrigin(s: PelStorage, k: nat, heap: Allocator, ghost all: set<PelStorage>)
    requires s in all && k < MAX_NUM_COMP && Recorded(heap, all) && s.origin[k] != null
    modifies s`origin, heap
    ensures Recorded(heap, all) && s.origin == old(s.origin)[k := null]
    ensures heap.live == old(heap.live) - {old(s.origin[k])}
  {
    hide ExactlyOnce;
    FreeSlot(heap.live, LedgerOf(all), (s, k));
    InLive(heap.live, LedgerOf(all), (s, k));
    heap.Free(s.origin[k]);
    SetOrigin(s, k, null, all);
  }

  /** Frees everything the storage holds and drops its views. */
  method Destroy(s: PelStorage, heap: Allocator, ghost all: set<PelStorage>)
    requires s in all && Recorded(heap, all)
    modifies s, heap
    ensures Recorded(heap, all) && s.Valid() && s.bufs == [] && s.NoOrigins()
    ensures heap.live == old(heap.live) - Recordings(old(s.origin)) && s.chromaFormat == NUM_CHROMA_FORMAT
  {
    hide ExactlyOnce;
    s.chromaFormat := NUM_CHROMA_FORMAT;
    for i := 0 to MAX_NUM_COMP
      invariant Recorded(heap, all)
      invariant forall k :: 0 <= k < i ==> s.origin[k] == null
      invariant forall k :: i <= k < MAX_NUM_COMP ==> s.origin[k] == old(s.origin[k])
      invariant heap.live == old(heap.live) - Recordings(old(s.origin)[..i]) && s.chromaFormat == NUM_CHROMA_FORMAT
    {
      RecordingsStep(old(s.origin), i);
      if s.origin[i] != null {
        FreeOrigin(s, i, heap, all);
      }
    }
    assert old(s.origin)[..MAX_NUM_COMP] == old(s.origin);
    s.bufs := [];
  }

  lemma RecordingsStep(slots: seq<array?<int>>, i: nat)
    requires i < |slots|
    ensures Recordings(slots[..i + 1]) == Recordings(slots[..i]) + if slots[i] == null then {} else {slots[i]}
  {}

  lemma RecordingsUpdate(slots: seq<array?<int>>, k: nat, a: array<int>)
    requires k < |slots| && slots[k] == null
    ensures Recordings(slots[k := a]) == Recordings(slots) + {a}
  {
    assert slots[k := a][k] == a;
    forall x | x in slots && x != null ensures x in slots[k := a] {
      var i :| 0 <= i < |slots| && slots[i] == x;
      assert slots[k := a][i] == x;
    }
  }

  lemma RecordingsConcat(a: seq<array?<int>>, b: seq<array?<int>>)
    ensures Recordings(a + b) == Recordings(a) + Recordings(b)
  {}

  method SwapOrigins(s: PelStorage, t: PelStorage, k: nat, heap: Allocator, ghost all: set<PelStorage>)
    requires s in all && t in all && k < MAX_NUM_COMP && Recorded(heap, all)
    modifies s`origin, t`origin
    ensures Recorded(heap, all)
    ensures s.origin == old(s.origin)[k := old(t.origin[k])]
    ensures t.origin == old(t.origin)[k := old(s.origin[k])]
  {
    hide ExactlyOnce;
    ghost var g := LedgerOf(all);
    SwapSlots(heap.live, g, (s, k), (t, k));
    var a, b := s.origin[k], t.origin[k];
    SetOrigin(s, k, b, all);
    SetOrigin(t, k, a, all);
    assert g[(s, k) := g[(t, k)]][(t, k) := g[(s, k)]] == LedgerOf(all);
  }

  /** The first i elements of b, then those of a. */
  function Spliced<T>(a: seq<T>, b: seq<T>, i: nat): (r: seq<T>)
    requires i <= |a| == |b|
    ensures |r| == |a|
  {
    b[..i] + a[i..]
  }

  lemma SplicedStep<T>(a: seq<T>, b: seq<T>, i: nat)
    requires i < |a| == |b|
    ensures Spliced(a, b, 0) == a && Spliced(a, b, i)[i] == a[i] && Spliced(a, b, i)[i := b[i]] == Spliced(a, b, i + 1)
  {}

  lemma SplicedEnds<T>(a: seq<T>, b: seq<T>)
    requires |a| == |b|
    ensures Spliced(a, b, 0) == a && Spliced(a, b, |a|) == b
  {}

  lemma SplicedPrefix<T>(a: seq<T>, b: seq<T>, i: nat)
    requires i <= |a| == |b|
    ensures Spliced(a, b, i)[..i] == b[..i]
  {}

  /**
   * Takes over all views and allocations of another storage, component by component, and frees what this one held for those
   * components and what the other one held for further ones. What this one holds for further components stays.
   */
  method TakeOwnership(s: PelStorage, other: PelStorage, heap: Allocator, ghost all: set<PelStorage>)
    requires s in all && other in all && s != other && Owned(heap, all) && other.Created()
    modifies s, other, heap
    ensures Owned(heap, all)
    ensures s.chromaFormat == old(other.chromaFormat) && s.bufs == old(other.bufs)
    ensures s.origin[..|s.bufs|] == old(other.origin[..|other.bufs|])
    ensures s.origin[|s.bufs|..] == old(s.origin[|other.bufs|..])
    ensures other.bufs == [] && other.NoOrigins()
    ensures heap.live == old(heap.live) - Recordings(old(s.origin[..|other.bufs|])) - Recordings(old(other.origin[|other.bufs|..]))
  {
    hide ExactlyOnce;
    s.chromaFormat := other.chromaFormat;
    var numCh := NumberValidComponents(s.chromaFormat);
    s.bufs := other.bufs[..numCh];
    assert s.bufs == old(other.bufs);
    SplicedEnds(s.origin, other.origin);
    SplicedEnds(other.origin, s.origin);
    for i := 0 to numCh
      invariant Recorded(heap, all) && s.chromaFormat == old(other.chromaFormat) && s.bufs == old(other.bufs)
      invariant s.origin == Spliced(old(s.origin), old(other.origin), i) && other.origin == Spliced(old(other.origin), old(s.origin), i)
      invariant heap.live == old(heap.live)
    {
      SplicedStep(old(s.origin), old(other.origin), i);
      SplicedStep(old(other.origin), old(s.origin), i);
      SwapOrigins(s, other, i, heap, all);
    }
    RecordingsConcat(old(s.origin[..numCh]), old(other.origin[numCh..]));
    Destroy(other, heap, all);
  }

  /** Both storages can be exchanged: the same format, and views of the same size and stride. */
  predicate Compatible(s: PelStorage, t: PelStorage)
    reads s, t
  {
    && s.chromaFormat == t.chromaFormat && |s.bufs| == |t.bufs|
    && forall i :: 0 <= i < |s.bufs| ==> SameFormat(s.bufs[i], t.bufs[i])
  }

  predicate SameFormat(a: AreaBuf, b: AreaBuf)
  {
    a.width == b.width && a.height == b.height && a.stride == b.stride
  }

  method SwapComponent(s: PelStorage, other: PelStorage, i: nat, heap: Allocator, ghost all: set<PelStorage>)
    requires s in all && other in all && s != other && Recorded(heap, all) && i < MAX_NUM_COMP
    requires i < |s.bufs| && i < |other.bufs| && SameFormat(s.bufs[i], other.bufs[i])
    modifies s`bufs, s`origin, other`bufs, other`origin
    ensures Recorded(heap, all)
    ensures s.bufs == old(s.bufs)[i := old(other.bufs[i])] && other.bufs == old(other.bufs)[i := old(s.bufs[i])]
    ensures s.origin == old(s.origin)[i := old(other.origin[i])]
    ensures other.origin == old(other.origin)[i := old(s.origin[i])]
  {
    hide ExactlyOnce, Recorded;
    var a, b := s.bufs[i], other.bufs[i];
    s.bufs := s.bufs[i := a.(mem := b.mem, buf := b.buf, stride := b.stride)];
    other.bufs := other.bufs[i := b.(mem := a.mem, buf := a.buf, stride := a.stride)];
    assert Recorded(heap, all);
    SwapOrigins(s, other, i, heap, all);
  }

  /**
   * Exchanges the views and allocations of two storages. If a component differs in size or stride, the components before
   * it have been exchanged already; every allocation is then still recorded exactly once.
   */
  method Swap(s: PelStorage, other: PelStorage, heap: Allocator, ghost all: set<PelStorage>) returns (ok: bool)
    requires s in all && other in all && s != other && Owned(heap, all) && s.Created() && other.Created()
    modifies s, other
    ensures Recorded(heap, all)
    ensures ok <==> old(Compatible(s, other))
    ensures ok ==> Owned(heap, all) && s.bufs == old(other.bufs) && other.bufs == old(s.bufs)
    ensures ok ==> s.origin[..|s.bufs|] == old(other.origin[..|other.bufs|]) && other.origin[..|s.bufs|] == old(s.origin[..|s.bufs|])
  {
    hide ExactlyOnce, Spliced;
    var numCh := NumberValidComponents(s.chromaFormat);
    if s.chromaFormat != other.chromaFormat {
      return false;
    }
    SplicedEnds(s.bufs, other.bufs);
    SplicedEnds(other.bufs, s.bufs);
    SplicedEnds(s.origin, other.origin);
    SplicedEnds(other.origin, s.origin);
    for i := 0 to numCh
      invariant Recorded(heap, all) && s.chromaFormat == other.chromaFormat == old(s.chromaFormat)
      invariant forall k :: 0 <= k < i ==> SameFormat(old(s.bufs)[k], old(other.bufs)[k])
      invariant s.bufs == Spliced(old(s.bufs), old(other.bufs), i) && other.bufs == Spliced(old(other.bufs), old(s.bufs), i)
      invariant s.origin == Spliced(old(s.origin), old(other.origin), i)
      invariant other.origin == Spliced(old(other.origin), old(s.origin), i)
    {
      SplicedStep(old(s.bufs), old(other.bufs), i);
      SplicedStep(old(other.bufs), old(s.bufs), i);
      SplicedStep(old(s.origin), old(other.origin), i);
      SplicedStep(old(other.origin), old(s.origin), i);
      if !SameFormat(s.bufs[i], other.bufs[i]) {
        return false;
      }
      SwapComponent(s, other, i, heap, all);
    }
    SplicedPrefix(old(s.origin), old(other.origin), numCh);
    SplicedPrefix(old(other.origin), old(s.origin), numCh);
    return true;
  }

  function RoundUp(x: nat, a: nat): nat
    requires a > 0
  {
    ((x + a - 1) / a) * a
  }

  lemma RoundUpAtLeast(x: nat, a: nat)
    requires a > 0
    ensures RoundUp(x, a) >= x
  {
    var q, m := (x + a - 1) / a, (x + a - 1) % a;
    assert x + a - 1 == q * a + m;
  }

  /** What the second create allocates for a component: rows of totalWidth samples, margins around the scaled size. */
  datatype Layout = Layout(xmargin: nat, ymargin: nat, totalWidth: nat, totalHeight: nat)

  const MEMORY_ALIGN_DEF_SIZE: nat := 32

  function ComponentLayout(fmt: ChromaFormat, comp: nat, width: nat, height: nat, maxCUSize: nat, margin: nat, alignment: nat,
                           scaleChromaMargin: bool): Layout
  {
    var extWidth := if maxCUSize > 0 then RoundUp(width, maxCUSize) else width;
    var extHeight := if maxCUSize > 0 then RoundUp(height, maxCUSize) else height;
    var xmargin := if scaleChromaMargin then ScaledX(margin, comp, fmt) else margin;
    var ymargin := if scaleChromaMargin then ScaledY(margin, comp, fmt) else margin;
    var totalWidth := ScaledX(extWidth, comp, fmt) + 2 * xmargin;
    Layout(xmargin, ymargin, if alignment > 0 then RoundUp(totalWidth, alignment) else totalWidth,
           ScaledY(extHeight, comp, fmt) + 2 * ymargin)
  }

  lemma LayoutHolds(fmt: ChromaFormat, comp: nat, width: nat, height: nat, maxCUSize: nat, margin: nat, alignment: nat, scale: bool)
    ensures var l := ComponentLayout(fmt, comp, width, height, maxCUSize, margin, alignment, scale);
            && ScaledX(width, comp, fmt) + 2 * l.xmargin <= l.totalWidth
            && ScaledY(height, comp, fmt) + 2 * l.ymargin <= l.totalHeight
  {
    var extWidth := if maxCUSize > 0 then RoundUp(width, maxCUSize) else width;
    var extHeight := if maxCUSize > 0 then RoundUp(height, maxCUSize) else height;
    if maxCUSize > 0 {
      RoundUpAtLeast(width, maxCUSize);
      RoundUpAtLeast(height, maxCUSize);
    }
    var xmargin := if scale then ScaledX(margin, comp, fmt) else margin;
    if alignment > 0 {
      RoundUpAtLeast(ScaledX(extWidth, comp, fmt) + 2 * xmargin, alignment);
    }
    hide RoundUp;
  }

  lemma RoundUpIsLeast(x: nat, a: nat, r: nat)
    requires a > 0 && r % a == 0 && x <= r < x + a
    ensures RoundUp(x, a) == r
  {
    var q := r / a;
    assert r == q * a;
    Quotient(q, x + a - 1 - r, a);
  }

  lemma RoundUpFits(x: nat, a: nat)
    requires a > 0
    ensures RoundUp(x, a) % a == 0 && x <= RoundUp(x, a) < x + a
  {
    var q, m := (x + a - 1) / a, (x + a - 1) % a;
    assert x + a - 1 == q * a + m;
    Quotient(q, 0, a);
    assert (q * a) / a == q && (q * a) % a == 0;
  }

  // What the callers ask for

  function MarginX(margin: nat, comp: nat, fmt: ChromaFormat, scale: bool): nat
  {
    if scale then ScaledX(margin, comp, fmt) else margin
  }

  function MarginY(margin: nat, comp: nat, fmt: ChromaFormat, scale: bool): nat
  {
    if scale then ScaledY(margin, comp, fmt) else margin
  }

  /** ext is side x of a picture, padded to whole coding tree units, whose size may be left out. */
  predicate Padded(x: nat, ext: nat, maxCUSize: nat)
  {
    if maxCUSize == 0 then ext == x else ext % maxCUSize == 0 && x <= ext < x + maxCUSize
  }

  lemma PaddedByRounding(x: nat, maxCUSize: nat)
    ensures exists ext :: Padded(x, ext, maxCUSize)
    ensures forall ext, ext' :: Padded(x, ext, maxCUSize) && Padded(x, ext', maxCUSize) ==> ext == ext'
  {
    if maxCUSize > 0 {
      RoundUpFits(x, maxCUSize);
      assert Padded(x, RoundUp(x, maxCUSize), maxCUSize);
      forall ext | Padded(x, ext, maxCUSize) ensures ext == RoundUp(x, maxCUSize) {
        RoundUpIsLeast(x, maxCUSize, ext);
      }
    } else {
      assert Padded(x, x, maxCUSize);
    }
  }

  /** The view with its picture padded to the given size has the requested margins, and its rows are no longer than aligned. */
  ghost predicate HasMargins(view: AreaBuf, fmt: ChromaFormat, comp: nat, extWidth: nat, extHeight: nat, margin: nat, alignment: nat, scale: bool)
  {
    var whole := view.(width := ScaledX(extWidth, comp, fmt), height := ScaledY(extHeight, comp, fmt));
    var needed := whole.width + 2 * MarginX(margin, comp, fmt, scale);
    && (whole.width >= 1 && whole.height >= 1 ==> whole.Holds(MarginX(margin, comp, fmt, scale), MarginY(margin, comp, fmt, scale)))
    && if alignment == 0 then view.stride == needed else view.stride % alignment == 0 && needed <= view.stride < needed + alignment
  }

  /** A component as the caller asked for it: its margins around the picture, padded to whole coding tree units or not. */
  ghost predicate Framed(view: AreaBuf, fmt: ChromaFormat, comp: nat, width: nat, height: nat, maxCUSize: nat, margin: nat,
                         alignment: nat, scale: bool)
  {
    && view.width == ScaledX(width, comp, fmt) && view.height == ScaledY(height, comp, fmt)
    && (view.width >= 1 && view.height >= 1 ==> view.Holds(MarginX(margin, comp, fmt, scale), MarginY(margin, comp, fmt, scale)))
    && forall extWidth, extHeight :: Padded(width, extWidth, maxCUSize) && Padded(height, extHeight, maxCUSize) ==>
         HasMargins(view, fmt, comp, extWidth, extHeight, margin, alignment, scale)
  }

  lemma PaddedIsRounded(x: nat, ext: nat, maxCUSize: nat)
    requires Padded(x, ext, maxCUSize)
    ensures ext == if maxCUSize > 0 then RoundUp(x, maxCUSize) else x
  {
    if maxCUSize > 0 { RoundUpIsLeast(x, maxCUSize, ext); }
  }

  lemma LayoutFrames(view: AreaBuf, fmt: ChromaFormat, comp: nat, width: nat, height: nat, maxCUSize: nat, margin: nat,
                     alignment: nat, scale: bool, extWidth: nat, extHeight: nat)
    requires var l := ComponentLayout(fmt, comp, width, height, maxCUSize, margin, alignment, scale);
             && view.mem.Length == l.totalWidth * l.totalHeight && view.stride == l.totalWidth
             && view.buf == l.totalWidth * l.ymargin + l.xmargin
    requires Padded(width, extWidth, maxCUSize) && Padded(height, extHeight, maxCUSize)
    ensures HasMargins(view, fmt, comp, extWidth, extHeight, margin, alignment, scale)
  {
    var l := ComponentLayout(fmt, comp, width, height, maxCUSize, margin, alignment, scale);
    var whole := view.(width := ScaledX(extWidth, comp, fmt), height := ScaledY(extHeight, comp, fmt));
    PaddedIsRounded(width, extWidth, maxCUSize);
    PaddedIsRounded(height, extHeight, maxCUSize);
    if alignment > 0 { RoundUpFits(whole.width + 2 * MarginX(margin, comp, fmt, scale), alignment); }
    hide RoundUp, AreaBuf.Holds;
    if whole.width >= 1 && whole.height >= 1 { MarginsFit(whole, l); }
  }

  /** A view placed behind its margins has room for them in the allocation. */
  lemma MarginsFit(view: AreaBuf, l: Layout)
    requires view.mem.Length == l.totalWidth * l.totalHeight && view.stride == l.totalWidth
    requires view.buf == l.totalWidth * l.ymargin + l.xmargin && view.width >= 1 && view.height >= 1
    requires view.width + 2 * l.xmargin <= l.totalWidth && view.height + 2 * l.ymargin <= l.totalHeight
    ensures view.Holds(l.xmargin, l.ymargin) && view.Holds(0, 0)
  {
    var w := l.totalWidth;
    var last := view.height - 1 + l.ymargin;
    assert w * l.ymargin + last * w == (l.ymargin + last) * w;
    assert (l.totalHeight - 1 - l.ymargin - last) * w >= 0;
    assert (l.totalHeight - 1) * w == l.totalHeight * w - w;
    assert (l.ymargin + last) * w <= (l.totalHeight - 1) * w;
    assert 0 <= l.ymargin * w;
    assert (0 - l.ymargin) * w == 0 - l.ymargin * w;
  }

  /** The view of component comp is the one that the second create makes. */
  ghost predicate PlacedView(view: AreaBuf, l: Layout, fmt: ChromaFormat, comp: nat, width: nat, height: nat)
  {
    && view.width == ScaledX(width, comp, fmt) && view.height == ScaledY(height, comp, fmt) && view.stride == l.totalWidth
    && (view.width >= 1 && view.height >= 1 ==> view.Holds(l.xmargin, l.ymargin))
  }

  method AllocateOrigin(s: PelStorage, k: nat, n: nat, heap: Allocator, ghost all: set<PelStorage>) returns (a: array<int>)
    requires s in all && k < MAX_NUM_COMP && Recorded(heap, all) && s.origin[k] == null
    modifies s`origin, heap
    ensures Recorded(heap, all) && s.origin == old(s.origin)[k := a] && a.Length == n && fresh(a)
    ensures heap.live == old(heap.live) + {a} && Recordings(s.origin) == Recordings(old(s.origin)) + {a}
  {
    hide ExactlyOnce;
    a := heap.Malloc(n);
    RecordingsUpdate(s.origin, k, a);
    FillSlot(old(heap.live), LedgerOf(all), (s, k), a);
    SetOrigin(s, k, a, all);
  }

  /** Rows are aligned to 256 bits or not at all. */
  predicate Supported(alignment: nat) { alignment == 0 || alignment * 8 == 256 }

  /** The storage is empty and every component of the layout has a positive size. */
  ghost predicate CanCreate(s: PelStorage, fmt: ChromaFormat, width: nat, height: nat, maxCUSize: nat, margin: nat, alignment: nat, scale: bool)
    reads s
  {
    && s.bufs == [] && Supported(alignment)
    && forall i :: 0 <= i < NumberValidComponents(fmt) ==> HasArea(fmt, i, width, height, maxCUSize, margin, alignment, scale)
  }

  predicate HasArea(fmt: ChromaFormat, comp: nat, width: nat, height: nat, maxCUSize: nat, margin: nat, alignment: nat, scale: bool)
  {
    var l := ComponentLayout(fmt, comp, width, height, maxCUSize, margin, alignment, scale);
    l.totalWidth * l.totalHeight > 0
  }

  /** One allocation per component, each with room for the margins. */
  method CreateWithMargin(s: PelStorage, fmt: ChromaFormat, width: nat, height: nat, maxCUSize: nat, margin: nat, alignment: nat,
                          scale: bool, heap: Allocator, ghost all: set<PelStorage>) returns (ok: bool)
    requires s in all && Owned(heap, all)
    modifies s, heap
    ensures Owned(heap, all)
    ensures ok <==> old(CanCreate(s, fmt, width, height, maxCUSize, margin, alignment, scale))
    ensures ok ==> s.chromaFormat == fmt && s.Created()
    ensures ok ==> forall i :: 0 <= i < |s.bufs| ==> s.bufs[i].mem == s.origin[i] && fresh(s.bufs[i].mem)
    ensures ok ==> forall i, j :: 0 <= i < j < |s.bufs| ==> s.bufs[i].mem != s.bufs[j].mem
    ensures old(s.bufs) == [] ==> heap.live == old(heap.live) + Recordings(s.origin)
    ensures ok ==> forall i :: 0 <= i < |s.bufs| ==>
      Framed(s.bufs[i], fmt, i, width, height, maxCUSize, margin, alignment, scale)
    ensures ok ==> forall i :: 0 <= i < |s.bufs| ==>
      PlacedView(s.bufs[i], ComponentLayout(fmt, i, width, height, maxCUSize, margin, alignment, scale), fmt, i, width, height)
    ensures old(s.bufs) != [] ==> s.bufs == old(s.bufs) && s.origin == old(s.origin) && heap.live == old(heap.live)
  {
    if s.bufs != [] {
      return false;
    }
    s.chromaFormat := fmt;
    hide ExactlyOnce, ComponentLayout, AllCreated, ComponentCreated, HasArea, PlacedView, Framed, InMemory, Recordings;
    ok := CreateComponents(s, fmt, width, height, maxCUSize, margin, alignment, scale, heap, all);
    CreatedFacts(s, |s.bufs|, fmt, width, height, maxCUSize, margin, alignment, scale, heap, all);
  }

  /** The loop over the components, up to the first that is refused. */
  method CreateComponents(s: PelStorage, fmt: ChromaFormat, width: nat, height: nat, maxCUSize: nat, margin: nat, alignment: nat,
                          scale: bool, heap: Allocator, ghost all: set<PelStorage>) returns (ok: bool)
    requires s in all && Recorded(heap, all) && s.bufs == [] && s.NoOrigins()
    modifies s`bufs, s`origin, heap
    ensures Recorded(heap, all) && |s.bufs| <= NumberValidComponents(fmt)
    ensures forall k :: |s.bufs| <= k < MAX_NUM_COMP ==> s.origin[k] == null
    ensures forall k :: 0 <= k < |s.bufs| ==> s.origin[k] != null && fresh(s.origin[k])
    ensures AllCreated(s.bufs, s.origin, fmt, width, height, maxCUSize, margin, alignment, scale)
    ensures ok ==> |s.bufs| == NumberValidComponents(fmt) && Supported(alignment)
    ensures !ok ==> |s.bufs| < NumberValidComponents(fmt)
    ensures !ok ==> !Supported(alignment) || !HasArea(fmt, |s.bufs|, width, height, maxCUSize, margin, alignment, scale)
    ensures heap.live == old(heap.live) + Recordings(s.origin)
  {
    assert Recordings(s.origin) == {};
    assert AllCreated(s.bufs, s.origin, fmt, width, height, maxCUSize, margin, alignment, scale);
    hide ExactlyOnce, Recorded, LedgerOf, AllCreated, ComponentCreated, HasArea, NumberValidComponents, Recordings, Supported;
    for i := 0 to NumberValidComponents(fmt)
      invariant Recorded(heap, all) && |s.bufs| == i
      invariant forall k :: i <= k < MAX_NUM_COMP ==> s.origin[k] == null
      invariant forall k :: 0 <= k < i ==> s.origin[k] != null && fresh(s.origin[k])
      invariant AllCreated(s.bufs, s.origin, fmt, width, height, maxCUSize, margin, alignment, scale)
      invariant heap.live == old(heap.live) + Recordings(s.origin)
      invariant i > 0 ==> Supported(alignment)
    {
      ghost var bufs, origin := s.bufs, s.origin;
      var created := CreateComponent(s, i, fmt, width, height, maxCUSize, margin, alignment, scale, heap, all);
      if !created {
        return false;
      }
      OneMoreCreated(bufs, origin, s.bufs, s.origin, fmt, width, height, maxCUSize, margin, alignment, scale);
    }
    return true;
  }

  ghost predicate AllCreated(bufs: seq<AreaBuf>, origin: seq<array?<int>>, fmt: ChromaFormat, width: nat, height: nat, maxCUSize: nat,
                             margin: nat, alignment: nat, scale: bool)
  {
    && |bufs| <= |origin|
    && forall k :: 0 <= k < |bufs| ==> ComponentCreated(bufs[k], origin[k], k, fmt, width, height, maxCUSize, margin, alignment, scale)
  }

  lemma OneMoreCreated(bufs: seq<AreaBuf>, origin: seq<array?<int>>, bufs': seq<AreaBuf>, origin': seq<array?<int>>, fmt: ChromaFormat,
                       width: nat, height: nat, maxCUSize: nat, margin: nat, alignment: nat, scale: bool)
    requires AllCreated(bufs, origin, fmt, width, height, maxCUSize, margin, alignment, scale) && |bufs| < |origin|
    requires |bufs'| == |bufs| + 1 && bufs'[..|bufs|] == bufs && |origin'| == |origin| && origin' == origin[|bufs| := origin'[|bufs|]]
    requires ComponentCreated(bufs'[|bufs|], origin'[|bufs|], |bufs|, fmt, width, height, maxCUSize, margin, alignment, scale)
    ensures AllCreated(bufs', origin', fmt, width, height, maxCUSize, margin, alignment, scale)
  {
    hide ComponentCreated;
    forall k | 0 <= k < |bufs'|
      ensures ComponentCreated(bufs'[k], origin'[k], k, fmt, width, height, maxCUSize, margin, alignment, scale)
    {
      assert k < |bufs| ==> bufs'[k] == bufs'[..|bufs|][k];
    }
  }

  /** The view of a component lies in its slot's allocation, with room for the margins. */
  ghost predicate ComponentCreated(view: AreaBuf, a: array?<int>, comp: nat, fmt: ChromaFormat, width: nat, height: nat, maxCUSize: nat,
                                   margin: nat, alignment: nat, scale: bool)
  {
    && view.mem == a && InMemory(view) && HasArea(fmt, comp, width, height, maxCUSize, margin, alignment, scale)
    && PlacedView(view, ComponentLayout(fmt, comp, width, height, maxCUSize, margin, alignment, scale), fmt, comp, width, height)
    && Framed(view, fmt, comp, width, height, maxCUSize, margin, alignment, scale)
  }

  /** What the components created so far amount to; their allocations differ because each is recorded once. */
  lemma CreatedFacts(s: PelStorage, n: nat, fmt: ChromaFormat, width: nat, height: nat, maxCUSize: nat, margin: nat, alignment: nat,
                     scale: bool, heap: Allocator, all: set<PelStorage>)
    requires s in all && Recorded(heap, all) && n == |s.bufs| <= MAX_NUM_COMP
    requires forall k :: n <= k < MAX_NUM_COMP ==> s.origin[k] == null
    requires forall k :: 0 <= k < n ==> s.origin[k] != null
    requires AllCreated(s.bufs, s.origin, fmt, width, height, maxCUSize, margin, alignment, scale)
    ensures s.Valid() && forall k :: 0 <= k < n ==> HasArea(fmt, k, width, height, maxCUSize, margin, alignment, scale)
    ensures forall k :: 0 <= k < n ==> s.bufs[k].mem == s.origin[k]
    ensures forall k :: 0 <= k < n ==> Framed(s.bufs[k], fmt, k, width, height, maxCUSize, margin, alignment, scale)
    ensures forall k :: 0 <= k < n ==>
      PlacedView(s.bufs[k], ComponentLayout(fmt, k, width, height, maxCUSize, margin, alignment, scale), fmt, k, width, height)
    ensures forall j, k :: 0 <= j < k < n ==> s.bufs[j].mem != s.bufs[k].mem
  {
    hide HasArea, ComponentLayout, PlacedView, Framed, InMemory, Records;
    var g := LedgerOf(all);
    forall j, k | 0 <= j < k < n ensures s.origin[j] != s.origin[k] {
      assert g[(s, j)] == s.origin[j] && g[(s, k)] == s.origin[k];
    }
    forall k | 0 <= k < n
      ensures HasArea(fmt, k, width, height, maxCUSize, margin, alignment, scale) && s.origin[..n][k] == s.origin[k]
    {
      assert ComponentCreated(s.bufs[k], s.origin[k], k, fmt, width, height, maxCUSize, margin, alignment, scale);
    }
  }

  // Extending the borders of all components: UnitBuf::extendBorderPel of Buffer.h

  /** The margins fit between the rows of the view. */
  predicate Extends(view: AreaBuf, fmt: ChromaFormat, comp: nat, margin: nat, scale: bool)
  {
    view.width + 2 * MarginX(margin, comp, fmt, scale) <= view.stride
  }

  /** The margins that fit between the rows lie in the allocation. */
  ghost predicate CanExtend(view: AreaBuf, fmt: ChromaFormat, comp: nat, margin: nat, scale: bool)
  {
    Extends(view, fmt, comp, margin, scale) ==> view.Holds(MarginX(margin, comp, fmt, scale), MarginY(margin, comp, fmt, scale))
  }

  ghost predicate IsExtended(view: AreaBuf, before: seq<int>, after: seq<int>, fmt: ChromaFormat, comp: nat, margin: nat, scale: bool)
  {
    && |before| == view.mem.Length
    && Extends(view, fmt, comp, margin, scale) && CanExtend(view, fmt, comp, margin, scale)
    && MemoryExtended(view, before, after, MarginX(margin, comp, fmt, scale), MarginY(margin, comp, fmt, scale))
  }

  /** A component that was created with margins can be extended by them. */
  lemma CreatedCanExtend(view: AreaBuf, fmt: ChromaFormat, comp: nat, width: nat, height: nat, maxCUSize: nat, margin: nat,
                         alignment: nat, scale: bool)
    requires Framed(view, fmt, comp, width, height, maxCUSize, margin, alignment, scale) && view.width >= 1 && view.height >= 1
    ensures Extends(view, fmt, comp, margin, scale) && CanExtend(view, fmt, comp, margin, scale)
  {
    hide HasMargins;
  }

  /** Extends all components that lie in different allocations; the first one without room for its margins is refused. */
  method ExtendBorders(s: PelStorage, margin: nat, scale: bool) returns (ok: bool)
    requires forall i :: 0 <= i < |s.bufs| ==> CanExtend(s.bufs[i], s.chromaFormat, i, margin, scale)
    requires forall i, j :: 0 <= i < j < |s.bufs| ==> s.bufs[i].mem != s.bufs[j].mem
    modifies set i | 0 <= i < |s.bufs| :: s.bufs[i].mem
    ensures ok <==> forall i :: 0 <= i < |s.bufs| ==> Extends(s.bufs[i], s.chromaFormat, i, margin, scale)
    ensures ok ==> forall i :: 0 <= i < |s.bufs| ==>
      IsExtended(s.bufs[i], old(s.bufs[i].mem[..]), s.bufs[i].mem[..], s.chromaFormat, i, margin, scale)
  {
    hide AreaBuf.Holds, MemoryExtended, MarginX, MarginY;
    for i := 0 to |s.bufs|
      invariant forall k :: 0 <= k < i ==> Extends(s.bufs[k], s.chromaFormat, k, margin, scale)
      invariant forall k :: 0 <= k < i ==>
        IsExtended(s.bufs[k], old(s.bufs[k].mem[..]), s.bufs[k].mem[..], s.chromaFormat, k, margin, scale)
      invariant forall k :: i <= k < |s.bufs| ==> s.bufs[k].mem[..] == old(s.bufs[k].mem[..])
    {
      ok := ExtendBorderPel(s.bufs[i], MarginX(margin, i, s.chromaFormat, scale), MarginY(margin, i, s.chromaFormat, scale));
      if !ok {
        return false;
      }
    }
    ok := true;
  }

  /** One component: refused for an unsupported alignment or a plane without samples. */
  method CreateComponent(s: PelStorage, i: nat, fmt: ChromaFormat, width: nat, height: nat, maxCUSize: nat, margin: nat, alignment: nat,
                         scale: bool, heap: Allocator, ghost all: set<PelStorage>) returns (ok: bool)
    requires s in all && Recorded(heap, all) && i == |s.bufs| < MAX_NUM_COMP && s.origin[i] == null
    modifies s`bufs, s`origin, heap
    ensures Recorded(heap, all)
    ensures ok <==> Supported(alignment) && HasArea(fmt, i, width, height, maxCUSize, margin, alignment, scale)
    ensures !ok ==> s.bufs == old(s.bufs) && s.origin == old(s.origin) && heap.live == old(heap.live)
    ensures ok ==> |s.bufs| == i + 1 && s.bufs[..i] == old(s.bufs)
    ensures ok ==> s.origin[i] != null && fresh(s.origin[i]) && s.origin == old(s.origin)[i := s.origin[i]]
    ensures ok ==> ComponentCreated(s.bufs[i], s.origin[i], i, fmt, width, height, maxCUSize, margin, alignment, scale)
    ensures ok ==> heap.live == old(heap.live) + {s.origin[i]} && Recordings(s.origin) == Recordings(old(s.origin)) + {s.origin[i]}
  {
    hide ExactlyOnce, ComponentLayout, PlacedView, Framed, InMemory, Recordings;
    var l := ComponentLayout(fmt, i, width, height, maxCUSize, margin, alignment, scale);
    if alignment > 0 && alignment != MEMORY_ALIGN_DEF_SIZE {
      return false;
    }
    var area := l.totalWidth * l.totalHeight;
    if area == 0 {
      return false;
    }
    var a := AllocateOrigin(s, i, area, heap, all);
    var view := AreaBuf(a, l.totalWidth * l.ymargin + l.xmargin, l.totalWidth, ScaledX(width, i, fmt), ScaledY(height, i, fmt));
    ViewPlaced(view, l, fmt, i, width, height, maxCUSize, margin, alignment, scale);
    s.bufs := s.bufs + [view];
    return true;
  }

  lemma ViewPlaced(view: AreaBuf, l: Layout, fmt: ChromaFormat, comp: nat, width: nat, height: nat, maxCUSize: nat, margin: nat,
                   alignment: nat, scale: bool)
    requires l == ComponentLayout(fmt, comp, width, height, maxCUSize, margin, alignment, scale)
    requires view.mem.Length == l.totalWidth * l.totalHeight && view.stride == l.totalWidth
    requires view.buf == l.totalWidth * l.ymargin + l.xmargin
    requires view.width == ScaledX(width, comp, fmt) && view.height == ScaledY(height, comp, fmt)
    ensures PlacedView(view, l, fmt, comp, width, height) && InMemory(view)
    ensures Framed(view, fmt, comp, width, height, maxCUSize, margin, alignment, scale)
  {
    assert l.xmargin == MarginX(margin, comp, fmt, scale) && l.ymargin == MarginY(margin, comp, fmt, scale);
    hide AreaBuf.Holds, ComponentLayout, MarginX, MarginY, HasMargins, Padded;
    LayoutHolds(fmt, comp, width, height, maxCUSize, margin, alignment, scale);
    if view.width >= 1 && view.height >= 1 {
      MarginsFit(view, l);
    }
    forall extWidth, extHeight | Padded(width, extWidth, maxCUSize) && Padded(height, extHeight, maxCUSize)
      ensures HasMargins(view, fmt, comp, extWidth, extHeight, margin, alignment, scale)
    {
      LayoutFrames(view, fmt, comp, width, height, maxCUSize, margin, alignment, scale, extWidth, extHeight);
    }
  }

  /** How the components share a picture whose sides are even: chroma has a quarter, a half or all of the luma samples. */
  lemma ChromaShare(fmt: ChromaFormat, comp: nat, width: nat, height: nat)
    requires width % 2 == 0 && height % 2 == 0 && 0 < comp < NumberValidComponents(fmt) && fmt != NUM_CHROMA_FORMAT
    ensures ComponentArea(fmt, comp, width, height) * (match fmt case CHROMA_420 => 4 case CHROMA_422 => 2 case _ => 1)
         == ComponentArea(fmt, 0, width, height)
    ensures fmt == CHROMA_422 ==> ScaledX(width, comp, fmt) * 2 == width
    ensures fmt != CHROMA_422 ==> ScaledX(width, comp, fmt) * height == ScaledY(height, comp, fmt) * width
  {
    var w, h := width / 2, height / 2;
    assert width == 2 * w && height == 2 * h;
  }

  function ComponentArea(fmt: ChromaFormat, comp: nat, width: nat, height: nat): nat
  {
    ScaledX(width, comp, fmt) * ScaledY(height, comp, fmt)
  }

  /** Samples of the components before comp. */
  function AreaBefore(fmt: ChromaFormat, comp: nat, width: nat, height: nat): nat
  {
    if comp == 0 then 0 else AreaBefore(fmt, comp - 1, width, height) + ComponentArea(fmt, comp - 1, width, height)
  }

  lemma {:induction false} AreaBeforeGrows(fmt: ChromaFormat, i: nat, n: nat, width: nat, height: nat)
    requires i < n
    ensures AreaBefore(fmt, i, width, height) + ComponentArea(fmt, i, width, height) <= AreaBefore(fmt, n, width, height)
    decreases n
  {
    if i < n - 1 { AreaBeforeGrows(fmt, i, n - 1, width, height); }
  }

  /** A component without margins, at an offset with room for it. */
  ghost predicate CompactView(view: AreaBuf, a: array?<int>, fmt: ChromaFormat, comp: nat, width: nat, height: nat)
  {
    && view.mem == a && view.buf == AreaBefore(fmt, comp, width, height) && view.stride == view.width
    && view.width == ScaledX(width, comp, fmt) && view.height == ScaledY(height, comp, fmt)
  }

  lemma CompactViewFits(view: AreaBuf, fmt: ChromaFormat, comp: nat, n: nat, width: nat, height: nat)
    requires comp < n && ComponentArea(fmt, comp, width, height) > 0
    requires view.mem.Length == AreaBefore(fmt, n, width, height) + 1
    requires CompactView(view, view.mem, fmt, comp, width, height)
    ensures view.Holds(0, 0) && InMemory(view)
  {
    AreaBeforeGrows(fmt, comp, n, width, height);
    hide AreaBefore;
    RowsFit(view);
  }

  lemma RowsFit(view: AreaBuf)
    requires view.width * view.height > 0 && view.stride == view.width && view.buf >= 0
    requires view.buf + view.width * view.height <= view.mem.Length
    ensures view.Holds(0, 0)
  {
    var w, h := view.width, view.height;
    assert (h - 1) * w == h * w - w == w * h - w;
  }

  lemma PlacedCompactly(view: AreaBuf, fmt: ChromaFormat, comp: nat, width: nat, height: nat)
    requires view.buf == AreaBefore(fmt, comp, width, height) && view.stride == view.width
    requires view.width == ScaledX(width, comp, fmt) && view.height == ScaledY(height, comp, fmt)
    ensures CompactView(view, view.mem, fmt, comp, width, height)
  {}

  /** One allocation for all components, one behind the other, with one sample to spare. */
  method CreateCompact(s: PelStorage, fmt: ChromaFormat, width: nat, height: nat, heap: Allocator, ghost all: set<PelStorage>)
    returns (ok: bool)
    requires s in all && Owned(heap, all)
    modifies s, heap
    ensures Owned(heap, all)
    ensures ok <==> old(s.bufs) == [] && forall i :: 0 <= i < NumberValidComponents(fmt) ==> ComponentArea(fmt, i, width, height) > 0
    ensures ok ==> s.chromaFormat == fmt && s.Created()
    ensures ok ==> forall i :: 0 <= i < |s.bufs| ==> CompactView(s.bufs[i], s.origin[0], fmt, i, width, height)
    ensures ok ==> s.origin[0] != null && fresh(s.origin[0]) && s.origin[1..] == [null, null]
    ensures ok ==> s.origin[0].Length == AreaBefore(fmt, |s.bufs|, width, height) + 1 && heap.live == old(heap.live) + {s.origin[0]}
    ensures old(s.bufs) != [] ==> s.bufs == old(s.bufs) && s.origin == old(s.origin) && heap.live == old(heap.live)
  {
    hide ExactlyOnce, AreaBuf.Holds, ComponentArea, InMemory;
    if s.bufs != [] {
      return false;
    }
    s.chromaFormat := fmt;
    var numComp := NumberValidComponents(fmt);
    var bufSize := 0;
    for i := 0 to numComp
      invariant bufSize == AreaBefore(fmt, i, width, height)
      invariant forall k :: 0 <= k < i ==> ComponentArea(fmt, k, width, height) > 0
    {
      var area := ComponentArea(fmt, i, width, height);
      if area == 0 {
        return false;
      }
      bufSize := bufSize + area;
    }
    bufSize := bufSize + 1;
    var a := AllocateOrigin(s, 0, bufSize, heap, all);
    AddCompactViews(s, a, fmt, width, height);
    assert s.origin[..|s.bufs|][0] == a;
    return true;
  }

  /** The views of all components, each where the one before it ends. */
  method AddCompactViews(s: PelStorage, a: array<int>, fmt: ChromaFormat, width: nat, height: nat)
    requires s.bufs == [] && a.Length == AreaBefore(fmt, NumberValidComponents(fmt), width, height) + 1
    requires forall k :: 0 <= k < NumberValidComponents(fmt) ==> ComponentArea(fmt, k, width, height) > 0
    modifies s`bufs
    ensures |s.bufs| == NumberValidComponents(fmt)
    ensures forall k :: 0 <= k < |s.bufs| ==> InMemory(s.bufs[k]) && CompactView(s.bufs[k], a, fmt, k, width, height)
  {
    hide AreaBuf.Holds, ComponentArea, CompactView, InMemory;
    var topLeft := 0;
    var numComp := NumberValidComponents(fmt);
    for i := 0 to numComp
      invariant |s.bufs| == i && topLeft == AreaBefore(fmt, i, width, height)
      invariant forall k :: 0 <= k < i ==> InMemory(s.bufs[k]) && CompactView(s.bufs[k], a, fmt, k, width, height)
    {
      var view := AreaBuf(a, topLeft, ScaledX(width, i, fmt), ScaledX(width, i, fmt), ScaledY(height, i, fmt));
      PlacedCompactly(view, fmt, i, width, height);
      CompactViewFits(view, fmt, i, numComp, width, height);
      s.bufs := s.bufs + [view];
      topLeft := topLeft + ComponentArea(fmt, i, width, height);
    }
  }

  // Runs

  datatype Op =
    | OpCreateCompact(i: nat, fmt: ChromaFormat, width: nat, height: nat)
    | OpCreateWithMargin(i: nat, fmt: ChromaFormat, width: nat, height: nat, maxCUSize: nat, margin: nat, alignment: nat, scale: bool)
    | OpTakeOwnership(i: nat, j: nat)
    | OpSwap(i: nat, j: nat)
    | OpDestroy(i: nat)

  /** One operation; those that their callers must not ask for are skipped. */
  method Step(storages: seq<PelStorage>, op: Op, heap: Allocator)
    requires Owned(heap, set s | s in storages)
    modifies storages, heap
    ensures Owned(heap, set s | s in storages)
    ensures op.i < |storages| ==>
      var s := storages[op.i];
      match op
      case OpCreateCompact(_, fmt, width, height) =>
        old(s.bufs) == [] && (forall k :: 0 <= k < NumberValidComponents(fmt) ==> ComponentArea(fmt, k, width, height) > 0) ==>
          s.chromaFormat == fmt && s.Created()
      case OpCreateWithMargin(_, fmt, width, height, maxCUSize, margin, alignment, scale) =>
        old(CanCreate(s, fmt, width, height, maxCUSize, margin, alignment, scale)) ==> s.chromaFormat == fmt && s.Created()
      case OpTakeOwnership(_, j) =>
        j < |storages| && s != storages[j] && old(storages[j].Created()) ==> s.bufs == old(storages[j].bufs) && storages[j].bufs == []
      case OpSwap(_, j) =>
        j < |storages| && s != storages[j] && old(s.Created() && storages[j].Created() && Compatible(s, storages[j])) ==>
          s.bufs == old(storages[j].bufs) && storages[j].bufs == old(s.bufs)
      case OpDestroy(_) => s.bufs == []
  {
    hide Recorded, PelStorage.Valid;
    ghost var all := set s | s in storages;
    if op.i >= |storages| {
      return;
    }
    var s := storages[op.i];
    match op {
      case OpCreateCompact(_, fmt, width, height) =>
        var _ := CreateCompact(s, fmt, width, height, heap, all);
      case OpCreateWithMargin(_, fmt, width, height, maxCUSize, margin, alignment, scale) =>
        var _ := CreateWithMargin(s, fmt, width, height, maxCUSize, margin, alignment, scale, heap, all);
      case OpTakeOwnership(_, j) =>
        if j < |storages| && s != storages[j] && storages[j].Created() {
          TakeOwnership(s, storages[j], heap, all);
        }
      case OpSwap(_, j) =>
        if j < |storages| && s != storages[j] && s.Created() && storages[j].Created() && Compatible(s, storages[j]) {
          var _ := Swap(s, storages[j], heap, all);
        }
      case OpDestroy(_) =>
        Destroy(s, heap, all);
    }
  }

  /** After any run of operations and the destructors of all storages, nothing that was allocated is left, and nothing was freed twice. */
  method Lifetime(storages: seq<PelStorage>, ops: seq<Op>, heap: Allocator)
    requires Owned(heap, set s | s in storages)
    modifies storages, heap
    ensures heap.live == {}
  {
    ghost var all := set s | s in storages;
    hide Owned, Recorded;
    for k := 0 to |ops|
      invariant Owned(heap, all)
    {
      Step(storages, ops[k], heap);
    }
    OwnedIsRecorded(heap, all);
    for i := 0 to |storages|
      invariant Recorded(heap, all)
      invariant forall k :: 0 <= k < i ==> storages[k].NoOrigins()
    {
      Destroy(storages[i], heap, all);
    }
    NothingLeft(heap, all);
  }

  lemma OwnedIsRecorded(heap: Allocator, all: set<PelStorage>)
    requires Owned(heap, all)
    ensures Recorded(heap, all)
  {}

  lemma NothingLeft(heap: Allocator, all: set<PelStorage>)
    requires Recorded(heap, all) && forall s :: s in all ==> s.NoOrigins()
    ensures heap.live == {}
  {
    AllSlotsEmpty(heap.live, LedgerOf(all));
  }

  lemma AllSlotsEmpty(live: set<array?<int>>, g: Ledger)
    requires null !in live && (forall a :: a in live ==> Records(g, a)) && (forall p :: p in g ==> g[p] == null)
    ensures live == {}
  {
    RecordedAreNull(live, g);
  }

  lemma RecordedAreNull(live: set<array?<int>>, g: Ledger)
    requires (forall a :: a in live ==> Records(g, a)) && (forall p :: p in g ==> g[p] == null)
    ensures forall a :: a in live ==> a == null
  {}
}
