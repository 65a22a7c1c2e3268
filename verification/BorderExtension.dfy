/** The border extension of Buffer.h: AreaBuf::extendBorderPel and its four pieces. */
module BorderExtension {
  import opened Arithmetic

  // What the memory around a picture shows: the sample in a row and a column, counted from the picture's first sample.
  type Image = (int, int) -> int

  /** One sample replaced. */
  function Set(img: Image, r: int, c: int, v: int): Image
  {
    (r', c') => if r' == r && c' == c then v else img(r', c')
  }

  /** Rows y to y + size - 1 extended to the left. */
  function Lft(img: Image, y: int, size: int, margin: int): Image
  {
    (r, c) => if y <= r < y + size && -margin <= c < 0 then img(r, 0) else img(r, c)
  }

  /** Rows y to y + size - 1 of a picture of width w extended to the right. */
  function Rgt(img: Image, w: int, y: int, size: int, margin: int): Image
  {
    (r, c) => if y <= r < y + size && w <= c < w + margin then img(r, w - 1) else img(r, c)
  }

  /** Columns x to x + size - 1 extended to the top. */
  function Top(img: Image, x: int, size: int, margin: int): Image
  {
    (r, c) => if -margin <= r < 0 && x <= c < x + size then img(0, c) else img(r, c)
  }

  /** Columns x to x + size - 1 of a picture of height h extended to the bottom. */
  function Bot(img: Image, h: int, x: int, size: int, margin: int): Image
  {
    (r, c) => if h <= r < h + margin && x <= c < x + size then img(h - 1, c) else img(r, c)
  }

  /** Every sample of the extended rectangle is the picture's sample at the clamped coordinates. */
  function Extended(img: Image, w: int, h: int, marginX: int, marginY: int): Image
  {
    (r, c) =>
      if -marginY <= r < h + marginY && -marginX <= c < w + marginX
      then img(Clip3(0, h - 1, r), Clip3(0, w - 1, c))
      else img(r, c)
  }

  ghost predicate SameImage(img: Image, img': Image)
  {
    forall r, c :: img(r, c) == img'(r, c)
  }

  /** The two sides of some rows give the sample at the clamped column. */
  lemma SidesExtend(img: Image, w: int, y: int, size: int, margin: int, r: int, c: int)
    requires w >= 1 && margin >= 0
    ensures Rgt(Lft(img, y, size, margin), w, y, size, margin)(r, c)
         == if y <= r < y + size && -margin <= c < w + margin then img(r, Clip3(0, w - 1, c)) else img(r, c)
  {
    var left := Lft(img, y, size, margin);
    assert left(r, c) == if y <= r < y + size && -margin <= c < 0 then img(r, 0) else img(r, c);
    assert left(r, w - 1) == img(r, w - 1);
    assert c < 0 ==> Clip3(0, w - 1, c) == 0;
  }

  /** The four pieces over the whole picture give what extendBorderPel gives. */
  lemma PiecesExtend(img: Image, w: int, h: int, marginX: int, marginY: int)
    requires w >= 1 && h >= 1 && marginX >= 0 && marginY >= 0
    ensures var sides := Rgt(Lft(img, 0, h, marginX), w, 0, h, marginX);
            var all := Bot(Top(sides, -marginX, w + 2 * marginX, marginY), h, -marginX, w + 2 * marginX, marginY);
            SameImage(all, Extended(img, w, h, marginX, marginY))
  {
    var left := Lft(img, 0, h, marginX);
    var sides := Rgt(left, w, 0, h, marginX);
    var top := Top(sides, -marginX, w + 2 * marginX, marginY);
    var all := Bot(top, h, -marginX, w + 2 * marginX, marginY);
    forall r, c ensures all(r, c) == Extended(img, w, h, marginX, marginY)(r, c) {
      var r' := Clip3(0, h - 1, r);
      SidesExtend(img, w, 0, h, marginX, r', c);
      SidesExtend(img, w, 0, h, marginX, r, c);
    }
  }

  // The order of the CTU rows

  /** A row of CTUs: its first sample row and how many rows it has. */
  datatype Band = Band(y: nat, size: nat)

  /** What the encoder does when a row of CTUs is finished: sides always, top and bottom with the first and the last row. */
  function ExtendBand(img: Image, w: int, h: int, margin: int, band: Band): Image
  {
    var sides := Rgt(Lft(img, band.y, band.size, margin), w, band.y, band.size, margin);
    var top := if band.y == 0 then Top(sides, -margin, w + 2 * margin, margin) else sides;
    if band.y + band.size == h then Bot(top, h, -margin, w + 2 * margin, margin) else top
  }

  function ExtendBands(img: Image, w: int, h: int, margin: int, bands: seq<Band>): Image
    decreases |bands|
  {
    if bands == [] then img
    else ExtendBand(ExtendBands(img, w, h, margin, bands[..|bands| - 1]), w, h, margin, bands[|bands| - 1])
  }

  predicate BandOf(band: Band, r: int)
  {
    band.y <= r < band.y + band.size
  }

  /** Row r of the picture belongs to a finished row of CTUs. */
  ghost predicate Finished(bands: seq<Band>, r: int)
  {
    exists i :: 0 <= i < |bands| && BandOf(bands[i], r)
  }

  lemma FinishedStep(bands: seq<Band>, r: int)
    requires bands != []
    ensures Finished(bands, r) <==> Finished(bands[..|bands| - 1], r) || BandOf(bands[|bands| - 1], r)
  {
    var before := bands[..|bands| - 1];
    if Finished(before, r) {
      var i :| 0 <= i < |before| && BandOf(before[i], r);
      assert BandOf(bands[i], r);
    }
    if Finished(bands, r) && !BandOf(bands[|bands| - 1], r) {
      var i :| 0 <= i < |bands| && BandOf(bands[i], r);
      assert BandOf(before[i], r);
    }
  }

  predicate ValidBands(bands: seq<Band>, h: int)
  {
    forall i :: 0 <= i < |bands| ==> bands[i].size >= 1 && bands[i].y + bands[i].size <= h
  }

  predicate InExtension(w: int, h: int, margin: int, r: int, c: int)
  {
    -margin <= r < h + margin && -margin <= c < w + margin
  }

  /** One band: its own rows, and the rows beyond the picture if it is the first or the last one. */
  lemma BandExtends(img: Image, w: int, h: int, margin: int, band: Band, r: int, c: int)
    requires w >= 1 && h >= 1 && margin >= 0 && band.size >= 1 && band.y + band.size <= h
    ensures ExtendBand(img, w, h, margin, band)(r, c)
         == if BandOf(band, Clip3(0, h - 1, r)) && InExtension(w, h, margin, r, c)
            then img(Clip3(0, h - 1, r), Clip3(0, w - 1, c)) else img(r, c)
  {
    SidesExtend(img, w, band.y, band.size, margin, r, c);
    SidesExtend(img, w, band.y, band.size, margin, Clip3(0, h - 1, r), c);
  }

  /** Halfway through, in whatever order: the rows of finished bands are extended, everything else is as it was. */
  lemma {:induction false} BandsSoFar(img: Image, w: int, h: int, margin: int, bands: seq<Band>, r: int, c: int)
    requires w >= 1 && h >= 1 && margin >= 0 && ValidBands(bands, h)
    ensures ExtendBands(img, w, h, margin, bands)(r, c)
         == if Finished(bands, Clip3(0, h - 1, r)) then Extended(img, w, h, margin, margin)(r, c) else img(r, c)
    decreases |bands|
  {
    if bands != [] {
      var before, band := bands[..|bands| - 1], bands[|bands| - 1];
      var r' := Clip3(0, h - 1, r);
      FinishedStep(bands, r');
      BandExtends(ExtendBands(img, w, h, margin, before), w, h, margin, band, r, c);
      BandsSoFar(img, w, h, margin, before, r, c);
      var c' := Clip3(0, w - 1, c);
      BandsSoFar(img, w, h, margin, before, r', c');
      assert Clip3(0, h - 1, r') == r' && Clip3(0, w - 1, c') == c';
      assert Extended(img, w, h, margin, margin)(r', c') == img(r', c');
      assert ExtendBands(img, w, h, margin, bands) == ExtendBand(ExtendBands(img, w, h, margin, before), w, h, margin, band);
    }
  }

  /** Whatever the order in which the rows of CTUs finish, the picture ends up extended as by extendBorderPel. */
  lemma AnyOrderExtends(img: Image, w: int, h: int, margin: int, bands: seq<Band>)
    requires w >= 1 && h >= 1 && margin >= 0 && ValidBands(bands, h)
    requires forall r :: 0 <= r < h ==> Finished(bands, r)
    ensures SameImage(ExtendBands(img, w, h, margin, bands), Extended(img, w, h, margin, margin))
  {
    forall r, c ensures ExtendBands(img, w, h, margin, bands)(r, c) == Extended(img, w, h, margin, margin)(r, c) {
      BandsSoFar(img, w, h, margin, bands, r, c);
    }
  }

  // The memory

  /** A plane inside an allocation: the address of its first sample, the distance between two rows, and its size. */
  datatype AreaBuf = AreaBuf(mem: array<int>, buf: int, stride: int, width: nat, height: nat)
  {
    function Address(r: int, c: int): int
    {
      buf + r * stride + c
    }

    /** The allocation holds the plane with margins of this size around it. */
    ghost predicate Holds(marginX: int, marginY: int)
    {
      && width >= 1 && height >= 1 && marginX >= 0 && marginY >= 0
      && width + 2 * marginX <= stride
      && 0 <= Address(-marginY, -marginX)
      && Address(height - 1 + marginY, width - 1 + marginX) < mem.Length
    }

    /** The columns of one row, from the left margin up to where the next row's left margin starts. */
    predicate InRow(c: int, marginX: int)
    {
      -marginX <= c < stride - marginX
    }

    /** The whole allocation shows this image, margins and the space between the rows included. */
    ghost predicate Shows(img: Image, marginX: int)
      reads mem
    {
      forall r, c :: InRow(c, marginX) && 0 <= Address(r, c) < mem.Length ==> mem[Address(r, c)] == img(r, c)
    }
  }

  /** Every address of the allocation is one sample of the image, so statements about samples speak about all of the memory. */
  lemma EveryAddressIsShown(area: AreaBuf, marginX: int, a: int) returns (r: int, c: int)
    requires area.stride > 0
    ensures area.InRow(c, marginX) && area.Address(r, c) == a
  {
    r := (a - area.buf + marginX) / area.stride;
    c := (a - area.buf + marginX) % area.stride - marginX;
  }

  /** Whatever the memory holds is an image. */
  lemma ShownImage(area: AreaBuf, marginX: int) returns (img: Image)
    ensures area.Shows(img, marginX)
  {
    var s := area.mem[..];
    img := (r, c) => var a := area.Address(r, c); if 0 <= a < |s| then s[a] else 0;
    hide AreaBuf.Address;
  }

  /** No two samples share an address. */
  lemma AddressesDiffer(area: AreaBuf, marginX: int, r: int, c: int, r': int, c': int)
    requires area.InRow(c, marginX) && area.InRow(c', marginX) && area.Address(r, c) == area.Address(r', c')
    ensures r == r' && c == c'
  {
    RowsApart(r, r', area.stride);
    RowsApart(r', r, area.stride);
  }

  lemma RowsApart(a: int, b: int, stride: int)
    requires stride >= 0
    ensures a < b ==> a * stride + stride <= b * stride
  {
    if a < b {
      var n := b - a - 1;
      assert n * stride >= 0;
      assert b * stride == a * stride + n * stride + stride;
    }
  }

  /** The extended rectangle lies inside the allocation. */
  lemma InsideAllocation(area: AreaBuf, marginX: int, marginY: int, r: int, c: int)
    requires area.Holds(marginX, marginY)
    requires -marginY <= r < area.height + marginY && -marginX <= c < area.width + marginX
    ensures 0 <= area.Address(r, c) < area.mem.Length && area.InRow(c, marginX)
  {
    ProductsInOrder(-marginY, r, area.stride);
    ProductsInOrder(r, area.height - 1 + marginY, area.stride);
  }

  /** Writes one sample through a pointer. */
  method Store(area: AreaBuf, p: int, v: int, ghost r: int, ghost c: int, ghost img: Image, ghost marginX: int)
    requires area.InRow(c, marginX) && p == area.Address(r, c) && 0 <= p < area.mem.Length
    requires area.Shows(img, marginX)
    modifies area.mem
    ensures area.Shows(Set(img, r, c, v), marginX)
  {
    forall r', c' | area.InRow(c', marginX) && area.Address(r', c') == p ensures r' == r && c' == c {
      AddressesDiffer(area, marginX, r, c, r', c');
    }
    hide AreaBuf.Address;
    area.mem[p] := v;
  }

  lemma ShowsSame(area: AreaBuf, img: Image, img': Image, marginX: int)
    requires area.Shows(img, marginX) && SameImage(img, img')
    ensures area.Shows(img', marginX)
  {
    hide AreaBuf.Address;
  }

  /** Columns x to x + size - 1 of a row hold the sample in column from. */
  function FilledRow(img: Image, row: int, from: int, x: int, size: int): Image
  {
    (r, c) => if r == row && x <= c < x + size then img(r, from) else img(r, c)
  }

  /** Columns x to x + size - 1 of row dst hold those of row src. */
  function CopiedRow(img: Image, dst: int, src: int, x: int, size: int): Image
  {
    (r, c) => if r == dst && x <= c < x + size then img(src, c) else img(r, c)
  }

  /** memcpy of a part of one row to another row. */
  method CopyRow(area: AreaBuf, pDst: int, pSrc: int, size: nat,
                 ghost dst: int, ghost src: int, ghost x: int, ghost img: Image, ghost marginX: int, ghost marginY: int)
    requires area.Holds(marginX, marginY) && area.Shows(img, marginX) && dst != src
    requires -marginY <= dst < area.height + marginY && -marginY <= src < area.height + marginY
    requires -marginX <= x && x + size <= area.width + marginX
    requires pDst == area.Address(dst, x) && pSrc == area.Address(src, x)
    modifies area.mem
    ensures area.Shows(CopiedRow(img, dst, src, x, size), marginX)
  {
    ghost var cur := img;
    for k := 0 to size
      invariant area.Shows(cur, marginX) && SameImage(cur, CopiedRow(img, dst, src, x, k))
    {
      InsideAllocation(area, marginX, marginY, dst, x + k);
      InsideAllocation(area, marginX, marginY, src, x + k);
      assert pDst + k == area.Address(dst, x + k) && pSrc + k == area.Address(src, x + k);
      assert area.mem[pSrc + k] == cur(src, x + k) == img(src, x + k);
      hide AreaBuf.Address, AreaBuf.Shows, AreaBuf.Holds;
      Store(area, pDst + k, area.mem[pSrc + k], dst, x + k, cur, marginX);
      cur := Set(cur, dst, x + k, img(src, x + k));
    }
    ShowsSame(area, cur, CopiedRow(img, dst, src, x, size), marginX);
  }

  lemma NextRow(area: AreaBuf, r: int, c: int, k: int)
    ensures area.Address(r + 1, c) == area.Address(r, c) + area.stride
    ensures area.Address(r - 1, c) == area.Address(r, c) - area.stride
    ensures area.Address(r, c + k) == area.Address(r, c) + k
    ensures area.Address(0, c) == area.buf + c
  {}

  /** One side of one row: samples x to x + size - 1, relative to the row's pointer, become the sample at from. */
  method FillRow(area: AreaBuf, p: int, from: int, x: int, size: nat,
                 ghost row: int, ghost img: Image, ghost marginX: int, ghost marginY: int)
    requires area.Holds(marginX, marginY) && area.Shows(img, marginX) && 0 <= row < area.height && 0 <= from < area.width
    requires -marginX <= x && x + size <= area.width + marginX && !(x <= from < x + size) && p == area.Address(row, 0)
    modifies area.mem
    ensures area.Shows(FilledRow(img, row, from, x, size), marginX)
  {
    ghost var cur := img;
    for k := 0 to size
      invariant area.Shows(cur, marginX) && SameImage(cur, FilledRow(img, row, from, x, k))
    {
      InsideAllocation(area, marginX, marginY, row, x + k);
      InsideAllocation(area, marginX, marginY, row, from);
      assert p + x + k == area.Address(row, x + k) && p + from == area.Address(row, from);
      assert area.mem[p + from] == cur(row, from) == img(row, from);
      hide AreaBuf.Address, AreaBuf.Shows, AreaBuf.Holds;
      Store(area, p + x + k, area.mem[p + from], row, x + k, cur, marginX);
      cur := Set(cur, row, x + k, img(row, from));
    }
    ShowsSame(area, cur, FilledRow(img, row, from, x, size), marginX);
  }

  method ExtendBorderPelLft(area: AreaBuf, y: nat, size: nat, margin: nat, ghost img: Image, ghost marginX: int, ghost marginY: int)
    requires area.Holds(marginX, marginY) && y + size <= area.height && margin <= marginX
    requires area.Shows(img, marginX)
    modifies area.mem
    ensures area.Shows(Lft(img, y, size, margin), marginX)
  {
    var p := area.buf + y * area.stride;
    var row, h := y, size + y;
    ghost var cur := img;
    assert p == area.Address(row, 0);
    hide AreaBuf.Address, AreaBuf.Shows;
    while row < h
      invariant y <= row <= h && p == area.Address(row, 0)
      invariant area.Shows(cur, marginX) && SameImage(cur, Lft(img, y, row - y, margin))
    {
      FillRow(area, p, 0, 0 - margin, margin, row, cur, marginX, marginY);
      cur := FilledRow(cur, row, 0, 0 - margin, margin);
      NextRow(area, row, 0, 0);
      p := p + area.stride;
      row := row + 1;
    }
    ShowsSame(area, cur, Lft(img, y, size, margin), marginX);
  }

  lemma NothingYet(img: Image, w: int, y: int, margin: int)
    ensures SameImage(img, Rgt(img, w, y, 0, margin)) && SameImage(img, Rgt(Lft(img, y, 0, margin), w, y, 0, margin))
  {}

  lemma RgtStep(img: Image, cur: Image, w: int, y: int, row: int, margin: int)
    requires y <= row && SameImage(cur, Rgt(img, w, y, row - y, margin))
    ensures SameImage(FilledRow(cur, row, w - 1, w, margin), Rgt(img, w, y, row + 1 - y, margin))
  {}

  method ExtendBorderPelRgt(area: AreaBuf, y: nat, size: nat, margin: nat, ghost img: Image, ghost marginX: int, ghost marginY: int)
    requires area.Holds(marginX, marginY) && y + size <= area.height && margin <= marginX
    requires area.Shows(img, marginX)
    modifies area.mem
    ensures area.Shows(Rgt(img, area.width, y, size, margin), marginX)
  {
    var p := area.buf + y * area.stride;
    var row, h := y, size + y;
    ghost var cur := img;
    NothingYet(img, area.width, y, margin);
    assert p == area.Address(row, 0) && area.width >= 1;
    hide AreaBuf.Address, AreaBuf.Shows, AreaBuf.Holds, Rgt, SameImage;
    while row < h
      invariant y <= row <= h && p == area.Address(row, 0)
      invariant area.Shows(cur, marginX) && SameImage(cur, Rgt(img, area.width, y, row - y, margin))
    {
      FillRow(area, p, area.width - 1, area.width, margin, row, cur, marginX, marginY);
      RgtStep(img, cur, area.width, y, row, margin);
      cur := FilledRow(cur, row, area.width - 1, area.width, margin);
      NextRow(area, row, 0, 0);
      p := p + area.stride;
      row := row + 1;
    }
    ShowsSame(area, cur, Rgt(img, area.width, y, size, margin), marginX);
  }

  /** The rows above the one that p stands on become copies of it. */
  method CopyUp(area: AreaBuf, p: int, x: int, size: nat, margin: nat, ghost img: Image, ghost marginX: int, ghost marginY: int)
    requires area.Holds(marginX, marginY) && margin <= marginY && -marginX <= x && x + size <= area.width + marginX
    requires area.Shows(img, marginX) && p == area.Address(0, x)
    modifies area.mem
    ensures area.Shows(Top(img, x, size, margin), marginX)
  {
    ghost var cur := img;
    assert SameImage(cur, Top(img, x, size, 0)) && area.height >= 1;
    hide AreaBuf.Address, AreaBuf.Shows, AreaBuf.Holds, SameImage, Top;
    for y := 0 to margin
      invariant area.Shows(cur, marginX) && SameImage(cur, Top(img, x, size, y))
    {
      RowsAbove(area, 0, x, y + 1);
      CopyRow(area, p - (y + 1) * area.stride, p, size, 0 - (y + 1), 0, x, cur, marginX, marginY);
      TopStep(img, cur, x, size, y);
      cur := CopiedRow(cur, 0 - (y + 1), 0, x, size);
    }
    ShowsSame(area, cur, Top(img, x, size, margin), marginX);
  }

  /** The rows below the one that p stands on become copies of it. */
  method CopyDown(area: AreaBuf, p: int, x: int, size: nat, margin: nat, ghost img: Image, ghost marginX: int, ghost marginY: int)
    requires area.Holds(marginX, marginY) && margin <= marginY && -marginX <= x && x + size <= area.width + marginX
    requires area.Shows(img, marginX) && p == area.Address(area.height - 1, x)
    modifies area.mem
    ensures area.Shows(Bot(img, area.height, x, size, margin), marginX)
  {
    ghost var cur := img;
    assert SameImage(cur, Bot(img, area.height, x, size, 0)) && area.height >= 1;
    hide AreaBuf.Address, AreaBuf.Shows, AreaBuf.Holds, SameImage, Bot;
    for y := 0 to margin
      invariant area.Shows(cur, marginX) && SameImage(cur, Bot(img, area.height, x, size, y))
    {
      RowsAway(area, area.height - 1, x, y + 1);
      CopyRow(area, p + (y + 1) * area.stride, p, size, area.height + y, area.height - 1, x, cur, marginX, marginY);
      BotStep(img, cur, area.height, x, size, y);
      cur := CopiedRow(cur, area.height + y, area.height - 1, x, size);
    }
    ShowsSame(area, cur, Bot(img, area.height, x, size, margin), marginX);
  }

  lemma RowsAbove(area: AreaBuf, r: int, c: int, k: int)
    ensures area.Address(r - k, c) == area.Address(r, c) - k * area.stride
  {}

  lemma TopStep(img: Image, cur: Image, x: int, size: int, y: nat)
    requires SameImage(cur, Top(img, x, size, y))
    ensures SameImage(CopiedRow(cur, 0 - (y + 1), 0, x, size), Top(img, x, size, y + 1))
  {}

  lemma BotStep(img: Image, cur: Image, h: int, x: int, size: int, y: nat)
    requires SameImage(cur, Bot(img, h, x, size, y))
    ensures SameImage(CopiedRow(cur, h + y, h - 1, x, size), Bot(img, h, x, size, y + 1))
  {}

  lemma RowsAway(area: AreaBuf, r: int, c: int, k: int)
    ensures area.Address(r + k, c) == area.Address(r, c) + k * area.stride
  {}

  method ExtendBorderPelTop(area: AreaBuf, x: int, size: nat, margin: nat, ghost img: Image, ghost marginX: int, ghost marginY: int)
    requires area.Holds(marginX, marginY) && margin <= marginY && -marginX <= x && x + size <= area.width + marginX
    requires area.Shows(img, marginX)
    modifies area.mem
    ensures area.Shows(Top(img, x, size, margin), marginX)
  {
    CopyUp(area, area.buf + x, x, size, margin, img, marginX, marginY);
  }

  method ExtendBorderPelBot(area: AreaBuf, x: int, size: nat, margin: nat, ghost img: Image, ghost marginX: int, ghost marginY: int)
    requires area.Holds(marginX, marginY) && margin <= marginY && -marginX <= x && x + size <= area.width + marginX
    requires area.Shows(img, marginX)
    modifies area.mem
    ensures area.Shows(Bot(img, area.height, x, size, margin), marginX)
  {
    CopyDown(area, area.buf + (area.height - 1) * area.stride + x, x, size, margin, img, marginX, marginY);
  }

  /** Both sides of one row, sample by sample from the outside in on the left and from the inside out on the right. */
  method ExtendRow(area: AreaBuf, p: int, margin: nat, ghost row: int, ghost img: Image, ghost marginY: int)
    requires area.Holds(margin, marginY) && area.Shows(img, margin) && 0 <= row < area.height && p == area.Address(row, 0)
    modifies area.mem
    ensures area.Shows(FilledRow(FilledRow(img, row, 0, 0 - margin, margin), row, area.width - 1, area.width, margin), margin)
  {
    var w := area.width;
    ghost var cur := img;
    for x := 0 to margin
      invariant area.Shows(cur, margin)
      invariant SameImage(cur, FilledRow(FilledRow(img, row, 0, 0 - margin, x), row, w - 1, w, x))
    {
      FillRow(area, p, 0, x - margin, 1, row, cur, margin, marginY);
      FillRow(area, p, w - 1, w + x, 1, row, FilledRow(cur, row, 0, x - margin, 1), margin, marginY);
      hide AreaBuf.Address, AreaBuf.Shows, AreaBuf.Holds;
      SidesStep(img, cur, row, w, margin, x);
      cur := FilledRow(FilledRow(cur, row, 0, x - margin, 1), row, w - 1, w + x, 1);
    }
    ShowsSame(area, cur, FilledRow(FilledRow(img, row, 0, 0 - margin, margin), row, w - 1, w, margin), margin);
  }

  lemma SidesStep(img: Image, cur: Image, row: int, w: int, margin: int, x: int)
    requires w >= 1 && 0 <= x < margin
    requires SameImage(cur, FilledRow(FilledRow(img, row, 0, 0 - margin, x), row, w - 1, w, x))
    ensures SameImage(FilledRow(FilledRow(cur, row, 0, x - margin, 1), row, w - 1, w + x, 1),
                      FilledRow(FilledRow(img, row, 0, 0 - margin, x + 1), row, w - 1, w, x + 1))
  {
    assert cur(row, 0) == img(row, 0) && cur(row, w - 1) == img(row, w - 1);
  }

  /**
   * Every sample of the extended rectangle becomes the picture's sample at the clamped coordinates, and nothing else changes.
   * Margins that do not fit between two rows are refused.
   */
  method ExtendImage(area: AreaBuf, marginX: nat, marginY: nat, ghost img: Image) returns (ok: bool)
    requires area.width + 2 * marginX <= area.stride ==> area.Holds(marginX, marginY)
    requires area.Shows(img, marginX)
    modifies area.mem
    ensures ok <==> area.width + 2 * marginX <= area.stride
    ensures area.Shows(if ok then Extended(img, area.width, area.height, marginX, marginY) else img, marginX)
    ensures !ok ==> area.mem[..] == old(area.mem[..])
  {
    var w, h, s := area.width, area.height, area.stride;
    if w + 2 * marginX > s {
      return false;
    }
    var p := area.buf;
    ghost var cur := img;
    NothingYet(img, w, 0, marginX);
    assert p == area.Address(0, 0) && w >= 1 && h >= 1;
    hide AreaBuf.Address, AreaBuf.Shows, AreaBuf.Holds, SameImage, Lft, Rgt, Top, Bot, Extended, FilledRow;
    for y := 0 to h
      invariant p == area.Address(y, 0)
      invariant area.Shows(cur, marginX) && SameImage(cur, Rgt(Lft(img, 0, y, marginX), w, 0, y, marginX))
    {
      ExtendRow(area, p, marginX, y, cur, marginY);
      RowStep(img, cur, w, y, marginX);
      cur := FilledRow(FilledRow(cur, y, 0, 0 - marginX, marginX), y, w - 1, w, marginX);
      NextRow(area, y, 0, 0);
      p := p + s;
    }
    ghost var sides := cur;
    NextRow(area, h, 0, 0 - marginX);
    NextRow(area, h, 0 - marginX, 0);
    p := p - (s + marginX);
    CopyDown(area, p, 0 - marginX, w + 2 * marginX, marginY, sides, marginX, marginY);
    ghost var bottom := Bot(sides, h, 0 - marginX, w + 2 * marginX, marginY);
    RowsAway(area, h - 1, 0 - marginX, 0 - (h - 1));
    p := p - (h - 1) * s;
    CopyUp(area, p, 0 - marginX, w + 2 * marginX, marginY, bottom, marginX, marginY);
    BottomFirst(img, sides, w, h, marginX, marginY);
    ShowsSame(area, Top(bottom, 0 - marginX, w + 2 * marginX, marginY), Extended(img, w, h, marginX, marginY), marginX);
    return true;
  }

  /** The address that an address of the allocation takes its sample from: inside the extended rectangle the clamped one. */
  function SourceAddress(area: AreaBuf, marginX: int, marginY: int, r: int, c: int): int
  {
    if -marginY <= r < area.height + marginY && -marginX <= c < area.width + marginX
    then area.Address(Clip3(0, area.height - 1, r), Clip3(0, area.width - 1, c))
    else area.Address(r, c)
  }

  /** Every address of the allocation holds what its source address held before. */
  ghost predicate MemoryExtended(area: AreaBuf, was: seq<int>, now: seq<int>, marginX: int, marginY: int)
  {
    && |was| == |now|
    && forall r, c :: area.InRow(c, marginX) && 0 <= area.Address(r, c) < |now| ==>
         var from := SourceAddress(area, marginX, marginY, r, c);
         0 <= from < |was| && now[area.Address(r, c)] == was[from]
  }

  lemma ExtendedImageIsMemory(area: AreaBuf, was: seq<int>, img: Image, marginX: int, marginY: int)
    requires area.Holds(marginX, marginY) && |was| == area.mem.Length
    requires forall r, c :: area.InRow(c, marginX) && 0 <= area.Address(r, c) < |was| ==> was[area.Address(r, c)] == img(r, c)
    requires area.Shows(Extended(img, area.width, area.height, marginX, marginY), marginX)
    ensures MemoryExtended(area, was, area.mem[..], marginX, marginY)
  {
    forall r, c | area.InRow(c, marginX) && 0 <= area.Address(r, c) < |was|
      ensures var from := SourceAddress(area, marginX, marginY, r, c);
              0 <= from < |was| && area.mem[area.Address(r, c)] == was[from]
    {
      assert area.mem[area.Address(r, c)] == Extended(img, area.width, area.height, marginX, marginY)(r, c);
      if -marginY <= r < area.height + marginY && -marginX <= c < area.width + marginX {
        InsideAllocation(area, marginX, marginY, Clip3(0, area.height - 1, r), Clip3(0, area.width - 1, c));
      }
      hide AreaBuf.Address;
    }
  }

  /** The same in terms of memory: what every address holds afterwards. */
  method ExtendBorderPel(area: AreaBuf, marginX: nat, marginY: nat) returns (ok: bool)
    requires area.width + 2 * marginX <= area.stride ==> area.Holds(marginX, marginY)
    modifies area.mem
    ensures ok <==> area.width + 2 * marginX <= area.stride
    ensures ok ==> MemoryExtended(area, old(area.mem[..]), area.mem[..], marginX, marginY)
    ensures !ok ==> area.mem[..] == old(area.mem[..])
  {
    ghost var img := ShownImage(area, marginX);
    ok := ExtendImage(area, marginX, marginY, img);
    if ok {
      ExtendedImageIsMemory(area, old(area.mem[..]), img, marginX, marginY);
    }
  }

  lemma RowStep(img: Image, cur: Image, w: int, y: int, margin: int)
    requires w >= 1 && y >= 0 && margin >= 0
    requires SameImage(cur, Rgt(Lft(img, 0, y, margin), w, 0, y, margin))
    ensures SameImage(FilledRow(FilledRow(cur, y, 0, 0 - margin, margin), y, w - 1, w, margin),
                      Rgt(Lft(img, 0, y + 1, margin), w, 0, y + 1, margin))
  {}

  /** Extending to the bottom before the top gives the same image as the other way round. */
  lemma BottomFirst(img: Image, sides: Image, w: int, h: int, marginX: int, marginY: int)
    requires w >= 1 && h >= 1 && marginX >= 0 && marginY >= 0
    requires SameImage(sides, Rgt(Lft(img, 0, h, marginX), w, 0, h, marginX))
    ensures var bottom := Bot(sides, h, 0 - marginX, w + 2 * marginX, marginY);
            SameImage(Top(bottom, 0 - marginX, w + 2 * marginX, marginY), Extended(img, w, h, marginX, marginY))
  {
    PiecesExtend(img, w, h, marginX, marginY);
  }

  /** A row of CTUs is finished: its sides are extended, and with the first and the last row the top and the bottom. */
  method FinishCtuRow(area: AreaBuf, band: Band, margin: nat, ghost img: Image)
    requires area.Holds(margin, margin) && area.Shows(img, margin) && band.y + band.size <= area.height
    modifies area.mem
    ensures area.Shows(ExtendBand(img, area.width, area.height, margin, band), margin)
  {
    hide AreaBuf.Address, AreaBuf.Shows, AreaBuf.Holds, Lft, Rgt, Top, Bot;
    ExtendBorderPelLft(area, band.y, band.size, margin, img, margin, margin);
    ghost var cur := Lft(img, band.y, band.size, margin);
    ExtendBorderPelRgt(area, band.y, band.size, margin, cur, margin, margin);
    cur := Rgt(cur, area.width, band.y, band.size, margin);
    if band.y == 0 {
      ExtendBorderPelTop(area, 0 - margin, area.width + 2 * margin, margin, cur, margin, margin);
      cur := Top(cur, 0 - margin, area.width + 2 * margin, margin);
    }
    if band.y + band.size == area.height {
      ExtendBorderPelBot(area, 0 - margin, area.width + 2 * margin, margin, cur, margin, margin);
    }
  }
}
