/** Texture state shared by both texture classes (index.ts and src/texture.ts):
    the initialization typestate, the lazily attached framebuffer, and the
    8-bit RGBA storage as the graphics API reads and writes it.  The GPU's
    storage is modelled as an explicit byte sequence, row-major from row 0,
    four bytes per pixel. */
module Textures {
  import opened Results

  type Byte = b: int | 0 <= b < 256

  /** What storing a number into a `Uint8Array` keeps (ECMAScript ToUint8). */
  function ToByte(v: int): (b: Byte)
    ensures 0 <= v < 256 ==> b == v
    ensures (b - v) % 256 == 0
  {
    v % 256
  }

  function ToBytes(vs: seq<int>): (bs: seq<Byte>)
    ensures |bs| == |vs|
    ensures forall i :: 0 <= i < |vs| ==> bs[i] == ToByte(vs[i])
  {
    seq(|vs|, i requires 0 <= i < |vs| => ToByte(vs[i]))
  }

  /** A texture object is identified by its position in the store. */
  type TexId = nat

  /** `attachments` counts the calls that attached the texture to its framebuffer. */
  datatype Texture = Texture(width: nat, height: nat, initialized: bool, attachments: nat, storage: seq<Byte>)

  type Store = seq<Texture>

  function ByteSize(width: nat, height: nat): nat {
    width * height * 4
  }

  /** The typestate invariant: a texture has image storage exactly when it is
      initialized, and then its framebuffer has been attached exactly once. */
  predicate Valid(t: Texture) {
    && t.attachments == (if t.initialized then 1 else 0)
    && |t.storage| == (if t.initialized then ByteSize(t.width, t.height) else 0)
  }

  predicate ValidStore(store: Store) {
    forall i :: 0 <= i < |store| ==> Valid(store[i])
  }

  /** `after` is a later state of the textures in `before`: every object still
      exists with its size, and none has gone back to uninitialized. */
  predicate Extends(before: Store, after: Store) {
    && |before| <= |after|
    && forall i :: 0 <= i < |before| ==>
         && after[i].width == before[i].width && after[i].height == before[i].height
         && (before[i].initialized ==> after[i].initialized)
  }

  function Zeros(n: nat): (bs: seq<Byte>)
    ensures |bs| == n && forall i :: 0 <= i < n ==> bs[i] == 0
  {
    seq(n, _ => 0)
  }

  /** `new Uint8Array(n).fill(b)`. */
  function Repeat(b: Byte, n: nat): (bs: seq<Byte>)
    ensures |bs| == n && forall i :: 0 <= i < n ==> bs[i] == b
  {
    seq(n, _ => b)
  }

  /** The texture constructor: a fixed size, no image, no attachment. */
  function Create(width: nat, height: nat): (t: Texture)
    ensures Valid(t) && !t.initialized
    ensures t.width == width && t.height == height
  {
    Texture(width, height, false, 0, [])
  }

  /** The step every successful write ends with: on the first write only,
      attach the texture to its framebuffer and mark it initialized. */
  function Attach(t: Texture): (r: Texture)
    ensures r.initialized
    ensures r.attachments == if t.initialized then t.attachments else t.attachments + 1
    ensures r.width == t.width && r.height == t.height && r.storage == t.storage
  {
    if t.initialized then t else t.(initialized := true, attachments := t.attachments + 1)
  }

  /** `texImage2D` with a buffer, then the lazy attachment: the image becomes the
      first `width * height * 4` bytes of `data`. */
  function WriteImage(t: Texture, data: seq<Byte>): (r: Texture)
    requires Valid(t) && |data| >= ByteSize(t.width, t.height)
    ensures Valid(r) && r.initialized
    ensures r.width == t.width && r.height == t.height
    ensures r.storage == data[..ByteSize(t.width, t.height)]
  {
    Attach(t.(storage := data[..ByteSize(t.width, t.height)]))
  }

  /** `texImage2D` with a null buffer, then the lazy attachment: the image is cleared to zero. */
  function ClearImage(t: Texture): (r: Texture)
    requires Valid(t)
    ensures Valid(r) && r.initialized
    ensures r.width == t.width && r.height == t.height
    ensures r.storage == Zeros(ByteSize(t.width, t.height))
  {
    WriteImage(t, Zeros(ByteSize(t.width, t.height)))
  }

  /** Where byte `k` of the pixel at (`col`, `row`) sits in a row-major RGBA
      buffer `width` pixels wide. */
  function Offset(width: nat, col: nat, row: nat, k: nat): nat {
    (row * width + col) * 4 + k
  }

  lemma MulLeft(a: int, b: int, c: int)
    requires 0 <= c && a <= b
    ensures a * c <= b * c
  {
  }

  lemma MulCancel(a: int, b: int, c: int)
    requires 0 < c && a * c < b * c
    ensures a < b
  {
    if b <= a {
      MulLeft(b, a, c);
    }
  }

  lemma OffsetBound(width: nat, height: nat, col: nat, row: nat, k: nat)
    requires col < width && row < height && k < 4
    ensures Offset(width, col, row, k) < ByteSize(width, height)
  {
    MulLeft(row + 1, height, width);
    assert row * width + col < (row + 1) * width;
  }

  lemma DivModUnique(n: int, d: int, q: int, m: int)
    requires d > 0 && 0 <= m < d && n == q * d + m
    ensures n / d == q && n % d == m
  {
    var q', m' := n / d, n % d;
    assert (q' - q) * d == m - m';
    if q' > q {
      MulLeft(1, q' - q, d);
    } else if q' < q {
      MulLeft(1, q - q', d);
    }
  }

  /** Every byte index splits into its pixel's column and row and its channel. */
  lemma OffsetSplit(width: nat, i: nat)
    requires width > 0
    ensures i == Offset(width, (i / 4) % width, (i / 4) / width, i % 4)
  {
  }

  /** ... and that split is unique. */
  lemma OffsetParts(width: nat, col: nat, row: nat, k: nat)
    requires col < width && k < 4
    ensures Offset(width, col, row, k) % 4 == k
    ensures (Offset(width, col, row, k) / 4) % width == col
    ensures (Offset(width, col, row, k) / 4) / width == row
  {
    var i := Offset(width, col, row, k);
    DivModUnique(i, 4, row * width + col, k);
    DivModUnique(row * width + col, width, row, col);
  }

  lemma RowBound(width: nat, height: nat, i: nat)
    requires width > 0 && i < ByteSize(width, height)
    ensures (i / 4) / width < height
  {
    var p := i / 4;
    assert p < height * width;
    assert (p / width) * width <= p;
    MulCancel(p / width, height, width);
  }

  /** Byte `k` of the pixel at (`col`, `row`) of a row-major RGBA image of
      `width` by `height` pixels held in `s`. */
  function PixelByte(s: seq<Byte>, width: nat, height: nat, col: nat, row: nat, k: nat): Byte
    requires |s| >= ByteSize(width, height) && col < width && row < height && k < 4
  {
    OffsetBound(width, height, col, row, k);
    s[Offset(width, col, row, k)]
  }

  /** Two images of the same size that agree on every byte of every pixel are equal. */
  lemma ImageEquality(a: seq<Byte>, b: seq<Byte>, width: nat, height: nat)
    requires |a| == |b| == ByteSize(width, height)
    requires forall col: nat, row: nat, k: nat :: col < width && row < height && k < 4 ==>
      PixelByte(a, width, height, col, row, k) == PixelByte(b, width, height, col, row, k)
    ensures a == b
  {
    forall i | 0 <= i < |a|
      ensures a[i] == b[i]
    {
      var col, row, k := (i / 4) % width, (i / 4) / width, i % 4;
      OffsetSplit(width, i);
      RowBound(width, height, i);
      assert PixelByte(a, width, height, col, row, k) == PixelByte(b, width, height, col, row, k);
    }
  }

  /** The region (`x`, `y`, `width`, `height`) lies inside the texture. */
  predicate Inside(t: Texture, x: int, y: int, width: nat, height: nat) {
    0 <= x && 0 <= y && x + width <= t.width && y + height <= t.height
  }

  /** The pixel (`col`, `row`) of the texture lies in the block at (`x`, `y`). */
  predicate InBlock(col: int, row: int, x: int, y: int, w: nat, h: nat) {
    x <= col < x + w && y <= row < y + h
  }

  function WriteByte(t: Texture, data: seq<Byte>, x: nat, y: nat, w: nat, h: nat, i: nat): Byte
    requires Valid(t) && t.initialized && i < |t.storage|
    requires |data| >= ByteSize(w, h)
  {
    var col, row := (i / 4) % t.width, (i / 4) / t.width;
    if InBlock(col, row, x, y, w, h) then
      OffsetBound(w, h, col - x, row - y, i % 4);
      data[Offset(w, col - x, row - y, i % 4)]
    else t.storage[i]
  }

  lemma WriteByteAt(t: Texture, data: seq<Byte>, x: nat, y: nat, w: nat, h: nat, col: nat, row: nat, k: nat)
    requires Valid(t) && t.initialized && |data| >= ByteSize(w, h)
    requires col < t.width && row < t.height && k < 4
    ensures Offset(t.width, col, row, k) < |t.storage|
    ensures WriteByte(t, data, x, y, w, h, Offset(t.width, col, row, k)) ==
      if InBlock(col, row, x, y, w, h) then PixelByte(data, w, h, col - x, row - y, k)
      else PixelByte(t.storage, t.width, t.height, col, row, k)
  {
    OffsetBound(t.width, t.height, col, row, k);
    OffsetParts(t.width, col, row, k);
  }

  /** `texSubImage2D`: copy a `w` by `h` block of pixels from `data` into the
      texture at (`x`, `y`).  The graphics API writes nothing when the block
      does not fit the texture or `data` is shorter than the block's bytes
      (it records an error instead of throwing). */
  function WriteRegion(t: Texture, data: seq<Byte>, x: int, y: int, w: nat, h: nat): (r: Texture)
    requires Valid(t) && t.initialized
    ensures Valid(r) && r.initialized
    ensures r.width == t.width && r.height == t.height && r.attachments == t.attachments
    ensures (w == 0 || h == 0 || !Inside(t, x, y, w, h) || |data| < ByteSize(w, h)) ==> r == t
    ensures Inside(t, x, y, w, h) && |data| >= ByteSize(w, h) ==>
      forall col: nat, row: nat, k: nat :: col < t.width && row < t.height && k < 4 ==>
        PixelByte(r.storage, t.width, t.height, col, row, k) ==
          if InBlock(col, row, x, y, w, h) then PixelByte(data, w, h, col - x, row - y, k)
          else PixelByte(t.storage, t.width, t.height, col, row, k)
  {
    if w == 0 || h == 0 || !Inside(t, x, y, w, h) || |data| < ByteSize(w, h) then t
    else
      var s := seq(|t.storage|, i requires 0 <= i < |t.storage| => WriteByte(t, data, x, y, w, h, i));
      WriteRegionCorrect(t, data, x, y, w, h, s);
      t.(storage := s)
  }

  lemma WriteRegionCorrect(t: Texture, data: seq<Byte>, x: nat, y: nat, w: nat, h: nat, s: seq<Byte>)
    requires Valid(t) && t.initialized && |data| >= ByteSize(w, h)
    requires |s| == |t.storage|
    requires forall i :: 0 <= i < |s| ==> s[i] == WriteByte(t, data, x, y, w, h, i)
    ensures forall col: nat, row: nat, k: nat :: col < t.width && row < t.height && k < 4 ==>
      PixelByte(s, t.width, t.height, col, row, k) ==
        if InBlock(col, row, x, y, w, h) then PixelByte(data, w, h, col - x, row - y, k)
        else PixelByte(t.storage, t.width, t.height, col, row, k)
  {
    forall col: nat, row: nat, k: nat | col < t.width && row < t.height && k < 4
      ensures PixelByte(s, t.width, t.height, col, row, k) ==
        if InBlock(col, row, x, y, w, h) then PixelByte(data, w, h, col - x, row - y, k)
        else PixelByte(t.storage, t.width, t.height, col, row, k)
    {
      WriteByteAt(t, data, x, y, w, h, col, row, k);
    }
  }

  function ReadByte(t: Texture, x: int, y: int, w: nat, h: nat, dest: seq<Byte>, i: nat): Byte
    requires Valid(t) && t.initialized && i < |dest|
  {
    if i < ByteSize(w, h) then
      var col, row := (i / 4) % w, (i / 4) / w;
      if 0 <= x + col < t.width && 0 <= y + row < t.height then
        OffsetBound(t.width, t.height, x + col, y + row, i % 4);
        t.storage[Offset(t.width, x + col, y + row, i % 4)]
      else dest[i]
    else dest[i]
  }

  /** Pixel (`col`, `row`) of a block at (`x`, `y`) shows a pixel of the texture. */
  predicate Shows(t: Texture, x: int, y: int, col: nat, row: nat) {
    0 <= x + col < t.width && 0 <= y + row < t.height
  }

  lemma ReadByteAt(t: Texture, x: int, y: int, w: nat, h: nat, dest: seq<Byte>, col: nat, row: nat, k: nat)
    requires Valid(t) && t.initialized && |dest| >= ByteSize(w, h)
    requires col < w && row < h && k < 4
    ensures Offset(w, col, row, k) < |dest|
    ensures ReadByte(t, x, y, w, h, dest, Offset(w, col, row, k)) ==
      if Shows(t, x, y, col, row) then PixelByte(t.storage, t.width, t.height, x + col, y + row, k)
      else PixelByte(dest, w, h, col, row, k)
  {
    OffsetBound(w, h, col, row, k);
    OffsetParts(w, col, row, k);
  }

  /** `readPixels` from the texture's framebuffer into `dest`: pixel
      (`col`, `row`) of the block at (`x`, `y`) lands at its row-major place
      in `dest`.  Nothing is written when the framebuffer has no attachment
      yet or `dest` is too short for the block; bytes for pixels outside the
      texture keep their previous value. */
  function ReadPixels(t: Texture, x: int, y: int, w: nat, h: nat, dest: seq<Byte>): (r: seq<Byte>)
    requires Valid(t)
    ensures |r| == |dest|
    ensures !t.initialized || |dest| < ByteSize(w, h) ==> r == dest
    ensures forall i :: ByteSize(w, h) <= i < |dest| ==> r[i] == dest[i]
    ensures t.initialized && |dest| >= ByteSize(w, h) ==>
      forall col: nat, row: nat, k: nat :: col < w && row < h && k < 4 ==>
        PixelByte(r, w, h, col, row, k) ==
          if Shows(t, x, y, col, row) then PixelByte(t.storage, t.width, t.height, x + col, y + row, k)
          else PixelByte(dest, w, h, col, row, k)
  {
    if !t.initialized || |dest| < ByteSize(w, h) then dest
    else
      var r := seq(|dest|, i requires 0 <= i < |dest| => ReadByte(t, x, y, w, h, dest, i));
      ReadPixelsCorrect(t, x, y, w, h, dest, r);
      r
  }

  lemma ReadPixelsCorrect(t: Texture, x: int, y: int, w: nat, h: nat, dest: seq<Byte>, r: seq<Byte>)
    requires Valid(t) && t.initialized && |dest| >= ByteSize(w, h)
    requires |r| == |dest|
    requires forall i :: 0 <= i < |r| ==> r[i] == ReadByte(t, x, y, w, h, dest, i)
    ensures forall col: nat, row: nat, k: nat :: col < w && row < h && k < 4 ==>
      PixelByte(r, w, h, col, row, k) ==
        if Shows(t, x, y, col, row) then PixelByte(t.storage, t.width, t.height, x + col, y + row, k)
        else PixelByte(dest, w, h, col, row, k)
  {
    forall col: nat, row: nat, k: nat | col < w && row < h && k < 4
      ensures PixelByte(r, w, h, col, row, k) ==
        if Shows(t, x, y, col, row) then PixelByte(t.storage, t.width, t.height, x + col, y + row, k)
        else PixelByte(dest, w, h, col, row, k)
    {
      ReadByteAt(t, x, y, w, h, dest, col, row, k);
    }
  }

  /** Reading the whole texture gives back its storage byte for byte. */
  lemma ReadWhole(t: Texture, dest: seq<Byte>)
    requires Valid(t) && t.initialized && |dest| >= ByteSize(t.width, t.height)
    ensures ReadPixels(t, 0, 0, t.width, t.height, dest)[..ByteSize(t.width, t.height)] == t.storage
  {
    var r := ReadPixels(t, 0, 0, t.width, t.height, dest);
    var n := ByteSize(t.width, t.height);
    forall col: nat, row: nat, k: nat | col < t.width && row < t.height && k < 4
      ensures PixelByte(r[..n], t.width, t.height, col, row, k) == PixelByte(t.storage, t.width, t.height, col, row, k)
    {
      OffsetBound(t.width, t.height, col, row, k);
      assert Shows(t, 0, 0, col, row);
      assert PixelByte(r[..n], t.width, t.height, col, row, k) == PixelByte(r, t.width, t.height, col, row, k);
    }
    ImageEquality(r[..n], t.storage, t.width, t.height);
  }

  /** The call shapes of `uploadData` after the data argument. */
  datatype UploadArgs =
    | Bare                                        // uploadData(data)
    | Single(x: int)                              // uploadData(data, xOffset)
    | Region(x: int, y: int, width: nat, height: nat)  // uploadData(data, xOffset, yOffset, width, height)

  /** The sub-region branch of `uploadData`, the same in both texture classes.
      `sized` is false when the call passed no width and height: the check
      `data.length < width * height` then compares with NaN and is false, and
      the graphics API reads the missing numbers as 0, so nothing is written. */
  function SubUpload(t: Texture, data: seq<Byte>, x: int, y: int, w: nat, h: nat, sized: bool): (r: Result<Texture>)
    requires Valid(t)
    ensures r.Err? <==> (sized && |data| < w * h) || !t.initialized
    ensures r.Err? ==> r.error == if sized && |data| < w * h then NotEnoughData else NotInitialized
    ensures r.Ok? ==> Valid(r.value) && r.value.initialized && r.value.attachments == t.attachments
    ensures r.Ok? ==> r.value.width == t.width && r.value.height == t.height
    ensures r.Ok? && !sized ==> r.value == t
    ensures r.Ok? && sized ==> r.value == WriteRegion(t, data, x, y, w, h)
  {
    if sized && |data| < w * h then Err(NotEnoughData)
    else if !t.initialized then Err(NotInitialized)
    else if sized then Ok(WriteRegion(t, data, x, y, w, h))
    else Ok(WriteRegion(t, data, x, 0, 0, 0))
  }

  /** The call shapes of `downloadData`. */
  datatype DownloadArgs =
    | Fresh                                       // downloadData()
    | IntoBuffer(buffer: seq<Byte>)               // downloadData(data)
    | Area(x: int, y: int, width: nat, height: nat, target: Option<seq<Byte>>)  // downloadData(x, y, w, h[, data])
    | Unusable                                    // any other first argument

  /** A download either returns a new buffer or fills the caller's one (shown
      here as that buffer's contents afterwards). */
  datatype Download = Returned(data: seq<Byte>) | Written(data: seq<Byte>)

  /** `downloadData`, identical in index.ts and src/texture.ts. */
  function DownloadData(t: Texture, args: DownloadArgs): (r: Result<Download>)
    requires Valid(t)
    ensures r.Err? <==> args.Unusable?
    ensures r.Err? ==> r.error == BadCallShape
    ensures args.Fresh? ==> r == Ok(Returned(if t.initialized then t.storage else Zeros(ByteSize(t.width, t.height))))
    ensures args.IntoBuffer? ==> r.Ok? && r.value.Written? && |r.value.data| == |args.buffer|
    ensures args.IntoBuffer? && t.initialized && |args.buffer| >= ByteSize(t.width, t.height) ==>
      r.value.data == t.storage + args.buffer[ByteSize(t.width, t.height)..]
    ensures args.IntoBuffer? ==> r.value.data == ReadPixels(t, 0, 0, t.width, t.height, args.buffer)
    ensures args.Area? && args.target.None? ==>
      && r.Ok? && r.value.Returned? && |r.value.data| == ByteSize(args.width, args.height)
      && r.value.data == ReadPixels(t, args.x, args.y, args.width, args.height, Zeros(ByteSize(args.width, args.height)))
    ensures args.Area? && args.target.Some? ==>
      && r.Ok? && r.value.Written? && |r.value.data| == |args.target.value|
      && r.value.data == ReadPixels(t, args.x, args.y, args.width, args.height, args.target.value)
  {
    match args
    case Fresh =>
      var dest := Zeros(ByteSize(t.width, t.height));
      var r := ReadPixels(t, 0, 0, t.width, t.height, dest);
      if t.initialized then
        ReadWhole(t, dest);
        assert r == r[..ByteSize(t.width, t.height)];
        Ok(Returned(r))
      else Ok(Returned(r))
    case IntoBuffer(buffer) =>
      var r := ReadPixels(t, 0, 0, t.width, t.height, buffer);
      if t.initialized && |buffer| >= ByteSize(t.width, t.height) then
        ReadWhole(t, buffer);
        assert r == r[..ByteSize(t.width, t.height)] + r[ByteSize(t.width, t.height)..];
        Ok(Written(r))
      else Ok(Written(r))
    case Area(x, y, w, h, target) =>
      if target.Some? then Ok(Written(ReadPixels(t, x, y, w, h, target.value)))
      else Ok(Returned(ReadPixels(t, x, y, w, h, Zeros(ByteSize(w, h)))))
    case Unusable => Err(BadCallShape)
  }

  /** Downloading a block that lies inside an initialized texture returns
      that block's pixels, row by row. */
  lemma DownloadArea(t: Texture, x: nat, y: nat, w: nat, h: nat)
    requires Valid(t) && t.initialized && Inside(t, x, y, w, h)
    ensures DownloadData(t, Area(x, y, w, h, None)).Ok?
    ensures forall col: nat, row: nat, k: nat :: col < w && row < h && k < 4 ==>
      && x + col < t.width && y + row < t.height
      && PixelByte(DownloadData(t, Area(x, y, w, h, None)).value.data, w, h, col, row, k)
         == PixelByte(t.storage, t.width, t.height, x + col, y + row, k)
  {
    var r := DownloadData(t, Area(x, y, w, h, None)).value.data;
    forall col: nat, row: nat, k: nat | col < w && row < h && k < 4
      ensures x + col < t.width && y + row < t.height
      ensures PixelByte(r, w, h, col, row, k) == PixelByte(t.storage, t.width, t.height, x + col, y + row, k)
    {
      assert Shows(t, x, y, col, row);
    }
  }
}
