/** The `Texture` of src/texture.ts: the typestate helpers, `fill`, and an
    `uploadData` that also accepts a pixel function `(col, row) => Pixel`,
    which it first turns into a row-major RGBA buffer.  Its full-image branch
    is selected by `args.length === 1`; `UploadData` and `Fill` model that
    as written, `UploadDataFixed` and `FillFixed` with the test
    `args.length === 0` of index.ts. */
module TypedTexture {
  import opened Results
  import opened Textures
  import opened Execution
  import IndexTexture

  /** `newTexture(gpu, width, height)`. */
  function NewTexture(width: nat, height: nat): (t: Texture)
    ensures Valid(t) && !t.initialized && t.attachments == 0
    ensures t.width == width && t.height == height
  {
    Create(width, height)
  }

  /** `isUnInitializedTexture(v)`: `v` is a texture object that has no image yet. */
  predicate IsUnInitializedTexture(store: Store, v: Value) {
    v.Tex? && v.id < |store| && !store[v.id].initialized
  }

  /** `isInitializedTexture(v)`: `v` is a texture object that has an image. */
  predicate IsInitializedTexture(store: Store, v: Value) {
    v.Tex? && v.id < |store| && store[v.id].initialized
  }

  /** A texture value is in exactly one of the two states; any other value in neither. */
  lemma Typestate(store: Store, v: Value)
    requires ValueIn(v, store)
    ensures v.Tex? ==> IsInitializedTexture(store, v) != IsUnInitializedTexture(store, v)
    ensures !v.Tex? ==> !IsInitializedTexture(store, v) && !IsUnInitializedTexture(store, v)
    ensures IsInitializedTexture(store, v) <==> v.Tex? && store[v.id].initialized
  {
  }

  /** A new texture is uninitialized until its first write. */
  lemma NewIsUnInitialized(store: Store, width: nat, height: nat)
    ensures IsUnInitializedTexture(store + [NewTexture(width, height)], Tex(|store|))
  {
  }

  datatype Pixel = Pixel(r: int, g: int, b: int, a: int)

  /** Channel `k` of a pixel, in the order r, g, b, a. */
  function Channel(p: Pixel, k: nat): int
    requires k < 4
  {
    if k == 0 then p.r else if k == 1 then p.g else if k == 2 then p.b else p.a
  }

  /** What a pixel function returns, as the four bytes a `Uint8Array` stores. */
  function PixelBytes(p: Pixel): (bs: seq<Byte>)
    ensures |bs| == 4 && forall k :: 0 <= k < 4 ==> bs[k] == ToByte(Channel(p, k))
  {
    [ToByte(p.r), ToByte(p.g), ToByte(p.b), ToByte(p.a)]
  }

  /** The bytes of the first `n` pixels of row `row`. */
  function RowBytes(f: (nat, nat) -> Pixel, row: nat, n: nat): (bs: seq<Byte>)
    ensures |bs| == 4 * n
  {
    if n == 0 then [] else RowBytes(f, row, n - 1) + PixelBytes(f(n - 1, row))
  }

  /** The bytes of the first `m` rows of an image `width` pixels wide: the
      reference definition of the materialized buffer. */
  function Rows(f: (nat, nat) -> Pixel, width: nat, m: nat): (bs: seq<Byte>)
    ensures |bs| == ByteSize(width, m)
  {
    if m == 0 then [] else Rows(f, width, m - 1) + RowBytes(f, m - 1, width)
  }

  lemma {:induction false} RowBytesAt(f: (nat, nat) -> Pixel, row: nat, n: nat, col: nat, k: nat)
    requires col < n && k < 4
    ensures RowBytes(f, row, n)[4 * col + k] == ToByte(Channel(f(col, row), k))
  {
    if col < n - 1 {
      RowBytesAt(f, row, n - 1, col, k);
    }
  }

  /** Pixel (`col`, `row`) starts right after the `row` rows above it. */
  lemma OffsetInRow(width: nat, col: nat, row: nat, k: nat)
    ensures Offset(width, col, row, k) == ByteSize(width, row) + 4 * col + k
  {
  }

  lemma {:induction false} RowsAt(f: (nat, nat) -> Pixel, width: nat, m: nat, col: nat, row: nat, k: nat)
    requires col < width && row < m && k < 4
    ensures Offset(width, col, row, k) < ByteSize(width, m)
    ensures Rows(f, width, m)[Offset(width, col, row, k)] == ToByte(Channel(f(col, row), k))
  {
    OffsetBound(width, m, col, row, k);
    if row < m - 1 {
      RowsAt(f, width, m - 1, col, row, k);
    } else {
      OffsetInRow(width, col, row, k);
      RowBytesAt(f, row, width, col, k);
    }
  }

  /** Byte `(row * width + col) * 4 + k` of the image is channel `k` of the
      pixel function at (`col`, `row`). */
  lemma ImagePixels(f: (nat, nat) -> Pixel, width: nat, height: nat)
    ensures forall col: nat, row: nat, k: nat :: col < width && row < height && k < 4 ==>
      PixelByte(Rows(f, width, height), width, height, col, row, k) == ToByte(Channel(f(col, row), k))
  {
    forall col: nat, row: nat, k: nat | col < width && row < height && k < 4
      ensures PixelByte(Rows(f, width, height), width, height, col, row, k) == ToByte(Channel(f(col, row), k))
    {
      RowsAt(f, width, height, col, row, k);
    }
  }

  /** Writing a pixel's four bytes at the front of the unwritten part. */
  lemma WritePixel(done: seq<Byte>, rest: nat, p: Pixel)
    requires rest >= 4
    ensures (done + Zeros(rest))[|done| := ToByte(p.r)][|done| + 1 := ToByte(p.g)]
              [|done| + 2 := ToByte(p.b)][|done| + 3 := ToByte(p.a)]
            == done + PixelBytes(p) + Zeros(rest - 4)
  {
    var lhs := (done + Zeros(rest))[|done| := ToByte(p.r)][|done| + 1 := ToByte(p.g)]
                 [|done| + 2 := ToByte(p.b)][|done| + 3 := ToByte(p.a)];
    var rhs := done + PixelBytes(p) + Zeros(rest - 4);
    assert |lhs| == |rhs|;
    forall i | 0 <= i < |lhs|
      ensures lhs[i] == rhs[i]
    {
      if i < |done| {
      } else if i < |done| + 4 {
        assert rhs[i] == PixelBytes(p)[i - |done|];
      } else {
        assert rhs[i] == Zeros(rest - 4)[i - |done| - 4];
      }
    }
  }

  /** The bytes of a `width` by `height` buffer not yet written once the
      loop has reached pixel (`col`, `row`). */
  function Unwritten(width: nat, height: nat, row: nat, col: nat): int {
    ByteSize(width, height) - ByteSize(width, row) - 4 * col
  }

  lemma RowGrows(width: nat, row: nat)
    ensures ByteSize(width, row + 1) == ByteSize(width, row) + 4 * width
  {
  }

  lemma SizeGrows(width: nat, row: nat, height: nat)
    requires row < height
    ensures ByteSize(width, row + 1) <= ByteSize(width, height)
  {
    MulLeft(row + 1, height, width * 4);
  }

  /** The buffer once the loop has reached pixel (`col`, `row`): every
      earlier pixel written, the rest still zero. */
  function Partial(f: (nat, nat) -> Pixel, width: nat, height: nat, row: nat, col: nat): seq<Byte>
    requires Unwritten(width, height, row, col) >= 0
  {
    Rows(f, width, row) + RowBytes(f, row, col) + Zeros(Unwritten(width, height, row, col))
  }

  /** The four channel bytes of `p` stored from `index` on. */
  function SetPixel(data: seq<Byte>, index: nat, p: Pixel): (r: seq<Byte>)
    requires index + 4 <= |data|
    ensures |r| == |data|
  {
    data[index := ToByte(p.r)][index + 1 := ToByte(p.g)][index + 2 := ToByte(p.b)][index + 3 := ToByte(p.a)]
  }

  /** One pass of the inner loop: the pixel at (`col`, `row`) is written at
      `(row * width + col) * 4`, right after every pixel before it. */
  lemma PixelStep(f: (nat, nat) -> Pixel, width: nat, height: nat, row: nat, col: nat)
    requires row < height && col < width && Unwritten(width, height, row, col) >= 0
    ensures Unwritten(width, height, row, col + 1) >= 0
    ensures ByteSize(width, row) + 4 * col + 4 <= |Partial(f, width, height, row, col)|
    ensures SetPixel(Partial(f, width, height, row, col), ByteSize(width, row) + 4 * col, f(col, row))
      == Partial(f, width, height, row, col + 1)
  {
    RowGrows(width, row);
    SizeGrows(width, row, height);
    var done := Rows(f, width, row) + RowBytes(f, row, col);
    WritePixel(done, Unwritten(width, height, row, col), f(col, row));
  }

  /** The end of a row is the start of the next one. */
  lemma RowStep(f: (nat, nat) -> Pixel, width: nat, height: nat, row: nat)
    requires row < height && Unwritten(width, height, row, width) >= 0
    ensures Unwritten(width, height, row + 1, 0) >= 0
    ensures Partial(f, width, height, row, width) == Partial(f, width, height, row + 1, 0)
  {
    RowGrows(width, row);
  }

  /** The inner loop of `uploadData` over a pixel function: the pixels of
      one row, left to right, each written at `(row * width + col) * 4`. */
  method MaterializeRow(f: (nat, nat) -> Pixel, width: nat, height: nat, row: nat, data: seq<Byte>)
    returns (written: seq<Byte>)
    requires row < height && Unwritten(width, height, row, 0) >= 0
    requires data == Partial(f, width, height, row, 0)
    ensures Unwritten(width, height, row + 1, 0) >= 0
    ensures written == Partial(f, width, height, row + 1, 0)
  {
    written := data;
    var col: nat := 0;
    var index := ByteSize(width, row);
    while col < width
      invariant col <= width && index == ByteSize(width, row) + 4 * col
      invariant Unwritten(width, height, row, col) >= 0
      invariant written == Partial(f, width, height, row, col)
    {
      PixelStep(f, width, height, row, col);
      written := SetPixel(written, index, f(col, row));
      col, index := col + 1, index + 4;
    }
    RowStep(f, width, height, row);
  }

  /** The loop of `uploadData` over a pixel function: a zeroed buffer of
      `width * height * 4` bytes, filled row by row, each pixel's r, g, b, a
      stored at `(row * width + col) * 4` onwards. */
  method Materialize(f: (nat, nat) -> Pixel, width: nat, height: nat) returns (data: seq<Byte>)
    ensures data == Rows(f, width, height)
    ensures |data| == ByteSize(width, height)
    ensures forall col: nat, row: nat, k: nat :: col < width && row < height && k < 4 ==>
      PixelByte(data, width, height, col, row, k) == ToByte(Channel(f(col, row), k))
  {
    data := Zeros(ByteSize(width, height));
    var row: nat := 0;
    while row < height
      invariant row <= height
      invariant Unwritten(width, height, row, 0) >= 0
      invariant data == Partial(f, width, height, row, 0)
    {
      data := MaterializeRow(f, width, height, row, data);
      row := row + 1;
    }
    assert Unwritten(width, height, row, 0) == 0;
    assert data == Rows(f, width, height);
    ImagePixels(f, width, height);
  }

  /** The first argument of `uploadData`: a buffer or a pixel function. */
  datatype Source = Bytes(data: seq<Byte>) | Generator(f: (nat, nat) -> Pixel)

  /** The buffer `uploadData` works with: the argument itself, or the
      materialized pixel function at the texture's size. */
  function SourceBytes(t: Texture, v: Source): (bs: seq<Byte>)
    ensures v.Bytes? ==> bs == v.data
    ensures v.Generator? ==> |bs| == ByteSize(t.width, t.height)
    ensures v.Generator? ==> forall col: nat, row: nat, k: nat :: col < t.width && row < t.height && k < 4 ==>
      PixelByte(bs, t.width, t.height, col, row, k) == ToByte(Channel(v.f(col, row), k))
  {
    match v
    case Bytes(data) => data
    case Generator(f) =>
      ImagePixels(f, t.width, t.height);
      Rows(f, t.width, t.height)
  }

  /** `uploadData(v, ...args)` as written: the full-image branch runs only
      when exactly one argument follows `v`. */
  function UploadData(t: Texture, v: Source, args: UploadArgs): (r: Result<Texture>)
    requires Valid(t)
    ensures r.Ok? ==> Valid(r.value) && r.value.initialized && r.value.attachments == 1
    ensures r.Ok? ==> r.value.width == t.width && r.value.height == t.height
    ensures args.Single? ==> (r.Err? <==> |SourceBytes(t, v)| < ByteSize(t.width, t.height))
    ensures args.Single? && r.Ok? ==> r.value.storage == SourceBytes(t, v)[..ByteSize(t.width, t.height)]
    ensures args.Bare? ==> r == if t.initialized then Ok(t) else Err(NotInitialized)
    ensures args.Region? ==> (r.Err? <==> |SourceBytes(t, v)| < args.width * args.height || !t.initialized)
    ensures args.Region? && r.Err? ==>
      r.error == if |SourceBytes(t, v)| < args.width * args.height then NotEnoughData else NotInitialized
    ensures args.Region? && r.Ok? ==>
      r.value == WriteRegion(t, SourceBytes(t, v), args.x, args.y, args.width, args.height)
  {
    var data := SourceBytes(t, v);
    match args
    case Single(_) =>
      if |data| < ByteSize(t.width, t.height) then Err(NotEnoughData) else Ok(WriteImage(t, data))
    case Bare => SubUpload(t, data, 0, 0, 0, 0, false)
    case Region(x, y, w, h) => SubUpload(t, data, x, y, w, h, true)
  }

  /** `uploadData` with the full-image branch selected by `args.length === 0`,
      as in index.ts. */
  function UploadDataFixed(t: Texture, v: Source, args: UploadArgs): (r: Result<Texture>)
    requires Valid(t)
    ensures r.Ok? ==> Valid(r.value) && r.value.initialized && r.value.attachments == 1
    ensures args.Bare? ==> (r.Err? <==> |SourceBytes(t, v)| < ByteSize(t.width, t.height))
    ensures args.Bare? && r.Ok? ==> r.value.storage == SourceBytes(t, v)[..ByteSize(t.width, t.height)]
    ensures v.Generator? && args.Bare? ==> r.Ok?
    ensures args.Region? ==> r == UploadData(t, v, args)
  {
    IndexTexture.UploadData(t, SourceBytes(t, v), args)
  }

  /** `fill(n?)` as written: a nonzero `n` goes through a bare `uploadData`. */
  function Fill(t: Texture, n: Option<int>): (r: Result<Texture>)
    requires Valid(t)
    ensures r.Ok? ==> Valid(r.value) && r.value.initialized && r.value.attachments == 1
    ensures n.None? || n.value == 0 ==> r.Ok? && r.value.storage == Zeros(ByteSize(t.width, t.height))
  {
    if n.None? || n.value == 0 then
      Ok(ClearImage(t))
    else
      UploadData(t, Bytes(Repeat(ToByte(n.value), ByteSize(t.width, t.height))), Bare)
  }

  /** `fill(n?)` with the corrected branch selection. */
  function FillFixed(t: Texture, n: Option<int>): (r: Result<Texture>)
    requires Valid(t)
    ensures r.Ok? && Valid(r.value) && r.value.initialized && r.value.attachments == 1
    ensures r.value.storage == Repeat(IndexTexture.FillByte(n), ByteSize(t.width, t.height))
  {
    if n.None? || n.value == 0 then
      Ok(ClearImage(t))
    else
      UploadDataFixed(t, Bytes(Repeat(ToByte(n.value), ByteSize(t.width, t.height))), Bare)
  }

  /** As written, `fill(n)` with `n != 0` throws on a texture that has no image yet. */
  lemma FillFreshFails(t: Texture, n: int)
    requires Valid(t) && !t.initialized && n != 0
    ensures Fill(t, Some(n)) == Err(NotInitialized)
  {
  }

  /** As written, `fill(n)` with `n != 0` leaves an initialized texture as it was. */
  lemma FillInitializedIgnored(t: Texture, n: int)
    requires Valid(t) && t.initialized && n != 0
    ensures Fill(t, Some(n)) == Ok(t)
  {
  }

  /** A concrete case: `fill(7)` on a new 2 by 2 texture throws, where the
      intended result is 16 bytes of 7. */
  lemma FillSevenOnNewTexture()
    ensures Fill(NewTexture(2, 2), Some(7)) == Err(NotInitialized)
    ensures FillFixed(NewTexture(2, 2), Some(7)).value.storage == Repeat(7, 16)
  {
  }

  /** The corrected `fill` behaves exactly as the one of index.ts. */
  lemma FillFixedAgrees(t: Texture, n: Option<int>)
    requires Valid(t)
    ensures FillFixed(t, n) == IndexTexture.Fill(t, n)
  {
  }

  /** With the corrected branch selection, a whole-image upload followed by a
      download gives the same bytes back, for every size including 0 by 0. */
  lemma RoundTripFixed(t: Texture, data: seq<Byte>)
    requires Valid(t) && |data| == ByteSize(t.width, t.height)
    ensures UploadDataFixed(t, Bytes(data), Bare).Ok?
    ensures DownloadData(UploadDataFixed(t, Bytes(data), Bare).value, Fresh) == Ok(Returned(data))
  {
    IndexTexture.RoundTrip(t, data);
  }

  /** Uploading a pixel function and downloading gives back its pixels, row-major. */
  lemma GeneratorRoundTrip(t: Texture, f: (nat, nat) -> Pixel)
    requires Valid(t)
    ensures UploadDataFixed(t, Generator(f), Bare).Ok?
    ensures DownloadData(UploadDataFixed(t, Generator(f), Bare).value, Fresh) == Ok(Returned(Rows(f, t.width, t.height)))
  {
    var data := Rows(f, t.width, t.height);
    assert data[..ByteSize(t.width, t.height)] == data;
  }
}
