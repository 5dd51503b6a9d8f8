/** The `Texture` class of index.ts: `fill` and `uploadData` on top of the
    shared storage model.  Its full-image branch is taken when `uploadData`
    gets no argument after the data. */
module IndexTexture {
  import opened Results
  import opened Textures

  /** `uploadData(data, ...args)` where `data` is already a `Uint8Array`. */
  function UploadData(t: Texture, data: seq<Byte>, args: UploadArgs): (r: Result<Texture>)
    requires Valid(t)
    ensures r.Ok? ==> Valid(r.value) && r.value.initialized
    ensures r.Ok? ==> r.value.width == t.width && r.value.height == t.height
    ensures r.Ok? ==> r.value.attachments == 1
    ensures args.Bare? ==> (r.Err? <==> |data| < ByteSize(t.width, t.height))
    ensures args.Bare? && r.Err? ==> r.error == NotEnoughData
    ensures args.Bare? && r.Ok? ==> r.value.storage == data[..ByteSize(t.width, t.height)]
    ensures !args.Bare? && !t.initialized ==> r.Err?
    ensures args.Single? && t.initialized ==> r == Ok(t)
    ensures args.Region? ==> (r.Err? <==> |data| < args.width * args.height || !t.initialized)
    ensures args.Region? && r.Err? ==>
      r.error == if |data| < args.width * args.height then NotEnoughData else NotInitialized
    ensures args.Region? && r.Ok? ==> r.value == WriteRegion(t, data, args.x, args.y, args.width, args.height)
  {
    match args
    case Bare =>
      if |data| < ByteSize(t.width, t.height) then Err(NotEnoughData) else Ok(WriteImage(t, data))
    case Single(x) => SubUpload(t, data, x, 0, 0, 0, false)
    case Region(x, y, w, h) => SubUpload(t, data, x, y, w, h, true)
  }

  /** `uploadData` given a plain array: `new Uint8Array(data)` first keeps
      each number modulo 256. */
  function UploadArray(t: Texture, values: seq<int>, args: UploadArgs): (r: Result<Texture>)
    requires Valid(t)
    ensures r.Ok? ==> Valid(r.value) && r.value.initialized && r.value.width == t.width && r.value.height == t.height
    ensures args.Bare? ==> (r.Ok? <==> |values| >= ByteSize(t.width, t.height))
    ensures args.Bare? && r.Ok? ==>
      forall i :: 0 <= i < ByteSize(t.width, t.height) ==> r.value.storage[i] == ToByte(values[i])
  {
    UploadData(t, ToBytes(values), args)
  }

  /** The byte `fill(n)` writes everywhere: `n || 0`, stored into a `Uint8Array`. */
  function FillByte(n: Option<int>): Byte {
    if n.Some? then ToByte(n.value) else 0
  }

  /** `fill(n?)`: clear to zero for a missing or zero `n`, otherwise upload a
      buffer holding `n` in every byte. */
  function Fill(t: Texture, n: Option<int>): (r: Result<Texture>)
    requires Valid(t)
    ensures r.Ok? && Valid(r.value) && r.value.initialized
    ensures r.value.width == t.width && r.value.height == t.height
    ensures r.value.attachments == 1
    ensures r.value.storage == Repeat(FillByte(n), ByteSize(t.width, t.height))
  {
    if n.None? || n.value == 0 then
      Ok(ClearImage(t))
    else
      var buffer := Repeat(ToByte(n.value), ByteSize(t.width, t.height));
      UploadData(t, buffer, Bare)
  }

  /** The framebuffer is attached on the first successful write only: any
      sequence of fills and uploads leaves exactly one attachment. */
  lemma AttachOnce(t: Texture, data: seq<Byte>, args: UploadArgs, n: Option<int>)
    requires Valid(t) && UploadData(t, data, args).Ok?
    ensures Fill(UploadData(t, data, args).value, n).value.attachments == 1
    ensures UploadData(Fill(t, n).value, data, args).Ok? ==> UploadData(Fill(t, n).value, data, args).value.attachments == 1
  {
  }

  /** Uploading a whole image and downloading it gives back the same bytes,
      for every size including 0 by 0. */
  lemma RoundTrip(t: Texture, data: seq<Byte>)
    requires Valid(t) && |data| == ByteSize(t.width, t.height)
    ensures UploadData(t, data, Bare).Ok?
    ensures DownloadData(UploadData(t, data, Bare).value, Fresh) == Ok(Returned(data))
  {
    assert data[..ByteSize(t.width, t.height)] == data;
  }

  /** Filling and downloading gives the fill byte everywhere. */
  lemma FillThenDownload(t: Texture, n: Option<int>)
    requires Valid(t)
    ensures DownloadData(Fill(t, n).value, Fresh) == Ok(Returned(Repeat(FillByte(n), ByteSize(t.width, t.height))))
  {
  }
}
