# simple-gpgpu, modelled in Dafny

simple-gpgpu runs WebGL fragment shaders as general-purpose GPU kernels. It
ships three generations of the same idea side by side:

- the `Kernel` and `Texture` classes of `index.ts`;
- the typed `Kernel` of `src/kernel.ts` with the typestate textures of
  `src/texture.ts`;
- the functional program API of `src/program.ts`.

This project models the logic the library runs around the WebGL calls:

- **the uniform scanner** (`extractUniforms`). It reads the shader source
  line by line and stops at the first `void` line. In one dialect it skips
  a precision qualifier.
- **the parameter tables** a kernel builds from the scanned declarations.
  Plain slots hold the numeric uniforms. Sampler slots get consecutive
  texture units. The name `output` is rejected. Names starting with `glu_`
  are skipped.
- **binding and running.** `arg` type-checks a value against the declared
  type. `output`, `target` and `viewport` record where the next draw goes.
  `run` checks the target and the bound values and produces the draw. In
  "texture" mode it also creates the texture it returns.
- **the texture life cycle.** A texture starts uninitialized. Its first
  write attaches its framebuffer, exactly once. Uploads and downloads
  select their behaviour from the shape of the call and check sizes. A
  pixel function is turned into a row-major RGBA buffer.

## How the model works

- **Textures.** A texture is a value with a width, a height, an
  initialized flag, a count of framebuffer attachments, and its storage as
  a byte sequence. All texture objects live in a `Store` (a sequence), and
  a texture is referred to by its index in the store. This is how object
  identity is kept, for example when `run` returns a new texture or `arg`
  fills a texture shared with the caller.
- **The GPU.** The model does not run WebGL.
  - Which uniform names the linked program gives a location is the
    parameter `active`.
  - The canvas and drawing-buffer sizes are the parameter `Surface`.
  - A `Draw` record holds everything the library decides about a draw:
    the framebuffer, the viewport, which texture is bound to which texture
    unit, and the sizes uploaded to the `glu_*_dimensions` uniforms.
- **Errors.** Every operation returns `Result`. Each thrown error of the
  source is one constructor of `Error`.

Modules follow the sources:

| module | covers |
|---|---|
| `Results` | error kinds and `Result`/`Option` |
| `Text` | the JavaScript string operations the scanner uses |
| `Scanner` | `extractUniforms`, both dialects |
| `Textures` | texture state and storage, shared by both texture classes |
| `Tables` | the kernel constructor's tables, `getArgType`, `find` |
| `Execution` | values, draws, sampler bindings |
| `IndexTexture` | `fill` and `uploadData` of `index.ts` |
| `IndexKernel` | the `Kernel` class of `index.ts` |
| `TypedTexture` | `src/texture.ts` |
| `TypedKernel` | `src/kernel.ts` |
| `Pipeline` | `src/program.ts` |

## Model

| member | source | states |
|---|---|---|
| Text.TrimLeft | index.ts:461 | `trimLeft` returns a suffix of the line. Everything it cut off is JavaScript white space, and the suffix does not start with white space. |
| Text.Split | index.ts:458 | `split` with a one-character separator returns at least one piece, and no piece contains the separator. |
| Text.JoinSplit | index.ts:458 | Joining the pieces of a split with the separator gives back the original string. |
| Text.SplitJoin | index.ts:458 | Splitting a join of separator-free pieces gives back exactly those pieces. |
| Text.DropEmpty | index.ts:461 | `filter(w => w != "")`: the result holds exactly the non-empty words of the input and is no longer than it. |
| Text.DropEmptyOne | index.ts:461 | A single word is kept exactly when it is not empty. |
| Text.DropEmptyConcat | index.ts:461 | Filtering a concatenation filters each part in place. With DropEmptyOne this pins the result down word by word: the non-empty words, in their order, each as often as in the input. |
| Text.Words | index.ts:461 | Every word of a line is non-empty and contains no space. |
| Text.WordsOfJoin | index.ts:461 | Words joined by single spaces are read back exactly, unless the first one begins with white space. |
| Text.DropLast | index.ts:465 | `slice(0, length - 1)` removes the last character, counting a string as a sequence of characters (see "## Left out" for characters outside the Basic Multilingual Plane). An empty string stays empty. |
| Text.StartsWith | index.ts:502-505 | The library's `startsWith` (no position) holds exactly when the search string is a prefix. |
| Text.DecimalInjective | index.ts:305 | Different lengths give different `vec${length}` suffixes. |
| Text.VecNameKnown | index.ts:305 | `vec${n}` is `vec2`, `vec3` or `vec4` exactly when n is 2, 3 or 4 respectively. |
| Scanner.QualifierShifts | src/program.ts:238-244 | A `lowp`/`mediump`/`highp` after `uniform` moves the type and the name one word to the right. Otherwise the line reads as in the plain dialect. |
| Scanner.Classify | index.ts:461-471 | One line's words: a first word `void` stops the scan, and any other first word except `uniform` is skipped. A `uniform` line declares the word after it as the type and the next word, less its last character, as the name. It is malformed, and the source throws, when it has no word for the name. In the dialect of src/program.ts:232-244, a precision qualifier after `uniform` moves the type and the name one word to the right. |
| Scanner.ExtractUniforms | index.ts:455-475 | `extractUniforms` (also src/kernel.ts:200-220, and src/program.ts:221-244 in the qualified dialect) throws exactly when a `uniform` line too short to hold a name comes before the first `void` line. Otherwise it returns the declarations before that line, in source order. |
| Scanner.DialectsAgree | src/kernel.ts:208-212 | Without a qualifier in second position, both dialects read a line the same way. |
| Scanner.StopIndex | index.ts:469-471 | The stop position is the first `void` line, or the end if there is none. |
| Scanner.DeclsOf | index.ts:463-467 | The reference list contains a declaration exactly when some line declares it. |
| Scanner.ScanKinds | index.ts:459-474 | The scan fails exactly when a `uniform` line too short to hold a name comes before the first `void` line. Otherwise it returns the declarations before that line, in order. |
| Scanner.ScanKindsStops | src/program.ts:232-233 | Whatever follows a `void` line does not change the scan. |
| Scanner.ScanStopsAtVoid | index.ts:469-471 | Source lines after the first `void` line are never read: the scan equals the scan of the lines before it. |
| Scanner.LineOfDecl | index.ts:461-466 | `uniform <type> <name>;` reads back as that type and name, in both dialects. |
| Scanner.ScanDeclLines | index.ts:459-467 | Lines written from declarations scan back to those declarations, in order. |
| Scanner.EmptySource | index.ts:458-474 | An empty shader declares nothing. |
| Scanner.ExtractWritten | index.ts:455-475 | Round trip: source written as one declaration per line is scanned back to exactly those declarations, in order. |
| Textures.ToByte | src/texture.ts:118-121 | Storing a number in a `Uint8Array` keeps it modulo 256. Values 0..255 are kept as they are. |
| Textures.Create | index.ts:46-50 | A new texture has the given size, no image and no attachment. |
| Textures.Attach | index.ts:124-128 | Only the first write attaches the framebuffer. Later writes leave the attachment count alone. |
| Textures.WriteImage | index.ts:111 | A full-image write stores the first width·height·4 bytes of the data and leaves the texture initialized. |
| Textures.ClearImage | index.ts:77-84 | `fill()` stores a zero image and initializes the texture. |
| Textures.OffsetParts | src/texture.ts:117 | The byte offset `(row * width + col) * 4 + k` determines column, row and channel uniquely. |
| Textures.WriteRegion | index.ts:121 | A block that fits the texture replaces exactly the pixels inside it and keeps every other pixel. A block that does not fit, or whose data is too short, changes nothing. |
| Textures.ReadPixels | index.ts:175-176 | A read puts each texture pixel of the block at its row-major place in the destination and keeps the destination's other bytes. |
| Textures.ReadWhole | index.ts:142-145 | Reading the whole texture gives back its storage byte for byte. |
| Textures.SubUpload | index.ts:112-122 | The sub-region branch fails with "not enough data" when data.length < w·h, and otherwise with "not initialized" on a texture without an image. On success it keeps the size and the attachment and writes the w by h block at (x, y), as `WriteRegion` states pixel by pixel. Without a size it changes nothing. |
| Textures.DownloadData | index.ts:137-182 | Only an unusable first argument fails. No argument returns the whole image. A buffer is filled in place by reading the whole texture into it: with the image followed by its own remaining bytes when it is long enough. Four numbers return a new buffer of w·h·4 bytes holding the w by h block read at (x, y), and a fifth argument is filled with that block instead. `ReadPixels` states the block's bytes pixel by pixel. |
| Textures.DownloadArea | index.ts:157-176 | Downloading a block that lies inside an initialized texture returns exactly that block's pixels, row by row. |
| Tables.PlainUpTo | index.ts:263-269 | No sampler ever becomes a plain slot. |
| Tables.SamplersUpTo | index.ts:254-262 | The j-th sampler slot gets texture unit j. It starts unbound, and it has a dimensions uniform exactly when `glu_<name>_dimensions` is located. |
| Tables.PlainMembers | index.ts:243-269 | The plain slots are exactly the located, non-internal, non-sampler declarations. |
| Tables.SamplerOrigins | index.ts:254-262 | Every sampler slot comes from a located, non-internal `sampler2D` declaration. |
| Tables.SamplersComplete | index.ts:254-262 | Every located, non-internal `sampler2D` declaration has a sampler slot. |
| Tables.SlotNamesAllowed | index.ts:244-252 | No slot has a `glu_` name. The name `output` appears only if it is never located. |
| Tables.Build | index.ts:239-274 | Construction fails exactly when a located declaration is named `output`. Otherwise it yields the reference tables. Those are well formed: no internal or reserved names, no sampler among the plain slots, units numbered from 0. |
| Tables.Construct | src/kernel.ts:46-82 | The constructor fails exactly when the scan fails or `output` is located. Otherwise its plain and sampler slots are the reference ones for the scanned declarations, and the output-dimensions flag records whether `glu_output_dimensions` has a location. |
| Tables.Find | index.ts:507-513 | `find` returns the first position holding the name, or nothing when the name is absent. |
| Tables.Lookup | index.ts:293-295 | A name resolves to the first plain slot of that name. Failing that, it resolves to the first sampler slot of that name. |
| Tables.GetArgType | src/kernel.ts:84-93 | `getArgType` gives nothing when no slot has the name. Otherwise it gives the type of the first matching plain slot, or else `sampler2D`. |
| Tables.InternalNamesNeverResolve | index.ts:297 | In constructed tables a `glu_` name never resolves. |
| Tables.BindTexture | index.ts:315 | Binding changes only that sampler's texture. Names, units and the other slots stay as they were. |
| Tables.BindKeepsWellFormed | index.ts:315 | Binding a texture keeps the tables well formed. |
| Execution.ArrayAcceptance | index.ts:305 | An array is accepted exactly by `vecN` for its length N in 2..4. Lengths 0, 1 and above 4 are always rejected. |
| Execution.SamplerBindings | index.ts:392-401 | `run` binds every sampler that has a texture and skips the others without error. |
| Execution.AllBound | src/kernel.ts:154-163 | When every sampler has a texture, the draw binds one per slot, in table order, on the slot's unit. |
| IndexTexture.UploadData | index.ts:93-131 | A bare upload fails exactly when the data is shorter than the image, and otherwise stores the image. A four-number upload fails with "not enough data" when data.length < w·h, and otherwise with "not initialized" on a texture without an image. If it succeeds, it writes the w by h block at (x, y). A one-number upload fails on a texture without an image and otherwise changes nothing. A successful upload leaves exactly one attachment. |
| IndexTexture.UploadArray | index.ts:96-97 | A plain array is converted byte by byte modulo 256 before uploading. |
| IndexTexture.Fill | index.ts:69-91 | `fill(n)` always succeeds and stores n modulo 256 in every byte, or 0 when n is missing. |
| IndexTexture.AttachOnce | index.ts:80-84 | Any combination of fills and uploads leaves exactly one framebuffer attachment. |
| IndexTexture.RoundTrip | tests/texture.test.ts:36-63 | Uploading a whole image and downloading it gives back the same bytes, for every size including 0×0. |
| IndexTexture.FillThenDownload | index.ts:89 | After `fill(n)`, a download returns the fill byte everywhere. |
| TypedTexture.NewTexture | src/texture.ts:3-5 | `newTexture` gives an uninitialized texture of the given size with no attachment. |
| TypedTexture.Typestate | src/texture.ts:7-13 | A texture is initialized or uninitialized, never both. Any other value is neither. |
| TypedTexture.NewIsUnInitialized | src/texture.ts:65-68 | A new texture satisfies `isUnInitializedTexture`. |
| TypedTexture.PixelBytes | src/texture.ts:116-121 | A pixel becomes the four bytes r, g, b, a, in that order. |
| TypedTexture.RowsAt | src/texture.ts:113-123 | In the reference buffer, byte `(row * width + col) * 4 + k` is channel k of the pixel function at (col, row). |
| TypedTexture.PixelStep | src/texture.ts:116-121 | One inner-loop pass writes that pixel right after every earlier pixel and leaves the rest zero. |
| TypedTexture.MaterializeRow | src/texture.ts:115-122 | The inner loop writes exactly one more row of pixels into the buffer. |
| TypedTexture.Materialize | src/texture.ts:112-123 | The buffer has width·height·4 bytes, and byte `(row * width + col) * 4 + k` is channel k of `v(col, row)`. |
| TypedTexture.SourceBytes | src/texture.ts:111-126 | A buffer argument is used as it is. A pixel function is materialized at the texture's size. |
| TypedTexture.UploadData | src/texture.ts:108-160 | As written: one extra argument takes the full-image branch. A bare call returns the texture unchanged if it has an image, and fails with "not initialized" otherwise. A four-number call (src/texture.ts:141-151) fails with "not enough data" when the bytes are fewer than w·h, then with "not initialized" on a texture without an image. Otherwise it writes the w by h block at (x, y). |
| TypedTexture.UploadDataFixed | src/texture.ts:136-140 | With `args.length === 0`, a bare call fails exactly when the data is too short and otherwise stores the image. A pixel function never fails. Four-number calls behave exactly as written. |
| TypedTexture.Fill | src/texture.ts:84-106 | `fill()` and `fill(0)` always succeed with a zero image. |
| TypedTexture.FillFixed | src/texture.ts:84-106 | With the corrected branch, `fill(n)` always succeeds and stores `n` (modulo 256) in every byte. |
| TypedTexture.FillFreshFails | src/texture.ts:136-148 | As written, `fill(n)` with n ≠ 0 fails on a texture without an image. |
| TypedTexture.FillInitializedIgnored | src/texture.ts:136-150 | As written, `fill(n)` with n ≠ 0 leaves an initialized texture unchanged. |
| TypedTexture.FillSevenOnNewTexture | src/texture.ts:104 | `fill(7)` on a new 2×2 texture fails as written, and stores sixteen 7s when corrected. |
| TypedTexture.FillFixedAgrees | index.ts:69-91 | The corrected `fill` is the `fill` of index.ts. |
| TypedTexture.RoundTripFixed | tests/texture.test.ts:36-63 | With the corrected branch, upload then download gives back the same bytes, for every size including 0×0. |
| TypedTexture.GeneratorRoundTrip | src/texture.ts:112-140 | Uploading a pixel function and downloading gives back its pixels in row-major order. |
| IndexKernel.New | index.ts:216-275 | Construction fails exactly when the scan fails or `output` is located. A new kernel is in "texture" mode with no numbers set, no values and no bound sampler. Its plain and sampler slots are the reference ones for the scanned declarations, and its output-dimensions flag records whether `glu_output_dimensions` has a location. |
| IndexKernel.NewFitsAnyStore | index.ts:221-224 | A new kernel is consistent with any set of textures. |
| IndexKernel.Prepare | index.ts:312-313 | An uninitialized texture is filled with zeros. Every other texture is left alone. |
| IndexKernel.Arg | index.ts:288-321 | An unknown or internal name is an error, and so is a value the declared type does not accept. A texture is filled if needed, then bound to that sampler alone. Any other value is recorded for that uniform only. |
| IndexKernel.Keep | index.ts:330-331 | A missing or zero size keeps the previous one, as JavaScript's logical or does. |
| IndexKernel.Positioned | index.ts:327-333 | Numbers given to `output` set x and y, and set the sizes only when truthy. |
| IndexKernel.Output | index.ts:323-353 | Numbers keep the target. "canvas" or a texture replaces it, and the texture is filled if needed. Anything else, "texture" included, is an error. |
| IndexKernel.OutputSize | index.ts:360-390 | The size is unknown exactly in "texture" mode with a width or height unset. A recorded non-zero width or height is used as it is. A missing or zero one falls back to the canvas's size for "canvas" and to the texture's size for a texture target. |
| IndexKernel.Run | index.ts:355-422 | `run` fails exactly when the size is unknown. The viewport starts at x and y, each 0 when missing or zero, and has the size `OutputSize` gives: the recorded size, or the canvas's or texture's size in its place. Sampler bindings and output dimensions follow the tables. "texture" mode adds and returns a new zero texture of the output size and draws into it. |
| IndexKernel.TextureModeIsFinal | index.ts:336-337 | Once the target is "canvas" or a texture, neither `arg` nor `output` can bring back "texture" mode. |
| IndexKernel.OutputThenRun | index.ts:342-347 | Sizes given to `output("canvas", …)` reach the next viewport unchanged. |
| IndexKernel.OutputTextureThenRun | index.ts:336-399 | After `output(texture)` alone, `run` draws into that texture's framebuffer over the whole texture and returns nothing. |
| IndexKernel.RunsReturnDistinct | index.ts:373-383 | In "texture" mode, two runs return two different textures, and the second run leaves the first texture alone. |
| IndexKernel.ArgThenRunBinds | index.ts:392-401 | A texture given to a sampler is bound on that sampler's unit by the next run. |
| TypedKernel.New | src/kernel.ts:28-82 | Construction fails exactly when the scan fails or `output` is located. A new kernel has no values and no bound sampler. Its plain and sampler slots are the reference ones for the scanned declarations, and its output-dimensions flag records whether `glu_output_dimensions` has a location, as in index.ts. |
| TypedKernel.Arg | src/kernel.ts:95-125 | As in index.ts, except that a texture must already be initialized. There is no implicit fill. |
| TypedKernel.ImagelessRejected | src/kernel.ts:118-124 | A texture without an image is always refused. |
| TypedKernel.ArgAgrees | src/kernel.ts:104-124 | For every other value, the decision and the resulting tables and values are those of index.ts. |
| TypedKernel.Run | src/kernel.ts:127-176 | The target must be "canvas" or an initialized texture. A missing x or y is 0. A missing or zero size is the canvas's or the texture's. |
| TypedKernel.RunAgreesOnCanvas | src/kernel.ts:135-149 | `run("canvas", x, y, w, h)` draws exactly what the index.ts kernel draws after `output("canvas", x, y, w, h)`. |
| Pipeline.Collected | src/program.ts:246-267 | Kept numeric uniforms start without a value, and kept samplers start without a texture. |
| Pipeline.CollectedUnits | src/program.ts:259-266 | Sampler units count 0, 1, 2, … over the samplers only. |
| Pipeline.CollectedOrigins | src/program.ts:246-267 | Every uniform comes from a located declaration of one of the five known types. |
| Pipeline.CollectedComplete | src/program.ts:246-267 | Every located declaration of a known type gives a uniform. |
| Pipeline.Collect | src/program.ts:221-271 | The loop with its running unit counter yields the reference uniforms, with units in order. |
| Pipeline.FromSource | src/program.ts:62-69 | Fails exactly when the qualified scan fails. Otherwise: the collected uniforms, no target, no viewport. |
| Pipeline.Arg | src/program.ts:88-120 | An unknown name is an error, and so is a value that does not fit the first uniform of that name. Otherwise that uniform alone becomes complete. |
| Pipeline.ArgIdempotent | src/program.ts:99-113 | Giving the same value twice is the same as giving it once. |
| Pipeline.ArgsCommute | src/program.ts:94-118 | Values for two different names can be given in either order. |
| Pipeline.ArrayLengthUnchecked | src/program.ts:108-110 | A `vec4` uniform takes an array of any length, which the kernels would refuse. |
| Pipeline.Viewport | src/program.ts:122-133 | `viewport` sets the rectangle and nothing else. |
| Pipeline.SetTarget | src/program.ts:135-156 | `target` sets the target and the rectangle. x and y default to 0. A given size, 0 included, is kept; a missing one is the drawing buffer's or the texture's. |
| Pipeline.ZeroSizeKept | src/program.ts:147-148 | A size of 0 is kept here, where src/kernel.ts replaces it with the canvas size. |
| Pipeline.LastPlacementWins | src/program.ts:122-156 | Whichever of `viewport` and `target` runs last decides the rectangle. |
| Pipeline.FirstIncomplete | src/program.ts:168-180 | Finds the first uniform without a value, or none when all have one. |
| Pipeline.BindingsOfComplete | src/program.ts:173-177 | When all uniforms are complete, each sampler is bound once, on its own unit. |
| Pipeline.BindTarget | src/program.ts:163-166 | As written, the binding succeeds only for the canvas. A texture target hands the texture object to `bindFramebuffer`, which refuses it. |
| Pipeline.BindTargetFixed | src/program.ts:163-166 | As intended, the canvas binds the screen and a texture target binds that texture's framebuffer. |
| Pipeline.BindingsDiffer | src/program.ts:163-166 | The two bindings agree wherever the written one succeeds, and differ on every texture target. |
| Pipeline.RunAsWritten | src/program.ts:158-188 | As written, a program aimed at a texture fails before any uniform is checked, so every successful draw goes to the screen. For the canvas it behaves exactly like `Pipeline.Run`: it fails naming the first uniform without a value, and otherwise draws over the recorded rectangle with the same bindings. |
| Pipeline.Run | src/program.ts:158-188 | With the corrected binding, `run` draws exactly when every uniform has a value. Otherwise it fails naming the first one without. The draw uses the target's framebuffer and the recorded rectangle. |
| Pipeline.ArgClearsBlame | tests/program.test.ts:37-48 | A uniform that `arg` set is never the one `run` complains about. |

## Left out

- WebGL itself is not modelled:
  - shader compilation and linking, and their error messages;
  - `texParameteri`, the vertex buffer and the attribute set-up;
  - `useProgram`;
  - the pixels a draw produces, including the identity-kernel outcome of the tests.
- The draw is described by a `Draw` record, not executed.
- The `GPU` constructor, `offscreenCanvas`, `src/gpu.ts`, `src/index.ts` and `newProgram` are not modelled. They are DOM and context set-up.
- Uniform locations come from the driver. They are the parameter `active` (the names that have a location), so `glu_*_dimensions` and `glu_output_dimensions` are plain membership tests.
- Values handed to `gl.uniform*` are recorded, not sent:
  - as the map `values` in IndexKernel and TypedKernel;
  - as the `initialized` flag in Pipeline.
- Numbers are mathematical integers and reals. `NaN`, `undefined` arithmetic and fractional sizes are not modelled.
- Texture sizes, the sizes recorded by the index.ts `output`, and the block sizes of `uploadData` and `downloadData` are natural numbers (`Textures.Texture`, `IndexKernel.Position`, `Textures.UploadArgs`, `Textures.DownloadArgs`). This is because the byte counts w·h·4 that the source computes from them only make sense for non-negative sizes: `new Uint8Array` of a negative length throws a RangeError, and WebGL's `texImage2D`, `texSubImage2D`, `readPixels` and `viewport` reject a negative size by recording INVALID_VALUE and doing nothing. The negative-size paths are not modelled.
- `Pipeline.Viewport`, `Pipeline.SetTarget` and `TypedKernel.Run` only record or pass on a rectangle. They take sizes as integers, as the source does.
- Text.DropLast: strings are sequences of Unicode code points, while JavaScript strings count UTF-16 code units. The two agree on every character up to U+FFFF. For a word ending in a character above U+FFFF, `slice(0, length - 1)` keeps a lone high surrogate, but the model drops the whole character. This is reachable only through a `uniform` line inside a comment, since GLSL admits non-ASCII text only there and `extractUniforms` does not skip comments. For example, the line `uniform sampler2D a😀` gives the source's name "a" plus a lone surrogate, which never has a location and is skipped. The model's name is "a", and if `a` has a location the model adds a slot for it. That extra slot shifts the units of every later sampler in `Tables.Build` and `Pipeline.Collect`. The model does not cover such lines.
- TypedKernel.Run: x and y are `Or(x, 0)`. The 32-bit truncation of `args[0] | 0` is not modelled, because the model's positions are unbounded integers.
- Textures.ReadPixels: destination bytes for pixels outside the texture keep their previous value. This is what WebGL 1.0 specifies for pixels read from outside the framebuffer: their destination bytes are left untouched.
- Textures.WriteRegion: writes nothing when the data is shorter than w·h·4 bytes. The library's own check compares with w·h, with no factor 4, and that check is modelled as written in `Textures.SubUpload`. WebGL then records an error and draws nothing.
- Pipeline.Run: requires a target and a rectangle, as the `Program & WithTarget` type of its parameter demands.
- Side effects before a throw are not modelled:
  - `run` in src/program.ts binds the framebuffer, and the samplers before the failing uniform, before it throws;
  - `Pipeline.Run` reports only the outcome.
- Pipeline.Run: models the corrected binding of a texture target (see "## Findings"). As written, src/program.ts:166 hands the texture object to `bindFramebuffer`. A browser throws a TypeError for it; other WebGL implementations record INVALID_OPERATION and keep the previous binding. Either way the draw does not reach the texture. `Pipeline.RunAsWritten` models the browser behaviour.
- Pipeline.Arg: reads `value instanceof Texture` (src/program.ts:111) as "the value is a texture". src/program.ts:3 imports `Texture` from src/texture.ts, but that file does not export it: its class at src/texture.ts:50 is private to the module. Depending on the module system, src/program.ts then fails to load, or the `instanceof` test throws a TypeError for every value that reaches it.
- The types `WithGlTextureInitialized` and `WithBoundFramebuffer`, which src/program.ts imports from src/texture.ts, are not defined there. The module of src/program.ts that defines `Gpu` is not part of this model either. The pipeline therefore accepts any texture object.
- Pipeline.Arg, Pipeline.Viewport, Pipeline.SetTarget: the source changes the program object in place and returns that same object (src/program.ts:101-113, 126-131, 141-153). The model returns a new program value instead. The two agree when each program value is used once, as in a single `p |> arg(…) |> target(…) |> run` chain. They differ when a value is reused. For example, after `base |> arg("x", 1)`, the source's `base` has `x` set, but the model's `base` does not.
- Two behaviours asserted by tests are absent from the code, and the model follows the code:
  - rejecting uploads of an unexpected length (tests/texture.test.ts:26-33);
  - rejecting unused uniforms (tests/program.test.ts:26-35).
- src/texture.ts offers `downloadData` only on `InitializedTexture`, by type. Neither texture class checks for an image at run time. A download from a texture without an image therefore returns zeros or leaves the caller's buffer as it was, and `Textures.DownloadData` states exactly that.

## Findings

| source | as written | input that shows it | evidently intended | confidence | as-written member | corrected member |
|---|---|---|---|---|---|---|
| src/texture.ts:136 | The full-image branch of `uploadData` is taken when `args.length === 1`, i.e. when exactly one argument follows the data. | `fill(7)` on a new 2×2 texture. It calls a bare `uploadData(buffer)`, which falls into the sub-region branch and throws "Texture in not initialized". On an initialized texture the same call is a no-op. | `args.length === 0`, as in index.ts:107. Then `fill(7)` stores sixteen 7s, and a bare upload followed by a download round-trips. | not executed | TypedTexture.UploadData, TypedTexture.Fill (FillFreshFails, FillSevenOnNewTexture) | TypedTexture.UploadDataFixed, TypedTexture.FillFixed (FillFixedAgrees, RoundTripFixed) |
| src/program.ts:166 | `run` binds a texture target with `gl.bindFramebuffer(gl.FRAMEBUFFER, p._target)`, handing over the texture object itself. | Piping a program through `target(t)` and then `run`, for any texture `t`. `bindFramebuffer` accepts only a framebuffer or `null`, so a browser throws a TypeError before anything is drawn. | `p._target.glFramebuffer`, the framebuffer created for the texture at src/texture.ts:74 and exposed at src/texture.ts:63. The draw then lands in `t`, as it does in index.ts:386. | not executed | Pipeline.RunAsWritten (BindTarget, BindingsDiffer) | Pipeline.Run (BindTargetFixed) |
