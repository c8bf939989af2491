# Textured-square demo: verified model of its core logic

This project models the data-handling core of `gl_texture.c`, a small OpenGL
program. The program loads a PNG texture, uploads it, compiles a shader
program and draws a textured square that stays square and centred when the
window is resized. The model covers:

- **`PowerOfTwo`**: the `power_of_2` test that `load_image_new` uses on the
  texture width and height. It is proved equal to "n is 2^k" and to
  terminate for every non-zero input.
- **`RowLayout`**: the pixel buffer of `load_image_new`. It covers the
  buffer size, the `rowPointers` loop that places file row `r` at byte
  `(h-1-r)*w*4`, and the copy that `png_read_image` does through those
  pointers. The row slices are proved to lie inside the buffer, to be
  pairwise disjoint and to tile it. The decoded buffer is proved to hold the
  file's rows in bottom-up order, and reversing them restores the file order.
- **`ImageDecoder`**: the accept/reject decisions of `load_image_new`. A file
  that cannot be opened, a bad PNG signature, or a format other than 8-bit
  RGBA is rejected, in that order. Non-power-of-two dimensions only warn. On
  success the result is the bottom-up RGBA buffer.
- **`Viewport`**: `min` and the `glViewport` arguments. The result is the
  largest square that fits the window, centred in it.
- **`FrameRenderer`**: the `lastW`/`lastH` cache of the render loop. It is a
  class whose `Frame` method returns the viewport to set, or nothing when the
  window size has not changed. A loop over the sizes reported frame by frame
  is proved to issue exactly the calls of a reference definition. Properties
  proved: repeated sizes are idempotent, the first frame that is not 0 x 0
  (wherever it falls) issues the first call, and the viewport in force always
  matches the current window.
- **`ShaderStartup`**: the order of vertex compile, fragment compile, link and
  use, with the error at which start-up stops.

The model follows the code where it behaves differently from a tidier design:

- On the colour-type/bit-depth failure path the `FILE` handle is not closed.
  `LoadLog.leaksFileHandle` records this.
- `*w`/`*h` are written before the format check, so they are set even when
  the image is then rejected.
- The non-power-of-two warning is printed before the format check.
- The cache holds only the last window size, not the last viewport.
- A failed compile or link returns from `main` without deleting what was
  created.

Integer details:

- In `power_of_2`, C's truncating `%` and `/` lead to the same decisions as
  Dafny's Euclidean ones, although `i % 2` itself differs for a negative odd
  i (-1 in C, 1 in Dafny). `i % 2 != 0` has the same truth value under both,
  and `/ 2` is applied only to even values, where both give the exact half.
- In the viewport, both dividends `w - side` and `h - side` are non-negative,
  so the two kinds of division agree.
- `power_of_2(0)` never returns, so `PowerOf2` requires a non-zero argument.
  Negative values return false.

## Model

| member | source | states |
|---|---|---|
| `PowerOfTwo.PowerOf2` | gl_texture.c:69-80 | for every non-zero n, the loop terminates and returns true exactly when n is 2^k for some k |
| `PowerOfTwo.Pow2` | gl_texture.c:69-80 | every power of two is at least 1, so no zero or negative value is one |
| `PowerOfTwo.OneAndTwoArePowersOfTwo` | gl_texture.c:73-74 | the two values the loop accepts immediately, 1 and 2, are powers of two |
| `PowerOfTwo.OddIsNotPowerOfTwo` | gl_texture.c:75-76 | an odd value other than 1, negative ones included, is not a power of two, so returning false there is right |
| `PowerOfTwo.HalvingKeepsPowerOfTwo` | gl_texture.c:77 | halving a non-zero even value keeps whether it is a power of two |
| `PowerOfTwo.PowersOfTwoExamples` | gl_texture.c:69-80 | 1024 is a power of two; 3 and 6 are not |
| `RowLayout.WrapInt32` | gl_texture.c:134 | C int arithmetic: the result is in the 32-bit range and equals the exact value when that is in range |
| `RowLayout.ImageBytesAsWritten` | gl_texture.c:134 | the int product `*w * *h * 4` as written: a value in the 32-bit range congruent to w*h*4 modulo 2^32 |
| `RowLayout.ImageBytesAsWrittenExactWhenSmall` | gl_texture.c:134 | the int product `*w * *h * 4` is exact for images of fewer than 2^31 bytes |
| `RowLayout.ImageBytesAsWrittenOverflows` | gl_texture.c:134 | for a 32768 x 16384 image the int product wraps to -2^31 instead of 2^31 |
| `RowLayout.ImageBytes` | gl_texture.c:134 | the buffer size computed in size_t is exactly w * h * 4 (h rows of w * 4 bytes) for all dimensions PNG allows |
| `RowLayout.ComputeRowPointers` | gl_texture.c:135-143 | a fresh array of h entries with rowPointers[h-1-i] == i*w*4 for every i < h, so file row r starts at (h-1-r)*w*4 |
| `RowLayout.RowSliceInBuffer` | gl_texture.c:134-143 | every row slice [rowPointers[r], rowPointers[r] + w*4) lies inside the w*h*4 byte buffer |
| `RowLayout.RowSliceEnd` | gl_texture.c:140-143 | the slice of file row r ends exactly where the slice of row r-1 begins, or at the end of the buffer for row 0 |
| `RowLayout.RowSlicesDisjoint` | gl_texture.c:140-143 | the slices of two different file rows never overlap |
| `RowLayout.RowSlicesCoverBuffer` | gl_texture.c:134-143 | every byte of the buffer lies in the slice of some file row, so the slices tile the buffer |
| `RowLayout.RowPointersBottomUp` | gl_texture.c:140-143 | the computed row pointers give contiguous slices of w*4 bytes: file row 0's slice ends at the end of the buffer, each later row's slice ends where the previous one starts, and the last row's starts at byte 0 |
| `RowLayout.CopyRow` | gl_texture.c:145 | one decoded row is copied to its slice and the bytes before and after it are unchanged |
| `RowLayout.ReadImage` | gl_texture.c:145 | for any row pointers with that bottom-up layout, copying each file row to rowPointers[r] leaves the buffer holding the rows concatenated last row first |
| `RowLayout.ReverseTwice` | gl_texture.c:137-143 | flipping the row order twice is the identity, so row r to row h-1-r is a bijection |
| `RowLayout.SplitFlatten` | gl_texture.c:134-145 | cutting the buffer into rows of w*4 bytes gives back the rows that were concatenated |
| `RowLayout.BottomUpRows` | gl_texture.c:137-145 | buffer row k is file row h-1-k (buffer row 0 is the file's last row), and reversing the buffer's rows restores the file's order |
| `ImageDecoder.Rejection` | gl_texture.c:84-132 | the accept/reject decision in the order the checks run: CannotOpen exactly when the file cannot be opened, NotPng exactly for an opened file with a bad signature, UnsupportedFormat exactly for a file with a good signature that is not 8-bit RGBA, acceptance only for 8-bit RGBA PNGs |
| `ImageDecoder.DimensionsNeverRejected` | gl_texture.c:121-124 | changing width or height never changes the accept/reject decision: non-power-of-two sizes only warn |
| `ImageDecoder.LoadImageNew` | gl_texture.c:82-151 | returns null with CannotOpen, NotPng or UnsupportedFormat, in that order, and no buffer exists then; otherwise returns a fresh w*h*4 byte buffer holding the rows bottom-up; *w/*h are set once the header is read; warns exactly when a dimension is not a power of two; leaves the FILE open exactly on the format failure |
| `Viewport.Min` | gl_texture.c:21-24 | the result is at most both arguments and equals one of them |
| `Viewport.Centered` | gl_texture.c:329-340 | the viewport is square with side min(w, h), fits in the window, touches its edges along the shorter axis, has margins on each axis that are equal or differ by one, and has x or y equal to 0 |
| `Viewport.CenteredExamples` | gl_texture.c:329-340 | (640,480) gives (80,0,480,480); (480,640) gives (0,80,480,480); (300,300) gives (0,0,300,300) |
| `FrameRenderer.ViewportCache.constructor` | gl_texture.c:188-189 | the cache starts at lastW = lastH = 0 |
| `FrameRenderer.ViewportCache.Frame` | gl_texture.c:326-344 | a viewport is produced exactly when the size differs from (lastW, lastH), and it is the centred square; the cache then holds the current size |
| `FrameRenderer.RenderLoop` | gl_texture.c:324-344 | over a run of frames, the glViewport calls are exactly those of the reference definition: one centred square for each frame whose size differs from the size before it |
| `FrameRenderer.CallsOfPrefix` | gl_texture.c:324-344 | calls are only appended: the calls of the first k frames are a prefix of the calls of all frames |
| `FrameRenderer.InitialSizesAddNoCall` | gl_texture.c:188-189 | frames that all report 0 x 0, the cache's initial size, issue no call |
| `FrameRenderer.FirstFrameSetsViewport` | gl_texture.c:326-331 | because the cache starts at 0 x 0, the first frame whose size is not 0 x 0, after any number of 0 x 0 frames, issues the first glViewport call, with its centred square |
| `FrameRenderer.RepeatedFrameAddsNoCall` | gl_texture.c:327 | inserting a frame that repeats the previous frame's size anywhere in a run adds no call (idempotence) |
| `FrameRenderer.LastCallMatchesWindow` | gl_texture.c:326-340 | after any run, the viewport in force is the centred square of the latest size; if none was set, every size reported was 0 x 0 |
| `ShaderStartup.Startup` | gl_texture.c:245-286 | the steps are a prefix of vertex compile, fragment compile, link, use: the fragment stage is compiled only after the vertex stage compiled, linking happens only after both did, and the program is used only when all succeed; the error is CompileError of the stage that failed, or LinkError, and names the last step performed |

## Left out

- Window-system setup, event polling, buffer swapping and the Escape/close checks (gl_texture.c:177-225, 346-391) are left out. The stop signal is modelled only as the length of the sequence of window sizes given to `RenderLoop`.
- All `gl*` device calls are left out: buffer and texture creation, `glTexImage2D`, mipmaps, blending, uniforms, draw calls and cleanup. They have no visible semantics here. Attribute and uniform locations (gl_texture.c:287-291) are chosen by the driver and are not modelled.
- Upload of a NULL texture after a failed load (gl_texture.c:296-311) is left out. It is a device call.
- The missing deletion of the index buffer and texture at cleanup is left out, for the same reason.
- `read_all_bytes`, `show_gl_shader_compilation_error`, `show_gl_linking_error` and `my_read` are file and stderr I/O. Messages are reduced to whether they occur (`LoadLog`, `StartupOutcome.error`).
- libpng internals are left out. `png_read_info` and `png_read_image` abort the process on a corrupt stream, because no `setjmp` handler is installed. `LoadImageNew` therefore requires what libpng yields once it returns: dimensions in 1 .. 2^31-1 and rows of w*4 bytes.
- A file shorter than 8 bytes leaves part of the header array uninitialised. The model treats such a header as a signature mismatch.
- Memory release (`free`, `png_destroy_read_struct`) is left out. Only the `FILE` handle that stays open is recorded.
- Row pointers are modelled as byte offsets into the buffer, not as addresses.
- Floating-point data is left out: vertex and UV arrays and the colours. The index array is also left out; it is only passed to the device.
- `gl_01.c` and `gl_01_shader.c` are not part of this model.
- `RowLayout.ComputeRowPointers`: computes the offset `i * w * 4` exactly, not in C int as line 142 does; that int product overflows only once (h-1)*w*4 reaches 2^31 (see Findings).
- `ImageDecoder.LoadImageNew`: states the buffer length as the exact w*h*4 (the corrected size below), not the wrapped int product as written.

## Findings

| source | as written | input that shows it | evidently intended | confidence | as-written member | corrected member |
|---|---|---|---|---|---|---|
| gl_texture.c:134 | `malloc(*w * *h * 4)` computes the size in C int, which overflows once the image holds 2^31 bytes or more. The row offset `i * (*w) * 4` at line 142 is also C int, but it overflows only once (h-1)*w*4 reaches 2^31, which needs line 134 to overflow as well | a valid 32768 x 16384 RGBA PNG: w * h * 4 = 2^31, which wraps to -2^31 | the exact byte count w * h * 4, e.g. computed in size_t, which is exact for every PNG width and height | medium, not executed | `RowLayout.ImageBytesAsWrittenOverflows` | `RowLayout.ImageBytes` |
