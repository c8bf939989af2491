/**
 * The viewport cache of the render loop in main (gl_texture.c): the loop
 * keeps the last window size it saw and calls glViewport only when the
 * size reported for the current frame differs from it.
 */
module FrameRenderer {
  import opened Wrappers
  import opened Viewport

  /** lastW and lastH start at 0 before the first frame. */
  const INITIAL_SIZE := Size(0, 0)

  /** The lastW / lastH pair of the render loop. */
  class ViewportCache {
    var lastW: int
    var lastH: int

    constructor ()
      ensures lastW == INITIAL_SIZE.width && lastH == INITIAL_SIZE.height
    {
      lastW, lastH := 0, 0;
    }

    /**
     * One frame: the viewport passed to glViewport, or None when the size
     * is unchanged and no call is issued. Either way the cache holds the
     * current size afterwards.
     */
    method Frame(curW: int, curH: int) returns (viewport: Option<Rect>)
      modifies this
      ensures lastW == curW && lastH == curH
      ensures viewport.Some? <==> (curW != old(lastW) || curH != old(lastH))
      ensures viewport.Some? ==> viewport.value == Centered(Size(curW, curH))
    {
      viewport := None;
      if curW != lastW || curH != lastH {
        var minDimension := Min(curW, curH);
        lastW := curW;
        lastH := curH;
        viewport := Some(Rect((curW - minDimension) / 2, (curH - minDimension) / 2, minDimension, minDimension));
      }
    }
  }

  /** The size the cache holds when frame i starts. */
  function SizeBefore(sizes: seq<Size>, i: nat): Size
    requires i <= |sizes|
  {
    if i == 0 then INITIAL_SIZE else sizes[i - 1]
  }

  /**
   * The glViewport calls issued over frames that report the window sizes
   * `sizes`, in order: frame i issues Centered(sizes[i]) exactly when
   * sizes[i] differs from the size before it.
   */
  function ViewportCalls(sizes: seq<Size>): seq<Rect>
  {
    if sizes == [] then []
    else
      var n := |sizes| - 1;
      ViewportCalls(sizes[..n]) + (if sizes[n] != SizeBefore(sizes, n) then [Centered(sizes[n])] else [])
  }

  /**
   * The render loop run for as many frames as `sizes` holds (the stop
   * signal comes from the window system and is not modelled): it returns
   * the sequence of viewports passed to glViewport.
   */
  method RenderLoop(sizes: seq<Size>) returns (calls: seq<Rect>)
    ensures calls == ViewportCalls(sizes)
  {
    var cache := new ViewportCache();
    calls := [];
    var i := 0;
    while i < |sizes|
      invariant 0 <= i <= |sizes|
      invariant Size(cache.lastW, cache.lastH) == SizeBefore(sizes, i)
      invariant calls == ViewportCalls(sizes[..i])
    {
      var viewport := cache.Frame(sizes[i].width, sizes[i].height);
      if viewport.Some? {
        calls := calls + [viewport.value];
      }
      assert sizes[..i + 1][..i] == sizes[..i];
      i := i + 1;
    }
    assert sizes[..i] == sizes;
  }

  /**
   * The viewport in force always fits the current window: after any run of
   * frames, the last glViewport call is the centred square of the latest
   * size; if no call was ever issued, every size reported was 0 x 0.
   */
  lemma {:induction false} LastCallMatchesWindow(sizes: seq<Size>)
    requires sizes != []
    ensures ViewportCalls(sizes) != [] ==>
              ViewportCalls(sizes)[|ViewportCalls(sizes)| - 1] == Centered(sizes[|sizes| - 1])
    ensures ViewportCalls(sizes) == [] ==> forall i :: 0 <= i < |sizes| ==> sizes[i] == INITIAL_SIZE
  {
    var n := |sizes| - 1;
    var prefix := sizes[..n];
    if n > 0 {
      LastCallMatchesWindow(prefix);
    }
  }

  /** The calls of a prefix of the frames are a prefix of the calls of all frames. */
  lemma {:induction false} CallsOfPrefix(sizes: seq<Size>, k: nat)
    requires k <= |sizes|
    ensures ViewportCalls(sizes[..k]) <= ViewportCalls(sizes)
  {
    if k < |sizes| {
      var n := |sizes| - 1;
      assert sizes[..n][..k] == sizes[..k];
      CallsOfPrefix(sizes[..n], k);
    } else {
      assert sizes[..k] == sizes;
    }
  }

  /** Frames that all report 0 x 0 issue no call. */
  lemma {:induction false} InitialSizesAddNoCall(sizes: seq<Size>)
    requires forall i :: 0 <= i < |sizes| ==> sizes[i] == INITIAL_SIZE
    ensures ViewportCalls(sizes) == []
  {
    if sizes != [] {
      InitialSizesAddNoCall(sizes[..|sizes| - 1]);
    }
  }

  /**
   * Since the cache starts at 0 x 0, the first frame j whose size is not
   * 0 x 0 always issues the first glViewport call, with its centred square.
   */
  lemma FirstFrameSetsViewport(sizes: seq<Size>, j: nat)
    requires j < |sizes| && sizes[j] != INITIAL_SIZE
    requires forall i :: 0 <= i < j ==> sizes[i] == INITIAL_SIZE
    ensures ViewportCalls(sizes) != [] && ViewportCalls(sizes)[0] == Centered(sizes[j])
  {
    var prefix := sizes[..j + 1];
    assert prefix[..j] == sizes[..j];
    InitialSizesAddNoCall(sizes[..j]);
    assert ViewportCalls(prefix) == [Centered(sizes[j])];
    CallsOfPrefix(sizes, j + 1);
  }

  /**
   * Idempotence: a frame that repeats the size of the frame before it adds
   * no call, wherever it occurs in the run.
   */
  lemma {:induction false} RepeatedFrameAddsNoCall(sizes: seq<Size>, i: nat)
    requires 0 < i <= |sizes|
    ensures ViewportCalls(sizes[..i] + [sizes[i - 1]] + sizes[i..]) == ViewportCalls(sizes)
  {
    var t := sizes[..i] + [sizes[i - 1]] + sizes[i..];
    if i == |sizes| {
      assert t[..|t| - 1] == sizes;
      assert sizes[..i] == sizes;
    } else {
      var n := |sizes| - 1;
      RepeatedFrameAddsNoCall(sizes[..n], i);
      assert t[..|t| - 1] == sizes[..n][..i] + [sizes[..n][i - 1]] + sizes[..n][i..];
      assert t[|t| - 1] == sizes[n];
      assert SizeBefore(t, |t| - 1) == SizeBefore(sizes, n);
    }
  }
}
