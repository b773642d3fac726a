/// The frame-cache build of the player: every frame of the video is read in
/// order and rendered, the non-empty renderings are kept, the height of the
/// first one is recorded, and reading stops at a safety limit of 5000 frames
/// read. Also the hand-over of the result to the playback step.
///
/// The video is given by what its capture reports (opened or not, frame rate,
/// frame count) and by the render results of its frames, in order; the end of
/// that sequence is the first read that fails.
module FrameCache {
  import opened GlyphMapper

  /** At most this many frames are read, whether or not they render to anything. */
  const SafetyLimit: nat := 5000

  /** The frame rate used when the capture reports 0. */
  const DefaultFps: real := 30.0

  datatype Failure = CannotOpen | UnknownLength | NothingRendered

  /** The outcome of the cache build: the frames ready to play and their geometry, or why there are none. */
  datatype Prepared =
    | Prepared(cache: seq<Grid>, width: int, targetHeight: int, fps: real)
    | Failed(reason: Failure)

  /** How many frames the loop reads from a video of n readable frames. */
  function FramesRead(n: nat): (k: nat)
    ensures k <= n && k <= SafetyLimit
    ensures k == n || k == SafetyLimit
  {
    if n < SafetyLimit then n else SafetyLimit
  }

  /** The cache built from the render results rs: the rows of each non-empty one, in order. */
  function Cached(rs: seq<RenderResult>): (cache: seq<Grid>)
    ensures |cache| <= |rs|
    ensures forall k :: 0 <= k < |cache| ==> cache[k] != []
  {
    if rs == [] then []
    else
      var last := rs[|rs| - 1];
      Cached(rs[..|rs| - 1]) + if last.rows != [] then [last.rows] else []
  }

  /**
   * The target height recorded from rs: the height of the first non-empty
   * result with a positive height, or 0 while there is none.
   */
  function FirstHeight(rs: seq<RenderResult>): (h: int)
    ensures h >= 0
  {
    if rs == [] then 0
    else
      var h, last := FirstHeight(rs[..|rs| - 1]), rs[|rs| - 1];
      if h == 0 && last.rows != [] && last.height > 0 then last.height else h
  }

  /** A result that can set the target height: it has rows and a positive height. */
  predicate SetsHeight(r: RenderResult) { r.rows != [] && r.height > 0 }

  /**
   * The recorded height is 0 exactly when no result has rows and a positive
   * height; otherwise it is the height of the first such result.
   */
  lemma {:induction false} FirstHeightIsFirst(rs: seq<RenderResult>)
    ensures FirstHeight(rs) == 0 <==> forall i :: 0 <= i < |rs| ==> !SetsHeight(rs[i])
    ensures FirstHeight(rs) != 0 ==> exists i :: (0 <= i < |rs| && SetsHeight(rs[i]) && rs[i].height == FirstHeight(rs) &&
                                                 forall j :: 0 <= j < i ==> !SetsHeight(rs[j]))
  {
    if rs != [] {
      var init := rs[..|rs| - 1];
      FirstHeightIsFirst(init);
      assert forall i :: 0 <= i < |init| ==> init[i] == rs[i];
    }
  }

  /** The frame rate of the capture, or 30 when it reports 0 (`fps or 30.0`). */
  function EffectiveFps(reported: real): (fps: real)
    ensures fps != 0.0
    ensures reported != 0.0 ==> fps == reported
    ensures reported == 0.0 ==> fps == DefaultFps
  {
    if reported == 0.0 then DefaultFps else reported
  }

  /**
   * pre_render_video. `isOpen` says whether the capture opened, `reportedFrames`
   * is the frame count it reports and `source` the render results of the
   * frames it delivers before a read fails. A reported count below 1 is
   * refused, as the source refuses int(count) <= 0.
   */
  method PreRender(isOpen: bool, reportedFps: real, reportedFrames: real, width: int, source: seq<RenderResult>)
    returns (r: Prepared)
    ensures !isOpen ==> r == Failed(CannotOpen)
    ensures isOpen && reportedFrames < 1.0 ==> r == Failed(UnknownLength)
    ensures isOpen && reportedFrames >= 1.0 ==>
      var read := source[..FramesRead(|source|)];
      r == if Cached(read) == [] then Failed(NothingRendered)
           else Prepared(Cached(read), width, FirstHeight(read), EffectiveFps(reportedFps))
    ensures r.Prepared? ==> 0 < |r.cache| <= FramesRead(|source|) <= SafetyLimit
  {
    if !isOpen {
      return Failed(CannotOpen);
    }
    var fps := EffectiveFps(reportedFps);
    var totalFrames := reportedFrames.Floor;
    if totalFrames <= 0 {
      return Failed(UnknownLength);
    }
    var cache: seq<Grid> := [];
    var targetHeight := 0;
    var frameCount := 0;
    while frameCount < |source|
      invariant 0 <= frameCount <= |source| && frameCount < SafetyLimit
      invariant cache == Cached(source[..frameCount])
      invariant targetHeight == FirstHeight(source[..frameCount])
    {
      var result := source[frameCount];
      assert source[..frameCount + 1][..frameCount] == source[..frameCount];
      if result.rows != [] {
        cache := cache + [result.rows];
        if targetHeight == 0 && result.height > 0 {
          targetHeight := result.height;
        }
      }
      frameCount := frameCount + 1;
      if frameCount >= SafetyLimit {
        break;
      }
    }
    assert frameCount == FramesRead(|source|);
    assert cache == Cached(source[..FramesRead(|source|)]) && |cache| <= frameCount;
    assert targetHeight == FirstHeight(source[..FramesRead(|source|)]);
    if cache == [] {
      return Failed(NothingRendered);
    }
    return Prepared(cache, width, targetHeight, fps);
  }

  /** The indices of the non-empty results among rs, in increasing order. */
  function NonEmptyIndices(rs: seq<RenderResult>): (idx: seq<nat>)
    ensures forall k :: 0 <= k < |idx| ==> idx[k] < |rs|
  {
    if rs == [] then []
    else NonEmptyIndices(rs[..|rs| - 1]) + if rs[|rs| - 1].rows != [] then [|rs| - 1] else []
  }

  /**
   * The cache is the in-order subsequence of non-empty results: its k-th entry
   * is the rows of the k-th non-empty result, the positions it draws from
   * increase strictly, and they are exactly the positions of non-empty results.
   */
  lemma CachedIsNonEmptySubsequence(rs: seq<RenderResult>)
    ensures |Cached(rs)| == |NonEmptyIndices(rs)|
    ensures forall k :: 0 <= k < |Cached(rs)| ==> Cached(rs)[k] == rs[NonEmptyIndices(rs)[k]].rows
    ensures forall j, k :: 0 <= j < k < |NonEmptyIndices(rs)| ==> NonEmptyIndices(rs)[j] < NonEmptyIndices(rs)[k]
    ensures forall i :: 0 <= i < |rs| ==> (i in NonEmptyIndices(rs) <==> rs[i].rows != [])
  {
    CachedEntries(rs);
    IndicesIncreasing(rs);
    IndicesExact(rs);
  }

  lemma {:induction false} CachedEntries(rs: seq<RenderResult>)
    ensures |Cached(rs)| == |NonEmptyIndices(rs)|
    ensures forall k :: 0 <= k < |Cached(rs)| ==> Cached(rs)[k] == rs[NonEmptyIndices(rs)[k]].rows
  {
    if rs != [] {
      var init := rs[..|rs| - 1];
      CachedEntries(init);
      var c, idx := Cached(rs), NonEmptyIndices(rs);
      var c0, idx0 := Cached(init), NonEmptyIndices(init);
      forall k | 0 <= k < |c|
        ensures c[k] == rs[idx[k]].rows
      {
        if k < |c0| {
          assert c[k] == c0[k] && idx[k] == idx0[k];
          assert rs[idx0[k]] == init[idx0[k]];
        }
      }
    }
  }

  lemma {:induction false} IndicesIncreasing(rs: seq<RenderResult>)
    ensures forall j, k :: 0 <= j < k < |NonEmptyIndices(rs)| ==> NonEmptyIndices(rs)[j] < NonEmptyIndices(rs)[k]
  {
    if rs != [] {
      IndicesIncreasing(rs[..|rs| - 1]);
    }
  }

  lemma {:induction false} IndicesExact(rs: seq<RenderResult>)
    ensures forall i :: 0 <= i < |rs| ==> (i in NonEmptyIndices(rs) <==> rs[i].rows != [])
  {
    if rs != [] {
      var init := rs[..|rs| - 1];
      IndicesExact(init);
      var idx, idx0 := NonEmptyIndices(rs), NonEmptyIndices(init);
      forall i | 0 <= i < |rs|
        ensures i in idx <==> rs[i].rows != []
      {
        if i < |rs| - 1 {
          assert rs[i] == init[i];
          assert i in idx <==> i in idx0;
        }
      }
    }
  }

  /**
   * The limit counts frames read, not frames cached: when none of the first
   * 5000 frames renders to anything, the build fails however many later
   * frames would have.
   */
  lemma {:induction false} EmptyPrefixFails(source: seq<RenderResult>)
    requires |source| >= SafetyLimit
    requires forall i :: 0 <= i < SafetyLimit ==> source[i].rows == []
    ensures Cached(source[..FramesRead(|source|)]) == []
  {
    NoneCached(source[..SafetyLimit]);
  }

  lemma {:induction false} NoneCached(rs: seq<RenderResult>)
    requires forall i :: 0 <= i < |rs| ==> rs[i].rows == []
    ensures Cached(rs) == []
  {
    if rs != [] {
      NoneCached(rs[..|rs| - 1]);
    }
  }

  /** A long video whose frames all render is cut to exactly 5000 cached frames. */
  lemma {:induction false} LongVideoIsCut(source: seq<RenderResult>)
    requires |source| >= SafetyLimit
    requires forall i :: 0 <= i < |source| ==> source[i].rows != []
    ensures |Cached(source[..FramesRead(|source|)])| == SafetyLimit
  {
    AllCached(source[..SafetyLimit]);
  }

  lemma {:induction false} AllCached(rs: seq<RenderResult>)
    requires forall i :: 0 <= i < |rs| ==> rs[i].rows != []
    ensures |Cached(rs)| == |rs|
  {
    if rs != [] {
      AllCached(rs[..|rs| - 1]);
    }
  }

  /**
   * When every result is well formed (as render_frame's are), the target height
   * is the height of the first non-empty result, and that is the number of
   * rows of the first cached frame.
   */
  lemma {:induction false} TargetHeightOfFirstFrame(rs: seq<RenderResult>)
    requires forall i :: 0 <= i < |rs| ==> WellFormed(rs[i])
    requires Cached(rs) != []
    ensures FirstHeight(rs) == |Cached(rs)[0]| > 0
  {
    var init, last := rs[..|rs| - 1], rs[|rs| - 1];
    if Cached(init) == [] {
      NoHeightYet(init);
      assert Cached(rs) == [last.rows];
    } else {
      TargetHeightOfFirstFrame(init);
      assert Cached(rs)[0] == Cached(init)[0];
    }
  }

  lemma {:induction false} NoHeightYet(rs: seq<RenderResult>)
    requires forall i :: 0 <= i < |rs| ==> WellFormed(rs[i])
    requires Cached(rs) == []
    ensures FirstHeight(rs) == 0
  {
    if rs != [] {
      var init := rs[..|rs| - 1];
      assert Cached(init) == [];
      NoHeightYet(init);
    }
  }

  // ---------------------------------------------------------------------
  // Handing the result to playback: the tuple pre_render_video returns and
  // the five-name unpacking in run_player.
  // ---------------------------------------------------------------------

  /** The Python values in the returned tuple. */
  datatype PyValue = PyBool(b: bool) | PyNone | PyFrames(frames: seq<Grid>) | PyInt(i: int) | PyFloat(f: real)

  /** What run_player leads to: playback with the unpacked values, a quiet return to the menu, or the end of the application. */
  datatype Outcome = Play(width: int, height: int, fps: real, frames: seq<Grid>) | BackToMenu | AppEnds

  /** The tuple as the source returns it: four values on every failure path, five on success. */
  function ReturnedAsWritten(r: Prepared): (t: seq<PyValue>)
    ensures r.Failed? ==> |t| == 4
    ensures r.Prepared? ==> |t| == 5
  {
    match r
    case Failed(_) => [PyBool(false), PyNone, PyNone, PyNone]
    case Prepared(cache, width, h, fps) => [PyBool(true), PyFrames(cache), PyInt(width), PyInt(h), PyFloat(fps)]
  }

  /** The tuple with the failure paths padded to the five values the caller unpacks. */
  function Returned(r: Prepared): (t: seq<PyValue>)
    ensures |t| == 5
  {
    match r
    case Failed(_) => [PyBool(false), PyNone, PyNone, PyNone, PyNone]
    case Prepared(cache, width, h, fps) => [PyBool(true), PyFrames(cache), PyInt(width), PyInt(h), PyFloat(fps)]
  }

  /**
   * run_player from the unpacking on: a tuple that is not five long raises
   * ValueError, which nothing below main catches, so the suite's menu loop
   * ends; a false success flag returns to the menu; otherwise playback starts.
   */
  function RunPlayer(t: seq<PyValue>): (o: Outcome)
    ensures |t| != 5 ==> o == AppEnds
    ensures o == BackToMenu <==> |t| == 5 && t[0] != PyBool(true)
    ensures o.Play? ==> |t| == 5 && t[0] == PyBool(true) && t[1] == PyFrames(o.frames) &&
                        t[2] == PyInt(o.width) && t[3] == PyInt(o.height) && t[4] == PyFloat(o.fps)
  {
    if |t| != 5 then AppEnds
    else if t[0] != PyBool(true) then BackToMenu
    else match (t[1], t[2], t[3], t[4])
      case (PyFrames(frames), PyInt(w), PyInt(h), PyFloat(fps)) => Play(w, h, fps, frames)
      case _ => AppEnds
  }

  /** As written, every failure of the build ends the whole application instead of returning to the menu. */
  lemma FailureEndsAppAsWritten(r: Prepared)
    requires r.Failed?
    ensures RunPlayer(ReturnedAsWritten(r)) == AppEnds
  {
  }

  /** With the padded tuple a failure returns to the menu, and playback starts exactly for a built cache, with its values. */
  lemma RunPlayerPlaysIffPrepared(r: Prepared)
    ensures RunPlayer(Returned(r)) != AppEnds
    ensures r.Failed? <==> RunPlayer(Returned(r)) == BackToMenu
    ensures r.Prepared? ==> RunPlayer(Returned(r)) == Play(r.width, r.targetHeight, r.fps, r.cache)
  {
  }

  /** The two tuples agree on success: only the failure paths change. */
  lemma ReturnedAgreesOnSuccess(r: Prepared)
    requires r.Prepared?
    ensures ReturnedAsWritten(r) == Returned(r)
  {
  }
}
