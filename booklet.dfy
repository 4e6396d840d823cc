/**
 * The booklet viewer's state machine. A mounted viewer loads one PDF at a time,
 * shows one spread at a time, turns spreads with a single page-flip animation,
 * and mirrors a fullscreen flag. The asynchronous load, the animation frames,
 * key presses and fullscreen changes are the events; each is one method.
 */
module Booklet {
  import opened Optional
  import opened Pagination

  /** The way a flip turns: "left" goes back a spread, "right" forward. */
  datatype Direction = Left | Right

  /** `goNext` does nothing at or past the last spread, or while a flip runs. */
  predicate NextBlocked(spread: int, totalPages: int, flipping: Option<Direction>) {
    spread >= TotalSpreads(totalPages) - 1 || flipping.Some?
  }

  /** `goPrev` does nothing at or before the cover, or while a flip runs. */
  predicate PrevBlocked(spread: int, flipping: Option<Direction>) {
    spread <= 0 || flipping.Some?
  }

  /** The Previous button's `disabled` test, written with `=== 0` rather than the handler's `<= 0`. */
  predicate PrevButtonDisabled(spread: int, flipping: Option<Direction>) {
    spread == 0 || flipping.Some?
  }

  /** On every spread the viewer can be at, the Previous button is disabled exactly when `goPrev`
      would do nothing. (The Next button repeats `goNext`'s guard word for word.) */
  lemma PrevButtonMatchesGuard(spread: int, flipping: Option<Direction>)
    requires spread >= 0
    ensures PrevButtonDisabled(spread, flipping) <==> PrevBlocked(spread, flipping)
  {
  }

  const LoadFailurePrefix: string := "Failed to load PDF: "
  const UnknownError: string := "unknown error"

  /** The error shown when the PDF cannot be loaded; a missing message reads "unknown error". */
  function LoadErrorMessage(message: Option<string>): (text: string)
    ensures |text| >= |LoadFailurePrefix| && text[..|LoadFailurePrefix|] == LoadFailurePrefix
    ensures message.Some? ==> text[|LoadFailurePrefix|..] == message.value
    ensures message.None? ==> text[|LoadFailurePrefix|..] == UnknownError
  {
    LoadFailurePrefix + message.GetOr(UnknownError)
  }

  class BookletViewer {
    var currentSpread: int
    var totalPages: nat
    /** Whether a loaded PDF document is held (the document itself is opaque). */
    var hasDocument: bool
    var loading: bool
    var error: Option<string>
    /** The direction of the running flip animation, if one runs. */
    var flipping: Option<Direction>
    /** The eased progress of the running flip, 0 when none runs. */
    var flipProgress: real
    var isFullscreen: bool
    /** Generation of the most recently started load; only its completion may change the state. */
    var loadGen: nat
    /** False once the viewer is unmounted: that cancels the current load and the animation frame. */
    var mounted: bool
    /** Generations whose load has completed, successfully or not; a load completes once. */
    ghost var settled: set<nat>

    /** The structural invariant every event keeps. */
    ghost predicate Valid()
      reads this
    {
      && (flipping.None? ==> flipProgress == 0.0)
      && (loading ==> !hasDocument && error.None? && totalPages == 0)
      && (error.Some? ==> !hasDocument && totalPages == 0)
      && (forall g :: g in settled ==> g <= loadGen)
      && (mounted ==> (loading <==> loadGen !in settled))
      && (mounted && !loading ==> (hasDocument <==> error.None?))
    }

    /** The last spread index the viewer may show: max(0, totalSpreads - 1). */
    function LastSpread(): int
      reads this
    {
      if TotalSpreads(totalPages) == 0 then 0 else TotalSpreads(totalPages) - 1
    }

    /** The range and single-flight invariant: the spread is one of the document's (the cover when
        it has none), and a running flip has a spread to land on. */
    ghost predicate Navigable()
      reads this
    {
      && 0 <= currentSpread <= LastSpread()
      && (flipping == Some(Right) ==> currentSpread < TotalSpreads(totalPages) - 1)
      && (flipping == Some(Left) ==> currentSpread > 0)
    }

    /** Mounting: the initial state, with load generation 0 started. */
    constructor ()
      ensures Valid() && Navigable()
      ensures currentSpread == 0 && totalPages == 0 && !hasDocument && loading && error.None?
      ensures flipping.None? && flipProgress == 0.0 && !isFullscreen
      ensures loadGen == 0 && mounted && settled == {}
    {
      currentSpread, totalPages, hasDocument, loading, error := 0, 0, false, true, None;
      flipping, flipProgress, isFullscreen := None, 0.0, false;
      loadGen, mounted, settled := 0, true, {};
    }

    /** The newsletter's PDF path changed: the previous load is cancelled and a new one starts from
        the cover with nothing loaded. A running flip is dropped with the document it belonged to. */
    method StartLoad()
      requires Valid() && mounted
      modifies this
      ensures Valid() && Navigable()
      ensures loadGen == old(loadGen) + 1 && loading && error.None? && !hasDocument
      ensures totalPages == 0 && currentSpread == 0
      ensures flipping.None? && flipProgress == 0.0
      ensures isFullscreen == old(isFullscreen) && mounted && settled == old(settled)
    {
      loadGen := loadGen + 1;
      loading, error, hasDocument, totalPages, currentSpread := true, None, false, 0, 0;
      flipping, flipProgress := None, 0.0;
    }

    /** The load effect as written: it resets the document state but leaves a running flip alone,
        so the flip still completes afterwards. The range invariant then survives only if no flip ran. */
    method StartLoadAsWritten()
      requires Valid() && mounted
      modifies this
      ensures Valid()
      ensures Navigable() <==> old(flipping).None?
      ensures loadGen == old(loadGen) + 1 && loading && error.None? && !hasDocument
      ensures totalPages == 0 && currentSpread == 0
      ensures flipping == old(flipping) && flipProgress == old(flipProgress)
      ensures isFullscreen == old(isFullscreen) && mounted && settled == old(settled)
    {
      loadGen := loadGen + 1;
      loading, error, hasDocument, totalPages, currentSpread := true, None, false, 0, 0;
      assert TotalSpreads(totalPages) == 0 && LastSpread() == 0;
      assert flipping.Some? ==> flipping.value.Left? || flipping.value.Right?;
    }

    /** The load of generation `gen` produced a document of `numPages` pages. Only the latest load of a
        mounted viewer is applied; a superseded or cancelled one changes nothing. */
    method LoadSucceeded(gen: nat, numPages: nat)
      requires Valid()
      requires gen <= loadGen && gen !in settled
      modifies this
      ensures Valid()
      ensures settled == old(settled) + {gen}
      ensures old(gen == loadGen && mounted) ==>
        hasDocument && totalPages == numPages && !loading && error == old(error)
      ensures !old(gen == loadGen && mounted) ==>
        hasDocument == old(hasDocument) && totalPages == old(totalPages) && loading == old(loading)
        && error == old(error)
      ensures currentSpread == old(currentSpread) && flipping == old(flipping)
      ensures flipProgress == old(flipProgress) && isFullscreen == old(isFullscreen)
      ensures loadGen == old(loadGen) && mounted == old(mounted)
      ensures old(Navigable()) ==> Navigable()
    {
      settled := settled + {gen};
      if gen == loadGen && mounted {
        hasDocument, totalPages, loading := true, numPages, false;
      }
    }

    /** The load of generation `gen` failed, with the error's message if it had one. The error is
        shown and loading ends, with no document; a superseded or cancelled load changes nothing. */
    method LoadFailed(gen: nat, message: Option<string>)
      requires Valid()
      requires gen <= loadGen && gen !in settled
      modifies this
      ensures Valid()
      ensures settled == old(settled) + {gen}
      ensures old(gen == loadGen && mounted) ==>
        error == Some(LoadErrorMessage(message)) && !loading && !hasDocument
      ensures !old(gen == loadGen && mounted) ==> error == old(error) && loading == old(loading)
      ensures hasDocument == old(hasDocument) && totalPages == old(totalPages)
      ensures currentSpread == old(currentSpread) && flipping == old(flipping)
      ensures flipProgress == old(flipProgress) && isFullscreen == old(isFullscreen)
      ensures loadGen == old(loadGen) && mounted == old(mounted)
      ensures old(Navigable()) ==> Navigable()
    {
      settled := settled + {gen};
      if gen == loadGen && mounted {
        error, loading := Some(LoadErrorMessage(message)), false;
      }
    }

    /** Unmounting: the current load is cancelled and no further event reaches the viewer. */
    method Unmount()
      requires Valid() && mounted
      modifies this
      ensures Valid() && !mounted
      ensures currentSpread == old(currentSpread) && totalPages == old(totalPages)
      ensures hasDocument == old(hasDocument) && loading == old(loading) && error == old(error)
      ensures flipping == old(flipping) && flipProgress == old(flipProgress)
      ensures isFullscreen == old(isFullscreen) && loadGen == old(loadGen) && settled == old(settled)
      ensures old(Navigable()) ==> Navigable()
    {
      mounted := false;
    }

    /** Turn to the next spread: unless blocked, start a flip to the right; nothing else changes. */
    method GoNext()
      requires Valid() && mounted
      modifies this
      ensures Valid()
      ensures flipping == if old(NextBlocked(currentSpread, totalPages, flipping)) then old(flipping) else Some(Right)
      ensures currentSpread == old(currentSpread) && totalPages == old(totalPages)
      ensures hasDocument == old(hasDocument) && loading == old(loading) && error == old(error)
      ensures flipProgress == old(flipProgress) && isFullscreen == old(isFullscreen)
      ensures loadGen == old(loadGen) && mounted && settled == old(settled)
      ensures old(Navigable()) ==> Navigable()
    {
      if NextBlocked(currentSpread, totalPages, flipping) {
        return;
      }
      flipping := Some(Right);
    }

    /** Turn to the previous spread: unless blocked, start a flip to the left; nothing else changes. */
    method GoPrev()
      requires Valid() && mounted
      modifies this
      ensures Valid()
      ensures flipping == if old(PrevBlocked(currentSpread, flipping)) then old(flipping) else Some(Left)
      ensures currentSpread == old(currentSpread) && totalPages == old(totalPages)
      ensures hasDocument == old(hasDocument) && loading == old(loading) && error == old(error)
      ensures flipProgress == old(flipProgress) && isFullscreen == old(isFullscreen)
      ensures loadGen == old(loadGen) && mounted && settled == old(settled)
      ensures old(Navigable()) ==> Navigable()
    {
      if PrevBlocked(currentSpread, flipping) {
        return;
      }
      flipping := Some(Left);
    }

    /** An intermediate animation frame: the flip's eased progress advances; nothing else changes. */
    method FlipFrame(progress: real)
      requires Valid() && mounted && flipping.Some?
      requires 0.0 <= progress <= 1.0
      modifies this
      ensures Valid()
      ensures flipProgress == progress
      ensures currentSpread == old(currentSpread) && totalPages == old(totalPages)
      ensures hasDocument == old(hasDocument) && loading == old(loading) && error == old(error)
      ensures flipping == old(flipping) && isFullscreen == old(isFullscreen)
      ensures loadGen == old(loadGen) && mounted && settled == old(settled)
      ensures old(Navigable()) ==> Navigable()
    {
      flipProgress := progress;
    }

    /** The last animation frame: progress returns to 0, the flip ends, and the spread moves one
        step in the flip's direction. */
    method CompleteFlip()
      requires Valid() && mounted && flipping.Some?
      modifies this
      ensures Valid()
      ensures flipping.None? && flipProgress == 0.0
      ensures currentSpread == old(currentSpread) + if old(flipping) == Some(Right) then 1 else -1
      ensures totalPages == old(totalPages)
      ensures hasDocument == old(hasDocument) && loading == old(loading) && error == old(error)
      ensures isFullscreen == old(isFullscreen)
      ensures loadGen == old(loadGen) && mounted && settled == old(settled)
      ensures old(Navigable()) ==> Navigable()
    {
      var direction := flipping.value;
      flipProgress := 0.0;
      flipping := None;
      currentSpread := if direction == Right then currentSpread + 1 else currentSpread - 1;
    }

    /** The fullscreen button: flips the fullscreen flag. */
    method ToggleFullscreen()
      requires Valid() && mounted
      modifies this
      ensures Valid()
      ensures isFullscreen == !old(isFullscreen)
      ensures currentSpread == old(currentSpread) && totalPages == old(totalPages)
      ensures hasDocument == old(hasDocument) && loading == old(loading) && error == old(error)
      ensures flipping == old(flipping) && flipProgress == old(flipProgress)
      ensures loadGen == old(loadGen) && mounted && settled == old(settled)
      ensures old(Navigable()) ==> Navigable()
    {
      isFullscreen := !isFullscreen;
    }

    /** A key press anywhere in the window: the arrows turn spreads as `goNext`/`goPrev` do, "f"
        toggles fullscreen, Escape leaves it, and every other key does nothing. */
    method KeyDown(key: string)
      requires Valid() && mounted
      modifies this
      ensures Valid()
      ensures key == "ArrowRight" ==>
        flipping == if old(NextBlocked(currentSpread, totalPages, flipping)) then old(flipping) else Some(Right)
      ensures key == "ArrowLeft" ==>
        flipping == if old(PrevBlocked(currentSpread, flipping)) then old(flipping) else Some(Left)
      ensures key != "ArrowRight" && key != "ArrowLeft" ==> flipping == old(flipping)
      ensures isFullscreen ==
        if key == "f" then !old(isFullscreen) else if key == "Escape" then false else old(isFullscreen)
      ensures currentSpread == old(currentSpread) && totalPages == old(totalPages)
      ensures hasDocument == old(hasDocument) && loading == old(loading) && error == old(error)
      ensures flipProgress == old(flipProgress)
      ensures loadGen == old(loadGen) && mounted && settled == old(settled)
      ensures old(Navigable()) ==> Navigable()
    {
      if key == "ArrowRight" {
        GoNext();
      }
      if key == "ArrowLeft" {
        GoPrev();
      }
      if key == "Escape" && isFullscreen {
        isFullscreen := false;
      }
      if key == "f" {
        isFullscreen := !isFullscreen;
      }
    }

    /** The browser's fullscreen changed: with no fullscreen element left, the flag is cleared. */
    method FullscreenChange(hasFullscreenElement: bool)
      requires Valid() && mounted
      modifies this
      ensures Valid()
      ensures isFullscreen == (old(isFullscreen) && hasFullscreenElement)
      ensures currentSpread == old(currentSpread) && totalPages == old(totalPages)
      ensures hasDocument == old(hasDocument) && loading == old(loading) && error == old(error)
      ensures flipping == old(flipping) && flipProgress == old(flipProgress)
      ensures loadGen == old(loadGen) && mounted && settled == old(settled)
      ensures old(Navigable()) ==> Navigable()
    {
      if !hasFullscreenElement {
        isFullscreen := false;
      }
    }

    /** The label under the current spread. */
    function Label(): (text: string)
      reads this
      ensures text == "Cover" <==> currentSpread == 0
    {
      PageLabel(currentSpread, totalPages)
    }
  }

  /** As written, a document change during a backward flip lands the viewer on spread -1: a 4-page
      document, forward to spread 1, start back, the PDF path changes, the flip completes, and the
      new 4-page document loads. */
  method ReloadDuringBackwardFlip()
    returns (spread: int, shownLabel: string, prevButtonEnabled: bool, prevDoesNothing: bool)
    ensures spread == -1
    ensures shownLabel == "Pages -2" + PageSeparator + "-1"
    ensures prevButtonEnabled && prevDoesNothing
  {
    var viewer := new BookletViewer();
    viewer.LoadSucceeded(0, 4);
    viewer.GoNext();
    viewer.CompleteFlip();
    viewer.GoPrev();
    viewer.StartLoadAsWritten();
    viewer.CompleteFlip();
    viewer.LoadSucceeded(1, 4);
    spread := viewer.currentSpread;
    shownLabel := viewer.Label();
    prevButtonEnabled := !PrevButtonDisabled(viewer.currentSpread, viewer.flipping);
    prevDoesNothing := PrevBlocked(viewer.currentSpread, viewer.flipping);
  }

  /** With the load resetting the flip too, the same events keep the viewer on the new document's cover. */
  method ReloadDuringBackwardFlipCorrected() returns (spread: int, turning: bool)
    ensures spread == 0 && !turning
  {
    var viewer := new BookletViewer();
    viewer.LoadSucceeded(0, 4);
    viewer.GoNext();
    viewer.CompleteFlip();
    viewer.GoPrev();
    viewer.StartLoad();
    spread := viewer.currentSpread;
    turning := viewer.flipping.Some?;
  }
}
