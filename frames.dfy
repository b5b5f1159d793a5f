/**
 * The frame-slot bookkeeping of the render loop: MAX_FRAMES_IN_FLIGHT slots,
 * each with an image-ready semaphore, a render-finished semaphore and an
 * in-flight fence, and a table that records, for each swapchain image, the
 * fence of the last frame that rendered to it.
 *
 * Fences are abstract ids with a signaled flag. The GPU finishing a
 * submission is an explicit step (GpuComplete); a blocking fence wait is
 * that step taken when the fence is not yet signaled. The ghost field
 * `pending` says which image each slot's unfinished submission renders to.
 */
module FrameSync {
  import opened Wrappers
  import opened Vk

  type FenceId = nat
  type SemaphoreId = nat

  /** One vkQueueSubmit: the command buffer of the image, the semaphore it waits on and the ones it signals. */
  datatype Submission = Submission(commandBuffer: nat, waitSemaphore: SemaphoreId, signalSemaphore: SemaphoreId, fence: FenceId)

  /** One vkQueuePresentKHR: the image shown and the semaphore the presentation waits on. */
  datatype Presentation = Presentation(imageIndex: nat, waitSemaphore: SemaphoreId)

  /** What one iteration of the render loop receives from outside: the polled event, the acquired image, and whether the submit succeeded. */
  datatype FrameInput = FrameInput(quit: bool, imageIndex: nat, submitAccepted: bool)

  /** How the render loop ends. EventsExhausted only exists because the model's input is finite. */
  datatype LoopExit = Quit | SubmitFailed | EventsExhausted

  predicate Distinct(xs: seq<nat>)
  {
    forall i, j :: 0 <= i < j < |xs| ==> xs[i] != xs[j]
  }

  /** The slot after `frame`, wrapping to slot 0 after the last one. */
  function NextFrame(frame: nat): (next: nat)
    requires frame < MAX_FRAMES_IN_FLIGHT
    ensures next < MAX_FRAMES_IN_FLIGHT
    ensures frame + 1 < MAX_FRAMES_IN_FLIGHT ==> next == frame + 1
    ensures frame + 1 == MAX_FRAMES_IN_FLIGHT ==> next == 0
  {
    (frame + 1) % MAX_FRAMES_IN_FLIGHT
  }

  /** With two slots, consecutive frames alternate between them. */
  lemma FramesAlternate(frame: nat)
    requires frame < MAX_FRAMES_IN_FLIGHT
    ensures NextFrame(frame) != frame
    ensures NextFrame(NextFrame(frame)) == frame
  {
  }

  /** The slot whose fence is `f`. */
  function SlotOf(fences: seq<FenceId>, f: FenceId): (s: nat)
    requires f in fences
    ensures s < |fences| && fences[s] == f
    ensures forall k :: 0 <= k < s ==> fences[k] != f
  {
    if fences[0] == f then 0 else SlotOf(fences[1..], f) + 1
  }

  /**
   * What a run of the render loop over `events` amounts to: how many frames
   * are submitted and presented, and why the loop ends. A quit event stops
   * the loop only after the frame of the same iteration; a rejected submit
   * throws out of the loop before that frame is presented.
   */
  function LoopOutcome(events: seq<FrameInput>): (r: (nat, LoopExit))
    ensures r.0 <= |events|
  {
    if |events| == 0 then (0, EventsExhausted)
    else if !events[0].submitAccepted then (0, SubmitFailed)
    else if events[0].quit then (1, Quit)
    else
      var rest := LoopOutcome(events[1..]);
      (rest.0 + 1, rest.1)
  }

  /**
   * The frames a run draws all had their submit accepted and none but the
   * last polled quit; the run ends on quit exactly after a quitting frame,
   * on a failed submit exactly at the first rejected one, and by running
   * out of input otherwise.
   */
  lemma {:induction false} LoopOutcomeMeaning(events: seq<FrameInput>)
    ensures var r := LoopOutcome(events);
      && (forall k :: 0 <= k < r.0 ==> events[k].submitAccepted)
      && (forall k :: 0 <= k < r.0 - 1 ==> !events[k].quit)
      && (r.1 == Quit <==> r.0 > 0 && events[r.0 - 1].quit)
      && (r.1 == SubmitFailed <==> r.0 < |events| && !events[r.0].submitAccepted && (r.0 == 0 || !events[r.0 - 1].quit))
      && (r.1 == EventsExhausted <==> r.0 == |events| && (r.0 == 0 || !events[r.0 - 1].quit))
  {
    if |events| > 0 && events[0].submitAccepted && !events[0].quit {
      LoopOutcomeMeaning(events[1..]);
      assert forall k :: 1 <= k < |events| ==> events[1..][k - 1] == events[k];
    }
  }

  /** After i ordinary frames, the outcome is i more than that of the remaining events. */
  lemma {:induction false} LoopOutcomeAfter(events: seq<FrameInput>, i: nat)
    requires i <= |events|
    requires forall k :: 0 <= k < i ==> events[k].submitAccepted && !events[k].quit
    ensures LoopOutcome(events) == (LoopOutcome(events[i..]).0 + i, LoopOutcome(events[i..]).1)
  {
    if i > 0 {
      assert events[1..][i - 1..] == events[i..];
      LoopOutcomeAfter(events[1..], i - 1);
    }
  }

  /**
   * After i ordinary frames, iteration i decides: a rejected submit ends the
   * run with i frames, an accepted one with the quit event with i + 1.
   */
  lemma LoopOutcomeAt(events: seq<FrameInput>, i: nat)
    requires i < |events|
    requires forall k :: 0 <= k < i ==> events[k].submitAccepted && !events[k].quit
    ensures !events[i].submitAccepted ==> LoopOutcome(events) == (i, SubmitFailed)
    ensures events[i].submitAccepted && events[i].quit ==> LoopOutcome(events) == (i + 1, Quit)
  {
    LoopOutcomeAfter(events, i);
    assert events[i..][0] == events[i];
  }

  /** When no iteration quits or fails, every event is drawn. */
  lemma LoopOutcomeExhausted(events: seq<FrameInput>)
    requires forall k :: 0 <= k < |events| ==> events[k].submitAccepted && !events[k].quit
    ensures LoopOutcome(events) == (|events|, EventsExhausted)
  {
    LoopOutcomeAfter(events, |events|);
  }

  /** Advancing a slot that is a count modulo the slot count advances the count. */
  lemma NextFrameCounts(frame: nat, count: nat)
    requires frame == count % MAX_FRAMES_IN_FLIGHT
    ensures NextFrame(frame) == (count + 1) % MAX_FRAMES_IN_FLIGHT
  {
  }

  /** The slot of the k-th iteration of a run that starts at slot frame0. */
  function SlotAt(frame0: nat, k: nat): (s: nat)
    ensures s < MAX_FRAMES_IN_FLIGHT
  {
    (frame0 + k) % MAX_FRAMES_IN_FLIGHT
  }

  /** The submissions of the first n iterations: iteration k submits its image's command buffer with slot SlotAt(frame0, k)'s objects. */
  function LoopSubmissions(events: seq<FrameInput>, n: nat, frame0: nat,
                           imageReady: seq<SemaphoreId>, renderFinished: seq<SemaphoreId>, fences: seq<FenceId>): (r: seq<Submission>)
    requires n <= |events|
    requires |imageReady| == MAX_FRAMES_IN_FLIGHT && |renderFinished| == MAX_FRAMES_IN_FLIGHT && |fences| == MAX_FRAMES_IN_FLIGHT
    ensures |r| == n
    ensures forall k :: 0 <= k < n ==>
      r[k] == Submission(events[k].imageIndex, imageReady[SlotAt(frame0, k)], renderFinished[SlotAt(frame0, k)], fences[SlotAt(frame0, k)])
  {
    if n == 0 then []
    else
      var k := n - 1;
      LoopSubmissions(events, k, frame0, imageReady, renderFinished, fences)
        + [Submission(events[k].imageIndex, imageReady[SlotAt(frame0, k)], renderFinished[SlotAt(frame0, k)], fences[SlotAt(frame0, k)])]
  }

  /** The presentations of the first n iterations: iteration k presents its image after slot SlotAt(frame0, k)'s render-finished semaphore. */
  function LoopPresentations(events: seq<FrameInput>, n: nat, frame0: nat, renderFinished: seq<SemaphoreId>): (r: seq<Presentation>)
    requires n <= |events| && |renderFinished| == MAX_FRAMES_IN_FLIGHT
    ensures |r| == n
    ensures forall k :: 0 <= k < n ==> r[k] == Presentation(events[k].imageIndex, renderFinished[SlotAt(frame0, k)])
  {
    if n == 0 then []
    else
      var k := n - 1;
      LoopPresentations(events, k, frame0, renderFinished) + [Presentation(events[k].imageIndex, renderFinished[SlotAt(frame0, k)])]
  }

  /** Every one of the first n iterations acquired an image of a table of `size` entries. */
  predicate ImagesInRange(events: seq<FrameInput>, n: nat, size: nat)
    requires n <= |events|
  {
    forall k :: 0 <= k < n ==> events[k].imageIndex < size
  }

  /** The imagesInFlight table after the first n iterations have each claimed their image for their slot's fence. */
  function TableAfter(table: seq<Option<FenceId>>, events: seq<FrameInput>, n: nat, frame0: nat, fences: seq<FenceId>): (r: seq<Option<FenceId>>)
    requires n <= |events| && ImagesInRange(events, n, |table|) && |fences| == MAX_FRAMES_IN_FLIGHT
    ensures |r| == |table|
  {
    if n == 0 then table
    else TableAfter(table, events, n - 1, frame0, fences)[events[n - 1].imageIndex := Some(fences[SlotAt(frame0, n - 1)])]
  }

  /** The last of the first n iterations that acquired image `image`. */
  function LastClaim(events: seq<FrameInput>, n: nat, image: nat): (r: Option<nat>)
    requires n <= |events|
    ensures r.Some? ==> (r.value < n && events[r.value].imageIndex == image
      && forall j :: r.value < j < n ==> events[j].imageIndex != image)
    ensures r.None? ==> forall j :: 0 <= j < n ==> events[j].imageIndex != image
  {
    if n == 0 then None
    else if events[n - 1].imageIndex == image then Some(n - 1)
    else LastClaim(events, n - 1, image)
  }

  /**
   * After n iterations, an image's entry holds the fence of the slot of the
   * last iteration that acquired it, and is unchanged if none did.
   */
  lemma {:induction false} TableAfterHoldsLastClaim(table: seq<Option<FenceId>>, events: seq<FrameInput>, n: nat,
                                                     frame0: nat, fences: seq<FenceId>, image: nat)
    requires n <= |events| && ImagesInRange(events, n, |table|) && |fences| == MAX_FRAMES_IN_FLIGHT
    requires image < |table|
    ensures TableAfter(table, events, n, frame0, fences)[image] ==
      match LastClaim(events, n, image)
      case None => table[image]
      case Some(k) => Some(fences[SlotAt(frame0, k)])
  {
    if n > 0 && events[n - 1].imageIndex != image {
      TableAfterHoldsLastClaim(table, events, n - 1, frame0, fences, image);
    }
  }

  /** The iteration that polls the quit event is still drawn and presented, and it is the last one. */
  lemma QuitFrameStillDrawn(events: seq<FrameInput>)
    requires |events| > 0 && events[0].quit && events[0].submitAccepted
    ensures LoopOutcome(events) == (1, Quit)
  {
  }

  class FrameSynchronizer {
    const inFlightFences: seq<FenceId>
    const imageReadySemaphores: seq<SemaphoreId>
    const renderFinishedSemaphores: seq<SemaphoreId>
    /** vkImagesInFlight: per swapchain image, the fence of the last frame that rendered to it. */
    const imagesInFlight: array<Option<FenceId>>
    var currentFrame: nat
    /** Per slot, whether its in-flight fence is signaled. */
    var fenceSignaled: seq<bool>
    /** Per slot, the image its unfinished submission renders to. */
    ghost var pending: seq<Option<nat>>
    ghost var submitted: seq<Submission>
    ghost var presented: seq<Presentation>

    /** The bookkeeping invariant that holds at every step of an iteration. */
    ghost predicate Inv()
      reads this, imagesInFlight
    {
      && |inFlightFences| == MAX_FRAMES_IN_FLIGHT
      && |imageReadySemaphores| == MAX_FRAMES_IN_FLIGHT
      && |renderFinishedSemaphores| == MAX_FRAMES_IN_FLIGHT
      && Distinct(inFlightFences)
      && currentFrame < MAX_FRAMES_IN_FLIGHT
      && |fenceSignaled| == MAX_FRAMES_IN_FLIGHT
      && |pending| == MAX_FRAMES_IN_FLIGHT
      // every recorded fence is one of the slot fences
      && (forall i :: 0 <= i < imagesInFlight.Length && imagesInFlight[i].Some? ==> imagesInFlight[i].value in inFlightFences)
      // an unfinished submission keeps its fence unsignaled and its image recorded under that fence
      && (forall s :: 0 <= s < MAX_FRAMES_IN_FLIGHT && pending[s].Some? ==>
            && !fenceSignaled[s]
            && pending[s].value < imagesInFlight.Length
            && imagesInFlight[pending[s].value] == Some(inFlightFences[s]))
    }

    /** Every unsignaled fence other than slot `except`'s has a submission that will signal it. */
    ghost predicate LiveExcept(except: int)
      reads this
    {
      forall s :: 0 <= s < |fenceSignaled| && s < |pending| && s != except && !fenceSignaled[s] ==> pending[s].Some?
    }

    /** The state between iterations: the invariant, and no fence that a wait could block on forever. */
    ghost predicate Valid()
      reads this, imagesInFlight
    {
      Inv() && LiveExcept(-1)
    }

    /** Two unfinished submissions never render to the same image. */
    lemma OneFrameInFlightPerImage(s: nat, t: nat)
      requires Inv() && s < MAX_FRAMES_IN_FLIGHT && t < MAX_FRAMES_IN_FLIGHT
      requires pending[s].Some? && pending[t].Some? && pending[s].value == pending[t].value
      ensures s == t
    {
    }

    /**
     * CreateVulkanSyncObjects: MAX_FRAMES_IN_FLIGHT semaphores of each kind
     * and fences created signaled; one table entry per swapchain image, all
     * empty. The render loop starts at slot 0.
     */
    constructor(imageCount: nat, fences: seq<FenceId>, imageReady: seq<SemaphoreId>, renderFinished: seq<SemaphoreId>)
      requires |fences| == MAX_FRAMES_IN_FLIGHT && Distinct(fences)
      requires |imageReady| == MAX_FRAMES_IN_FLIGHT && |renderFinished| == MAX_FRAMES_IN_FLIGHT
      ensures Valid() && fresh(imagesInFlight)
      ensures imagesInFlight.Length == imageCount
      ensures forall i :: 0 <= i < imageCount ==> imagesInFlight[i].None?
      ensures inFlightFences == fences && imageReadySemaphores == imageReady && renderFinishedSemaphores == renderFinished
      ensures currentFrame == 0
      ensures forall s :: 0 <= s < MAX_FRAMES_IN_FLIGHT ==> fenceSignaled[s] && pending[s].None?
      ensures submitted == [] && presented == []
    {
      inFlightFences := fences;
      imageReadySemaphores := imageReady;
      renderFinishedSemaphores := renderFinished;
      imagesInFlight := new Option<FenceId>[imageCount](_ => None);
      currentFrame := 0;
      fenceSignaled := seq(MAX_FRAMES_IN_FLIGHT, _ => true);
      pending := seq(MAX_FRAMES_IN_FLIGHT, _ => None);
      submitted := [];
      presented := [];
    }

    /** The GPU finishes slot s's submission and signals its fence. */
    method GpuComplete(s: nat)
      requires Valid() && s < MAX_FRAMES_IN_FLIGHT && pending[s].Some?
      modifies this
      ensures Valid()
      ensures fenceSignaled == old(fenceSignaled)[s := true] && pending == old(pending)[s := None]
      ensures currentFrame == old(currentFrame) && submitted == old(submitted) && presented == old(presented)
    {
      fenceSignaled := fenceSignaled[s := true];
      pending := pending[s := None];
    }

    /** vkWaitForFences on slot s's fence: returns once it is signaled. */
    method WaitForFence(s: nat)
      requires Valid() && s < MAX_FRAMES_IN_FLIGHT
      modifies this
      ensures Valid()
      ensures fenceSignaled == old(fenceSignaled)[s := true] && pending == old(pending)[s := None]
      ensures currentFrame == old(currentFrame) && submitted == old(submitted) && presented == old(presented)
    {
      if !fenceSignaled[s] {
        GpuComplete(s);
      }
    }

    /** If an earlier frame rendered to the image, wait for that frame's fence: afterwards no unfinished submission renders to it. */
    method WaitForImage(imageIndex: nat)
      requires Valid() && imageIndex < imagesInFlight.Length
      modifies this
      ensures Valid()
      ensures forall s :: 0 <= s < MAX_FRAMES_IN_FLIGHT ==> pending[s] != Some(imageIndex)
      ensures imagesInFlight[imageIndex].None? ==> fenceSignaled == old(fenceSignaled) && pending == old(pending)
      ensures imagesInFlight[imageIndex].Some? ==>
        var s := SlotOf(inFlightFences, imagesInFlight[imageIndex].value);
        fenceSignaled == old(fenceSignaled)[s := true] && pending == old(pending)[s := None]
      ensures currentFrame == old(currentFrame) && submitted == old(submitted) && presented == old(presented)
    {
      var owner := imagesInFlight[imageIndex];
      if owner.Some? {
        var s := SlotOf(inFlightFences, owner.value);
        WaitForFence(s);
      }
    }

    /** Record the current slot's fence as the one rendering to the image. */
    method Claim(imageIndex: nat)
      requires Valid() && imageIndex < imagesInFlight.Length
      requires forall s :: 0 <= s < MAX_FRAMES_IN_FLIGHT ==> pending[s] != Some(imageIndex)
      modifies imagesInFlight
      ensures Valid()
      ensures imagesInFlight[..] == old(imagesInFlight[..])[imageIndex := Some(inFlightFences[currentFrame])]
    {
      imagesInFlight[imageIndex] := Some(inFlightFences[currentFrame]);
    }

    /** vkResetFences on the current slot's fence, which no submission is using. */
    method Reset()
      requires Valid() && fenceSignaled[currentFrame]
      modifies this
      ensures Inv() && LiveExcept(currentFrame)
      ensures fenceSignaled == old(fenceSignaled)[currentFrame := false]
      ensures currentFrame == old(currentFrame) && pending == old(pending)
      ensures submitted == old(submitted) && presented == old(presented)
    {
      fenceSignaled := fenceSignaled[currentFrame := false];
    }

    /**
     * vkQueueSubmit of the image's command buffer, waiting on the slot's
     * image-ready semaphore, signalling its render-finished semaphore and
     * its fence. `accepted` is the driver's answer; a rejected submit
     * changes nothing.
     */
    method Submit(imageIndex: nat, accepted: bool)
      requires Inv() && LiveExcept(currentFrame) && imageIndex < imagesInFlight.Length
      requires !fenceSignaled[currentFrame] && pending[currentFrame].None?
      requires imagesInFlight[imageIndex] == Some(inFlightFences[currentFrame])
      modifies this
      ensures accepted ==> Valid()
      ensures !accepted ==> Inv() && LiveExcept(currentFrame)
      ensures pending == if accepted then old(pending)[currentFrame := Some(imageIndex)] else old(pending)
      ensures submitted == old(submitted) + if accepted then
          [Submission(imageIndex, imageReadySemaphores[currentFrame], renderFinishedSemaphores[currentFrame], inFlightFences[currentFrame])]
        else []
      ensures currentFrame == old(currentFrame) && fenceSignaled == old(fenceSignaled) && presented == old(presented)
    {
      if accepted {
        pending := pending[currentFrame := Some(imageIndex)];
        submitted := submitted + [Submission(imageIndex, imageReadySemaphores[currentFrame], renderFinishedSemaphores[currentFrame], inFlightFences[currentFrame])];
      }
    }

    /** vkQueuePresentKHR of the image, waiting on the slot's render-finished semaphore. */
    method Present(imageIndex: nat)
      requires Valid()
      modifies this
      ensures Valid()
      ensures presented == old(presented) + [Presentation(imageIndex, renderFinishedSemaphores[currentFrame])]
      ensures currentFrame == old(currentFrame) && fenceSignaled == old(fenceSignaled)
      ensures pending == old(pending) && submitted == old(submitted)
    {
      presented := presented + [Presentation(imageIndex, renderFinishedSemaphores[currentFrame])];
    }

    /** Move on to the next slot. */
    method Advance()
      requires Valid()
      modifies this
      ensures Valid()
      ensures currentFrame == NextFrame(old(currentFrame))
      ensures fenceSignaled == old(fenceSignaled) && pending == old(pending)
      ensures submitted == old(submitted) && presented == old(presented)
    {
      currentFrame := (currentFrame + 1) % MAX_FRAMES_IN_FLIGHT;
    }

    /**
     * The drawing part of one loop iteration for the acquired image: wait on
     * the slot's fence, wait on the image's previous fence, claim the image,
     * reset the fence, submit, present and advance. Only the acquired
     * image's table entry changes. On a rejected submit the iteration stops
     * before presenting.
     */
    method DrawFrame(imageIndex: nat, accepted: bool)
      requires Valid() && imageIndex < imagesInFlight.Length
      modifies this, imagesInFlight
      ensures imagesInFlight[..] == old(imagesInFlight[..])[imageIndex := Some(inFlightFences[old(currentFrame)])]
      ensures accepted ==> Valid()
      ensures !accepted ==> Inv() && LiveExcept(currentFrame)
      ensures pending[old(currentFrame)] == (if accepted then Some(imageIndex) else None)
      ensures !fenceSignaled[old(currentFrame)]
      // the other slot is waited on exactly when its fence was recorded for the image, and is otherwise untouched
      ensures forall s :: 0 <= s < MAX_FRAMES_IN_FLIGHT && s != old(currentFrame) ==>
        if old(imagesInFlight[imageIndex]) == Some(inFlightFences[s]) then pending[s].None? && fenceSignaled[s]
        else pending[s] == old(pending)[s] && fenceSignaled[s] == old(fenceSignaled)[s]
      ensures forall s :: 0 <= s < MAX_FRAMES_IN_FLIGHT && s != old(currentFrame) ==> pending[s] != Some(imageIndex)
      ensures submitted == old(submitted) + if accepted then
          [Submission(imageIndex, imageReadySemaphores[old(currentFrame)], renderFinishedSemaphores[old(currentFrame)], inFlightFences[old(currentFrame)])]
        else []
      ensures presented == old(presented) + if accepted then
          [Presentation(imageIndex, renderFinishedSemaphores[old(currentFrame)])]
        else []
      ensures currentFrame == if accepted then NextFrame(old(currentFrame)) else old(currentFrame)
    {
      WaitForFence(currentFrame);
      WaitForImage(imageIndex);
      Claim(imageIndex);
      Reset();
      Submit(imageIndex, accepted);
      if !accepted {
        return;
      }
      Present(imageIndex);
      Advance();
    }

    /**
     * The render loop over a finite run of inputs. The quit event only
     * clears the running flag (the `break` leaves the switch, not the loop),
     * so the frame of that iteration is still drawn; a rejected submit
     * throws out of the loop.
     */
    method RunLoop(events: seq<FrameInput>) returns (drawn: nat, exit: LoopExit)
      requires Valid()
      requires ImagesInRange(events, |events|, imagesInFlight.Length)
      modifies this, imagesInFlight
      ensures (drawn, exit) == LoopOutcome(events)
      ensures submitted == old(submitted)
        + LoopSubmissions(events, drawn, old(currentFrame), imageReadySemaphores, renderFinishedSemaphores, inFlightFences)
      ensures presented == old(presented) + LoopPresentations(events, drawn, old(currentFrame), renderFinishedSemaphores)
      // a rejected iteration has already claimed its image when its submit fails
      ensures var claimed := if exit == SubmitFailed then drawn + 1 else drawn;
        claimed <= |events| && imagesInFlight[..] == TableAfter(old(imagesInFlight[..]), events, claimed, old(currentFrame), inFlightFences)
      ensures currentFrame == SlotAt(old(currentFrame), drawn)
      ensures exit != SubmitFailed ==> Valid()
      ensures exit == SubmitFailed ==> Inv()
    {
      var running := true;
      var i := 0;
      while running && i < |events|
        invariant 0 <= i <= |events|
        invariant Valid()
        invariant running ==> forall k :: 0 <= k < i ==> events[k].submitAccepted && !events[k].quit
        invariant !running ==> i > 0 && LoopOutcome(events) == (i, Quit)
        invariant submitted == old(submitted)
          + LoopSubmissions(events, i, old(currentFrame), imageReadySemaphores, renderFinishedSemaphores, inFlightFences)
        invariant presented == old(presented) + LoopPresentations(events, i, old(currentFrame), renderFinishedSemaphores)
        invariant imagesInFlight[..] == TableAfter(old(imagesInFlight[..]), events, i, old(currentFrame), inFlightFences)
        invariant currentFrame == SlotAt(old(currentFrame), i)
        decreases |events| - i, running
      {
        var e := events[i];
        if e.quit {
          running := false;
        }
        LoopOutcomeAt(events, i);
        DrawLoopFrame(events, i, old(currentFrame), old(submitted), old(presented), old(imagesInFlight[..]));
        if !e.submitAccepted {
          return i, SubmitFailed;
        }
        i := i + 1;
      }
      if running {
        LoopOutcomeExhausted(events);
        return i, EventsExhausted;
      }
      return i, Quit;
    }

    /**
     * Iteration i of a run that started at slot frame0 with the records
     * submitted0 and presented0 and the table table0: DrawFrame for the
     * iteration's input, which moves the run's records and table from i
     * iterations to i + 1 (the table also when the submit is rejected).
     */
    method DrawLoopFrame(events: seq<FrameInput>, i: nat, ghost frame0: nat, ghost submitted0: seq<Submission>,
                         ghost presented0: seq<Presentation>, ghost table0: seq<Option<FenceId>>)
      requires Valid() && i < |events| && ImagesInRange(events, |events|, imagesInFlight.Length)
      requires |table0| == imagesInFlight.Length
      requires submitted == submitted0 + LoopSubmissions(events, i, frame0, imageReadySemaphores, renderFinishedSemaphores, inFlightFences)
      requires presented == presented0 + LoopPresentations(events, i, frame0, renderFinishedSemaphores)
      requires imagesInFlight[..] == TableAfter(table0, events, i, frame0, inFlightFences)
      requires currentFrame == SlotAt(frame0, i)
      modifies this, imagesInFlight
      ensures imagesInFlight[..] == TableAfter(table0, events, i + 1, frame0, inFlightFences)
      ensures events[i].submitAccepted ==>
        && Valid()
        && submitted == submitted0 + LoopSubmissions(events, i + 1, frame0, imageReadySemaphores, renderFinishedSemaphores, inFlightFences)
        && presented == presented0 + LoopPresentations(events, i + 1, frame0, renderFinishedSemaphores)
        && currentFrame == SlotAt(frame0, i + 1)
      ensures !events[i].submitAccepted ==>
        && Inv()
        && submitted == submitted0 + LoopSubmissions(events, i, frame0, imageReadySemaphores, renderFinishedSemaphores, inFlightFences)
        && presented == presented0 + LoopPresentations(events, i, frame0, renderFinishedSemaphores)
        && currentFrame == SlotAt(frame0, i)
    {
      ghost var frame := currentFrame;
      DrawFrame(events[i].imageIndex, events[i].submitAccepted);
      if events[i].submitAccepted {
        NextFrameCounts(frame, frame0 + i);
        LoopRecordsStep(submitted0, presented0, events, i, frame0);
      }
    }

    /** One more drawn frame extends the records of the run by that frame's submission and presentation. */
    lemma LoopRecordsStep(submitted0: seq<Submission>, presented0: seq<Presentation>, events: seq<FrameInput>, i: nat, frame0: nat)
      requires Inv() && i < |events|
      ensures var c := SlotAt(frame0, i);
        && submitted0 + LoopSubmissions(events, i, frame0, imageReadySemaphores, renderFinishedSemaphores, inFlightFences)
             + [Submission(events[i].imageIndex, imageReadySemaphores[c], renderFinishedSemaphores[c], inFlightFences[c])]
           == submitted0 + LoopSubmissions(events, i + 1, frame0, imageReadySemaphores, renderFinishedSemaphores, inFlightFences)
        && presented0 + LoopPresentations(events, i, frame0, renderFinishedSemaphores)
             + [Presentation(events[i].imageIndex, renderFinishedSemaphores[c])]
           == presented0 + LoopPresentations(events, i + 1, frame0, renderFinishedSemaphores)
    {
    }
  }
}
