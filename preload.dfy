/**
 * `Core.preload(images, callback)`: loads the images one after the other and
 * calls `callback(metadata)` once the last one has loaded or failed.
 *
 * Loading, the clock and the random nonce are inputs: load number `i` is
 * described by `events[i]`, which gives the nonce `uncacheFile` draws, the
 * clock when the load starts, whether it fires `onload` or `onerror`, and the
 * clock when it does. A run with fewer events than loads is one still waiting
 * for its next image.
 */
module Preload {
  import opened Uncache

  /** One entry of `metadata`. */
  datatype Meta = Meta(src: string, success: bool, elapsed: int)

  /** What the environment supplies for one load. */
  datatype LoadEvent = LoadEvent(nonce: nat, startMs: int, success: bool, endMs: int)

  /** What the run does, in order: start a load, see it resolve, call the callback. */
  datatype Action =
    | Started(index: nat, src: string)
    | Resolved(index: nat, success: bool)
    | Completed(report: seq<Meta>)

  /** `images[i]`, which past the end is `undefined` and concatenates as "undefined". */
  function ImageAt(images: seq<string>, i: nat): string {
    if i < |images| then images[i] else "undefined"
  }

  predicate NoncesInRange(events: seq<LoadEvent>) {
    forall i :: 0 <= i < |events| ==> events[i].nonce <= MaxNonce
  }

  /** The entry load `i` records. */
  function Entry(images: seq<string>, events: seq<LoadEvent>, i: nat): Meta
    requires i < |events| && NoncesInRange(events)
  {
    var e := events[i];
    Meta(UncacheFile(ImageAt(images, i), e.nonce), e.success, e.endMs - e.startMs)
  }

  /** The callback runs once the image at the last index resolves; an empty list has no last index. */
  predicate Finishes(images: seq<string>, events: seq<LoadEvent>) {
    0 < |images| <= |events|
  }

  /** How many loads resolve with these events. */
  function Loads(images: seq<string>, events: seq<LoadEvent>): (n: nat)
    ensures n <= |events|
    ensures Finishes(images, events) ==> n == |images|
    ensures !Finishes(images, events) ==> n == |events|
  {
    if Finishes(images, events) then |images| else |events|
  }

  /** A non-empty list never records more loads than images, and records them all exactly when the run finishes. */
  lemma LoadsBound(images: seq<string>, events: seq<LoadEvent>)
    requires 0 < |images|
    ensures Loads(images, events) <= |images|
    ensures Loads(images, events) == |images| <==> Finishes(images, events)
  {
  }

  /** Start and resolution of each recorded load, in order. */
  function LoadTrace(ms: seq<Meta>): seq<Action> {
    if ms == [] then []
    else
      var n := |ms| - 1;
      LoadTrace(ms[..n]) + [Started(n, ms[n].src), Resolved(n, ms[n].success)]
  }

  /** How many times a trace calls the callback. */
  function Completions(trace: seq<Action>): nat {
    if trace == [] then 0
    else (if trace[0].Completed? then 1 else 0) + Completions(trace[1..])
  }

  lemma {:induction false} CompletionsConcat(a: seq<Action>, b: seq<Action>)
    ensures Completions(a + b) == Completions(a) + Completions(b)
  {
    if a == [] {
      assert a + b == b;
    } else {
      assert (a + b)[1..] == a[1..] + b;
      CompletionsConcat(a[1..], b);
    }
  }

  /**
   * Load `i` starts at step `2 * i` and resolves at step `2 * i + 1`, so load
   * `i + 1` starts only after load `i` has resolved, and the callback never
   * runs in between.
   */
  lemma {:induction false} LoadTraceShape(ms: seq<Meta>)
    ensures |LoadTrace(ms)| == 2 * |ms|
    ensures forall i :: 0 <= i < |ms| ==>
      LoadTrace(ms)[2 * i] == Started(i, ms[i].src) && LoadTrace(ms)[2 * i + 1] == Resolved(i, ms[i].success)
    ensures Completions(LoadTrace(ms)) == 0
  {
    if ms != [] {
      var n := |ms| - 1;
      LoadTraceShape(ms[..n]);
      var tail := [Started(n, ms[n].src), Resolved(n, ms[n].success)];
      CompletionsConcat(LoadTrace(ms[..n]), tail);
      assert Completions(tail) == 0 by {
        var t1 := [Resolved(n, ms[n].success)];
        assert t1[1..] == [];
        assert Completions(t1) == 0;
        assert tail[1..] == t1;
      }
    }
  }

  /** Recording one more load adds its start and its resolution to the trace. */
  lemma LoadTraceSnoc(ms: seq<Meta>, m: Meta)
    ensures LoadTrace(ms + [m]) == LoadTrace(ms) + [Started(|ms|, m.src), Resolved(|ms|, m.success)]
  {
    assert (ms + [m])[..|ms|] == ms;
  }

  /** A run's trace calls the callback once if it finished and never otherwise. */
  lemma CallbackOnce(ms: seq<Meta>, finished: bool)
    ensures Completions(LoadTrace(ms) + if finished then [Completed(ms)] else []) == if finished then 1 else 0
  {
    LoadTraceShape(ms);
    CompletionsConcat(LoadTrace(ms), if finished then [Completed(ms)] else []);
    assert Completions([Completed(ms)]) == 1 by {
      assert [Completed(ms)][1..] == [];
    }
  }

  /**
   * The run: each step is one `loadNext` (build the source, note whether it is
   * the last image, advance `index`, read the clock) followed by the `proceed`
   * its image fires (fill `metadata[index - 1]`, then load the next image or
   * call the callback).
   */
  method Preload(images: seq<string>, events: seq<LoadEvent>) returns (metadata: seq<Meta>, trace: seq<Action>)
    requires NoncesInRange(events)
    ensures |metadata| == Loads(images, events)
    ensures forall i :: 0 <= i < |metadata| ==> metadata[i] == Entry(images, events, i)
    ensures trace == LoadTrace(metadata) + if Finishes(images, events) then [Completed(metadata)] else []
    ensures Completions(trace) == if Finishes(images, events) then 1 else 0
  {
    var index := 0;
    metadata := [];
    trace := [];
    while index < |events|
      invariant index <= |events|
      invariant |metadata| == index
      invariant forall i :: 0 <= i < index ==> metadata[i] == Entry(images, events, i)
      invariant index < |images| || |images| == 0
      invariant trace == LoadTrace(metadata)
    {
      // loadNext
      var e := events[index];
      var src := UncacheFile(ImageAt(images, index), e.nonce);
      var isLastImage := index + 1 == |images|;
      index := index + 1;
      var startTime := e.startMs;
      ghost var loadsBefore := trace;
      trace := trace + [Started(index - 1, src)];
      // proceed(success), when the image fires onload or onerror
      var entry := Meta(src, e.success, e.endMs - startTime);
      ghost var prev := metadata;
      assert entry == Entry(images, events, index - 1);
      metadata := metadata + [entry];
      forall i | 0 <= i < index
        ensures metadata[i] == Entry(images, events, i)
      {
        if i < index - 1 {
          assert metadata[i] == prev[i];
        }
      }
      trace := trace + [Resolved(index - 1, e.success)];
      LoadTraceSnoc(prev, entry);
      assert trace == loadsBefore + [Started(index - 1, src), Resolved(index - 1, e.success)];
      if isLastImage {
        trace := trace + [Completed(metadata)];
        CallbackOnce(metadata, true);
        return;
      }
    }
    CallbackOnce(metadata, false);
  }

  /** Every load resolves to exactly one entry, in input order, and a failed load is only a `false` entry. */
  lemma PreloadReport(images: seq<string>, events: seq<LoadEvent>, i: nat)
    requires NoncesInRange(events)
    requires Finishes(images, events) && i < |images|
    ensures Loads(images, events) == |images|
    ensures Entry(images, events, i).src == UncacheFile(images[i], events[i].nonce)
    ensures Entry(images, events, i).success == events[i].success
  {
  }

  /** With a clock that does not run backwards, no load takes negative time. */
  lemma ElapsedNonNegative(images: seq<string>, events: seq<LoadEvent>, i: nat)
    requires NoncesInRange(events) && i < |events|
    requires events[i].startMs <= events[i].endMs
    ensures Entry(images, events, i).elapsed >= 0
  {
  }

  /**
   * An empty list never finishes: `index + 1 === images.length` is never true,
   * so every event is spent on a load of "undefined?_=..." and the callback
   * never runs.
   */
  lemma EmptyNeverFinishes(events: seq<LoadEvent>)
    requires NoncesInRange(events)
    ensures !Finishes([], events) && Loads([], events) == |events|
    ensures forall i :: 0 <= i < |events| ==>
      Entry([], events, i).src == UncacheFile("undefined", events[i].nonce)
  {
  }
}
