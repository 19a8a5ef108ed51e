/** The poster image that swaps to a fixed placeholder once it fails to load
    (src/ImageWithFallback.jsx). Its only state is the source it displays. */
module FallbackImage {

  const FallbackSrc := "https://via.placeholder.com/300x450?text=Updating+movie+poster"

  datatype ImageState = ImageState(imgSrc: string)

  /** On mount the image shows the `src` it was given. */
  function Mount(src: string): (s: ImageState)
    ensures s.imgSrc == src
  {
    ImageState(src)
  }

  /** `handleError`: whatever was shown, the placeholder is shown next. */
  function HandleError(s: ImageState): (r: ImageState)
    ensures r.imgSrc == FallbackSrc
  {
    ImageState(FallbackSrc)
  }

  /** A second failure, of the placeholder itself, leaves the state as it is. */
  lemma HandleErrorIdempotent(s: ImageState)
    ensures HandleError(HandleError(s)) == HandleError(s)
  {
  }

  /** What can happen to a mounted image: its load fails, or its parent
      re-renders it with a (possibly different) `src` prop. */
  datatype ImageEvent = LoadError | NewSrc(src: string)

  /** A new `src` prop alone does not touch the state: `useState` read the
      prop only when the component mounted. */
  function Apply(s: ImageState, e: ImageEvent): ImageState {
    match e
    case LoadError => HandleError(s)
    case NewSrc(_) => s
  }

  function Replay(s: ImageState, events: seq<ImageEvent>): ImageState
    decreases |events|
  {
    if events == [] then s else Replay(Apply(s, events[0]), events[1..])
  }

  /** After any run of events the image shows the placeholder if some load
      failed, and otherwise still what it showed before. */
  lemma {:induction false} ReplayShows(s: ImageState, events: seq<ImageEvent>)
    ensures Replay(s, events).imgSrc == if LoadError in events then FallbackSrc else s.imgSrc
    decreases |events|
  {
    if events != [] {
      ReplayShows(Apply(s, events[0]), events[1..]);
      assert events == [events[0]] + events[1..];
      if LoadError in events[1..] {
        ReplayShows(HandleError(s), events[1..]);
      }
    }
  }

  /** For one mounted image: it shows its mount-time `src` until a load
      fails, the placeholder from then on, and never anything else; there is
      no way back to the original source. */
  lemma MountedImageShows(src: string, before: seq<ImageEvent>, after: seq<ImageEvent>)
    ensures Replay(Mount(src), before).imgSrc in {src, FallbackSrc}
    ensures LoadError !in before ==> Replay(Mount(src), before).imgSrc == src
    ensures Replay(Mount(src), before + [LoadError] + after).imgSrc == FallbackSrc
  {
    ReplayShows(Mount(src), before);
    ReplayShows(Mount(src), before + [LoadError] + after);
    assert (before + [LoadError] + after)[|before|] == LoadError;
  }
}
