/** The image-gallery modal of the project section: which project is open and
    which of its images is shown, driven by the card click, the close button,
    the two arrows and the pagination dots. */
module Gallery {
  import opened Wrappers
  import opened Portfolio
  import opened Arith

  /** The page's two gallery state variables. `selected == None` means the
      modal is closed; `index` is a plain number that nothing clamps. */
  datatype State = State(selected: Option<Project>, index: int)

  /** Both variables as the page mounts: nothing selected, index 0. */
  const Initial: State := State(None, 0)

  /** The invariant the page relies on without enforcing it: a closed gallery
      has index 0, an open one points at an existing image. */
  predicate Valid(s: State) {
    match s.selected
    case None => s.index == 0
    case Some(p) => 0 <= s.index < |p.images|
  }

  /** Number of images of the open project (0 when closed). */
  function Count(s: State): nat {
    match s.selected
    case None => 0
    case Some(p) => |p.images|
  }

  /** Selects `p` and shows image `k`. The card click always passes 0. */
  function OpenGallery(p: Project, k: int): (r: State)
    ensures r.selected == Some(p) && r.index == k
    ensures Valid(r) <==> 0 <= k < |p.images|
  {
    State(Some(p), k)
  }

  /** Clears the selection and resets the index, whatever the prior state. */
  function CloseGallery(s: State): (r: State)
    ensures r.selected.None? && r.index == 0
    ensures Valid(r)
  {
    State(None, 0)
  }

  /** The right arrow: wraps from the last image to the first by comparing
      with the last index, and does nothing when no project is selected. */
  function NextImage(s: State): (r: State)
    ensures r.selected == s.selected
    ensures s.selected.None? ==> r == s
    ensures Valid(s) ==> Valid(r)
    ensures Valid(s) && s.selected.Some? ==> r.index == (s.index + 1) % Count(s)
  {
    match s.selected
    case None => s
    case Some(p) => State(s.selected, if s.index == |p.images| - 1 then 0 else s.index + 1)
  }

  /** The left arrow: wraps from the first image to the last by comparing
      with 0, and does nothing when no project is selected. */
  function PrevImage(s: State): (r: State)
    ensures r.selected == s.selected
    ensures s.selected.None? ==> r == s
    ensures Valid(s) ==> Valid(r)
    ensures Valid(s) && s.selected.Some? ==> r.index == (s.index - 1 + Count(s)) % Count(s)
  {
    match s.selected
    case None => s
    case Some(p) => State(s.selected, if s.index == 0 then |p.images| - 1 else s.index - 1)
  }

  /** A pagination dot: sets the index to the dot's position, unchecked. */
  function JumpTo(s: State, k: int): (r: State)
    ensures r.selected == s.selected && r.index == k
    ensures s.selected.Some? ==> (Valid(r) <==> 0 <= k < Count(s))
  {
    State(s.selected, k)
  }

  /** The positions of the dots rendered for a project: one per image. */
  function DotIndices(p: Project): (r: seq<int>)
    ensures |r| == |p.images|
    ensures forall i :: 0 <= i < |r| ==> r[i] == i
    ensures forall k :: k in r <==> 0 <= k < |p.images|
  {
    var r := seq(|p.images|, i => i);
    assert forall k :: 0 <= k < |p.images| ==> k in r by {
      forall k | 0 <= k < |p.images|
        ensures k in r
      {
        assert r[k] == k;
      }
    }
    r
  }

  /** Which dots are drawn highlighted: the one whose position equals the index. */
  function HighlightedDots(s: State): (r: seq<bool>)
    requires s.selected.Some?
    ensures |r| == Count(s)
    ensures Valid(s) ==> r[s.index] && forall i :: 0 <= i < |r| && r[i] ==> i == s.index
    ensures !Valid(s) ==> forall i :: 0 <= i < |r| ==> !r[i]
  {
    var dots := DotIndices(s.selected.value);
    seq(|dots|, i requires 0 <= i < |dots| => dots[i] == s.index)
  }

  /** The image source the modal shows: the current image, or the placeholder
      when the index points past the list or at an empty string. */
  function DisplayedImage(s: State): (r: string)
    requires s.selected.Some?
    ensures Valid(s) && s.selected.value.images[s.index] != "" ==> r == s.selected.value.images[s.index]
    ensures Valid(s) && s.selected.value.images[s.index] == "" ==> r == Placeholder
    ensures !(0 <= s.index < Count(s)) ==> r == Placeholder
    ensures r != ""
  {
    var images := s.selected.value.images;
    if 0 <= s.index < |images| && images[s.index] != "" then images[s.index] else Placeholder
  }

  // ----- The controls a user can press -----

  datatype Event = CardClick(project: Project) | CloseClick | PrevClick | NextClick | DotClick(k: int)

  /** Whether the page renders the control that raises `e` in state `s`:
      cards come from the catalogue; the close button exists only in the modal;
      arrows and dots only when the open project has more than one image, and
      dots only at the positions of `DotIndices`. */
  predicate Enabled(catalogue: seq<Project>, s: State, e: Event) {
    match e
    case CardClick(p) => p in catalogue
    case CloseClick => s.selected.Some?
    case PrevClick => s.selected.Some? && |s.selected.value.images| > 1
    case NextClick => s.selected.Some? && |s.selected.value.images| > 1
    case DotClick(k) => s.selected.Some? && |s.selected.value.images| > 1 && k in DotIndices(s.selected.value)
  }

  /** The controls on offer, control by control: any catalogue card; the close
      button exactly while the modal is open; the arrows exactly while a project
      with several images is open; a dot exactly at a position below the image
      count of such a project. */
  lemma EnabledExactly(catalogue: seq<Project>, s: State, p: Project, k: int)
    ensures Enabled(catalogue, s, CardClick(p)) <==> p in catalogue
    ensures Enabled(catalogue, s, CloseClick) <==> s.selected.Some?
    ensures Enabled(catalogue, s, PrevClick) <==> s.selected.Some? && Count(s) > 1
    ensures Enabled(catalogue, s, NextClick) <==> s.selected.Some? && Count(s) > 1
    ensures Enabled(catalogue, s, DotClick(k)) <==> s.selected.Some? && Count(s) > 1 && 0 <= k < Count(s)
  {
  }

  /** The handler each control is wired to. */
  function Step(s: State, e: Event): (r: State)
    ensures e.CloseClick? ==> r == Initial
    ensures e.CardClick? ==> r.selected == Some(e.project) && r.index == 0
    ensures !e.CardClick? && !e.CloseClick? ==> r.selected == s.selected
    ensures e.DotClick? ==> r.index == e.k
    ensures e.NextClick? && Valid(s) && s.selected.Some? ==> r.index == (s.index + 1) % Count(s)
    ensures e.PrevClick? && Valid(s) && s.selected.Some? ==> r.index == (s.index - 1 + Count(s)) % Count(s)
  {
    match e
    case CardClick(p) => OpenGallery(p, 0)
    case CloseClick => CloseGallery(s)
    case PrevClick => PrevImage(s)
    case NextClick => NextImage(s)
    case DotClick(k) => JumpTo(s, k)
  }

  /** Every control the page offers keeps the invariant, given that every
      catalogue project has an image. */
  lemma StepKeepsValid(catalogue: seq<Project>, s: State, e: Event)
    requires WellFormedCatalogue(catalogue)
    requires Valid(s) && Enabled(catalogue, s, e)
    ensures Valid(Step(s, e))
  {
  }

  /** The events of `es` are each offered by the page when they happen. */
  predicate Admissible(catalogue: seq<Project>, s: State, es: seq<Event>)
    decreases |es|
  {
    |es| == 0 || (Enabled(catalogue, s, es[0]) && Admissible(catalogue, Step(s, es[0]), es[1..]))
  }

  function Run(s: State, es: seq<Event>): State
    decreases |es|
  {
    if |es| == 0 then s else Run(Step(s, es[0]), es[1..])
  }

  /** Any sequence of clicks the page offers, from any valid state (the
      initial one included), ends in a valid state. */
  lemma {:induction false} RunKeepsValid(catalogue: seq<Project>, s: State, es: seq<Event>)
    requires WellFormedCatalogue(catalogue)
    requires Valid(s) && Admissible(catalogue, s, es)
    ensures Valid(Run(s, es))
    decreases |es|
  {
    if |es| > 0 {
      StepKeepsValid(catalogue, s, es[0]);
      RunKeepsValid(catalogue, Step(s, es[0]), es[1..]);
    }
  }

  lemma InitialIsValid()
    ensures Valid(Initial)
  {
  }

  // ----- Laws of the arrows -----

  /** Left undoes right, and right undoes left, at every valid state. */
  lemma PrevNextInverse(s: State)
    requires Valid(s)
    ensures PrevImage(NextImage(s)) == s
    ensures NextImage(PrevImage(s)) == s
  {
  }

  function NextTimes(s: State, n: nat): State
  {
    if n == 0 then s else NextImage(NextTimes(s, n - 1))
  }

  function PrevTimes(s: State, n: nat): State
  {
    if n == 0 then s else PrevImage(PrevTimes(s, n - 1))
  }

  /** `n` presses of the right arrow advance the index by `n` modulo the image count. */
  lemma {:induction false} NextTimesIndex(s: State, n: nat)
    requires Valid(s) && s.selected.Some?
    ensures Valid(NextTimes(s, n))
    ensures NextTimes(s, n).selected == s.selected
    ensures NextTimes(s, n).index == (s.index + n) % Count(s)
  {
    if n > 0 {
      NextTimesIndex(s, n - 1);
      ModSucc(s.index + (n - 1), Count(s));
    }
  }

  /** `n` presses of the left arrow move the index back by `n` modulo the image count. */
  lemma {:induction false} PrevTimesIndex(s: State, n: nat)
    requires Valid(s) && s.selected.Some?
    ensures Valid(PrevTimes(s, n))
    ensures PrevTimes(s, n).selected == s.selected
    ensures PrevTimes(s, n).index == (s.index - n) % Count(s)
  {
    if n > 0 {
      PrevTimesIndex(s, n - 1);
      var t := PrevTimes(s, n - 1);
      assert t.index == (s.index - (n - 1)) % Count(s) && Count(t) == Count(s);
      assert PrevTimes(s, n) == PrevImage(t);
      ModPred(s.index - (n - 1), Count(s));
    }
  }

  /** Pressing the right arrow once per image comes back to the starting image. */
  lemma NextCycle(s: State)
    requires Valid(s) && s.selected.Some?
    ensures NextTimes(s, Count(s)) == s
  {
    var m := Count(s);
    NextTimesIndex(s, m);
    ModUnique(s.index + m, m, 1, s.index);
  }

  /** Pressing the left arrow once per image comes back to the starting image. */
  lemma PrevCycle(s: State)
    requires Valid(s) && s.selected.Some?
    ensures PrevTimes(s, Count(s)) == s
  {
    var m := Count(s);
    PrevTimesIndex(s, m);
    ModUnique(s.index - m, m, -1, s.index);
  }

  /** A dot press followed by the right arrow lands on the dot's successor,
      wrapping at the end, and leaves the selection alone. */
  lemma DotThenNext(s: State, k: int)
    requires Valid(s) && s.selected.Some?
    requires k in DotIndices(s.selected.value)
    ensures Valid(JumpTo(s, k))
    ensures NextImage(JumpTo(s, k)) == State(s.selected, (k + 1) % Count(s))
  {
  }

  /** The arrows are not modular: an index already past the end is never
      brought back, the right arrow keeps counting up. */
  lemma NextDoesNotRepairOverflow(s: State)
    requires s.selected.Some? && s.index >= Count(s)
    ensures NextImage(s).index == s.index + 1
    ensures !Valid(NextImage(s))
  {
  }

  /** The gallery as the project section leaves it after a card click and
      three right-arrow presses on a three-image project: back at image 0. */
  lemma ThreeImageWalk(p: Project)
    requires |p.images| == 3
    ensures NextImage(OpenGallery(p, 0)).index == 1
    ensures NextImage(NextImage(OpenGallery(p, 0))).index == 2
    ensures NextImage(NextImage(NextImage(OpenGallery(p, 0)))) == OpenGallery(p, 0)
  {
  }
}
