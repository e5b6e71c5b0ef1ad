/** The feedback page (`FeedbackPage`): five stars that light up under the
    mouse and remember a clicked rating, and the submit button's checks. */
module Feedback {
  import opened Text

  const StarCount: nat := 5

  /** A mouse event on the star with the given 0-based index. */
  datatype Event = Click(star: nat) | Enter(star: nat) | Exit(star: nat)

  /** The remembered rating and which stars are drawn lit. */
  datatype Page = Page(selected: int, lit: seq<bool>)

  /** `updateStars`: walking the stars in order, each is lit exactly when its
      index is below the rating. */
  function UpdateStars(count: nat, rating: int): (r: seq<bool>)
    ensures |r| == count
    ensures forall i :: 0 <= i < count ==> (r[i] <==> i < rating)
    decreases count
  {
    if count == 0 then [] else UpdateStars(count - 1, rating) + [count - 1 < rating]
  }

  /** How many stars are lit. */
  function LitCount(lit: seq<bool>): nat
    decreases |lit|
  {
    if |lit| == 0 then 0 else LitCount(lit[..|lit| - 1]) + (if lit[|lit| - 1] then 1 else 0)
  }

  /** Counting the lit stars gives the rating back, clamped to the stars
      there are. */
  lemma {:induction false} LitCountRecoversRating(count: nat, rating: int)
    ensures LitCount(UpdateStars(count, rating)) == if rating < 0 then 0 else if rating > count then count else rating
    decreases count
  {
    if count > 0 {
      var r := UpdateStars(count, rating);
      LitCountRecoversRating(count - 1, rating);
      assert r[..count - 1] == UpdateStars(count - 1, rating);
      assert LitCount(r) == LitCount(r[..count - 1]) + (if count - 1 < rating then 1 else 0);
    }
  }

  /** A fresh page: nothing selected, nothing lit. */
  function Initial(): (p: Page)
    ensures ValidPage(p) && p.selected == 0
    ensures LitCount(p.lit) == 0
  {
    LitCountRecoversRating(StarCount, 0);
    Page(0, UpdateStars(StarCount, 0))
  }

  predicate ValidPage(p: Page) {
    0 <= p.selected <= StarCount && |p.lit| == StarCount
  }

  /** One mouse event: a click remembers star i as rating i + 1 and shows
      it; entering a star previews its rating; leaving shows the remembered
      rating again. */
  function Step(p: Page, e: Event): (r: Page)
    requires e.star < StarCount
    ensures |r.lit| == StarCount
    ensures e.Click? ==> r.selected == e.star + 1 && LitCount(r.lit) == e.star + 1
    ensures !e.Click? ==> r.selected == p.selected
    ensures e.Enter? ==> LitCount(r.lit) == e.star + 1
    ensures e.Exit? && ValidPage(p) ==> LitCount(r.lit) == p.selected
  {
    LitCountRecoversRating(StarCount, e.star + 1);
    LitCountRecoversRating(StarCount, p.selected);
    match e
      case Click(i) => Page(i + 1, UpdateStars(StarCount, i + 1))
      case Enter(i) => p.(lit := UpdateStars(StarCount, i + 1))
      case Exit(_) => p.(lit := UpdateStars(StarCount, p.selected))
  }

  predicate OnStars(events: seq<Event>) {
    forall k :: 0 <= k < |events| ==> events[k].star < StarCount
  }

  function Run(p: Page, events: seq<Event>): Page
    requires OnStars(events)
    decreases |events|
  {
    if |events| == 0 then p else Run(Step(p, events[0]), events[1..])
  }

  /** Whatever the mouse does, the remembered rating stays in 0..5. */
  lemma {:induction false} RunKeepsValid(p: Page, events: seq<Event>)
    requires ValidPage(p) && OnStars(events)
    ensures ValidPage(Run(p, events))
    decreases |events|
  {
    if |events| > 0 {
      RunKeepsValid(Step(p, events[0]), events[1..]);
    }
  }

  /** Moving over the stars without clicking never changes the rating, and
      leaving a star restores the display of the remembered rating. */
  lemma {:induction false} HoverKeepsRating(p: Page, events: seq<Event>)
    requires OnStars(events)
    requires forall k :: 0 <= k < |events| ==> !events[k].Click?
    ensures Run(p, events).selected == p.selected
    decreases |events|
  {
    if |events| > 0 {
      HoverKeepsRating(Step(p, events[0]), events[1..]);
    }
  }

  lemma ExitRestores(p: Page, i: nat, j: nat)
    requires ValidPage(p) && i < StarCount && j < StarCount
    ensures Step(Step(p, Enter(i)), Exit(j)) == p.(lit := UpdateStars(StarCount, p.selected))
  {
  }

  datatype SubmitOutcome = MissingRating | EmptyFeedback | Submitted(rating: int, text: string)

  /** The submit button: a rating is required first, then some text. */
  function Submit(selected: int, text: string): (r: SubmitOutcome)
    ensures r == MissingRating <==> selected == 0
    ensures r == EmptyFeedback <==> selected != 0 && Trim(text) == ""
    ensures r.Submitted? <==> selected != 0 && Trim(text) != ""
    ensures r.Submitted? ==> r.rating == selected && r.text == Trim(text)
  {
    var t := Trim(text);
    if selected == 0 then MissingRating
    else if t == "" then EmptyFeedback
    else Submitted(selected, t)
  }

  /** Feedback sent from a fresh page carries a rating of 1 to 5: the one
      the last click chose. */
  lemma SubmittedRatingInRange(events: seq<Event>, text: string)
    requires OnStars(events)
    ensures Submit(Run(Initial(), events).selected, text).Submitted? ==>
      1 <= Submit(Run(Initial(), events).selected, text).rating <= StarCount
  {
    RunKeepsValid(Initial(), events);
  }

  /** Clicking a star and typing some feedback submits that star's rating. */
  lemma ClickThenSubmit(p: Page, i: nat, text: string)
    requires i < StarCount && Trim(text) != ""
    ensures Submit(Step(p, Click(i)).selected, text) == Submitted(i + 1, Trim(text))
  {
  }
}
