/**
 * The landing page's testimonial carousel. Slide `i` (from 0) carries the
 * element id "slide" followed by its testimonial id, and its two arrows link
 * to the anchors of the previous and next slides, wrapping at both ends.
 */
module Home {
  import Text
  import MusicPlayer

  /** The testimonial ids in display order: 1 to 5. */
  const TestimonialIds: seq<nat> := [1, 2, 3, 4, 5]

  /** The element id of the slide of testimonial `id`. */
  function SlideId(id: nat): (name: string)
    ensures |name| > 5 && name[..5] == "slide"
    ensures name[5..] == Text.NatToString(id)
  {
    var name := "slide" + Text.NatToString(id);
    assert name[5..] == Text.NatToString(id);
    name
  }

  /** The slide number the left arrow of slide `i` links to. */
  function PrevTarget(i: int, n: int): (t: int)
    ensures 0 < n && 0 <= i < n ==> 1 <= t <= n
    ensures i == 0 ==> t == n
    ensures 0 < i ==> t == i
  {
    if i == 0 then n else i
  }

  /** The slide number the right arrow of slide `i` links to. */
  function NextTarget(i: int, n: int): (t: int)
    ensures 0 < n && 0 <= i < n ==> 1 <= t <= n
    ensures i == n - 1 ==> t == 1
    ensures i + 2 <= n ==> t == i + 2
  {
    if i + 2 > n then 1 else i + 2
  }

  /**
   * The arrows move exactly as the playlist does: the target slide is at the
   * previous or next position, wrapping from the first to the last and back.
   */
  lemma ArrowsWrapLikePlaylist(i: int, n: int)
    requires 0 <= i < n
    ensures PrevTarget(i, n) - 1 == MusicPlayer.Previous(i, n)
    ensures NextTarget(i, n) - 1 == MusicPlayer.Next(i, n)
  {
  }

  /** Following the right arrow and then the left arrow comes back to the same slide. */
  lemma NextThenPrevReturns(i: int, n: int)
    requires 0 <= i < n
    ensures PrevTarget(NextTarget(i, n) - 1, n) == i + 1
    ensures NextTarget(PrevTarget(i, n) - 1, n) == i + 1
  {
    ArrowsWrapLikePlaylist(i, n);
    ArrowsWrapLikePlaylist(NextTarget(i, n) - 1, n);
    ArrowsWrapLikePlaylist(PrevTarget(i, n) - 1, n);
    MusicPlayer.NextPreviousInverse(i, n);
  }

  /**
   * Among the five testimonials, every arrow's target number is the id of the
   * testimonial at that position, so the anchor names an existing slide.
   */
  lemma ArrowsLinkToSlides(i: int)
    requires 0 <= i < |TestimonialIds|
    ensures var p := PrevTarget(i, |TestimonialIds|);
      1 <= p <= |TestimonialIds| && TestimonialIds[p - 1] == p
    ensures var q := NextTarget(i, |TestimonialIds|);
      1 <= q <= |TestimonialIds| && TestimonialIds[q - 1] == q
  {
  }
}
