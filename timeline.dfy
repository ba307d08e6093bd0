/** The phase timeline of the last translation and how the user moves through
    it: the arrows step one phase back or forward, a click on a phase asks for
    that phase. */
module Timeline {

  /** What the timeline controls pass: 'next', 'prev', or the index of a
      clicked phase. */
  datatype Request = Next | Prev | Jump(index: int)

  /** `navigateTimeline` as written: 'next' moves forward one, every other
      argument (a clicked index included) moves back one; a move that would
      leave [0, steps) leaves the index as it is. */
  function NavigateAsWritten(steps: nat, index: int, req: Request): (r: int)
    ensures r == index || 0 <= r < steps
    ensures r == index || r == index + 1 || r == index - 1
    ensures req == Next && 0 <= index + 1 < steps ==> r == index + 1
    ensures req != Next && 0 <= index - 1 < steps ==> r == index - 1
    ensures !(0 <= (if req == Next then index + 1 else index - 1) < steps) ==> r == index
  {
    var target := if req == Next then index + 1 else index - 1;
    if 0 <= target < steps then target else index
  }

  /** The navigation the controls evidently intend: the arrows as above, a
      click moves to the clicked phase when it exists. */
  function Navigate(steps: nat, index: int, req: Request): (r: int)
    ensures r == index || 0 <= r < steps
    ensures req.Jump? && 0 <= req.index < steps ==> r == req.index
    ensures req.Jump? && !(0 <= req.index < steps) ==> r == index
    ensures req == Next ==> r == (if 0 <= index + 1 < steps then index + 1 else index)
    ensures req == Prev ==> r == (if 0 <= index - 1 < steps then index - 1 else index)
  {
    var target := match req
      case Next => index + 1
      case Prev => index - 1
      case Jump(i) => i;
    if 0 <= target < steps then target else index
  }

  /** On the arrows both versions agree. */
  lemma ArrowsAgree(steps: nat, index: int)
    ensures Navigate(steps, index, Next) == NavigateAsWritten(steps, index, Next)
    ensures Navigate(steps, index, Prev) == NavigateAsWritten(steps, index, Prev)
  {
  }

  /** A position inside [-1, steps) stays inside it under either version. */
  lemma NavigateKeepsRange(steps: nat, index: int, req: Request)
    requires -1 <= index < steps
    ensures -1 <= Navigate(steps, index, req) < steps
    ensures -1 <= NavigateAsWritten(steps, index, req) < steps
  {
  }

  /** A click on phase 3 of a four-phase timeline while phase 2 is shown moves
      back to phase 1 as written, and to phase 3 as intended. */
  lemma JumpMovesBackAsWritten()
    ensures NavigateAsWritten(4, 2, Jump(3)) == 1
    ensures Navigate(4, 2, Jump(3)) == 3
  {
  }
}
