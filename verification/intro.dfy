/** The three-page intro (app/intro/simple.tsx): a page counter with next
    and skip buttons, and a completion step that records the intro as seen
    and replaces the route with the login screen. */
module Intro {
  /** The three screens the pager can show. */
  datatype Screen = Welcome | Features | GetStarted

  const LastPage := 2
  const LoginRoute := "/(auth)/login"

  /** What completion does outside the pager: ask storage to remember that
      the intro was seen, and replace the route. */
  datatype Event = MarkIntroSeen | ReplaceRoute(path: string)

  datatype Step = Step(page: int, events: seq<Event>)

  /** `completeIntro`. `markFails` stands for `markIntroAsSeen` rejecting;
      the route is replaced with the login screen either way. */
  function CompleteIntro(page: int, markFails: bool): (r: Step)
    ensures r.page == page
    ensures r.events == [MarkIntroSeen, ReplaceRoute(LoginRoute)]
  {
    Step(page, [MarkIntroSeen, ReplaceRoute(LoginRoute)])
  }

  /** Whether a step completes the intro. */
  predicate Completes(r: Step) {
    ReplaceRoute(LoginRoute) in r.events
  }

  /** `handleNext`: before the last page it moves one page on; on the last
      page it completes the intro. */
  function Next(page: int, markFails: bool): (r: Step)
    ensures page < LastPage ==> r == Step(page + 1, [])
    ensures page >= LastPage ==> r.page == page && Completes(r)
    ensures Completes(r) <==> page >= LastPage
  {
    if page < LastPage then Step(page + 1, []) else CompleteIntro(page, markFails)
  }

  /** `handleSkip`. */
  function Skip(page: int, markFails: bool): (r: Step)
    ensures r.page == page && Completes(r)
  {
    CompleteIntro(page, markFails)
  }

  /** `renderCurrentScreen`: pages 0, 1 and 2 have their own screen and any
      other value shows the first. */
  function Rendered(page: int): (s: Screen)
    ensures s == GetStarted <==> page == 2
    ensures s == Features <==> page == 1
    ensures s == Welcome <==> page != 1 && page != 2
  {
    match page
    case 1 => Features
    case 2 => GetStarted
    case _ => Welcome
  }

  /** The page after `n` presses of the next button from `page`. */
  function AfterPresses(page: int, n: nat): int
    decreases n
  {
    if n == 0 then page else AfterPresses(Next(page, false).page, n - 1)
  }

  /** From the first page, next presses never leave pages 0 to 2, and the
      page stays on the last one once it is reached. */
  lemma {:induction false} PagesStayInRange(page: int, n: nat)
    requires 0 <= page <= LastPage
    ensures 0 <= AfterPresses(page, n) <= LastPage
    ensures AfterPresses(page, n) == if page + n >= LastPage then LastPage else page + n
    decreases n
  {
    if n > 0 {
      PagesStayInRange(Next(page, false).page, n - 1);
    }
  }

  /** Starting from the first page, the third next press is the first that
      completes the intro, and every screen shown on the way is a distinct
      one of the three. */
  lemma ThirdPressCompletes(markFails: bool)
    ensures !Completes(Next(0, markFails)) && !Completes(Next(1, markFails)) && Completes(Next(2, markFails))
    ensures Rendered(0) == Welcome && Rendered(Next(0, markFails).page) == Features
            && Rendered(Next(1, markFails).page) == GetStarted
  {
  }
}
