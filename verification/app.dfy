/** `App`: the top-level view switch and the selected category. The view is
    a string; four values have their own screen and any other renders the
    About page. */
module App {
  import opened Common

  /** The category `SellCategory` hands over. The page passes the whole
      category object; the model keeps only its name. */
  type CategoryName = string

  datatype AppState = AppState(currentView: string, selectedCategory: Option<CategoryName>)

  const INITIAL: AppState := AppState("home", None)

  /** The four handlers the page passes down. */
  datatype Event = ShowCart | ShowHome | ShowAbout | ShowCategoryDetails(category: CategoryName)

  /** One handler's state change. */
  function Step(st: AppState, e: Event): (r: AppState)
    ensures e == ShowHome ==> r == INITIAL
    ensures e == ShowCart ==> r.currentView == "cart" && r.selectedCategory == st.selectedCategory
    ensures e == ShowAbout ==> r.currentView == "about" && r.selectedCategory == st.selectedCategory
    ensures e.ShowCategoryDetails? ==> r == AppState("category", Some(e.category))
  {
    match e
    case ShowCart => st.(currentView := "cart")
    case ShowHome => AppState("home", None)
    case ShowAbout => st.(currentView := "about")
    case ShowCategoryDetails(c) => AppState("category", Some(c))
  }

  function Run(st: AppState, events: seq<Event>): AppState
    decreases |events|
  {
    if |events| == 0 then st else Run(Step(st, events[0]), events[1..])
  }

  datatype Screen = HomeScreen | CartScreen | CategoryScreen(category: Option<CategoryName>) | AboutScreen

  /** Which branch renders: home, cart and category by name, About for any
      other view value. */
  function Render(st: AppState): (r: Screen)
    ensures r == HomeScreen <==> st.currentView == "home"
    ensures r == CartScreen <==> st.currentView == "cart"
    ensures r.CategoryScreen? <==> st.currentView == "category"
    ensures r.CategoryScreen? ==> r.category == st.selectedCategory
    ensures r == AboutScreen <==> st.currentView !in {"home", "cart", "category"}
  {
    if st.currentView == "home" then HomeScreen
    else if st.currentView == "cart" then CartScreen
    else if st.currentView == "category" then CategoryScreen(st.selectedCategory)
    else AboutScreen
  }

  /** What holds of every state the handlers can reach. */
  predicate Consistent(st: AppState) {
    && st.currentView in {"home", "cart", "about", "category"}
    && (st.currentView == "home" ==> st.selectedCategory.None?)
    && (st.currentView == "category" ==> st.selectedCategory.Some?)
  }

  /** From the initial state, the home page never carries a selection, the
      category page always has one, and About is shown only when asked
      for. */
  lemma {:induction false} ReachableStatesConsistent(st: AppState, events: seq<Event>)
    requires Consistent(st)
    ensures Consistent(Run(st, events))
    ensures Render(Run(st, events)) == AboutScreen ==> Run(st, events).currentView == "about"
    decreases |events|
  {
    if |events| > 0 {
      ReachableStatesConsistent(Step(st, events[0]), events[1..]);
    }
  }

  lemma InitialConsistent()
    ensures Consistent(INITIAL) && Render(INITIAL) == HomeScreen
  {
  }
}
