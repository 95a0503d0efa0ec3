/**
 * The storefront page's state and its event handlers: the loaded products,
 * the three control values, the one pending search timer (`searchTimeout`)
 * and the rows last handed to the renderer. Search input is debounced by
 * 300 ms; the two select controls recompute at once.
 */
module Page {
  import opened Wrappers
  import Catalog

  const DEBOUNCE_DELAY: int := 300

  /** What can happen to the page: a listener firing, or the clock reaching `now`. */
  datatype Event =
    | SearchInput(at: int, text: string)
    | AssortmentChanged(assortment: string)
    | SortChanged(sortBy: string)
    | Tick(now: int)

  /**
   * The page as a value: control values, the deadline of the pending timer
   * (at most one exists), the visible rows and the number of recomputations so far.
   */
  datatype State = State(
    search: string,
    assortment: string,
    sortBy: string,
    pending: Option<int>,
    visible: seq<Catalog.Product>,
    runs: nat)

  /** One run of `applyFiltersAndSort` with the current control values. */
  function Recompute(all: seq<Catalog.Product>, collate: (string, string) -> int, st: State): State {
    st.(visible := Catalog.ApplyFiltersAndSort(all, st.search, st.assortment, st.sortBy, collate),
        runs := st.runs + 1)
  }

  /** The timer is due at `now`. */
  predicate Due(pending: Option<int>, now: int) {
    pending.Some? && pending.value <= now
  }

  /** The effect of one event on the page. */
  function Step(all: seq<Catalog.Product>, collate: (string, string) -> int, st: State, ev: Event): State {
    match ev
    case SearchInput(at, text) => st.(search := text, pending := Some(at + DEBOUNCE_DELAY))
    case AssortmentChanged(v) => Recompute(all, collate, st.(assortment := v))
    case SortChanged(v) => Recompute(all, collate, st.(sortBy := v))
    case Tick(now) =>
      if Due(st.pending, now) then Recompute(all, collate, st.(pending := None)) else st
  }

  /** The effect of a sequence of events, oldest first. */
  function Run(all: seq<Catalog.Product>, collate: (string, string) -> int, st: State, evs: seq<Event>): State
    decreases |evs|
  {
    if evs == [] then st
    else Step(all, collate, Run(all, collate, st, evs[..|evs| - 1]), evs[|evs| - 1])
  }

  /** A search event cancels whatever timer was pending and leaves exactly one, due 300 ms later; nothing is recomputed yet. */
  lemma SearchInputReschedules(all: seq<Catalog.Product>, collate: (string, string) -> int, st: State, at: int, text: string)
    ensures var r := Step(all, collate, st, SearchInput(at, text));
            r.pending == Some(at + DEBOUNCE_DELAY) && r.search == text && r.runs == st.runs && r.visible == st.visible
  {
  }

  /** A select change recomputes at once with the new value and leaves the pending timer alone. */
  lemma SelectRunsImmediately(all: seq<Catalog.Product>, collate: (string, string) -> int, st: State, ev: Event)
    requires ev.AssortmentChanged? || ev.SortChanged?
    ensures var r := Step(all, collate, st, ev);
            && r.pending == st.pending && r.runs == st.runs + 1 && r.search == st.search
            && r.visible == Catalog.ApplyFiltersAndSort(all, r.search, r.assortment, r.sortBy, collate)
            && (ev.AssortmentChanged? ==> r.assortment == ev.assortment && r.sortBy == st.sortBy)
            && (ev.SortChanged? ==> r.sortBy == ev.sortBy && r.assortment == st.assortment)
  {
  }

  // ---------------------------------------------------------------------
  // Bursts of search input
  // ---------------------------------------------------------------------

  /** The most recent search event of `evs`, if any. */
  function LastInput(evs: seq<Event>): (r: Option<Event>)
    ensures r.Some? ==> r.value.SearchInput?
    decreases |evs|
  {
    if evs == [] then None
    else if evs[|evs| - 1].SearchInput? then Some(evs[|evs| - 1])
    else LastInput(evs[..|evs| - 1])
  }

  /** A tick at `now` comes before the deadline set by the last search event. */
  predicate BeforeDeadline(last: Option<Event>, now: int) {
    last.Some? && last.value.SearchInput? && now < last.value.at + DEBOUNCE_DELAY
  }

  /**
   * A burst: search events, possibly with clock ticks between them, each tick
   * earlier than 300 ms after the search event before it.
   */
  predicate Burst(evs: seq<Event>)
    decreases |evs|
  {
    if |evs| == 0 then false
    else if |evs| == 1 then evs[0].SearchInput?
    else
      var pre, e := evs[..|evs| - 1], evs[|evs| - 1];
      Burst(pre) && (e.SearchInput? || (e.Tick? && BeforeDeadline(LastInput(pre), e.now)))
  }

  /**
   * During a burst nothing is recomputed, and afterwards exactly one timer is
   * pending, due 300 ms after the last search event, with that event's text.
   */
  lemma {:induction false} BurstLeavesOneTimer(all: seq<Catalog.Product>, collate: (string, string) -> int,
                                               st: State, evs: seq<Event>)
    requires Burst(evs)
    ensures var r, last := Run(all, collate, st, evs), LastInput(evs);
            && last.Some?
            && r.pending == Some(last.value.at + DEBOUNCE_DELAY)
            && r.search == last.value.text
            && r.runs == st.runs && r.visible == st.visible
            && r.assortment == st.assortment && r.sortBy == st.sortBy
    decreases |evs|
  {
    var pre := evs[..|evs| - 1];
    if |evs| > 1 {
      BurstLeavesOneTimer(all, collate, st, pre);
    } else {
      assert pre == [];
    }
  }

  /** Once the clock reaches the deadline, the burst is recomputed exactly once, with the last text typed. */
  lemma BurstFiresOnce(all: seq<Catalog.Product>, collate: (string, string) -> int,
                       st: State, evs: seq<Event>, now: int)
    requires Burst(evs)
    requires var last := LastInput(evs); last.Some? && last.value.at + DEBOUNCE_DELAY <= now
    ensures var r := Run(all, collate, st, evs + [Tick(now)]);
            && r.runs == st.runs + 1 && r.pending == None
            && r.visible == Catalog.ApplyFiltersAndSort(all, LastInput(evs).value.text, st.assortment, st.sortBy, collate)
  {
    BurstLeavesOneTimer(all, collate, st, evs);
    assert (evs + [Tick(now)])[..|evs|] == evs;
  }

  /** With no timer pending, ticks change nothing: the burst does not fire a second time. */
  lemma {:induction false} IdleTicksDoNothing(all: seq<Catalog.Product>, collate: (string, string) -> int,
                                              st: State, evs: seq<Event>)
    requires st.pending == None
    requires forall k :: 0 <= k < |evs| ==> evs[k].Tick?
    ensures Run(all, collate, st, evs) == st
    decreases |evs|
  {
    if evs != [] {
      IdleTicksDoNothing(all, collate, st, evs[..|evs| - 1]);
    }
  }

  /** Three keystrokes 50 ms apart, with the clock checked at 399, 400 and 700 ms. */
  const KEYSTROKES: seq<Event> :=
    [SearchInput(0, "v"), SearchInput(50, "vi"), SearchInput(100, "vin"), Tick(399), Tick(400), Tick(700)]

  /**
   * They cause one recomputation, for the full text "vin": nothing has run by
   * the tick at 399 ms, the run happens at the tick at 400 ms, 300 ms after
   * the last keystroke, and the tick at 700 ms adds none.
   */
  lemma ThreeKeystrokesFireOnce(all: seq<Catalog.Product>, collate: (string, string) -> int, st: State)
    ensures Run(all, collate, st, KEYSTROKES[..4]).runs == st.runs
    ensures Run(all, collate, st, KEYSTROKES[..5]).runs == st.runs + 1
    ensures var r := Run(all, collate, st, KEYSTROKES);
            && r.runs == st.runs + 1 && r.pending == None
            && r.visible == Catalog.ApplyFiltersAndSort(all, "vin", st.assortment, st.sortBy, collate)
  {
    KeystrokesPending(all, collate, st);
    var pending := Run(all, collate, st, KEYSTROKES[..4]);
    assert KEYSTROKES[..5][..4] == KEYSTROKES[..4] && KEYSTROKES[..5][4] == Tick(400);
    var fired := Run(all, collate, st, KEYSTROKES[..5]);
    assert fired == Recompute(all, collate, pending.(pending := None));
    assert KEYSTROKES[..5] == KEYSTROKES[..|KEYSTROKES| - 1];
    assert Run(all, collate, st, KEYSTROKES) == Step(all, collate, fired, Tick(700)) == fired;
  }

  /** After the three keystrokes and the tick at 399 ms, one timer is pending for 400 ms and nothing has run. */
  lemma KeystrokesPending(all: seq<Catalog.Product>, collate: (string, string) -> int, st: State)
    ensures var r := Run(all, collate, st, KEYSTROKES[..4]);
            && r.runs == st.runs && r.pending == Some(400) && r.search == "vin"
            && r.assortment == st.assortment && r.sortBy == st.sortBy
  {
    KeystrokesAreBurst();
    BurstLeavesOneTimer(all, collate, st, KEYSTROKES[..4]);
  }

  lemma KeystrokesAreBurst()
    ensures Burst(KEYSTROKES[..4]) && LastInput(KEYSTROKES[..4]) == Some(SearchInput(100, "vin"))
  {
    var b1, b2, b3, b4 := KEYSTROKES[..1], KEYSTROKES[..2], KEYSTROKES[..3], KEYSTROKES[..4];
    assert Burst(b1);
    assert b2[..1] == b1 && b2[1] == SearchInput(50, "vi");
    assert Burst(b2);
    assert b3[..2] == b2 && b3[2] == SearchInput(100, "vin");
    assert Burst(b3);
    assert LastInput(b3) == Some(SearchInput(100, "vin"));
    assert b4[..3] == b3 && b4[3] == Tick(399);
  }

  // ---------------------------------------------------------------------
  // No duplicate firings
  // ---------------------------------------------------------------------

  function SearchInputs(evs: seq<Event>): nat
    decreases |evs|
  {
    if evs == [] then 0
    else SearchInputs(evs[..|evs| - 1]) + (if evs[|evs| - 1].SearchInput? then 1 else 0)
  }

  /** How many ticks of `evs` fire the search timer. */
  function TimerFirings(all: seq<Catalog.Product>, collate: (string, string) -> int, st: State, evs: seq<Event>): nat
    decreases |evs|
  {
    if evs == [] then 0
    else
      var pre, e := evs[..|evs| - 1], evs[|evs| - 1];
      TimerFirings(all, collate, st, pre)
        + (if e.Tick? && Due(Run(all, collate, st, pre).pending, e.now) then 1 else 0)
  }

  function Count(pending: Option<int>): nat {
    if pending.Some? then 1 else 0
  }

  /**
   * Every timer firing is paid for by a search event (or by the timer pending
   * at the start): fired plus still pending never exceeds those.
   */
  lemma {:induction false} FiringsBounded(all: seq<Catalog.Product>, collate: (string, string) -> int,
                                          st: State, evs: seq<Event>)
    ensures TimerFirings(all, collate, st, evs) + Count(Run(all, collate, st, evs).pending)
         <= SearchInputs(evs) + Count(st.pending)
    decreases |evs|
  {
    if evs != [] {
      FiringsBounded(all, collate, st, evs[..|evs| - 1]);
    }
  }

  // ---------------------------------------------------------------------
  // The page object
  // ---------------------------------------------------------------------

  /** The script's globals and DOM control values; each listener is a method. */
  class StorePage {
    var allProducts: seq<Catalog.Product>
    const collate: (string, string) -> int
    var search: string
    var assortment: string
    var sortBy: string
    /**
     * The deadline of the live search timer, `None` when there is none. The
     * script's global keeps the id of a timer that has fired, but clearing a
     * fired timer does nothing, so `None` stands for that case too.
     */
    var searchTimeout: Option<int>
    var visible: seq<Catalog.Product>
    var runs: nat

    function Snapshot(): State
      reads this
    {
      State(search, assortment, sortBy, searchTimeout, visible, runs)
    }

    /** The page before the data arrive: no products, no timer, nothing rendered yet. */
    constructor (collate: (string, string) -> int, search: string, assortment: string, sortBy: string)
      ensures allProducts == [] && this.collate == collate
      ensures Snapshot() == State(search, assortment, sortBy, None, [], 0)
    {
      allProducts := [];
      this.collate := collate;
      this.search := search;
      this.assortment := assortment;
      this.sortBy := sortBy;
      searchTimeout := None;
      visible := [];
      runs := 0;
    }

    /** `applyFiltersAndSort()`: recompute the visible rows from the current control values. */
    method ApplyFiltersAndSort()
      modifies this
      ensures allProducts == old(allProducts)
      ensures Snapshot() == Recompute(allProducts, collate, old(Snapshot()))
    {
      visible := Catalog.ApplyFiltersAndSort(allProducts, search, assortment, sortBy, collate);
      runs := runs + 1;
    }

    /** The products arrive: store them once and render them. */
    method DataLoaded(products: seq<Catalog.Product>)
      modifies this
      ensures allProducts == products
      ensures Snapshot() == Recompute(products, collate, old(Snapshot()))
    {
      allProducts := products;
      ApplyFiltersAndSort();
    }

    /** `input` on the search box: the new text, then `debouncedApplyFiltersAndSort`. */
    method OnSearchInput(at: int, text: string)
      modifies this
      ensures allProducts == old(allProducts)
      ensures Snapshot() == Step(allProducts, collate, old(Snapshot()), SearchInput(at, text))
    {
      search := text;
      searchTimeout := Some(at + DEBOUNCE_DELAY);
    }

    /** `change` on the assortment select. */
    method OnAssortmentChange(value: string)
      modifies this
      ensures allProducts == old(allProducts)
      ensures Snapshot() == Step(allProducts, collate, old(Snapshot()), AssortmentChanged(value))
    {
      assortment := value;
      ApplyFiltersAndSort();
    }

    /** `change` on the sort select. */
    method OnSortChange(value: string)
      modifies this
      ensures allProducts == old(allProducts)
      ensures Snapshot() == Step(allProducts, collate, old(Snapshot()), SortChanged(value))
    {
      sortBy := value;
      ApplyFiltersAndSort();
    }

    /** The clock reaches `now`: a due timer fires and is gone. */
    method OnClock(now: int) returns (fired: bool)
      modifies this
      ensures allProducts == old(allProducts)
      ensures fired == Due(old(searchTimeout), now)
      ensures Snapshot() == Step(allProducts, collate, old(Snapshot()), Tick(now))
    {
      fired := Due(searchTimeout, now);
      if fired {
        searchTimeout := None;
        ApplyFiltersAndSort();
      }
    }
  }
}
