/** vagas-widget.js: the accordion's keyboard navigation and open/close rule,
    and the visitor-side filters over the rendered job items.

    An accordion is the sequence of its headers in document order; each header
    carries its aria-expanded flag and whether its panel is hidden. A rendered
    job item is the four data attributes the filters read. Strings are
    sequences of UTF-16 code units; toLowerCase is modelled on ASCII letters.
    The attribute values the widget writes are PHP byte strings and are
    taken here one byte per code unit, which is exact for ASCII text. */
module Client {
  import opened Common
  import opened Strings

  // ---------------------------------------------------------------------
  // Keyboard navigation
  // ---------------------------------------------------------------------

  datatype Key = ArrowDown | ArrowUp | Home | End | Enter | Space | OtherKey

  /** What a key press on a header does: move focus to a header, toggle the
      pressed header, or nothing. */
  datatype KeyAction = Focus(target: nat) | Toggle | Ignore

  /** handleAccordionKeydown on header `i` of `n`: the arrows wrap around,
      Home and End go to the ends, Enter and Space toggle. */
  function KeyDown(key: Key, i: nat, n: nat): (a: KeyAction)
    requires i < n
    ensures a.Focus? ==> a.target < n
    ensures key == Home ==> a == Focus(0)
    ensures key == End ==> a == Focus(n - 1)
    ensures key == ArrowDown && i + 1 < n ==> a == Focus(i + 1)
    ensures key == ArrowDown && i + 1 == n ==> a == Focus(0)
    ensures key == ArrowUp && i > 0 ==> a == Focus(i - 1)
    ensures key == ArrowUp && i == 0 ==> a == Focus(n - 1)
    ensures a == Toggle <==> key == Enter || key == Space
  {
    match key
    case ArrowDown => Focus(Wrap(i + 1, n))
    case ArrowUp => Focus(Wrap(i - 1 + n, n))
    case Home => Focus(0)
    case End => Focus(n - 1)
    case Enter => Toggle
    case Space => Toggle
    case OtherKey => Ignore
  }

  /** JavaScript's `x % n` for a non-negative `x` below `2 * n`. */
  function Wrap(x: int, n: nat): (r: nat)
    requires 0 <= x < 2 * n
    ensures r < n
    ensures r == if x < n then x else x - n
  {
    if x < n then
      assert x % n == x;
      x % n
    else
      assert x == (x - n) + n;
      assert x % n == x - n;
      x % n
  }

  /** ArrowUp undoes ArrowDown and ArrowDown undoes ArrowUp. */
  lemma UpUndoesDown(i: nat, n: nat)
    requires i < n
    ensures KeyDown(ArrowUp, KeyDown(ArrowDown, i, n).target, n) == Focus(i)
    ensures KeyDown(ArrowDown, KeyDown(ArrowUp, i, n).target, n) == Focus(i)
  {
  }

  /** The header reached from `i` by `k` presses of ArrowDown. */
  function DownPresses(i: nat, k: nat, n: nat): (j: nat)
    requires i < n
    ensures j < n
    decreases k
  {
    if k == 0 then i else DownPresses(KeyDown(ArrowDown, i, n).target, k - 1, n)
  }

  /** Presses add up: `a + b` presses land where `b` more after `a` do. */
  lemma {:induction false} DownPressesAdd(i: nat, a: nat, b: nat, n: nat)
    requires i < n
    ensures DownPresses(i, a + b, n) == DownPresses(DownPresses(i, a, n), b, n)
    decreases a
  {
    if a > 0 {
      DownPressesAdd(KeyDown(ArrowDown, i, n).target, a - 1, b, n);
    }
  }

  /** Before the last header, each press moves one header down. */
  lemma {:induction false} DownPressesForward(i: nat, k: nat, n: nat)
    requires i + k < n
    ensures DownPresses(i, k, n) == i + k
    decreases k
  {
    if k > 0 {
      DownPressesForward(i + 1, k - 1, n);
    }
  }

  /** ArrowDown cycles: pressing it once per header comes back to the header
      the visitor started on. */
  lemma DownPressesCycle(i: nat, n: nat)
    requires i < n
    ensures DownPresses(i, n, n) == i
  {
    var toLast := n - 1 - i;
    DownPressesForward(i, toLast, n);
    DownPressesAdd(i, toLast, 1 + i, n);
    DownPressesAdd(n - 1, 1, i, n);
    assert DownPresses(n - 1, 1, n) == 0;
    DownPressesForward(0, i, n);
  }

  // ---------------------------------------------------------------------
  // Accordion panels
  // ---------------------------------------------------------------------

  datatype Header = Header(expanded: bool, panelHidden: bool)

  /** Every panel is hidden exactly when its header is collapsed. */
  predicate Consistent(hs: seq<Header>) {
    forall k :: 0 <= k < |hs| ==> hs[k].panelHidden == !hs[k].expanded
  }

  /** No two headers are expanded at once. */
  predicate AtMostOneOpen(hs: seq<Header>) {
    forall j, k :: 0 <= j < |hs| && 0 <= k < |hs| && hs[j].expanded && hs[k].expanded ==> j == k
  }

  /** The accordion as rendered: every header collapsed, every panel hidden. */
  function Rendered(n: nat): (hs: seq<Header>)
    ensures |hs| == n && Consistent(hs) && AtMostOneOpen(hs)
  {
    seq(n, k => Header(false, true))
  }

  const Collapsed := Header(false, true)
  const Opened := Header(true, false)

  /** toggleAccordionPanel on header `i`: an expanded header collapses and
      hides its panel; a collapsed one opens and every other expanded header
      of the accordion collapses. */
  function ToggleAt(hs: seq<Header>, i: nat): (r: seq<Header>)
    requires i < |hs|
    ensures |r| == |hs|
    ensures r[i].expanded == !hs[i].expanded
    ensures r[i].panelHidden == hs[i].expanded
    ensures hs[i].expanded ==> forall k :: 0 <= k < |hs| && k != i ==> r[k] == hs[k]
    ensures !hs[i].expanded ==> forall k :: 0 <= k < |hs| && k != i ==> !r[k].expanded
    ensures forall k :: 0 <= k < |hs| && k != i && !hs[k].expanded ==> r[k] == hs[k]
  {
    if hs[i].expanded then hs[i := Collapsed]
    else seq(|hs|, k requires 0 <= k < |hs| => if k == i then Opened else if hs[k].expanded then Collapsed else hs[k])
  }

  /** Toggling keeps panels in step with their headers and never leaves two open. */
  lemma ToggleKeepsInvariant(hs: seq<Header>, i: nat)
    requires i < |hs| && Consistent(hs) && AtMostOneOpen(hs)
    ensures Consistent(ToggleAt(hs, i)) && AtMostOneOpen(ToggleAt(hs, i))
  {
  }

  /** A run of clicks, applied in order. */
  function Clicks(hs: seq<Header>, clicks: seq<nat>): (r: seq<Header>)
    requires forall c :: 0 <= c < |clicks| ==> clicks[c] < |hs|
    ensures |r| == |hs|
    decreases |clicks|
  {
    if clicks == [] then hs else Clicks(ToggleAt(hs, clicks[0]), clicks[1..])
  }

  /** From the rendered accordion, whatever the visitor clicks, at most one
      panel is open and every panel matches its header. */
  lemma {:induction false} ClicksKeepInvariant(hs: seq<Header>, clicks: seq<nat>)
    requires forall c :: 0 <= c < |clicks| ==> clicks[c] < |hs|
    requires Consistent(hs) && AtMostOneOpen(hs)
    ensures Consistent(Clicks(hs, clicks)) && AtMostOneOpen(Clicks(hs, clicks))
    decreases |clicks|
  {
    if clicks != [] {
      ToggleKeepsInvariant(hs, clicks[0]);
      ClicksKeepInvariant(ToggleAt(hs, clicks[0]), clicks[1..]);
    }
  }

  // ---------------------------------------------------------------------
  // Filters
  // ---------------------------------------------------------------------

  /** A rendered job item's data-location, data-city, data-state and
      data-area attributes ("" when absent). */
  datatype Item = Item(location: string, city: string, state: string, area: string)

  /** The query an input holds: lower-cased, then trimmed; "" when the input
      is not on the page. */
  function Query(input: Option<string>): (q: string)
    ensures input.None? ==> q == ""
    ensures q == [] || (!IsJsSpace(q[0]) && !IsJsSpace(q[|q| - 1]))
  {
    match input
    case None => ""
    case Some(v) => JsTrim(Lower(v))
  }

  /** Reference definition of when an item stays visible: every non-empty
      query must occur in one of the attributes it looks at. */
  predicate Matches(item: Item, locationQuery: string, areaQuery: string) {
    && (locationQuery == "" || Contains(Lower(item.location), locationQuery)
        || Contains(Lower(item.city), locationQuery) || Contains(Lower(item.state), locationQuery))
    && (areaQuery == "" || Contains(Lower(item.area), areaQuery))
  }

  function MatchesQueries(locationQuery: string, areaQuery: string): Item -> bool {
    (item: Item) => Matches(item, locationQuery, areaQuery)
  }

  /** The test applyFilters runs on one item, with indexOf. */
  function Shows(item: Item, locationQuery: string, areaQuery: string): (b: bool)
    ensures b <==> Matches(item, locationQuery, areaQuery)
  {
    IndexOfFindsContains(Lower(item.location), locationQuery);
    IndexOfFindsContains(Lower(item.city), locationQuery);
    IndexOfFindsContains(Lower(item.state), locationQuery);
    IndexOfFindsContains(Lower(item.area), areaQuery);
    var matchesLocation :=
      if locationQuery != "" then
        IndexOf(Lower(item.location), locationQuery) != -1
        || IndexOf(Lower(item.city), locationQuery) != -1
        || IndexOf(Lower(item.state), locationQuery) != -1
      else true;
    var matchesArea := if areaQuery != "" then IndexOf(Lower(item.area), areaQuery) != -1 else true;
    matchesLocation && matchesArea
  }

  function ShowsFor(locationQuery: string, areaQuery: string): Item -> bool {
    (item: Item) => Shows(item, locationQuery, areaQuery)
  }

  /** The loop of applyFilters for any visibility test: one flag per item,
      in order, and the number of items shown. */
  method MarkWhere<T>(items: seq<T>, show: T -> bool) returns (visible: seq<bool>, visibleCount: nat)
    ensures |visible| == |items|
    ensures forall k :: 0 <= k < |items| ==> visible[k] == show(items[k])
    ensures visibleCount == CountWhere(items, show)
  {
    visible := [];
    visibleCount := 0;
    var i := 0;
    while i < |items|
      invariant i <= |items| && |visible| == i
      invariant forall k :: 0 <= k < i ==> visible[k] == show(items[k])
      invariant visibleCount == CountWhere(items[..i], show)
    {
      var matches := show(items[i]);
      CountStep(items, i, show);
      if matches {
        visibleCount := visibleCount + 1;
      }
      visible := visible + [matches];
      i := i + 1;
    }
    assert items[..i] == items;
  }

  /** applyFilters: which items stay visible, and how many. */
  method ApplyFilters(items: seq<Item>, locationInput: Option<string>, areaInput: Option<string>)
    returns (visible: seq<bool>, visibleCount: nat)
    ensures |visible| == |items|
    ensures forall k :: 0 <= k < |items| ==> (visible[k] <==> Matches(items[k], Query(locationInput), Query(areaInput)))
    ensures visibleCount == CountWhere(items, MatchesQueries(Query(locationInput), Query(areaInput)))
    ensures visibleCount <= |items|
  {
    var lq := Query(locationInput);
    var aq := Query(areaInput);
    visible, visibleCount := MarkWhere(items, ShowsFor(lq, aq));
    CountWhereSame(items, ShowsFor(lq, aq), MatchesQueries(lq, aq));
    CountWhereBound(items, MatchesQueries(lq, aq));
  }

  /** updateResultsCounter's text. */
  function CounterText(visible: nat, total: nat): (t: string)
    ensures |NatToString(visible)| < |t| && t[..|NatToString(visible)|] == NatToString(visible)
  {
    if visible == total then NatToString(total) + " vagas encontradas"
    else NatToString(visible) + " de " + NatToString(total) + " vagas"
  }

  /** resetFilters: both inputs (when present) are emptied and the filters run
      again; every item is then visible and the counter shows the total. */
  method ResetFilters(items: seq<Item>, hasLocation: bool, hasArea: bool)
    returns (locationInput: Option<string>, areaInput: Option<string>, visible: seq<bool>, visibleCount: nat)
    ensures |visible| == |items|
    ensures Query(locationInput) == "" && Query(areaInput) == ""
    ensures forall k :: 0 <= k < |items| ==> visible[k]
    ensures visibleCount == |items|
    ensures CounterText(visibleCount, |items|) == NatToString(|items|) + " vagas encontradas"
  {
    locationInput := if hasLocation then Some("") else None;
    areaInput := if hasArea then Some("") else None;
    assert Query(locationInput) == "" by {
      if hasLocation { JsTrimEmpty(); }
    }
    assert Query(areaInput) == "" by {
      if hasArea { JsTrimEmpty(); }
    }
    visible, visibleCount := ApplyFilters(items, locationInput, areaInput);
    CountWhereBound(items, MatchesQueries("", ""));
  }

  /** The query read from an emptied input is empty. */
  lemma JsTrimEmpty()
    ensures JsTrim(Lower("")) == ""
  {
    assert Lower("") == "";
    TrimEmpty("", IsJsSpace);
  }

  /** The counter text tells the numbers it was made from apart, so two
      different states of the filters never show the same text. */
  lemma CounterTextInjective(v1: nat, t1: nat, v2: nat, t2: nat)
    requires CounterText(v1, t1) == CounterText(v2, t2)
    ensures v1 == v2 && t1 == t2
  {
    var s := CounterText(v1, t1);
    var found := " vagas encontradas";
    var de := " de ";
    if v1 == t1 && v2 == t2 {
      assert NatToString(t1) == s[..|s| - |found|] == NatToString(t2);
      NatToStringInjective(t1, t2);
    } else if v1 != t1 && v2 != t2 {
      var a1, b1 := NatToString(v1), NatToString(t1);
      var a2, b2 := NatToString(v2), NatToString(t2);
      var core := s[..|s| - 6];
      assert core == a1 + de + b1 == a2 + de + b2;
      DigitsBeforeSpace(a1, b1, a2, b2);
      NatToStringInjective(v1, v2);
      NatToStringInjective(t1, t2);
    } else {
      EndingsDiffer(v1, t1, v2, t2);
    }
  }

  /** "a de b" splits only at its first space, since numbers have none. */
  lemma DigitsBeforeSpace(a1: string, b1: string, a2: string, b2: string)
    requires All(a1, IsDigit) && All(a2, IsDigit)
    requires a1 + " de " + b1 == a2 + " de " + b2
    ensures a1 == a2 && b1 == b2
  {
    var s := a1 + " de " + b1;
    assert s[|a1|] == ' ' && s[|a2|] == ' ';
    SkipWhileUnique(s, 0, |a1|, IsDigit);
    SkipWhileUnique(s, 0, |a2|, IsDigit);
    assert a1 == s[..|a1|] == a2;
    assert b1 == s[|a1| + 4..] == b2;
  }

  predicate EndsWith(s: string, suffix: string) {
    |suffix| <= |s| && s[|s| - |suffix|..] == suffix
  }

  /** The counter says "vagas encontradas" exactly when every item is shown. */
  lemma CounterSaysAllFound(visible: nat, total: nat)
    ensures EndsWith(CounterText(visible, total), " vagas encontradas") <==> visible == total
  {
    var s := CounterText(visible, total);
    var found := " vagas encontradas";
    if visible == total {
      assert s[|s| - |found|..] == found;
    } else {
      assert s[|s| - 3] == 'g';
      if |found| <= |s| {
        assert s[|s| - |found|..][|found| - 3] == 'g';
      }
    }
  }

  /** The two forms of the counter end differently. */
  lemma EndingsDiffer(v1: nat, t1: nat, v2: nat, t2: nat)
    requires (v1 == t1) != (v2 == t2)
    ensures CounterText(v1, t1) != CounterText(v2, t2)
  {
    var s1, s2 := CounterText(v1, t1), CounterText(v2, t2);
    if v1 == t1 {
      assert s1[|s1| - 6] == 't';
      assert s2[|s2| - 6] == ' ';
    } else {
      assert s1[|s1| - 6] == ' ';
      assert s2[|s2| - 6] == 't';
    }
  }
}
