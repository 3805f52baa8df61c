/**
  The search bar with suggestions (src/app/anime-4/page.tsx): the filtered
  suggestion list, keyboard navigation, selection, clearing, and the
  segmentation `highlightMatch` performs on a title or description.
 */
module Search {

  import opened Wrappers
  import opened Text

  datatype Suggestion = Suggestion(
    id: string,
    title: string,
    category: Option<string>,
    description: Option<string>)

  /** The filter predicate: the query occurs, ignoring case, in the title, the description or the category. */
  predicate Matches(s: Suggestion, q: string) {
    || ContainsCI(s.title, q)
    || (s.description.Some? && ContainsCI(s.description.value, q))
    || (s.category.Some? && ContainsCI(s.category.value, q))
  }

  /** `suggestions.filter(...)`: the matching suggestions, in their original order. */
  function MatchingIn(ss: seq<Suggestion>, q: string): (r: seq<Suggestion>)
    ensures |r| <= |ss|
    ensures forall x :: x in r <==> x in ss && Matches(x, q)
  {
    if ss == [] then []
    else if Matches(ss[0], q) then [ss[0]] + MatchingIn(ss[1..], q)
    else MatchingIn(ss[1..], q)
  }

  /**
    Filtering distributes over concatenation, so matches keep their catalogue
    order and multiplicity; this fixes which matches a prefix slice keeps.
   */
  lemma {:induction false} MatchingInAppend(a: seq<Suggestion>, b: seq<Suggestion>, q: string)
    ensures MatchingIn(a + b, q) == MatchingIn(a, q) + MatchingIn(b, q)
  {
    if a != [] {
      assert (a + b)[0] == a[0] && (a + b)[1..] == a[1..] + b;
      MatchingInAppend(a[1..], b, q);
    } else {
      assert a + b == b;
    }
  }

  /**
    `filterSuggestions`: nothing for a blank query; otherwise the first
    `maxSuggestions` matches. Matching uses the untrimmed query.
   */
  function FilterSuggestions(ss: seq<Suggestion>, q: string, maxSuggestions: nat): (r: seq<Suggestion>)
    ensures IsBlank(q) ==> r == []
    ensures |r| <= maxSuggestions
    ensures !IsBlank(q) ==>
      |r| == if maxSuggestions <= |MatchingIn(ss, q)| then maxSuggestions else |MatchingIn(ss, q)|
    ensures forall x :: x in r ==> x in ss && Matches(x, q)
    ensures !IsBlank(q) ==> r <= MatchingIn(ss, q)
    ensures !IsBlank(q) && |MatchingIn(ss, q)| <= maxSuggestions ==> r == MatchingIn(ss, q)
  {
    if IsBlank(q) then []
    else
      var m := MatchingIn(ss, q);
      m[..if maxSuggestions <= |m| then maxSuggestions else |m|]
  }

  /** A matching suggestion is left out of the list only when the list is already full. */
  lemma DroppedOnlyWhenFull(ss: seq<Suggestion>, q: string, maxSuggestions: nat, x: Suggestion)
    requires !IsBlank(q) && x in ss && Matches(x, q)
    requires x !in FilterSuggestions(ss, q, maxSuggestions)
    ensures |FilterSuggestions(ss, q, maxSuggestions)| == maxSuggestions
  {
  }

  // ---------------------------------------------------------------------------
  // Keyboard navigation

  /** ArrowDown: the next index, wrapping from the last entry (or beyond it) to the first. */
  function NextIndex(prev: int, len: int): (r: int)
    requires len > 0
    ensures -1 <= prev ==> 0 <= r < len
    ensures -1 <= prev < len ==> r == (prev + 1) % len
  {
    if prev < len - 1 then prev + 1 else 0
  }

  /** ArrowUp: the previous index, wrapping from the first entry (or from no selection) to the last. */
  function PrevIndex(prev: int, len: int): (r: int)
    requires len > 0
    ensures -1 <= prev <= len ==> 0 <= r < len
    ensures 0 <= prev < len ==> r == (prev + len - 1) % len
    ensures prev == -1 ==> r == len - 1
  {
    if prev > 0 then prev - 1 else len - 1
  }

  /** On an in-range selection, ArrowUp undoes ArrowDown and ArrowDown undoes ArrowUp. */
  lemma UpDownInverse(p: int, len: int)
    requires 0 <= p < len
    ensures PrevIndex(NextIndex(p, len), len) == p
    ensures NextIndex(PrevIndex(p, len), len) == p
  {
  }

  // ---------------------------------------------------------------------------
  // The search bar as a state machine

  /** The suggestions the page passes in and its `maxSuggestions`. */
  datatype Config = Config(suggestions: seq<Suggestion>, maxSuggestions: nat)

  /**
    The component's state. `filtered` is the `filteredSuggestions` state,
    which an effect recomputes from the query whenever the query changes.
   */
  datatype Bar = Bar(query: string, expanded: bool, selected: int, filtered: seq<Suggestion>)

  /** `filteredSuggestions` as the effect computes it for a query. */
  function Filtered(cfg: Config, query: string): seq<Suggestion> {
    FilterSuggestions(cfg.suggestions, query, cfg.maxSuggestions)
  }

  const InitialBar := Bar("", false, -1, [])

  /** The effect has caught up with the query. */
  predicate Synced(cfg: Config, b: Bar) {
    b.filtered == Filtered(cfg, b.query)
  }

  /** Whether the dropdown list is on screen. */
  predicate ListShown(b: Bar) {
    b.expanded && |b.filtered| > 0
  }

  datatype Key = ArrowDown | ArrowUp | Enter | Escape | OtherKey

  /** The callbacks a handler invokes: `onSearch(query)`, `onSelect(suggestion)`, or none. */
  datatype Effect = NoEffect | SearchFor(query: string) | Selected(suggestion: Suggestion)

  datatype Reaction = Reaction(bar: Bar, effect: Effect)

  /** `handleSuggestionSelect`: the query becomes the title, the list collapses, nothing is selected. */
  function SelectSuggestion(b: Bar, s: Suggestion): (r: Reaction)
    ensures r.bar.query == s.title && !r.bar.expanded && r.bar.selected == -1
    ensures r.bar.filtered == b.filtered
    ensures r.effect == Selected(s)
  {
    Reaction(b.(query := s.title, expanded := false, selected := -1), Selected(s))
  }

  /** `clearSearch`: empty query, collapsed list, nothing selected. */
  function ClearSearch(b: Bar): (r: Bar)
    ensures r.query == [] && !r.expanded && r.selected == -1
    ensures r.filtered == b.filtered
  {
    b.(query := "", expanded := false, selected := -1)
  }

  /**
    `handleKeyDown` with the selection bounds-checked on Enter. When the
    list is not shown only Enter on a non-blank query does anything, and it
    changes no state.
   */
  function KeyDown(b: Bar, k: Key): (r: Reaction)
    ensures !ListShown(b) ==> r.bar == b
    ensures !ListShown(b) ==>
      (r.effect != NoEffect <==> k == Enter && !IsBlank(b.query))
    ensures r.effect.SearchFor? ==> r.effect.query == b.query
    ensures ListShown(b) && k == ArrowDown && b.selected >= -1 ==>
      r.bar.query == b.query && r.bar.expanded
      && 0 <= r.bar.selected < |b.filtered| && r.effect == NoEffect
    ensures ListShown(b) && k == ArrowUp && -1 <= b.selected <= |b.filtered| ==>
      r.bar.query == b.query && r.bar.expanded
      && 0 <= r.bar.selected < |b.filtered| && r.effect == NoEffect
    ensures r.effect.Selected? ==>
      ListShown(b) && k == Enter
      && 0 <= b.selected < |b.filtered|
      && r.effect.suggestion == b.filtered[b.selected]
      && r.bar == b.(query := r.effect.suggestion.title, expanded := false, selected := -1)
    ensures ListShown(b) && k == Enter && 0 <= b.selected < |b.filtered| ==>
      r.effect.Selected?
    ensures ListShown(b) && k == Escape ==> r.bar == b.(expanded := false) && r.effect == NoEffect
    ensures ListShown(b) && k == ArrowDown ==>
      r == Reaction(b.(selected := NextIndex(b.selected, |b.filtered|)), NoEffect)
    ensures ListShown(b) && k == ArrowUp ==>
      r == Reaction(b.(selected := PrevIndex(b.selected, |b.filtered|)), NoEffect)
    ensures ListShown(b) && (k == OtherKey || (k == Enter && !(0 <= b.selected < |b.filtered|))) ==>
      r == Reaction(b, NoEffect)
  {
    var fs := b.filtered;
    if !b.expanded || |fs| == 0 then
      if k == Enter && !IsBlank(b.query) then Reaction(b, SearchFor(b.query))
      else Reaction(b, NoEffect)
    else
      match k
      case ArrowDown => Reaction(b.(selected := NextIndex(b.selected, |fs|)), NoEffect)
      case ArrowUp => Reaction(b.(selected := PrevIndex(b.selected, |fs|)), NoEffect)
      case Enter =>
        if 0 <= b.selected < |fs| then SelectSuggestion(b, fs[b.selected])
        else Reaction(b, NoEffect)
      case Escape => Reaction(b.(expanded := false), NoEffect)
      case OtherKey => Reaction(b, NoEffect)
  }

  /** The outcome of the handler exactly as written: it may throw. */
  datatype KeyResult = Handled(reaction: Reaction) | TypeError

  /**
    `handleKeyDown` as written: Enter checks only `selectedIndex >= 0`, so a
    stale index past the end of the list reads `undefined` and
    `suggestion.title` throws.
   */
  function KeyDownAsWritten(b: Bar, k: Key): (r: KeyResult)
    ensures r.TypeError? <==>
      ListShown(b) && k == Enter && b.selected >= |b.filtered|
  {
    var fs := b.filtered;
    if !b.expanded || |fs| == 0 then
      if k == Enter && !IsBlank(b.query) then Handled(Reaction(b, SearchFor(b.query)))
      else Handled(Reaction(b, NoEffect))
    else
      match k
      case ArrowDown => Handled(Reaction(b.(selected := NextIndex(b.selected, |fs|)), NoEffect))
      case ArrowUp => Handled(Reaction(b.(selected := PrevIndex(b.selected, |fs|)), NoEffect))
      case Enter =>
        if b.selected >= 0 then
          if b.selected < |fs| then Handled(SelectSuggestion(b, fs[b.selected]))
          else TypeError
        else Handled(Reaction(b, NoEffect))
      case Escape => Handled(Reaction(b.(expanded := false), NoEffect))
      case OtherKey => Handled(Reaction(b, NoEffect))
  }

  /** Everywhere the handler as written does not throw, the corrected handler behaves the same. */
  lemma KeyDownAgreesUnlessStale(b: Bar, k: Key)
    requires !KeyDownAsWritten(b, k).TypeError?
    ensures KeyDownAsWritten(b, k) == Handled(KeyDown(b, k))
  {
  }

  datatype BarEvent =
    | Typed(text: string)
    | KeyPressed(key: Key)
    | SuggestionClicked(index: nat)
    | SuggestionHovered(index: nat)
    | ClearClicked
    | ClickedOutside

  /**
    The handler an event reaches. Typing replaces the query and expands the
    list but keeps the selection; clicks and hovers reach only rendered
    suggestions; the clear button is rendered only for a non-empty query; a
    click outside collapses the list and drops the selection.
   */
  function Handle(b: Bar, e: BarEvent): (r: Reaction)
    ensures e.Typed? ==>
      r.bar == b.(query := e.text, expanded := true) && r.effect == NoEffect
    ensures e.ClickedOutside? ==>
      r.bar == b.(expanded := false, selected := -1) && r.effect == NoEffect
    ensures b.selected >= -1 ==> r.bar.selected >= -1
    ensures r.effect.Selected? ==> r.effect.suggestion in b.filtered
    ensures e.KeyPressed? ==> r == KeyDown(b, e.key)
    ensures e.SuggestionClicked? ==>
      r == if ListShown(b) && e.index < |b.filtered| then SelectSuggestion(b, b.filtered[e.index])
           else Reaction(b, NoEffect)
    ensures e.SuggestionHovered? ==>
      r == if ListShown(b) && e.index < |b.filtered| then Reaction(b.(selected := e.index), NoEffect)
           else Reaction(b, NoEffect)
    ensures e.ClearClicked? ==>
      r == Reaction(if b.query != [] then ClearSearch(b) else b, NoEffect)
  {
    var fs := b.filtered;
    match e
    case Typed(text) => Reaction(b.(query := text, expanded := true), NoEffect)
    case KeyPressed(k) => KeyDown(b, k)
    case SuggestionClicked(i) =>
      if ListShown(b) && i < |fs| then SelectSuggestion(b, fs[i]) else Reaction(b, NoEffect)
    case SuggestionHovered(i) =>
      if ListShown(b) && i < |fs| then Reaction(b.(selected := i), NoEffect)
      else Reaction(b, NoEffect)
    case ClearClicked =>
      if b.query != [] then Reaction(ClearSearch(b), NoEffect) else Reaction(b, NoEffect)
    case ClickedOutside => Reaction(b.(expanded := false, selected := -1), NoEffect)
  }

  lemma FilteredSound(cfg: Config, q: string, x: Suggestion)
    requires x in Filtered(cfg, q)
    ensures x in cfg.suggestions && Matches(x, q)
  {
  }

  /** One event followed by the effect that re-filters the suggestions for the new query. */
  function BarStep(cfg: Config, b: Bar, e: BarEvent): (r: Reaction)
    ensures Synced(cfg, r.bar)
    ensures b.selected >= -1 ==> r.bar.selected >= -1
    ensures Synced(cfg, b) && r.effect.Selected? ==>
      r.effect.suggestion in cfg.suggestions && Matches(r.effect.suggestion, b.query)
    ensures r.effect == Handle(b, e).effect
    ensures r.bar.(filtered := []) == Handle(b, e).bar.(filtered := [])
  {
    var h := Handle(b, e);
    assert Synced(cfg, b) && h.effect.Selected? ==>
        h.effect.suggestion in cfg.suggestions && Matches(h.effect.suggestion, b.query) by {
      if Synced(cfg, b) && h.effect.Selected? {
        FilteredSound(cfg, b.query, h.effect.suggestion);
      }
    }
    Reaction(h.bar.(filtered := Filtered(cfg, h.bar.query)), h.effect)
  }

  function BarRun(cfg: Config, b: Bar, events: seq<BarEvent>): Bar
    decreases |events|
  {
    if events == [] then b else BarRun(cfg, BarStep(cfg, b, events[0]).bar, events[1..])
  }

  /** From the initial state the selection index never drops below -1. */
  lemma {:induction false} SelectionAtLeastMinusOne(cfg: Config, b: Bar, events: seq<BarEvent>)
    requires b.selected >= -1
    ensures BarRun(cfg, b, events).selected >= -1
    decreases |events|
  {
    if events != [] {
      SelectionAtLeastMinusOne(cfg, BarStep(cfg, b, events[0]).bar, events[1..]);
    }
  }

  // A two-entry catalogue on which typing narrows the list under a stale selection.
  const StaleConfig := Config([Suggestion("1", "x", None, None), Suggestion("2", "xy", None, None)], 6)

  lemma StaleMatches()
    ensures Matches(StaleConfig.suggestions[0], "x")
    ensures Matches(StaleConfig.suggestions[1], "x")
    ensures !Matches(StaleConfig.suggestions[0], "xy")
    ensures Matches(StaleConfig.suggestions[1], "xy")
  {
    assert LowerStr("x") == "x";
    assert LowerStr("xy") == "xy";
    assert OccursAt("x", "x", 0);
    assert OccursAt("xy", "x", 0);
    assert OccursAt("xy", "xy", 0);
  }

  lemma StaleFilterX()
    ensures Filtered(StaleConfig, "x") == StaleConfig.suggestions
  {
    var ss := StaleConfig.suggestions;
    StaleMatches();
    assert !IsBlank("x") by { BlankIffAllSpace("x"); }
    assert MatchingIn(ss[1..], "x") == [ss[1]] by {
      assert ss[1..][1..] == [];
    }
    assert MatchingIn(ss, "x") == ss;
  }

  lemma StaleFilterXY()
    ensures Filtered(StaleConfig, "xy") == StaleConfig.suggestions[1..]
  {
    var ss := StaleConfig.suggestions;
    StaleMatches();
    assert !IsBlank("xy") by { BlankIffAllSpace("xy"); }
    assert MatchingIn(ss[1..], "xy") == [ss[1]] by {
      assert ss[1..][1..] == [];
    }
    assert MatchingIn(ss, "xy") == ss[1..];
  }

  lemma StaleTypeX()
    ensures BarStep(StaleConfig, InitialBar, Typed("x")).bar == Bar("x", true, -1, StaleConfig.suggestions)
  {
    StaleFilterX();
  }

  lemma StaleDown(from: int)
    requires from == -1 || from == 0
    ensures BarStep(StaleConfig, Bar("x", true, from, StaleConfig.suggestions), KeyPressed(ArrowDown)).bar
         == Bar("x", true, from + 1, StaleConfig.suggestions)
  {
    StaleFilterX();
  }

  lemma StaleTypeXY()
    ensures BarStep(StaleConfig, Bar("x", true, 1, StaleConfig.suggestions), Typed("xy")).bar
         == Bar("xy", true, 1, StaleConfig.suggestions[1..])
  {
    StaleFilterXY();
  }

  /**
    Type "x" (two matches), press ArrowDown twice (second entry selected),
    type "xy" (one match, selection still 1): Enter then throws in the handler
    as written, while the corrected handler ignores the stale index.
   */
  lemma StaleSelectionCrashes()
    ensures
      var b1 := BarStep(StaleConfig, InitialBar, Typed("x")).bar;
      var b2 := BarStep(StaleConfig, b1, KeyPressed(ArrowDown)).bar;
      var b3 := BarStep(StaleConfig, b2, KeyPressed(ArrowDown)).bar;
      var b4 := BarStep(StaleConfig, b3, Typed("xy")).bar;
      KeyDownAsWritten(b4, Enter) == TypeError && KeyDown(b4, Enter) == Reaction(b4, NoEffect)
  {
    var ss := StaleConfig.suggestions;
    var b1 := BarStep(StaleConfig, InitialBar, Typed("x")).bar;
    StaleTypeX();
    assert b1 == Bar("x", true, -1, ss);
    var b2 := BarStep(StaleConfig, b1, KeyPressed(ArrowDown)).bar;
    StaleDown(-1);
    assert b2 == Bar("x", true, 0, ss);
    var b3 := BarStep(StaleConfig, b2, KeyPressed(ArrowDown)).bar;
    StaleDown(0);
    assert b3 == Bar("x", true, 1, ss);
    var b4 := BarStep(StaleConfig, b3, Typed("xy")).bar;
    StaleTypeXY();
    assert b4 == Bar("xy", true, 1, ss[1..]);
    StaleEnter();
  }

  lemma StaleEnter()
    ensures KeyDownAsWritten(Bar("xy", true, 1, StaleConfig.suggestions[1..]), Enter) == TypeError
    ensures KeyDown(Bar("xy", true, 1, StaleConfig.suggestions[1..]), Enter)
         == Reaction(Bar("xy", true, 1, StaleConfig.suggestions[1..]), NoEffect)
  {
  }

  // ---------------------------------------------------------------------------
  // highlightMatch

  function Concat(parts: seq<string>): string {
    if parts == [] then [] else parts[0] + Concat(parts[1..])
  }

  lemma ConcatPair(a: string, b: string, rest: seq<string>)
    ensures Concat([a, b] + rest) == a + b + Concat(rest)
  {
    assert ([a, b] + rest)[1..] == [b] + rest;
    assert ([b] + rest)[1..] == rest;
  }

  /** No case-insensitive occurrence of the lowered query starts in [k, e). */
  lemma NoMatchInSlice(text: string, lt: string, lq: string, k: nat, e: nat)
    requires lt == LowerStr(text) && |lq| > 0 && k <= e <= |text|
    requires forall j :: k <= j < e ==> !OccursAt(lt, lq, j)
    ensures !Contains(LowerStr(text[k..e]), lq)
  {
    LowerSlice(text, k, e);
    var sub := lt[k..e];
    forall m | 0 <= m <= |sub| - |lq| ensures !OccursAt(sub, lq, m) {
      if OccursAt(sub, lq, m) {
        assert lt[k + m..k + m + |lq|] == sub[m..m + |lq|];
        assert OccursAt(lt, lq, k + m);
      }
    }
  }

  /** With no further occurrence, the remainder is one stretch free of the query. */
  lemma SplitTail(text: string, lt: string, lq: string, k: nat)
    requires lt == LowerStr(text) && |lq| > 0 && k <= |text|
    requires forall j :: k <= j ==> !OccursAt(lt, lq, j)
    ensures Concat([text[k..]]) == text[k..]
    ensures !Contains(LowerStr(text[k..]), lq)
  {
    NoMatchInSlice(text, lt, lq, k, |text|);
    assert text[k..|text|] == text[k..];
    assert [text[k..]][1..] == [];
  }

  /** A cut of `whole` into an odd number of parts whose odd-numbered parts are occurrences of `lq`. */
  predicate Cut(r: seq<string>, whole: string, lq: string) {
    && |r| % 2 == 1
    && Concat(r) == whole
    && (forall j :: 0 <= j < |r| && j % 2 == 1 ==> LowerStr(r[j]) == lq)
  }

  /** The parts an alternating split produces: a cut whose gaps contain no occurrence. */
  predicate Alternating(r: seq<string>, whole: string, lq: string) {
    && Cut(r, whole, lq)
    && (forall j :: 0 <= j < |r| && j % 2 == 0 ==> !Contains(LowerStr(r[j]), lq))
  }

  /** A leftmost occurrence at `i` followed by a split of what comes after it is a split from `k`. */
  lemma SplitCons(text: string, lt: string, lq: string, k: nat, i: nat, rest: seq<string>)
    requires lt == LowerStr(text) && |lq| > 0 && k <= i && i + |lq| <= |text|
    requires OccursAt(lt, lq, i) && forall j :: k <= j < i ==> !OccursAt(lt, lq, j)
    requires Alternating(rest, text[i + |lq|..], lq)
    ensures Alternating([text[k..i], text[i..i + |lq|]] + rest, text[k..], lq)
  {
    var r := [text[k..i], text[i..i + |lq|]] + rest;
    NoMatchInSlice(text, lt, lq, k, i);
    LowerSlice(text, i, i + |lq|);
    ConcatPair(text[k..i], text[i..i + |lq|], rest);
    assert text[k..i] + text[i..i + |lq|] + text[i + |lq|..] == text[k..];
    assert forall j :: 2 <= j < |r| ==> r[j] == rest[j - 2];
  }

  /**
    Laid end to end from index `k` of `lt`, no occurrence of `lq` starts
    inside a gap (an even part): the scan took every match as early as it could.
   */
  predicate GapsFree(r: seq<string>, lt: string, lq: string, k: nat)
    decreases |r|
  {
    |r| > 0 ==>
      && (forall p :: k <= p < k + |r[0]| ==> !OccursAt(lt, lq, p))
      && (|r| > 1 ==> GapsFree(r[2..], lt, lq, k + |r[0]| + |r[1]|))
  }

  /** A gap with no occurrence, a match, then a gap-free rest: gap-free from `k`. */
  lemma GapsFreeCons(text: string, lt: string, lq: string, k: nat, i: nat, rest: seq<string>)
    requires k <= i && i + |lq| <= |text|
    requires forall j :: k <= j < i ==> !OccursAt(lt, lq, j)
    requires GapsFree(rest, lt, lq, i + |lq|)
    ensures GapsFree([text[k..i], text[i..i + |lq|]] + rest, lt, lq, k)
  {
    var r := [text[k..i], text[i..i + |lq|]] + rest;
    assert r[2..] == rest;
  }

  /**
    `text.split(regex)` for a capturing regex that matches the lowered query
    literally and ignoring case: unmatched stretches at even positions,
    matches at odd positions, from index `k` on.
   */
  function Split(text: string, lt: string, lq: string, k: nat): (r: seq<string>)
    requires lt == LowerStr(text) && |lq| > 0 && k <= |text|
    ensures |r| % 2 == 1
    ensures Concat(r) == text[k..]
    ensures forall j :: 0 <= j < |r| && j % 2 == 1 ==> LowerStr(r[j]) == lq
    ensures forall j :: 0 <= j < |r| && j % 2 == 0 ==> !Contains(LowerStr(r[j]), lq)
    ensures GapsFree(r, lt, lq, k)
    decreases |text| - k
  {
    match FindFrom(lt, lq, k)
    case None =>
      SplitTail(text, lt, lq, k);
      [text[k..]]
    case Some(i) =>
      var rest := Split(text, lt, lq, i + |lq|);
      SplitCons(text, lt, lq, k, i, rest);
      GapsFreeCons(text, lt, lq, k, i, rest);
      [text[k..i], text[i..i + |lq|]] + rest
  }

  /** A one-part cut is the whole remainder, and no occurrence starts anywhere in it. */
  lemma UniqueLast(text: string, lt: string, lq: string, k: nat, r: seq<string>)
    requires lt == LowerStr(text) && |lq| > 0 && k <= |text|
    requires |r| == 1 && Concat(r) == text[k..] && GapsFree(r, lt, lq, k)
    ensures r == [text[k..]]
    ensures forall p :: k <= p < |text| ==> !OccursAt(lt, lq, p)
  {
    assert r[1..] == [];
    assert Concat(r) == r[0] + Concat(r[1..]);
    assert r == [r[0]] && r[0] == text[k..];
  }

  /** The first two parts of a longer cut are the gap before an occurrence and the occurrence. */
  lemma UniqueHead(text: string, lt: string, lq: string, k: nat, r: seq<string>)
    requires lt == LowerStr(text) && |lq| > 0 && k <= |text|
    requires |r| > 1 && Cut(r, text[k..], lq)
    ensures r == [r[0], r[1]] + r[2..]
    ensures var i := k + |r[0]|;
      && i + |lq| <= |text|
      && r[0] == text[k..i] && r[1] == text[i..i + |lq|] && OccursAt(lt, lq, i)
      && Cut(r[2..], text[i + |lq|..], lq)
  {
    var g, m, rest := r[0], r[1], r[2..];
    assert r == [g, m] + rest;
    ConcatPair(g, m, rest);
    assert |m| == |lq|;
    var i := k + |g|;
    assert text[k..] == g + m + Concat(rest);
    assert g == text[k..][..|g|] == text[k..i];
    assert m == text[k..][|g|..|g| + |m|] == text[i..i + |lq|];
    assert Concat(rest) == text[k..][|g| + |m|..] == text[i + |lq|..];
    LowerSlice(text, i, i + |lq|);
    forall j | 0 <= j < |rest| && j % 2 == 1 ensures LowerStr(rest[j]) == lq {
      assert rest[j] == r[j + 2];
    }
  }

  /**
    Two cuts of the same text with no occurrence starting in a gap are equal:
    each takes the first occurrence after its gap, so they cannot differ.
   */
  lemma {:induction false} CutUnique(text: string, lt: string, lq: string, k: nat, r: seq<string>, s: seq<string>)
    requires lt == LowerStr(text) && |lq| > 0 && k <= |text|
    requires Cut(r, text[k..], lq) && GapsFree(r, lt, lq, k)
    requires Cut(s, text[k..], lq) && GapsFree(s, lt, lq, k)
    ensures r == s
    decreases |r|
  {
    if |r| == 1 {
      UniqueLast(text, lt, lq, k, r);
      if |s| == 1 {
        UniqueLast(text, lt, lq, k, s);
      } else {
        UniqueHead(text, lt, lq, k, s);
        assert false;
      }
    } else if |s| == 1 {
      UniqueLast(text, lt, lq, k, s);
      UniqueHead(text, lt, lq, k, r);
      assert false;
    } else {
      UniqueHead(text, lt, lq, k, r);
      UniqueHead(text, lt, lq, k, s);
      var i, j := k + |r[0]|, k + |s[0]|;
      if i != j {
        assert false;
      }
      assert GapsFree(r[2..], lt, lq, i + |lq|) && GapsFree(s[2..], lt, lq, i + |lq|);
      CutUnique(text, lt, lq, i + |lq|, r[2..], s[2..]);
    }
  }

  /**
    The split is the only cut with no occurrence starting in a gap: any other
    way of cutting the text out of occurrences skips an earlier one.
   */
  lemma SplitUnique(text: string, lt: string, lq: string, k: nat, r: seq<string>)
    requires lt == LowerStr(text) && |lq| > 0 && k <= |text|
    requires Cut(r, text[k..], lq) && GapsFree(r, lt, lq, k)
    ensures r == Split(text, lt, lq, k)
  {
    CutUnique(text, lt, lq, k, r, Split(text, lt, lq, k));
  }

  /**
    `highlightMatch`: the text itself for a blank query; otherwise segments
    that concatenate back to the text, alternating between stretches free of
    the query and case-insensitive occurrences of it.
   */
  function HighlightMatch(text: string, query: string): (r: seq<string>)
    ensures IsBlank(query) ==> r == [text]
    ensures Concat(r) == text
    ensures |r| % 2 == 1
    ensures !IsBlank(query) ==>
      forall j :: 0 <= j < |r| && j % 2 == 1 ==> LowerStr(r[j]) == LowerStr(query)
    ensures !IsBlank(query) ==>
      forall j :: 0 <= j < |r| && j % 2 == 0 ==> !ContainsCI(r[j], query)
    ensures !IsBlank(query) ==> GapsFree(r, LowerStr(text), LowerStr(query), 0)
  {
    if IsBlank(query) then
      assert Concat([text]) == text by { assert [text][1..] == []; }
      [text]
    else
      assert text[0..] == text;
      Split(text, LowerStr(text), LowerStr(query), 0)
  }

  /** For a non-blank query the highlighted segments are the unique cut of the text that takes every occurrence as early as it can. */
  lemma HighlightUnique(text: string, query: string, r: seq<string>)
    requires !IsBlank(query)
    requires Cut(r, text, LowerStr(query)) && GapsFree(r, LowerStr(text), LowerStr(query), 0)
    ensures r == HighlightMatch(text, query)
  {
    assert text[0..] == text;
    SplitUnique(text, LowerStr(text), LowerStr(query), 0, r);
  }
}
