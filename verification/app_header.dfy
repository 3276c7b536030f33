/**
 * The header's game search: the result list derived from the query, the
 * highlighted result, and the keyboard and mouse handlers that move the
 * highlight or pick a result.
 *
 * `trim` and `toLowerCase` are modelled over ASCII: the white space removed is
 * space, tab, line feed, vertical tab, form feed and carriage return, and only
 * the letters A-Z have a lower-case form.
 */
module AppHeader {
  import opened Wrappers
  import opened CartSlice
  import ProductData
  import Seqs

  /** The search shows at most this many results. */
  const MaxResults: nat := 10

  predicate IsSpace(c: char)
  {
    c == ' ' || c == '\t' || c == '\n' || c == '\r' || c == '\U{000B}' || c == '\U{000C}'
  }

  predicate AllSpace(s: string)
  {
    forall i :: 0 <= i < |s| ==> IsSpace(s[i])
  }

  /** How many white-space characters `s` starts with. */
  function LeadingSpaces(s: string): (n: nat)
    ensures n <= |s|
    ensures forall i :: 0 <= i < n ==> IsSpace(s[i])
    ensures n < |s| ==> !IsSpace(s[n])
  {
    if s != [] && IsSpace(s[0]) then 1 + LeadingSpaces(s[1..]) else 0
  }

  /** Where the white space `s` ends with begins. */
  function TrailingSpaceStart(s: string): (n: nat)
    ensures n <= |s|
    ensures forall i :: n <= i < |s| ==> IsSpace(s[i])
    ensures n > 0 ==> !IsSpace(s[n - 1])
  {
    if s != [] && IsSpace(s[|s| - 1]) then TrailingSpaceStart(s[..|s| - 1]) else |s|
  }

  /**
   * `String.prototype.trim`: the leading white space is dropped, then the
   * trailing one. The result is a contiguous piece of `s`, everything before
   * and after it is white space, and it neither starts nor ends with white
   * space; it is empty exactly when `s` is all white space.
   */
  function Trim(s: string): (r: string)
    ensures r == [] <==> AllSpace(s)
    ensures r != [] ==> !IsSpace(r[0]) && !IsSpace(r[|r| - 1])
    ensures exists lo :: SliceAt(s, r, lo) && AllSpace(s[..lo]) && AllSpace(s[lo + |r|..])
  {
    var lo := LeadingSpaces(s);
    var t := s[lo..];
    var hi := TrailingSpaceStart(t);
    assert SliceAt(s, t[..hi], lo);
    assert AllSpace(s[..lo]);
    assert AllSpace(s[lo + hi..]) by {
      assert s[lo + hi..] == t[hi..];
    }
    t[..hi]
  }

  /** `r` is the piece of `s` starting at position `lo`. */
  predicate SliceAt(s: string, r: string, lo: int)
  {
    0 <= lo <= |s| - |r| && r == s[lo..lo + |r|]
  }

  /** Trimming an already trimmed string changes nothing. */
  lemma TrimIdempotent(s: string)
    ensures Trim(Trim(s)) == Trim(s)
  {
    var t := Trim(s);
    assert LeadingSpaces(t) == 0;
    assert TrailingSpaceStart(t) == |t|;
  }

  function LowerChar(c: char): (d: char)
    ensures 'A' <= c <= 'Z' ==> d as int == c as int + 32
    ensures !('A' <= c <= 'Z') ==> d == c
  {
    if 'A' <= c <= 'Z' then (c as int + 32) as char else c
  }

  /**
   * `String.prototype.toLowerCase`: same length, every letter A-Z replaced by
   * its lower-case form, so no upper-case letter is left, and every other
   * character kept as it is.
   */
  function ToLower(s: string): (r: string)
    ensures |r| == |s|
    ensures forall i :: 0 <= i < |r| ==> !('A' <= r[i] <= 'Z')
    ensures forall i :: 0 <= i < |s| && !('A' <= s[i] <= 'Z') ==> r[i] == s[i]
    ensures forall i :: 0 <= i < |s| ==> r[i] == LowerChar(s[i])
  {
    seq(|s|, i requires 0 <= i < |s| => LowerChar(s[i]))
  }

  /** Lower-casing twice is lower-casing once. */
  lemma ToLowerIdempotent(s: string)
    ensures ToLower(ToLower(s)) == ToLower(s)
  {
    var once := ToLower(s);
    assert forall i :: 0 <= i < |once| ==> ToLower(once)[i] == once[i];
  }

  /** `text.includes(pattern)`: `pattern` starts at some position of `text`. */
  function Contains(text: string, pattern: string): (found: bool)
    ensures pattern == [] ==> found
    ensures |text| < |pattern| ==> !found
    decreases |text|
  {
    pattern <= text || (text != [] && Contains(text[1..], pattern))
  }

  /** `pattern` occurs in `text` starting at position `at`. */
  predicate OccursAt(text: string, pattern: string, at: int)
  {
    0 <= at <= |text| - |pattern| && text[at..at + |pattern|] == pattern
  }

  /** `Contains` holds exactly when the pattern occurs at some position. */
  lemma ContainsIffOccurs(text: string, pattern: string)
    ensures Contains(text, pattern) <==> exists at :: OccursAt(text, pattern, at)
  {
    if Contains(text, pattern) {
      var at := ContainsWitness(text, pattern);
    } else {
      forall at | OccursAt(text, pattern, at)
        ensures false
      {
        OccursContains(text, pattern, at);
      }
    }
  }

  /** A position where a contained pattern occurs. */
  lemma {:induction false} ContainsWitness(text: string, pattern: string) returns (at: nat)
    requires Contains(text, pattern)
    ensures OccursAt(text, pattern, at)
    decreases |text|
  {
    if pattern <= text {
      at := 0;
      assert text[..|pattern|] == pattern;
    } else {
      var rest := text[1..];
      var k := ContainsWitness(rest, pattern);
      at := k + 1;
      assert text[at..at + |pattern|] == rest[k..k + |pattern|];
    }
  }

  /** An occurrence at any position makes the pattern contained. */
  lemma {:induction false} OccursContains(text: string, pattern: string, at: int)
    requires OccursAt(text, pattern, at)
    ensures Contains(text, pattern)
    decreases at
  {
    if at == 0 {
      assert text[..|pattern|] == pattern;
    } else {
      var rest := text[1..];
      assert rest[at - 1..at - 1 + |pattern|] == text[at..at + |pattern|];
      OccursContains(rest, pattern, at - 1);
    }
  }

  /** The normalised query the search compares against: trimmed, then lower-cased. */
  function SearchQuery(query: string): (q: string)
    ensures q == [] <==> AllSpace(query)
  {
    ToLower(Trim(query))
  }

  predicate NameMatches(p: Product, q: string)
  {
    Contains(ToLower(p.name), q)
  }

  /** Every product of `catalog`, in catalog order, whose lower-cased name contains `q`. */
  function Matches(catalog: seq<Product>, q: string): (m: seq<Product>)
    ensures |m| <= |catalog|
  {
    Seqs.Filter((p: Product) => NameMatches(p, q), catalog)
  }

  /** Every product `Matches` keeps matches, and every matching product is kept. */
  lemma MatchesSpec(catalog: seq<Product>, q: string)
    ensures forall i :: 0 <= i < |Matches(catalog, q)| ==>
      NameMatches(Matches(catalog, q)[i], q) && Matches(catalog, q)[i] in catalog
    ensures forall i :: 0 <= i < |catalog| && NameMatches(catalog[i], q) ==> catalog[i] in Matches(catalog, q)
    ensures Seqs.SubsequenceOf(Matches(catalog, q), catalog)
  {
    Seqs.FilterMembers((p: Product) => NameMatches(p, q), catalog);
    Seqs.FilterIsSubsequence((p: Product) => NameMatches(p, q), catalog);
  }

  /**
   * The memoised `results`: nothing for a blank query, otherwise the first
   * `MaxResults` products whose lower-cased name contains the normalised query.
   */
  function SearchResults(catalog: seq<Product>, query: string): (r: seq<Product>)
    ensures AllSpace(query) ==> r == []
    ensures |r| <= MaxResults
  {
    var q := SearchQuery(query);
    if q == [] then []
    else
      var m := Matches(catalog, q);
      if |m| <= MaxResults then m else m[..MaxResults]
  }

  /**
   * The results are the matches in catalog order, cut after `MaxResults`: each
   * one matches, they form a subsequence of the catalog, and when fewer than
   * `MaxResults` are shown no matching product is missing.
   */
  lemma SearchResultsSpec(catalog: seq<Product>, query: string)
    requires !AllSpace(query)
    ensures var r := SearchResults(catalog, query);
      r <= Matches(catalog, SearchQuery(query)) &&
      |r| == if |Matches(catalog, SearchQuery(query))| <= MaxResults
             then |Matches(catalog, SearchQuery(query))| else MaxResults
    ensures var r := SearchResults(catalog, query);
      forall i :: 0 <= i < |r| ==> NameMatches(r[i], SearchQuery(query))
    ensures Seqs.SubsequenceOf(SearchResults(catalog, query), catalog)
    ensures var r := SearchResults(catalog, query);
      |r| < MaxResults ==>
        forall i :: 0 <= i < |catalog| && NameMatches(catalog[i], SearchQuery(query)) ==> catalog[i] in r
  {
    var q := SearchQuery(query);
    var m := Matches(catalog, q);
    var r := SearchResults(catalog, query);
    MatchesSpec(catalog, q);
    if |m| <= MaxResults {
      assert r == m;
    } else {
      assert r == m[..MaxResults];
      Seqs.PrefixIsSubsequence(m, MaxResults);
      Seqs.SubsequenceTransitive(r, m, catalog);
    }
  }

  /** The highlight points at a result when there are results, and is -1 when there are none. */
  predicate HighlightInRange(highlight: int, n: nat)
  {
    if n > 0 then 0 <= highlight < n else highlight == -1
  }

  /** The highlight the reset effect installs for `n` results. */
  function ResetHighlight(n: nat): (h: int)
    ensures HighlightInRange(h, n)
    ensures n > 0 ==> h == 0
  {
    if n > 0 then 0 else -1
  }

  /**
   * JavaScript's `a % n` for `n > 0`: the remainder truncated toward zero, so
   * it takes the sign of `a`; on `[0, 2n)` it subtracts `n` once if needed.
   */
  function JsRem(a: int, n: int): (r: int)
    requires n > 0
    ensures a >= 0 ==> 0 <= r < n
    ensures a < 0 ==> -n < r <= 0
    ensures 0 <= a < n ==> r == a
    ensures n <= a < 2 * n ==> r == a - n
  {
    ModSmall(a, n);
    if a >= 0 then a % n else -((-a) % n)
  }

  /** Euclidean remainder of a dividend below `2 * n`. */
  lemma ModSmall(a: int, n: int)
    requires n > 0
    ensures 0 <= a < n ==> a % n == a
    ensures n <= a < 2 * n ==> a % n == a - n
  {
    MulBounds(a / n, n);
  }

  lemma MulBounds(q: int, n: int)
    requires n > 0
    ensures q >= 1 ==> q * n >= n
    ensures q >= 2 ==> q * n >= 2 * n
    ensures q <= -1 ==> q * n <= -n
  {
  }

  /** ArrowDown: `(prev + 1) % n`, one step forward with wrap-around from the last to the first. */
  function NextIndex(prev: int, n: int): (r: int)
    requires n > 0
    ensures -1 <= prev < n ==> 0 <= r < n
    ensures -1 <= prev < n - 1 ==> r == prev + 1
    ensures prev == n - 1 ==> r == 0
  {
    JsRem(prev + 1, n)
  }

  /** ArrowUp: `(prev - 1 + n) % n`, one step back with wrap-around from the first to the last. */
  function PrevIndex(prev: int, n: int): (r: int)
    requires n > 0
    ensures 0 <= prev < n ==> 0 <= r < n
    ensures 0 < prev < n ==> r == prev - 1
    ensures prev == 0 ==> r == n - 1
  {
    JsRem(prev - 1 + n, n)
  }

  /** On a valid highlight ArrowDown and ArrowUp undo each other. */
  lemma NextPrevInverse(prev: int, n: int)
    requires 0 <= prev < n
    ensures PrevIndex(NextIndex(prev, n), n) == prev
    ensures NextIndex(PrevIndex(prev, n), n) == prev
  {
    if prev == n - 1 {
      assert NextIndex(prev, n) == 0;
    }
    if prev == 0 {
      assert PrevIndex(prev, n) == n - 1;
    }
  }

  /** The keys the search input reacts to; every other key is `OtherKey`. */
  datatype Key = ArrowDown | ArrowUp | Enter | OtherKey

  /**
   * The header's search state: the text typed, whether the result panel is
   * open, and the highlighted result. The results are derived from the query
   * over the product table.
   */
  class HeaderSearch {
    /** The product table the search runs over. */
    const catalog: seq<Product>
    var query: string
    var isSearchOpen: bool
    var highlightedIndex: int

    function Results(): (r: seq<Product>)
      reads this
      ensures |r| <= MaxResults
      ensures AllSpace(query) ==> r == []
    {
      SearchResults(catalog, query)
    }

    /** The highlight always points at a result, or is -1 when there are none. */
    predicate Valid()
      reads this
    {
      HighlightInRange(highlightedIndex, |Results()|)
    }

    /** Empty query, closed panel, nothing highlighted. */
    constructor ()
      ensures catalog == ProductData.Products
      ensures query == "" && !isSearchOpen && highlightedIndex == -1
      ensures Results() == [] && Valid()
    {
      catalog := ProductData.Products;
      query := "";
      isSearchOpen := false;
      highlightedIndex := -1;
    }

    /**
     * `setQuery` followed by the reset effect, which runs only when the query
     * actually changed.
     */
    method SetQuery(value: string)
      modifies this
      ensures query == value && isSearchOpen == old(isSearchOpen)
      ensures value != old(query) ==> highlightedIndex == ResetHighlight(|Results()|)
      ensures value == old(query) ==> highlightedIndex == old(highlightedIndex)
      ensures old(Valid()) ==> Valid()
    {
      var changed := value != query;
      query := value;
      if changed {
        highlightedIndex := ResetHighlight(|Results()|);
      }
    }

    /** Typing: the new text becomes the query and the panel opens. */
    method OnChange(value: string)
      modifies this
      ensures query == value && isSearchOpen
      ensures value != old(query) ==> highlightedIndex == ResetHighlight(|Results()|)
      ensures value == old(query) ==> highlightedIndex == old(highlightedIndex)
      ensures old(Valid()) ==> Valid()
    {
      SetQuery(value);
      isSearchOpen := true;
    }

    /** Focusing the input opens the panel. */
    method OnFocus()
      modifies this
      ensures isSearchOpen
      ensures query == old(query) && highlightedIndex == old(highlightedIndex)
    {
      isSearchOpen := true;
    }

    /** `closeSearch`, which the input's blur schedules: the panel closes. */
    method CloseSearch()
      modifies this
      ensures !isSearchOpen
      ensures query == old(query) && highlightedIndex == old(highlightedIndex)
    {
      isSearchOpen := false;
    }

    /** Hovering a shown result highlights it. */
    method OnResultHover(idx: nat)
      requires idx < |Results()|
      modifies this
      ensures highlightedIndex == idx
      ensures query == old(query) && isSearchOpen == old(isSearchOpen)
      ensures Valid()
    {
      highlightedIndex := idx;
    }

    /**
     * Clicking a shown result clears the query and closes the panel; the
     * returned id is the game page it navigates to.
     */
    method OnResultClick(idx: nat) returns (target: string)
      requires idx < |Results()|
      modifies this
      ensures target == old(Results())[idx].id
      ensures query == "" && !isSearchOpen && highlightedIndex == -1
      ensures Results() == [] && Valid()
    {
      target := Results()[idx].id;
      SetQuery("");
      isSearchOpen := false;
    }

    /**
     * The input's key handler. With the panel closed or no results nothing
     * happens. ArrowDown and ArrowUp move the highlight with wrap-around;
     * Enter on an in-range highlight picks that result, which clears the
     * query, closes the panel and yields the id of the game to navigate to.
     */
    method OnKeyDown(key: Key) returns (target: Option<string>)
      modifies this
      ensures !old(isSearchOpen) || old(Results()) == [] ==>
        target == None && query == old(query) && isSearchOpen == old(isSearchOpen) &&
        highlightedIndex == old(highlightedIndex)
      ensures old(isSearchOpen) && old(Results()) != [] && key == ArrowDown ==>
        target == None && query == old(query) && isSearchOpen &&
        highlightedIndex == NextIndex(old(highlightedIndex), |old(Results())|)
      ensures old(isSearchOpen) && old(Results()) != [] && key == ArrowUp ==>
        target == None && query == old(query) && isSearchOpen &&
        highlightedIndex == PrevIndex(old(highlightedIndex), |old(Results())|)
      ensures old(isSearchOpen) && old(Results()) != [] && key == Enter &&
              0 <= old(highlightedIndex) < |old(Results())| ==>
        target == Some(old(Results())[old(highlightedIndex)].id) &&
        query == "" && !isSearchOpen && highlightedIndex == -1
      ensures key == Enter && !(0 <= old(highlightedIndex) < |old(Results())|) ==>
        target == None && query == old(query) && isSearchOpen == old(isSearchOpen) &&
        highlightedIndex == old(highlightedIndex)
      ensures key == OtherKey ==>
        target == None && query == old(query) && isSearchOpen == old(isSearchOpen) &&
        highlightedIndex == old(highlightedIndex)
      ensures target.Some? ==> key == Enter
      ensures old(Valid()) ==> Valid()
    {
      target := None;
      var results := Results();
      if !isSearchOpen || |results| == 0 {
        return;
      }
      match key {
        case ArrowDown =>
          highlightedIndex := NextIndex(highlightedIndex, |results|);
        case ArrowUp =>
          highlightedIndex := PrevIndex(highlightedIndex, |results|);
        case Enter =>
          if 0 <= highlightedIndex < |results| {
            target := Some(results[highlightedIndex].id);
            SetQuery("");
            isSearchOpen := false;
          }
        case OtherKey =>
      }
    }
  }
}
