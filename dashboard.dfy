/**
 * The pure helpers of the dashboard page: its own `truncateUrl` and
 * `isValidCode`, the search-and-sort of the link list, the encoding of the
 * sort selector's value, and the test that enables the submit button.
 */
module Dashboard {
  import opened Wrappers
  import opened JsStrings
  import Utils
  import opened Ordering
  import opened LinksApi

  /** Default `max` of the page's `truncateUrl`. */
  const DefaultMax: int := 30

  /** The page's `truncateUrl(u, max = 30)`. */
  function TruncateUrl(u: string, max: int): (r: string)
    ensures |u| <= max ==> r == u
    ensures |u| > max && max >= 0 ==> |r| == max + 3 && r[..max] == u[..max] && r[max..] == "..."
    ensures max < 0 ==> r == "..."
  {
    if |u| <= max then u else Prefix(u, max) + "..."
  }

  /** The page's variant behaves as the shared helper for every bound. */
  lemma TruncateUrlAgrees(u: string, max: int)
    ensures TruncateUrl(u, max) == Utils.TruncateUrl(u, max)
  {
  }

  /**
   * Only the default bounds differ: a URL of 31 to 50 characters is shown
   * whole by the shared helper's default and cut by the page's default.
   */
  lemma DefaultsDiffer(u: string)
    requires DefaultMax < |u| <= Utils.DefaultMaxLength
    ensures Utils.TruncateUrl(u, Utils.DefaultMaxLength) == u
    ensures TruncateUrl(u, DefaultMax) == u[..DefaultMax] + "..."
  {
    var r := TruncateUrl(u, DefaultMax);
    assert r[..DefaultMax] + r[DefaultMax..] == r;
  }

  /** The page's `isValidCode`: an empty field is acceptable, anything else must match `^[A-Za-z0-9]{6,8}$`. */
  predicate IsValidCode(c: string)
    ensures IsValidCode(c) <==> c == "" || (6 <= |c| <= 8 && Utils.AllAlnum(c))
  {
    c == "" || Utils.MatchesAlnumRun(c, 6, 8)
  }

  /** The page's check is the server's check, widened by the empty string only. */
  lemma IsValidCodeWidensServerCheck(c: string)
    ensures IsValidCode(c) <==> c == "" || Utils.IsValidCode(c)
    ensures !Utils.IsValidCode("") && IsValidCode("")
  {
  }

  /** The search test: the code or the target URL contains the search text, ignoring ASCII case. */
  predicate MatchesSearch(l: Link, search: string)
  {
    || Includes(ToLower(l.code), ToLower(search))
    || Includes(ToLower(l.targetUrl), ToLower(search))
  }

  /**
   * `links.filter(...)`: keeps the matching links, each as often as it
   * occurs; `FilterLinksAppend` and `FilterLinksPerKey` state that it keeps
   * their order.
   */
  function FilterLinks(links: seq<Link>, search: string): (r: seq<Link>)
    ensures |r| <= |links|
  {
    if links == [] then []
    else (if MatchesSearch(links[0], search) then [links[0]] else []) + FilterLinks(links[1..], search)
  }

  /** Each matching link is kept as often as it occurs, and every other link is dropped. */
  lemma {:induction false} FilterLinksCounts(links: seq<Link>, search: string)
    ensures forall l :: multiset(FilterLinks(links, search))[l]
                     == if MatchesSearch(l, search) then multiset(links)[l] else 0
  {
    if links != [] {
      FilterLinksCounts(links[1..], search);
      assert links == [links[0]] + links[1..];
    }
  }

  /** Filtering keeps order: it distributes over concatenation. */
  lemma {:induction false} FilterLinksAppend(a: seq<Link>, b: seq<Link>, search: string)
    ensures FilterLinks(a + b, search) == FilterLinks(a, search) + FilterLinks(b, search)
  {
    if a != [] {
      FilterLinksAppend(a[1..], b, search);
      assert (a + b)[0] == a[0] && (a + b)[1..] == a[1..] + b;
      var head := if MatchesSearch(a[0], search) then [a[0]] else [];
      calc {
        FilterLinks(a + b, search);
        head + FilterLinks(a[1..] + b, search);
        head + (FilterLinks(a[1..], search) + FilterLinks(b, search));
        (head + FilterLinks(a[1..], search)) + FilterLinks(b, search);
        FilterLinks(a, search) + FilterLinks(b, search);
      }
    } else {
      assert a + b == b;
    }
  }

  /**
   * For every key, the filtered links with that key are the matching links
   * among those with that key, in their input order.
   */
  lemma {:induction false} FilterLinksPerKey(links: seq<Link>, search: string, key: Link -> int, k: int)
    ensures WithKey(FilterLinks(links, search), key, k) == FilterLinks(WithKey(links, key, k), search)
  {
    if links != [] {
      var x, rest := links[0], links[1..];
      FilterLinksPerKey(rest, search, key, k);
      WithKeyCons(x, rest, key, k);
      assert links == [x] + rest;
      var mine := if MatchesSearch(x, search) then [x] else [];
      var own := if key(x) == k then [x] else [];
      WithKeyAppend(mine, FilterLinks(rest, search), key, k);
      FilterLinksAppend(own, WithKey(rest, key, k), search);
      assert WithKey(mine, key, k) == FilterLinks(own, search) by {
        if mine != [] {
          WithKeyCons(x, [], key, k);
          assert [x] + [] == [x];
        }
        if own != [] {
          assert own == [x] + [];
        }
      }
    }
  }

  /** The two sort fields of the selector. */
  datatype SortField = ByCreatedAt | ByClicks

  /** The comparator's key: `clicks`, or the `createdAt` timestamp. */
  function KeyOf(field: SortField): Link -> int
  {
    if field == ByClicks then (l: Link) => l.clicks else (l: Link) => l.createdAt
  }

  /** `filteredLinks`: the matching links, sorted by the chosen key and direction. */
  function FilteredLinks(links: seq<Link>, search: string, field: SortField, order: Direction): seq<Link>
  {
    SortBy(FilterLinks(links, search), KeyOf(field), order)
  }

  /**
   * A link is listed exactly when it matches the search, as often as it is in
   * the input; the list is ordered by the key in the chosen direction; links
   * with equal keys keep their input order, both in the filtered list and in
   * the input itself.
   */
  lemma FilteredLinksSpec(links: seq<Link>, search: string, field: SortField, order: Direction)
    ensures var r := FilteredLinks(links, search, field, order);
            && (forall l :: l in r <==> l in links && MatchesSearch(l, search))
            && (forall l :: multiset(r)[l] == if MatchesSearch(l, search) then multiset(links)[l] else 0)
            && Sorted(r, KeyOf(field), order)
            && Stable(FilterLinks(links, search), r, KeyOf(field))
            && (forall k :: WithKey(r, KeyOf(field), k) == FilterLinks(WithKey(links, KeyOf(field), k), search))
  {
    var f := FilterLinks(links, search);
    var r := FilteredLinks(links, search, field, order);
    FilterLinksCounts(links, search);
    SortByStable(f, KeyOf(field), order);
    forall k ensures WithKey(r, KeyOf(field), k) == FilterLinks(WithKey(links, KeyOf(field), k), search) {
      FilterLinksPerKey(links, search, KeyOf(field), k);
    }
    forall l ensures l in r <==> l in links && MatchesSearch(l, search) {
      assert l in r <==> multiset(r)[l] > 0;
      assert l in links <==> multiset(links)[l] > 0;
    }
  }

  /** An empty search keeps every link, in order. */
  lemma {:induction false} EmptySearchKeepsAll(links: seq<Link>)
    ensures FilterLinks(links, "") == links
    ensures forall field, order :: multiset(FilteredLinks(links, "", field, order)) == multiset(links)
  {
    if links != [] {
      EmptySearchKeepsAll(links[1..]);
      IncludesEmpty(ToLower(links[0].code));
      assert ToLower("") == "";
      assert [links[0]] + links[1..] == links;
    }
  }

  /** Searches that differ only in ASCII case select the same links. */
  lemma SearchIgnoresCase(l: Link, search: string)
    ensures MatchesSearch(l, search) <==> MatchesSearch(l, ToLower(search))
  {
    ToLowerIdempotent(search);
  }

  /** The selector's field names. */
  function FieldName(field: SortField): string
  {
    match field
    case ByCreatedAt => "createdAt"
    case ByClicks => "clicks"
  }

  /** The selector's direction names. */
  function OrderName(order: Direction): string
  {
    match order
    case Asc => "asc"
    case Desc => "desc"
  }

  /** The selector's value `${sortBy}-${sortOrder}`. */
  function SelectValue(field: SortField, order: Direction): string
  {
    FieldName(field) + "-" + OrderName(order)
  }

  /** `const [by, order] = value.split('-')`: the first two pieces; `order` is `undefined` without a dash. */
  function OnSelect(value: string): (string, Option<string>)
  {
    var parts := Split(value, '-');
    (parts[0], if |parts| > 1 then Some(parts[1]) else None)
  }

  /** How the comparator reads the stored field: anything but `clicks` sorts by `createdAt`. */
  function FieldOf(sortBy: string): SortField
  {
    if sortBy == "clicks" then ByClicks else ByCreatedAt
  }

  /** How the comparator reads the stored direction: anything but `asc` sorts descending. */
  function OrderOf(order: Option<string>): Direction
  {
    if order == Some("asc") then Asc else Desc
  }

  /**
   * Encoding the selection and splitting it on `-` gives back both names, and
   * so both choices, because no name contains a dash.
   */
  lemma SelectRoundTrip(field: SortField, order: Direction)
    ensures OnSelect(SelectValue(field, order)) == (FieldName(field), Some(OrderName(order)))
    ensures FieldOf(OnSelect(SelectValue(field, order)).0) == field
    ensures OrderOf(OnSelect(SelectValue(field, order)).1) == order
  {
    var a, b := FieldName(field), OrderName(order);
    assert '-' !in a;
    assert '-' !in b;
    SplitAfter(a, b, '-');
    SplitWithout(b, '-');
    assert SelectValue(field, order) == a + ['-'] + b;
  }

  /** `disabled={submitting || !isValidUrl(url) || !isValidCode(customCode)}`, negated. */
  predicate SubmitEnabled(submitting: bool, url: string, customCode: string, parse: Utils.UrlParser)
  {
    !(submitting || !Utils.IsValidUrl(url, parse) || !IsValidCode(customCode))
  }

  /** The request body `{ url, code: customCode || undefined }`. */
  function RequestBody(url: string, customCode: string): (body: CreateBody)
    ensures body.url == Some(url)
    ensures body.code.Some? <==> customCode != ""
    ensures body.code.Some? ==> body.code.value == customCode
  {
    CreateBody(Some(url), if customCode == "" then None else Some(customCode))
  }

  /**
   * A form the button lets through is never refused for its URL or its code:
   * the server answers 201 or 409. (The URL parser refuses the empty string,
   * as the URL Standard's parser does.)
   */
  lemma EnabledSubmitPassesValidation(
    store: map<string, Link>, submitting: bool, url: string, customCode: string,
    parse: Utils.UrlParser, picks: seq<int>, columns: DbColumns)
    requires Utils.ValidPicks(picks)
    requires parse("") == None
    requires SubmitEnabled(submitting, url, customCode, parse)
    ensures CreateOutcome(store, RequestBody(url, customCode), parse, picks, columns).Status() in {201, 409}
  {
    assert url != "";
    IsValidCodeWidensServerCheck(customCode);
  }
}
