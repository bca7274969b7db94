/**
 * The link collection endpoint: `POST /api/links` decides whether a link is
 * created and under which code, and `GET /api/links` lists every link,
 * newest first. The database table is a map from code to link, held by the
 * class `LinkTable`.
 */
module LinksApi {
  import opened Wrappers
  import opened JsStrings
  import opened Utils
  import opened Ordering

  /** A stored link. Timestamps are milliseconds since the epoch. */
  datatype Link = Link(
    id: string,
    code: string,
    targetUrl: string,
    clicks: int,
    lastClicked: Option<int>,
    createdAt: int)

  /** The columns the database fills in itself when it inserts a row. */
  datatype DbColumns = DbColumns(id: string, clicks: int, lastClicked: Option<int>, createdAt: int)

  /** The JSON body `{ url, code }`; either field may be missing (or `null`). */
  datatype CreateBody = CreateBody(url: Option<string>, code: Option<string>)

  /** What `POST /api/links` answers, one variant per return statement of the handler. */
  datatype CreateResponse =
    | Created(link: Link)
    | InvalidUrl
    | InvalidCode
    | CodeTaken
  {
    /** The HTTP status of the response. */
    function Status(): int
    {
      match this
      case Created(_) => 201
      case InvalidUrl => 400
      case InvalidCode => 400
      case CodeTaken => 409
    }
  }

  /** JavaScript truthiness of an optional string field: present and not empty. */
  predicate Truthy(v: Option<string>)
  {
    v.Some? && v.value != ""
  }

  /** The row the database inserts for `code` and `url`. */
  function NewLink(code: string, url: string, columns: DbColumns): Link
  {
    Link(columns.id, code, url, columns.clicks, columns.lastClicked, columns.createdAt)
  }

  /**
   * The decision of `POST /api/links`, given the table before the request,
   * the URL parser, the generator's picks and the columns the database would
   * assign. The URL is checked first, then a supplied code; a supplied code is
   * used as is, otherwise a generated one; a code already in the table is
   * refused.
   */
  function CreateOutcome(
    store: map<string, Link>, body: CreateBody, parse: UrlParser, picks: seq<int>, columns: DbColumns
  ): (r: CreateResponse)
    requires ValidPicks(picks)
    ensures r.Status() in {201, 400, 409}
    ensures r.Created? ==>
              && IsValidCode(r.link.code)
              && r.link.code !in store
              && body.url.Some? && r.link.targetUrl == body.url.value
              && IsValidUrl(r.link.targetUrl, parse)
  {
    if !Truthy(body.url) || !IsValidUrl(body.url.value, parse) then InvalidUrl
    else if Truthy(body.code) && !IsValidCode(body.code.value) then InvalidCode
    else
      var code := if Truthy(body.code) then body.code.value else GenerateCode(picks);
      if code in store then CodeTaken else Created(NewLink(code, body.url.value, columns))
  }

  /**
   * `customCode?.trim() || generateCode()`: the trimmed code when that is not
   * empty, otherwise a generated code. The result is never empty (never
   * falsy); without a non-empty supplied code it is the generated code.
   */
  function TrimmedOrGenerated(customCode: Option<string>, picks: seq<int>): (code: string)
    requires ValidPicks(picks)
    ensures code != ""
    ensures !Truthy(customCode) ==> code == GenerateCode(picks)
    ensures customCode.Some? && Trim(customCode.value) != "" ==> code == Trim(customCode.value)
    ensures customCode.Some? && Trim(customCode.value) == "" ==> code == GenerateCode(picks)
  {
    if customCode.Some? && Trim(customCode.value) != "" then Trim(customCode.value) else GenerateCode(picks)
  }

  /** The table after a response: only `Created` writes, and it writes one row. */
  function Committed(store: map<string, Link>, r: CreateResponse): map<string, Link>
  {
    if r.Created? then store[r.link.code := r.link] else store
  }

  /** A missing, empty or non-HTTP(S) URL is reported as such, whatever the code. */
  lemma UrlCheckedFirst(store: map<string, Link>, body: CreateBody, parse: UrlParser, picks: seq<int>, columns: DbColumns)
    requires ValidPicks(picks)
    requires !Truthy(body.url) || !IsValidUrl(body.url.value, parse)
    ensures CreateOutcome(store, body, parse, picks, columns) == InvalidUrl
    ensures CreateOutcome(store, body, parse, picks, columns).Status() == 400
    ensures Committed(store, CreateOutcome(store, body, parse, picks, columns)) == store
  {
  }

  /**
   * A supplied code is validated as sent, before any trimming: a code with
   * a trimmable character anywhere (leading or trailing blanks, or blanks only)
   * is refused with 400 and nothing is written.
   */
  lemma PaddedCodeRefused(store: map<string, Link>, body: CreateBody, parse: UrlParser, picks: seq<int>, columns: DbColumns, i: int)
    requires ValidPicks(picks)
    requires Truthy(body.url) && IsValidUrl(body.url.value, parse)
    requires body.code.Some? && 0 <= i < |body.code.value| && IsTrimmable(body.code.value[i])
    ensures CreateOutcome(store, body, parse, picks, columns) == InvalidCode
    ensures Committed(store, CreateOutcome(store, body, parse, picks, columns)) == store
  {
    assert !IsAlnum(body.code.value[i]);
  }

  /**
   * A supplied code that fails `isValidCode` (too short, too long, or with a
   * character that is not an ASCII letter or digit) is refused with 400, and
   * nothing is written.
   */
  lemma InvalidCodeRefused(store: map<string, Link>, body: CreateBody, parse: UrlParser, picks: seq<int>, columns: DbColumns)
    requires ValidPicks(picks)
    requires Truthy(body.url) && IsValidUrl(body.url.value, parse)
    requires Truthy(body.code) && !IsValidCode(body.code.value)
    ensures CreateOutcome(store, body, parse, picks, columns) == InvalidCode
    ensures CreateOutcome(store, body, parse, picks, columns).Status() == 400
    ensures Committed(store, CreateOutcome(store, body, parse, picks, columns)) == store
  {
  }

  /**
   * Which code is used: a non-empty supplied code verbatim, otherwise the
   * generated one; and that code, when already taken, gives 409 and no write.
   */
  lemma ChosenCode(store: map<string, Link>, body: CreateBody, parse: UrlParser, picks: seq<int>, columns: DbColumns)
    requires ValidPicks(picks)
    requires Truthy(body.url) && IsValidUrl(body.url.value, parse)
    requires !Truthy(body.code) || IsValidCode(body.code.value)
    ensures var code := if Truthy(body.code) then body.code.value else GenerateCode(picks);
            var r := CreateOutcome(store, body, parse, picks, columns);
            && (code in store ==> r == CodeTaken && r.Status() == 409 && Committed(store, r) == store)
            && (code !in store ==> r.Created? && r.Status() == 201 && r.link.code == code)
  {
  }

  /**
   * Exactly one row is added on success: the table gains the new code, keeps
   * every other row unchanged, and the new row holds the requested URL.
   * Every other outcome leaves the table as it was.
   */
  lemma CommitAddsOneRow(store: map<string, Link>, body: CreateBody, parse: UrlParser, picks: seq<int>, columns: DbColumns)
    requires ValidPicks(picks)
    ensures var r := CreateOutcome(store, body, parse, picks, columns);
            var after := Committed(store, r);
            && (r.Created? ==>
                  && after.Keys == store.Keys + {r.link.code}
                  && |after| == |store| + 1
                  && after[r.link.code] == r.link
                  && r.link.targetUrl == body.url.value
                  && (forall c :: c in store ==> after[c] == store[c]))
            && (!r.Created? ==> after == store)
  {
    var r := CreateOutcome(store, body, parse, picks, columns);
    if r.Created? {
      assert r.link.code !in store;
    }
  }

  /** Every row of `m` sits under its own code. */
  ghost predicate KeyedByCode(m: map<string, Link>)
  {
    forall c :: c in m ==> m[c].code == c
  }

  /** The table invariant: every row under its own code, every code a valid one. */
  ghost predicate ValidTable(m: map<string, Link>)
  {
    KeyedByCode(m) && forall c :: c in m ==> IsValidCode(c)
  }

  /** Inserting a row with a valid code under that code keeps the invariant. */
  lemma ValidTableInsert(m: map<string, Link>, link: Link)
    requires ValidTable(m) && IsValidCode(link.code)
    ensures ValidTable(m[link.code := link])
  {
  }

  /** The rows of `m` under the codes in `codes`. */
  ghost function RowsUnder(m: map<string, Link>, codes: set<string>): set<Link>
  {
    set c | c in codes && c in m :: m[c]
  }

  /** Taking one more code adds exactly its row, which was not there before. */
  lemma RowsUnderAddOne(m: map<string, Link>, codes: set<string>, c: string)
    requires KeyedByCode(m) && c in m && c !in codes
    ensures multiset(RowsUnder(m, codes + {c})) == multiset(RowsUnder(m, codes)) + multiset{m[c]}
  {
    assert m[c] !in RowsUnder(m, codes);
    assert RowsUnder(m, codes + {c}) == RowsUnder(m, codes) + {m[c]};
  }

  /** The sort key of `GET /api/links`. */
  function CreatedAt(l: Link): int
  {
    l.createdAt
  }

  /** The link table: each row stored under its own code. */
  class LinkTable {
    var links: map<string, Link>

    /** Every row sits under its own code, and every code is a valid one. */
    ghost predicate Valid()
      reads this
    {
      ValidTable(links)
    }

    constructor ()
      ensures links == map[]
      ensures Valid()
    {
      links := map[];
    }

    /**
     * `POST /api/links`. The result is the decision `CreateOutcome` takes on
     * the table as it was, the table changes only as `Committed` says, and the
     * table invariant is kept.
     */
    method Create(body: CreateBody, parse: UrlParser, picks: seq<int>, columns: DbColumns) returns (res: CreateResponse)
      requires ValidPicks(picks)
      modifies this
      ensures res == CreateOutcome(old(links), body, parse, picks, columns)
      ensures links == Committed(old(links), res)
      ensures old(Valid()) ==> Valid()
    {
      if !Truthy(body.url) || !IsValidUrl(body.url.value, parse) {
        UrlCheckedFirst(links, body, parse, picks, columns);
        return InvalidUrl;
      }
      var url := body.url.value;

      var code := TrimmedOrGenerated(body.code, picks);

      if Truthy(body.code) {
        if !IsValidCode(body.code.value) {
          return InvalidCode;
        }
        code := body.code.value;
      }

      ChosenCode(links, body, parse, picks, columns);
      if code in links {
        return CodeTaken;
      }

      var link := NewLink(code, url, columns);
      if Valid() {
        ValidTableInsert(links, link);
      }
      links := links[code := link];
      res := Created(link);
    }

    /**
     * `GET /api/links`: every stored link exactly once, with `createdAt`
     * never increasing along the list.
     */
    method ListNewestFirst() returns (r: seq<Link>)
      requires Valid()
      ensures multiset(r) == multiset(links.Values)
      ensures Sorted(r, CreatedAt, Desc)
    {
      r := [];
      var rest := links.Keys;
      ghost var done: set<string> := {};
      while rest != {}
        invariant done !! rest && done + rest == links.Keys
        invariant multiset(r) == multiset(RowsUnder(links, done))
        invariant Sorted(r, CreatedAt, Desc)
        decreases rest
      {
        var c :| c in rest;
        RowsUnderAddOne(links, done, c);
        InsertSorted(links[c], r, CreatedAt, Desc);
        InsertPermutes(links[c], r, CreatedAt, Desc);
        r := Insert(links[c], r, CreatedAt, Desc);
        rest := rest - {c};
        done := done + {c};
      }
      assert RowsUnder(links, links.Keys) == links.Values;
    }
  }
}
