/** The pure parts of src/indexing.rs: the source-set keyword parser
    (`SourceSet::from_str`) and the paging state machine of `search_github`,
    with the code-search responses given as data and the channel as the list
    of events the search sends. */
module Indexing {
  import opened Common

  /** `SourceSet`. */
  datatype SourceSet = Nixpkgs | Nur | Github

  const AllSources: set<SourceSet> := {Nixpkgs, Nur, Github}

  /** The keyword naming each source set on the command line. */
  function Name(s: SourceSet): string {
    match s
    case Nixpkgs => "nixpkgs"
    case Nur => "nur"
    case Github => "github"
  }

  /** `SourceSet::from_str` (src/indexing.rs:86-96): exactly the three
      lower-case keywords are accepted, each naming its set. */
  function ParseSourceSet(s: string): (r: Result<SourceSet, ()>)
    ensures forall x :: r == Ok(x) <==> s == Name(x)
    ensures r.Err? <==> s !in {"nixpkgs", "nur", "github"}
  {
    if s == "nixpkgs" then Ok(Nixpkgs)
    else if s == "nur" then Ok(Nur)
    else if s == "github" then Ok(Github)
    else Err(())
  }

  /** Keywords compare case-sensitively. */
  lemma ParseSourceSetCaseSensitive()
    ensures ParseSourceSet("Nixpkgs").Err? && ParseSourceSet("NUR").Err? && ParseSourceSet("GitHub").Err?
  {
  }

  // ---------------------------------------------------------------------
  // Integer arithmetic of the search loop

  /** Integer division rounding toward zero, as Rust's `/` on `i64` (a
      positive divisor cannot overflow). */
  function TruncDiv(a: int, b: int): (q: int)
    requires b > 0
    ensures a >= 0 ==> 0 <= a - q * b < b
    ensures a < 0 ==> -b < a - q * b <= 0
  {
    if a >= 0 then a / b else -((-a) / b)
  }

  // ---------------------------------------------------------------------
  // The repository URL rewrite

  /** `pat` occurs in `s` starting at index `i`. */
  predicate OccursAt(s: string, pat: string, i: nat) {
    i + |pat| <= |s| && s[i..i + |pat|] == pat
  }

  /** `s` contains no occurrence of `pat`. */
  ghost predicate NoOccurrence(s: string, pat: string) {
    forall i: nat :: !OccursAt(s, pat, i)
  }

  /** `str::replace`: every non-overlapping occurrence of `from`, scanning
      left to right, is replaced by `to`. */
  function ReplaceAll(s: string, from: string, to: string): string
    requires |from| > 0
    decreases |s|
  {
    if |s| < |from| then s
    else if OccursAt(s, from, 0) then to + ReplaceAll(s[|from|..], from, to)
    else [s[0]] + ReplaceAll(s[1..], from, to)
  }

  /** Without an occurrence of the pattern the text is left alone. */
  lemma {:induction false} ReplaceAllNoOccurrence(s: string, from: string, to: string)
    requires |from| > 0 && NoOccurrence(s, from)
    ensures ReplaceAll(s, from, to) == s
    decreases |s|
  {
    if |s| >= |from| {
      assert !OccursAt(s, from, 0);
      assert NoOccurrence(s[1..], from) by {
        forall i: nat ensures !OccursAt(s[1..], from, i) {
          assert !OccursAt(s, from, i + 1);
          if i + |from| <= |s[1..]| {
            assert s[1..][i..i + |from|] == s[i + 1..i + 1 + |from|];
          }
        }
      }
      ReplaceAllNoOccurrence(s[1..], from, to);
      assert [s[0]] + s[1..] == s;
    }
  }

  const ApiPrefix: string := "https://api.github.com/repos/"
  const WebPrefix: string := "https://github.com/"

  /** The rewrite of src/indexing.rs:268-271 of a repository's API URL. */
  function RewriteUrl(url: string): string {
    ReplaceAll(url, ApiPrefix, WebPrefix)
  }

  /** An API URL `https://api.github.com/repos/<owner>/<name>` becomes the
      web URL `https://github.com/<owner>/<name>`, and a URL without the API
      prefix anywhere is sent unchanged. */
  lemma RewriteUrlMeaning(url: string, tail: string)
    requires NoOccurrence(tail, ApiPrefix)
    ensures RewriteUrl(ApiPrefix + tail) == WebPrefix + tail
    ensures NoOccurrence(url, ApiPrefix) ==> RewriteUrl(url) == url
  {
    var s := ApiPrefix + tail;
    assert s[0..|ApiPrefix|] == ApiPrefix;
    assert OccursAt(s, ApiPrefix, 0);
    assert s[|ApiPrefix|..] == tail;
    ReplaceAllNoOccurrence(tail, ApiPrefix, WebPrefix);
    if NoOccurrence(url, ApiPrefix) {
      ReplaceAllNoOccurrence(url, ApiPrefix, WebPrefix);
    }
  }

  // ---------------------------------------------------------------------
  // The paging loop of `search_github`

  /** What one code-search request returned (`octorust`'s result): a page of
      results with the total count and each item's repository URL, or one of
      the client errors the loop distinguishes. */
  datatype Response =
    | Found(totalCount: int, repositoryUrls: seq<string>)
    | RateLimited(duration: int)
    | HttpError(status: int, message: string)
    | OtherError

  /** What the search sends on its channel: a repository URL or the error. */
  datatype Event = Repo(url: string) | Failed(error: Response)

  /** The loop variables: the page to request next, the page count shown in
      progress messages (`"?"` until known) and whether to stop. */
  datatype SearchState = SearchState(page: int, expectedPages: Option<int>, done: bool)

  const Initial: SearchState := SearchState(1, None, false)

  const BeyondLimit: string := "Cannot access beyond the first 1000 results"
  const InvalidTokenMessage: string := "Possibly invalid token!"

  /** One round of the loop either continues with a new state and the events
      sent, or gives up because the token looks invalid. */
  datatype StepOutcome = Continue(next: SearchState, sent: seq<Event>) | InvalidToken

  /** A response after which the loop stops. */
  predicate Stops(r: Response) {
    || (r.Found? && |r.repositoryUrls| == 0)
    || (r.HttpError? && r.status == 422 && r.message == BeyondLimit)
    || r.OtherError?
  }

  /** A response after which the next page is requested. */
  predicate Advances(r: Response) {
    r.Found? && |r.repositoryUrls| > 0
  }

  /** What a response makes the loop send, whatever the state. */
  function Emitted(r: Response): seq<Event> {
    match r
    case Found(_, urls) => seq(|urls|, i requires 0 <= i < |urls| => Repo(RewriteUrl(urls[i])))
    case RateLimited(_) => []
    case HttpError(_, _) => [Failed(r)]
    case OtherError => [Failed(r)]
  }

  /** One round of the loop body (src/indexing.rs:212-277), the request being
      for `st.page`. */
  function Step(st: SearchState, r: Response): (o: StepOutcome)
    ensures o.InvalidToken? <==> r == RateLimited(60) && st.page == 1
    ensures o.Continue? ==> o.next.page == (if Advances(r) then st.page + 1 else st.page)
    ensures o.Continue? ==> (o.next.done <==> st.done || Stops(r))
    ensures o.Continue? ==> o.sent == Emitted(r)
    ensures o.Continue? && st.expectedPages.Some? ==> o.next.expectedPages == st.expectedPages
    ensures o.Continue? && st.expectedPages.None? ==>
      o.next.expectedPages == (if r.Found? then Some(TruncDiv(r.totalCount, 100)) else None)
  {
    match r
    case RateLimited(duration) =>
      if st.page == 1 && duration == 60 then InvalidToken
      else Continue(st, [])
    case HttpError(status, message) =>
      var stop := status == 422 && message == BeyondLimit;
      Continue(st.(done := st.done || stop), [Failed(r)])
    case OtherError =>
      Continue(st.(done := true), [Failed(r)])
    case Found(total, urls) =>
      var expected := if st.expectedPages.None? then Some(TruncDiv(total, 100)) else st.expectedPages;
      if |urls| == 0 then Continue(st.(expectedPages := expected, done := true), [])
      else
        Continue(SearchState(st.page + 1, expected, st.done),
                 seq(|urls|, i requires 0 <= i < |urls| => Repo(RewriteUrl(urls[i]))))
  }

  /** Where a run of the loop over given responses ended: the final state,
      every event sent on the channel, how many responses it used, and
      whether it gave up on a suspected invalid token. */
  datatype Run = Run(state: SearchState, sent: seq<Event>, consumed: nat, invalidToken: bool)

  /** What `search_github` returns at the end of a run; the events were sent
      on the channel either way. */
  function Outcome(run: Run): Result<(), string> {
    if run.invalidToken then Err(InvalidTokenMessage) else Ok(())
  }

  /** `search_github` over the responses the server gives in turn. The loop
      ends when a response stops it, when a rate limit of 60 seconds hits the
      first page (after sending what earlier responses sent), or when the
      responses run out (then `state` is not done). */
  function Search(st: SearchState, responses: seq<Response>): Run
    decreases |responses|
  {
    if st.done || |responses| == 0 then Run(st, [], 0, false)
    else match Step(st, responses[0])
      case InvalidToken => Run(st, [], 1, true)
      case Continue(next, sent) =>
        var t := Search(next, responses[1..]);
        Run(t.state, sent + t.sent, t.consumed + 1, t.invalidToken)
  }

  /** How many of the responses moved to the next page. */
  function AdvanceCount(rs: seq<Response>): nat
    decreases |rs|
  {
    if |rs| == 0 then 0 else (if Advances(rs[0]) then 1 else 0) + AdvanceCount(rs[1..])
  }

  /** Everything the responses make the loop send, in order. */
  function AllEmitted(rs: seq<Response>): seq<Event>
    decreases |rs|
  {
    if |rs| == 0 then [] else Emitted(rs[0]) + AllEmitted(rs[1..])
  }

  /** The response that makes a round give up in state `st`. */
  predicate GivesUp(st: SearchState, r: Response) {
    r == RateLimited(60) && st.page == 1
  }

  /** A run used a prefix of the responses and sent exactly the events of the
      responses before the last one it used, then those of the last one
      unless it gave up there; the page moved on once per non-empty result
      page among them. It gave up exactly when its last response is a
      60-second rate limit met on page 1, stopped exactly when its last
      response is a stopping one, no earlier response stopped it, and when
      it did neither it used every response. */
  lemma SearchMeaning(st: SearchState, responses: seq<Response>)
    requires !st.done
    ensures var t := Search(st, responses);
      && t.consumed <= |responses|
      && t.state.page == st.page + AdvanceCount(responses[..t.consumed])
      && (t.invalidToken ==> t.sent == AllEmitted(responses[..t.consumed - 1]))
      && (!t.invalidToken ==> t.sent == AllEmitted(responses[..t.consumed]))
      && (forall j :: 0 <= j < t.consumed - 1 ==> !Stops(responses[j]))
      && (t.invalidToken <==> t.consumed > 0 && GivesUp(t.state, responses[t.consumed - 1]))
      && (t.state.done <==> t.consumed > 0 && Stops(responses[t.consumed - 1]))
      && (!t.state.done && !t.invalidToken ==> t.consumed == |responses|)
  {
    SearchExplained(st, responses);
  }

  /** The statement of `SearchMeaning` about a run `t` of the loop from `st`
      over `responses`. */
  ghost predicate Explains(st: SearchState, responses: seq<Response>, t: Run) {
    && t.consumed <= |responses|
    && t.state.page == st.page + AdvanceCount(responses[..t.consumed])
    && (t.invalidToken <==> t.consumed > 0 && GivesUp(t.state, responses[t.consumed - 1]))
    && (t.invalidToken ==> t.sent == AllEmitted(responses[..t.consumed - 1]))
    && (!t.invalidToken ==> t.sent == AllEmitted(responses[..t.consumed]))
    && (forall j :: 0 <= j < t.consumed - 1 ==> !Stops(responses[j]))
    && (t.state.done <==> t.consumed > 0 && Stops(responses[t.consumed - 1]))
    && (!t.state.done && !t.invalidToken ==> t.consumed == |responses|)
  }

  lemma {:induction false} SearchExplained(st: SearchState, responses: seq<Response>)
    requires !st.done
    ensures Explains(st, responses, Search(st, responses))
    decreases |responses|
  {
    if |responses| == 0 {
      assert responses[..0] == [];
    } else {
      var r := responses[0];
      match Step(st, r)
      case InvalidToken =>
        FirstResponse(st, responses, Search(st, responses), 0, []);
      case Continue(next, sent) =>
        if next.done {
          assert Search(next, responses[1..]) == Run(next, [], 0, false);
          assert sent + [] == sent;
          FirstResponse(st, responses, Search(st, responses), 1, sent);
        } else {
          SearchExplained(next, responses[1..]);
          ContinueStep(st, responses, next, sent, Search(next, responses[1..]), Search(st, responses));
        }
    }
  }

  /** A run that ends at the first response: by giving up (`n` = 0, nothing
      sent) or by stopping (`n` = 1, that response's events sent). */
  lemma FirstResponse(st: SearchState, responses: seq<Response>, t: Run, n: nat, sent: seq<Event>)
    requires !st.done && |responses| > 0 && n <= 1
    requires n == 0 ==> Step(st, responses[0]).InvalidToken? && t == Run(st, [], 1, true)
    requires n == 1 ==> (Step(st, responses[0]) == Continue(t.state, sent) && t.state.done && t == Run(t.state, sent, 1, false))
    ensures Explains(st, responses, t)
  {
    var r := responses[0];
    assert responses[..1] == [r];
    assert responses[..0] == [];
    assert [r][1..] == [];
    assert AdvanceCount([r]) == (if Advances(r) then 1 else 0) + AdvanceCount([r][1..]);
    assert AllEmitted([r]) == Emitted(r) + AllEmitted([r][1..]);
  }

  /** A run that goes on past the first response: `u` is the run over the
      rest from the state that response leads to. */
  lemma ContinueStep(st: SearchState, responses: seq<Response>, next: SearchState, sent: seq<Event>, u: Run, t: Run)
    requires !st.done && |responses| > 0
    requires Step(st, responses[0]) == Continue(next, sent) && !next.done
    requires Explains(next, responses[1..], u)
    requires t == Run(u.state, sent + u.sent, u.consumed + 1, u.invalidToken)
    ensures Explains(st, responses, t)
  {
    var r, rest := responses[0], responses[1..];
    var used := responses[..t.consumed];
    assert used[0] == r;
    assert used[1..] == rest[..u.consumed];
    if u.invalidToken {
      assert responses[..t.consumed - 1][1..] == rest[..u.consumed - 1];
    }
    forall j | 0 <= j < t.consumed - 1 ensures !Stops(responses[j]) {
      if j > 0 {
        assert responses[j] == rest[j - 1];
      }
    }
    if u.consumed > 0 {
      assert responses[t.consumed - 1] == rest[u.consumed - 1];
    }
  }

  /** Starting from the first page, a run gives up only before any result
      page moved it on, and then returns the invalid-token error. */
  lemma GivesUpOnlyOnFirstPage(responses: seq<Response>)
    ensures var t := Search(Initial, responses);
      && t.consumed <= |responses|
      && (t.invalidToken ==> AdvanceCount(responses[..t.consumed]) == 0)
      && (Outcome(t).Err? <==> t.invalidToken)
  {
    SearchMeaning(Initial, responses);
  }

  /** An HTTP error other than the result limit on the first page is sent
      before a following 60-second rate limit makes the search give up. */
  lemma HttpErrorThenInvalidToken(status: int, message: string, rest: seq<Response>)
    requires !(status == 422 && message == BeyondLimit)
    ensures Search(Initial, [HttpError(status, message), RateLimited(60)] + rest)
         == Run(Initial, [Failed(HttpError(status, message))], 2, true)
  {
    var rs := [HttpError(status, message), RateLimited(60)] + rest;
    assert rs[1..] == [RateLimited(60)] + rest;
    assert Search(Initial, rs[1..]) == Run(Initial, [], 1, true);
  }

  /** The page count is taken once, from the first result page: after a run
      that used a result page it is that page's total divided by 100. */
  lemma {:induction false} ExpectedPagesFromFirstResult(st: SearchState, responses: seq<Response>, i: nat)
    requires st.expectedPages.None?
    requires i < |responses| && responses[i].Found? && forall j :: 0 <= j < i ==> !responses[j].Found?
    requires i < Search(st, responses).consumed
    ensures Search(st, responses).state.expectedPages == Some(TruncDiv(responses[i].totalCount, 100))
    decreases |responses|
  {
    var r, rest := responses[0], responses[1..];
    assert !st.done;
    assert Step(st, r).Continue? by {
      if i > 0 {
        assert Search(st, responses).consumed > 1;
      }
    }
    var next := Step(st, r).next;
    assert Search(st, responses).state == Search(next, rest).state;
    if i == 0 {
      KeepsExpectedPages(next, rest);
    } else {
      assert Search(st, responses).consumed == Search(next, rest).consumed + 1;
      forall j | 0 <= j < i - 1 ensures !rest[j].Found? {
        assert rest[j] == responses[j + 1];
      }
      ExpectedPagesFromFirstResult(next, rest, i - 1);
    }
  }

  /** A known page count never changes again. */
  lemma {:induction false} KeepsExpectedPages(st: SearchState, responses: seq<Response>)
    requires st.expectedPages.Some?
    ensures Search(st, responses).state.expectedPages == st.expectedPages
    decreases |responses|
  {
    if !st.done && |responses| > 0 && Step(st, responses[0]).Continue? {
      KeepsExpectedPages(Step(st, responses[0]).next, responses[1..]);
    }
  }

  /** A first page rate-limited for exactly 60 seconds ends the search with
      an error before any further request, having sent nothing. */
  lemma InvalidTokenAtStart(rest: seq<Response>)
    ensures Search(Initial, [RateLimited(60)] + rest) == Run(Initial, [], 1, true)
    ensures Outcome(Search(Initial, [RateLimited(60)] + rest)) == Err(InvalidTokenMessage)
  {
  }

  /** A rate limit on a later page, or of another length, retries the same
      page without sending anything. */
  lemma RateLimitRetries(st: SearchState, duration: int)
    requires st.page != 1 || duration != 60
    ensures Step(st, RateLimited(duration)) == Continue(st, [])
  {
  }
}
