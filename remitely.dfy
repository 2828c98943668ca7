/** The Remitely scraper (scrapers/remitely.js): page-title extraction with
    `/<title>(.*?)<\/title>/i`, the pacing delay, and the catch-log-rethrow
    boundary. The network and the clock are inputs. */
module Remitely {
  import opened Common

  const OpenTag: string := "<title>"
  const CloseTag: string := "</title>"

  /** The pacing target of one scraper run, in milliseconds. */
  const PacingFloorMs: int := 20000

  /** The characters the regular-expression `.` does not match (no `s` flag). */
  predicate IsLineTerminator(c: char)
  {
    c == '\n' || c == '\r' || c == '\U{2028}' || c == '\U{2029}'
  }

  /** Case folding under the `i` flag for the characters of the two tags: only
      ASCII letters fold, since a non-ASCII character never folds to ASCII. */
  function LowerAscii(c: char): char
  {
    if 'A' <= c <= 'Z' then (c as int + 32) as char else c
  }

  /** `s` holds `tag` (lower case) at index `i`, ignoring ASCII letter case. */
  predicate TagAt(s: string, i: nat, tag: string)
  {
    i + |tag| <= |s| && forall k :: 0 <= k < |tag| ==> LowerAscii(s[i + k]) == tag[k]
  }

  /** From index `j`, `.*?` can stretch to a `</title>` starting at `q`: no line
      terminator lies in between. */
  ghost predicate ReachesClose(s: string, j: nat, q: nat)
  {
    && j <= q && TagAt(s, q, CloseTag)
    && forall m :: j <= m < q ==> !IsLineTerminator(s[m])
  }

  /** The whole pattern matches `s[p..q + 8]`, capturing `s[p + 7..q]`. */
  ghost predicate IsMatch(s: string, p: nat, q: nat)
  {
    TagAt(s, p, OpenTag) && ReachesClose(s, p + |OpenTag|, q)
  }

  /** The lazy group: the nearest `</title>` from `j` on the same line. */
  function FindClose(s: string, j: nat): (r: Option<nat>)
    ensures r.Some? ==> ReachesClose(s, j, r.value)
    ensures r.Some? ==> forall q :: ReachesClose(s, j, q) ==> r.value <= q
    ensures r.None? ==> forall q :: !ReachesClose(s, j, q)
    decreases |s| - j
  {
    if j >= |s| then None
    else if TagAt(s, j, CloseTag) then Some(j)
    else if IsLineTerminator(s[j]) then None
    else
      assert forall q :: ReachesClose(s, j, q) ==> ReachesClose(s, j + 1, q);
      FindClose(s, j + 1)
  }

  /** The regular-expression search from index `p`: try each start position in
      turn and take the first at which the whole pattern matches. */
  function FindTitle(s: string, p: nat): (r: Option<(nat, nat)>)
    ensures r.Some? ==> p <= r.value.0 && IsMatch(s, r.value.0, r.value.1)
    ensures r.Some? ==> forall p', q' :: p <= p' && IsMatch(s, p', q') ==>
      r.value.0 < p' || (r.value.0 == p' && r.value.1 <= q')
    ensures r.None? ==> forall p', q' :: p <= p' ==> !IsMatch(s, p', q')
    decreases |s| - p
  {
    if p >= |s| then None
    else if TagAt(s, p, OpenTag) then
      match FindClose(s, p + |OpenTag|)
      case Some(q) => Some((p, q))
      case None => FindTitle(s, p + 1)
    else FindTitle(s, p + 1)
  }

  /** `html.match(/<title>(.*?)<\/title>/i)`, giving `titleMatch[1]` when it
      matches. A title is reported exactly when the pattern matches somewhere,
      and then it is the text between the earliest `<title>` that has a
      `</title>` later on its line and the nearest such `</title>`. */
  function ExtractTitle(html: string): (r: Option<string>)
    ensures r.None? <==> forall p: nat, q: nat :: !IsMatch(html, p, q)
    ensures r.Some? ==> exists p: nat, q: nat ::
      && IsMatch(html, p, q) && r.value == html[p + |OpenTag|..q]
      && forall p': nat, q': nat :: IsMatch(html, p', q') ==> p < p' || (p == p' && q <= q')
  {
    match FindTitle(html, 0)
    case None => None
    case Some((p, q)) =>
      var t := html[p + |OpenTag|..q];
      assert IsMatch(html, p, q) && t == html[p + |OpenTag|..q];
      Some(t)
  }

  /** The captured title never spans a line terminator, because `.` does not
      match one. */
  lemma TitleHasNoLineTerminator(html: string)
    requires ExtractTitle(html).Some?
    ensures forall k :: 0 <= k < |ExtractTitle(html).value| ==> !IsLineTerminator(ExtractTitle(html).value[k])
  {
    match FindTitle(html, 0)
    case Some((p, q)) =>
      var t := html[p + |OpenTag|..q];
      assert forall k :: 0 <= k < |t| ==> t[k] == html[p + |OpenTag| + k];
  }

  /** `Math.max(0, 20000 - elapsed)`: the wait that brings the run up to the
      pacing floor, and nothing once the floor has passed. */
  function RemainingTime(elapsed: int): (r: int)
    ensures r >= 0
    ensures r == 0 <==> elapsed >= PacingFloorMs
    ensures elapsed >= 0 ==> r <= PacingFloorMs
    ensures elapsed + r == if elapsed < PacingFloorMs then PacingFloorMs else elapsed
  {
    Max(0, PacingFloorMs - elapsed)
  }

  /** `Math.max` on integers: the larger of the two. */
  function Max(a: int, b: int): (r: int)
    ensures r >= a && r >= b
    ensures r == a || r == b
  {
    if a >= b then a else b
  }

  /** What `fetch(...)` followed by `response.text()` produce: a response, or a
      rejection (network error) with its message. */
  datatype FetchResult = Response(status: int, statusText: string, body: string) | Rejected(message: string)

  /** The scraper's observable steps, in order: its log lines, abstracted from
      their wording, and the pacing wait. */
  datatype Event =
    | Banner                                    // the four start lines
    | StatusLine(status: int, statusText: string)
    | ContentLength(length: nat)
    | PageTitle(title: string)
    | ProcessingNotice(remainingMs: int)
    | Wait(ms: int)
    | CompletedLine
    | ErrorLine(message: string)

  /** The lines logged, in order, for a request that resolves: start banner,
      status, length, the title if one was found, the processing notice and
      the wait if time remains, and the completion line. */
  function ResponseLog(status: int, statusText: string, length: nat, title: Option<string>, remaining: int): seq<Event>
  {
    [Banner, StatusLine(status, statusText), ContentLength(length)]
    + (if title.Some? then [PageTitle(title.value)] else [])
    + (if remaining > 0 then [ProcessingNotice(remaining), Wait(remaining)] else [])
    + [CompletedLine]
  }

  /** What the resolved-request log shows: it starts with the banner, status and
      length lines and ends with the completion line; a title line appears
      exactly for the title found; the notice and the wait appear together,
      exactly when time remains, for that long; no error line appears. */
  lemma ResponseLogShape(status: int, statusText: string, length: nat, title: Option<string>, remaining: int)
    ensures var log := ResponseLog(status, statusText, length, title, remaining);
      && |log| >= 4
      && log[..3] == [Banner, StatusLine(status, statusText), ContentLength(length)]
      && log[|log| - 1] == CompletedLine
      && (forall ms :: ProcessingNotice(ms) in log <==> Wait(ms) in log)
      && (forall t :: PageTitle(t) in log <==> title == Some(t))
      && (forall ms :: Wait(ms) in log <==> remaining > 0 && ms == remaining)
      && (forall e :: e in log ==> !e.ErrorLine?)
  {
    var head := [Banner, StatusLine(status, statusText), ContentLength(length)];
    var titleLine := if title.Some? then [PageTitle(title.value)] else [];
    var wait := if remaining > 0 then [ProcessingNotice(remaining), Wait(remaining)] else [];
    var log := ResponseLog(status, statusText, length, title, remaining);
    assert log == head + titleLine + wait + [CompletedLine];
    assert forall e :: e in log <==> e in head || e in titleLine || e in wait || e == CompletedLine;
  }

  /** The body of `remitelyScraper`. `elapsed` is `Date.now() - startTime` as
      read at line 28. The HTTP status is logged but never checked: only a
      rejection of the request fails the scraper, and its error is rethrown
      unchanged after being logged. */
  method Scrape(fetch: FetchResult, elapsed: int) returns (log: seq<Event>, outcome: Outcome)
    ensures outcome == Ok <==> fetch.Response?
    ensures fetch.Rejected? ==> outcome == Fail(fetch.message) && log == [Banner, ErrorLine(fetch.message)]
    ensures fetch.Response? ==> |log| >= 4
    ensures fetch.Response? ==> log[..3] == [Banner, StatusLine(fetch.status, fetch.statusText), ContentLength(|fetch.body|)]
    ensures fetch.Response? ==> log[|log| - 1] == CompletedLine
    ensures fetch.Response? ==> log == ResponseLog(fetch.status, fetch.statusText, |fetch.body|, ExtractTitle(fetch.body), RemainingTime(elapsed))
    ensures fetch.Response? ==> forall ms :: ProcessingNotice(ms) in log <==> Wait(ms) in log
    ensures fetch.Response? ==> forall t :: PageTitle(t) in log <==> ExtractTitle(fetch.body) == Some(t)
    ensures fetch.Response? ==> forall ms :: Wait(ms) in log <==> RemainingTime(elapsed) > 0 && ms == RemainingTime(elapsed)
    ensures forall e :: e in log && e.ErrorLine? ==> fetch.Rejected?
  {
    log := [Banner];
    match fetch {
      case Rejected(message) =>
        log := log + [ErrorLine(message)];
        outcome := Fail(message);
      case Response(status, statusText, html) =>
        log := log + [StatusLine(status, statusText), ContentLength(|html|)];
        var titleMatch := ExtractTitle(html);
        if titleMatch.Some? {
          log := log + [PageTitle(titleMatch.value)];
        }
        var remainingTime := RemainingTime(elapsed);
        if remainingTime > 0 {
          log := log + [ProcessingNotice(remainingTime), Wait(remainingTime)];
        }
        log := log + [CompletedLine];
        outcome := Ok;
        ResponseLogShape(status, statusText, |html|, titleMatch, remainingTime);
    }
  }

  /** Conversely, the earliest match (nearest `</title>` for that start) is the
      title extracted. */
  lemma EarliestMatchIsTitle(html: string, p: nat, q: nat)
    requires IsMatch(html, p, q)
    requires forall p': nat, q': nat :: IsMatch(html, p', q') ==> p < p' || (p == p' && q <= q')
    ensures ExtractTitle(html) == Some(html[p + |OpenTag|..q])
  {
    var r := FindTitle(html, 0);
    assert r.Some?;
    assert r.value == (p, q);
  }

  /** No `</title>` starts where `html[a..b]` has no `<`. */
  lemma NoCloseWithoutBracket(html: string, a: nat, b: nat)
    requires a <= b <= |html| && '<' !in html[a..b]
    ensures forall q :: a <= q < b ==> !TagAt(html, q, CloseTag)
  {
    forall q | a <= q < b ensures !TagAt(html, q, CloseTag) {
      assert html[q] == html[a..b][q - a];
      assert LowerAscii(html[q + 0]) != CloseTag[0];
    }
  }

  /** `<TITLE>` and `</Title>` match regardless of letter case. */
  lemma CaseInsensitiveExample()
    ensures ExtractTitle("<TITLE>Remitly</Title>") == Some("Remitly")
  {
    var s := "<TITLE>Remitly</Title>";
    assert TagAt(s, 0, OpenTag);
    assert TagAt(s, 14, CloseTag);
    assert s[7..14] == "Remitly" by {
      var t := s[7..14];
      assert |t| == 7;
      assert t[0] == 'R' && t[1] == 'e' && t[2] == 'm' && t[3] == 'i' && t[4] == 't' && t[5] == 'l' && t[6] == 'y';
    }
    NoCloseWithoutBracket(s, 7, 14);
    EarliestMatchIsTitle(s, 0, 14);
  }

  /** The earliest `<title>` and the nearest `</title>` after it win. */
  lemma EarliestNearestExample()
    ensures ExtractTitle("<title>a</title><title>b</title>") == Some("a")
  {
    var s := "<title>a</title><title>b</title>";
    assert TagAt(s, 0, OpenTag);
    assert TagAt(s, 8, CloseTag);
    assert s[7..8] == [s[7]] && s[7] == 'a';
    NoCloseWithoutBracket(s, 7, 8);
    EarliestMatchIsTitle(s, 0, 8);
  }
}
