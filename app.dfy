/**
 * The check logic of app.py.  The POST branch of `index` (app.py:40-77) and
 * `check_url` (app.py:93-131) run the same steps with the same rules and
 * differ only in their log text, so both are modelled by `Check`.
 */
module App {
  import opened Wrappers
  import opened Detector
  import opened Database

  // ---------------------------------------------------------------------
  // Substring tests on the exception text

  /** Python's `sub in s`. */
  predicate Contains(s: string, sub: string)
    decreases |s|
  {
    sub <= s || (s != [] && Contains(s[1..], sub))
  }

  predicate IsUpper(c: char) {
    'A' <= c <= 'Z'
  }

  function LowerChar(c: char): (d: char)
    ensures !IsUpper(d)
  {
    if IsUpper(c) then (c as int + 32) as char else c
  }

  /** `str.lower()` on the letters A-Z. */
  function Lower(s: string): (r: string)
    ensures |r| == |s|
    ensures forall i :: 0 <= i < |s| ==> r[i] == LowerChar(s[i])
  {
    seq(|s|, i requires 0 <= i < |s| => LowerChar(s[i]))
  }

  // ---------------------------------------------------------------------
  // Error classification (app.py:62-71 and 116-125)

  datatype ErrorKind = Blocked | Certificate | Timeout | Connection | Unknown

  /** The handlers' `if`/`elif` chain over the exception text.  The tests are
      tried in order: "403"; then "SSL" (case-sensitive) or "certificate";
      then "timeout"; then "connection"; the last three on the lower-cased text. */
  function Classify(message: string): (k: ErrorKind)
    ensures k == Blocked <==> Contains(message, "403")
    ensures k == Certificate ==> Contains(message, "SSL") || Contains(Lower(message), "certificate")
    ensures k == Timeout ==> Contains(Lower(message), "timeout")
    ensures k == Connection ==> Contains(Lower(message), "connection")
    ensures k in {Timeout, Connection, Unknown} ==>
      !Contains(message, "403") && !Contains(message, "SSL") && !Contains(Lower(message), "certificate")
    ensures k in {Connection, Unknown} ==> !Contains(Lower(message), "timeout")
    ensures k == Unknown ==> !Contains(Lower(message), "connection")
  {
    if Contains(message, "403") then Blocked
    else if Contains(message, "SSL") || Contains(Lower(message), "certificate") then Certificate
    else if Contains(Lower(message), "timeout") then Timeout
    else if Contains(Lower(message), "connection") then Connection
    else Unknown
  }

  const BLOCKED_MESSAGE := "Website blocked " + "automated requests (403 Forbidden). It may require manual access or IP whitelisting."
  const CERTIFICATE_MESSAGE := "SSL/Certificate error: " + "Website has security issues or blocked the request."
  const TIMEOUT_MESSAGE := "Website took " + "too long to respond (timeout). Server may be slow or blocking requests."
  const CONNECTION_MESSAGE := "Connection error: " + "Cannot reach the website. Check if URL is correct or if website is down."
  const UNKNOWN_PREFIX := "Could not access the website: "

  /** The message flashed for a failed check: a fixed text per kind, and for an
      unclassified error a fixed prefix followed by the raw exception text. */
  function UserMessage(kind: ErrorKind, raw: string): (m: string)
    ensures m != []
    ensures kind == Unknown ==> |m| > |raw| && m[|m| - |raw|..] == raw
  {
    match kind
    case Blocked => BLOCKED_MESSAGE
    case Certificate => CERTIFICATE_MESSAGE
    case Timeout => TIMEOUT_MESSAGE
    case Connection => CONNECTION_MESSAGE
    case Unknown =>
      assert (UNKNOWN_PREFIX + raw)[|UNKNOWN_PREFIX|..] == raw;
      UNKNOWN_PREFIX + raw
  }

  /** Each kind has its own message, so the flashed text tells which test of the
      classifier matched. */
  lemma MessageTellsKind(k1: ErrorKind, r1: string, k2: ErrorKind, r2: string)
    ensures UserMessage(k1, r1) == UserMessage(k2, r2) ==> k1 == k2
  {
    var m1, m2 := UserMessage(k1, r1), UserMessage(k2, r2);
    if m1 == m2 {
      assert m1[2] == m2[2] && m1[8] == m2[8];
    }
  }

  // ---------------------------------------------------------------------
  // Status decision (app.py:47-52 and 101-106)

  /** The status of a successful check, given the stored and the new hash. */
  function Decide(stored: Option<string>, latest: string): (s: Status)
    ensures s != Error
    ensures s == Changed <==> stored.Some? && stored.value != latest
  {
    if stored.None? then Ok
    else if latest != stored.value then Changed
    else Ok
  }

  function StatusName(s: Status): string {
    match s
    case Ok => "OK"
    case Changed => "CHANGED"
    case Error => "ERROR"
  }

  /** The arguments a handler passes to `save_page` for one fetch result. */
  datatype Observation = Observation(contentHash: Option<string>, status: Status, error: Option<string>)

  function Observe(stored: Option<string>, fetched: Result<string, string>): (o: Observation)
    ensures o.status == Error <==> fetched.Failure?
    ensures fetched.Success? ==>
      o.contentHash == Some(fetched.value) && o.error == None && o.status == Decide(stored, fetched.value)
    ensures fetched.Failure? ==> o.contentHash == None && o.error == Some(fetched.error)
  {
    match fetched
    case Success(latest) => Observation(Some(latest), Decide(stored, latest), None)
    case Failure(message) => Observation(None, Error, Some(message))
  }

  /** The table key: the submitted URL with surrounding whitespace stripped. */
  function Key(formUrl: string): (k: string)
    ensures |k| <= |formUrl|
    ensures k == [] || (!IsWhitespace(k[0]) && !IsWhitespace(Last(k)))
    ensures k == [] <==> AllWhitespace(formUrl)
  {
    Strip(formUrl)
  }

  /** The page table after one check of `formUrl`. */
  function CheckedRows(rows: map<string, Record>, formUrl: string, fetch: Fetch,
                       digest: string -> string, now: nat): (r: map<string, Record>)
    ensures Key(formUrl) in r && r[Key(formUrl)].lastChecked == now
    ensures r[Key(formUrl)].status == Error <==> GetPageHash(fetch, digest).Failure?
  {
    var key := Key(formUrl);
    var o := Observe(StoredHash(rows, key), GetPageHash(fetch, digest));
    Saved(rows, key, o.contentHash, o.status, o.error, now)
  }

  /** The message flashed after one check. */
  function Notice(fetched: Result<string, string>, status: Status): (n: string)
    ensures fetched.Success? ==> "Website checked: " <= n
    ensures fetched.Failure? ==> n == UserMessage(Classify(fetched.error), fetched.error)
  {
    match fetched
    case Success(_) => "Website checked: " + StatusName(status)
    case Failure(message) => UserMessage(Classify(message), message)
  }

  /** After a successful check the notice names the status, so different
      statuses give different notices; after a failure it does not depend on
      the status. */
  lemma NoticeTellsStatus(fetched: Result<string, string>, s1: Status, s2: Status)
    ensures fetched.Success? && Notice(fetched, s1) == Notice(fetched, s2) ==> s1 == s2
    ensures fetched.Failure? ==> Notice(fetched, s1) == Notice(fetched, s2)
  {
    if fetched.Success? && Notice(fetched, s1) == Notice(fetched, s2) {
      assert |Notice(fetched, s1)| == 17 + |StatusName(s1)|;
      assert |Notice(fetched, s2)| == 17 + |StatusName(s2)|;
    }
  }

  /** One check of a submitted URL (app.py:41-75, and 95-129 likewise). */
  method Check(table: PageTable, formUrl: string, fetch: Fetch, digest: string -> string, now: nat)
    returns (status: Status, notice: string)
    modifies table
    ensures table.rows == CheckedRows(old(table.rows), formUrl, fetch, digest, now)
    ensures Key(formUrl) in table.rows && status == table.rows[Key(formUrl)].status
    ensures status == Error <==> GetPageHash(fetch, digest).Failure?
    ensures notice == Notice(GetPageHash(fetch, digest), status)
  {
    var url := Key(formUrl);
    var fetched := GetPageHash(fetch, digest);
    match fetched
    case Success(newHash) =>
      var oldHash := table.GetPage(url);
      status := Decide(oldHash, newHash);
      table.SavePage(url, Some(newHash), status, None, now);
      notice := "Website checked: " + StatusName(status);
    case Failure(errorMessage) =>
      notice := UserMessage(Classify(errorMessage), errorMessage);
      status := Error;
      table.SavePage(url, None, Error, Some(errorMessage), now);
  }

  // ---------------------------------------------------------------------
  // Properties of a check

  /** Surrounding whitespace in the submitted URL does not matter: the check
      writes the same row under the stripped URL. */
  lemma KeyIgnoresSurroundingWhitespace(rows: map<string, Record>, p: string, url: string, q: string,
                                        fetch: Fetch, digest: string -> string, now: nat)
    requires AllWhitespace(p) && AllWhitespace(q)
    requires url == [] || (!IsWhitespace(url[0]) && !IsWhitespace(Last(url)))
    ensures Key(p + url + q) == url
    ensures CheckedRows(rows, p + url + q, fetch, digest, now) == CheckedRows(rows, url, fetch, digest, now)
  {
    assert Key(p + url + q) == url by { StripOfPadded(p, url, q); }
    assert Key(url) == url by { StripOfStripped(url); }
    SameKeySameRows(rows, p + url + q, url, fetch, digest, now);
  }

  lemma SameKeySameRows(rows: map<string, Record>, formUrl: string, other: string,
                        fetch: Fetch, digest: string -> string, now: nat)
    requires Key(formUrl) == Key(other)
    ensures CheckedRows(rows, formUrl, fetch, digest, now) == CheckedRows(rows, other, fetch, digest, now)
  {
  }

  /** A check changes only the row of its own URL and adds at most that row. */
  lemma CheckTouchesOnlyItsRow(rows: map<string, Record>, formUrl: string, fetch: Fetch,
                               digest: string -> string, now: nat)
    ensures CheckedRows(rows, formUrl, fetch, digest, now).Keys == rows.Keys + {Key(formUrl)}
    ensures forall u :: u in rows && u != Key(formUrl) ==>
      CheckedRows(rows, formUrl, fetch, digest, now)[u] == rows[u]
    ensures CheckedRows(rows, formUrl, fetch, digest, now)[Key(formUrl)].lastChecked == now
  {
  }

  /** The first successful check of a URL is OK, never CHANGED. */
  lemma FirstSuccessfulCheckIsOk(rows: map<string, Record>, formUrl: string, fetch: Fetch,
                                 digest: string -> string, now: nat)
    requires Key(formUrl) !in rows
    requires GetPageHash(fetch, digest).Success?
    ensures CheckedRows(rows, formUrl, fetch, digest, now)[Key(formUrl)]
      == Record(Some(GetPageHash(fetch, digest).value), Ok, now, None, None)
  {
  }

  /** A failed check stores no hash, the ERROR status and the raw error text,
      and keeps the previous change time. */
  lemma FailedCheckRecordsError(rows: map<string, Record>, formUrl: string, fetch: Fetch,
                                digest: string -> string, now: nat)
    requires GetPageHash(fetch, digest).Failure?
    ensures CheckedRows(rows, formUrl, fetch, digest, now)[Key(formUrl)]
      == Record(None, Error, now, if Key(formUrl) in rows then rows[Key(formUrl)].lastChanged else None,
                Some(GetPageHash(fetch, digest).error))
  {
  }

  /** A failed check forgets the stored hash: the next successful check is OK
      whatever the content, as if the page were new. */
  lemma ErrorForgetsStoredHash(rows: map<string, Record>, formUrl: string, failing: Fetch, fetch: Fetch,
                               digest: string -> string, t1: nat, t2: nat)
    requires GetPageHash(failing, digest).Failure?
    requires GetPageHash(fetch, digest).Success?
    ensures CheckedRows(CheckedRows(rows, formUrl, failing, digest, t1), formUrl, fetch, digest, t2)[Key(formUrl)].status
      == Ok
  {
    FailedCheckRecordsError(rows, formUrl, failing, digest, t1);
  }

  /** A page re-fetched with the same words, only laid out differently, stays OK
      and keeps its change time. */
  lemma SameWordsStayOk(rows: map<string, Record>, formUrl: string, a: Response, b: Response,
                        digest: string -> string, t1: nat, t2: nat)
    requires !IsHttpError(a.statusCode) && !IsHttpError(b.statusCode)
    requires Words(a.text) == Words(b.text)
    ensures var first := CheckedRows(rows, formUrl, Received(a), digest, t1);
      var second := CheckedRows(first, formUrl, Received(b), digest, t2);
      second[Key(formUrl)].status == Ok && second[Key(formUrl)].lastChanged == first[Key(formUrl)].lastChanged
  {
    var h := digest(Normalize(a.text));
    assert GetPageHash(Received(b), digest) == Success(h) by {
      NormalizeEqualIffSameWords(a.text, b.text);
    }
    StoredHashAfterFetch(rows, formUrl, Received(a), digest, t1);
  }

  /** With an injective digest, a page re-fetched with different words is
      CHANGED, and its change time is the time of this check. */
  lemma NewWordsAreChanged(rows: map<string, Record>, formUrl: string, a: Response, b: Response,
                           digest: string -> string, t1: nat, t2: nat)
    requires forall x, y :: digest(x) == digest(y) ==> x == y
    requires !IsHttpError(a.statusCode) && !IsHttpError(b.statusCode)
    requires Words(a.text) != Words(b.text)
    ensures var first := CheckedRows(rows, formUrl, Received(a), digest, t1);
      var second := CheckedRows(first, formUrl, Received(b), digest, t2);
      second[Key(formUrl)].status == Changed && second[Key(formUrl)].lastChanged == Some(t2)
  {
    assert GetPageHash(Received(b), digest) != GetPageHash(Received(a), digest) by {
      NormalizeEqualIffSameWords(a.text, b.text);
    }
    StoredHashAfterFetch(rows, formUrl, Received(a), digest, t1);
  }

  /** After a successful check, the stored hash is the fingerprint just computed. */
  lemma StoredHashAfterFetch(rows: map<string, Record>, formUrl: string, fetch: Fetch,
                             digest: string -> string, now: nat)
    requires GetPageHash(fetch, digest).Success?
    ensures StoredHash(CheckedRows(rows, formUrl, fetch, digest, now), Key(formUrl))
      == Some(GetPageHash(fetch, digest).value)
  {
  }

  /** A 403 response makes the check fail with the blocked-access message. */
  lemma ForbiddenCheckIsBlocked(rows: map<string, Record>, formUrl: string, response: Response,
                                digest: string -> string, now: nat)
    requires response.statusCode == 403
    ensures CheckedRows(rows, formUrl, Received(response), digest, now)[Key(formUrl)].status == Error
    ensures Notice(GetPageHash(Received(response), digest), Error)
      == UserMessage(Blocked, GetPageHash(Received(response), digest).error)
  {
    ForbiddenResponseIsBlocked(response, digest);
  }

  // ---------------------------------------------------------------------
  // Properties of the classification

  /** "SSL" is tested case-sensitively: a lower-case "ssl ... timeout" text is
      reported as a timeout, not as a certificate error. */
  lemma LowerCaseSslTimeoutIsTimeout(text: string)
    requires text == "ssl timeout"
    ensures Classify(text) == Timeout
  {
    assert !Contains(text, "403") && !Contains(text, "SSL") by {
      assert '4' !in text && 'S' !in text;
      NotContainsWithoutFirstChar(text, "403");
      NotContainsWithoutFirstChar(text, "SSL");
    }
    assert Lower(text) == text;
    assert !Contains(text, "certificate") by {
      assert 'c' !in text;
      NotContainsWithoutFirstChar(text, "certificate");
    }
    assert Contains(text, "timeout") by {
      assert text[4..] == "timeout";
      ContainsAt(text, "timeout", 4);
    }
  }

  /** The same text with an upper-case "SSL" is a certificate error. */
  lemma UpperCaseSslTimeoutIsCertificate(text: string)
    requires text == "SSL timeout"
    ensures Classify(text) == Certificate
  {
    assert '4' !in text;
    NotContainsWithoutFirstChar(text, "403");
    assert "SSL" <= text;
  }

  /** Without an upper-case "SSL" in it, the case of the exception text does not
      change its classification. */
  lemma ClassifyIgnoresCaseWithoutSsl(message: string)
    requires !Contains(message, "SSL")
    ensures Classify(Lower(message)) == Classify(message)
  {
    LowerKeepsCaselessContains(message, "403");
    LowerIdempotent(message);
    NotContainsWithoutFirstChar(Lower(message), "SSL");
  }

  /** Every 403 response is reported as blocked. */
  lemma ForbiddenResponseIsBlocked(response: Response, digest: string -> string)
    requires response.statusCode == 403
    ensures GetPageHash(Received(response), digest).Failure?
    ensures Classify(GetPageHash(Received(response), digest).error) == Blocked
  {
    DecimalTextOf403();
  }

  /** The "403" test reads the whole text, URL included: a 404 response for a
      URL that mentions 403 is reported as blocked too. */
  lemma UrlMentioning403IsBlocked(response: Response, digest: string -> string)
    requires response.statusCode == 404 && Contains(response.url, "403")
    ensures Classify(GetPageHash(Received(response), digest).error) == Blocked
  {
    var text := HttpErrorText(response);
    var head := DecimalText(404) + " Client Error: " + response.reason + " for url: ";
    assert text == head + response.url;
    ContainsInSuffix(head, response.url, "403");
  }

  lemma DecimalTextOf403()
    ensures DecimalText(403) == "403"
  {
    assert DecimalText(4) == "4";
    assert DecimalText(40) == "40";
  }

  // ---------------------------------------------------------------------
  // Substring helper lemmas

  lemma {:induction false} ContainsAt(s: string, sub: string, k: nat)
    requires k <= |s| && sub <= s[k..]
    ensures Contains(s, sub)
  {
    if k > 0 {
      assert s[1..][k - 1..] == s[k..];
      ContainsAt(s[1..], sub, k - 1);
    }
  }

  lemma {:induction false} ContainsInSuffix(prefix: string, s: string, sub: string)
    requires Contains(s, sub)
    ensures Contains(prefix + s, sub)
  {
    if prefix != [] {
      assert (prefix + s)[1..] == prefix[1..] + s;
      ContainsInSuffix(prefix[1..], s, sub);
    } else {
      assert prefix + s == s;
    }
  }

  lemma {:induction false} NotContainsWithoutFirstChar(s: string, sub: string)
    requires sub != [] && sub[0] !in s
    ensures !Contains(s, sub)
  {
    if s != [] {
      assert s[0] != sub[0];
      assert forall c :: c in s[1..] ==> c in s;
      NotContainsWithoutFirstChar(s[1..], sub);
    }
  }

  lemma LowerIdempotent(s: string)
    ensures Lower(Lower(s)) == Lower(s)
  {
  }

  /** Lower-casing the text keeps and creates no occurrence of a needle made of non-letters. */
  lemma {:induction false} LowerKeepsCaselessContains(s: string, sub: string)
    requires forall i :: 0 <= i < |sub| ==> LowerChar(sub[i]) == sub[i] && !IsUpper(sub[i])
    requires forall i :: 0 <= i < |sub| ==> !('a' <= sub[i] <= 'z')
    ensures Contains(Lower(s), sub) <==> Contains(s, sub)
    decreases |s|
  {
    var l := Lower(s);
    assert sub <= l <==> sub <= s by {
      if |sub| <= |s| {
        assert forall i :: 0 <= i < |sub| ==> (l[i] == sub[i] <==> s[i] == sub[i]);
      }
    }
    if s != [] {
      assert Lower(s)[1..] == Lower(s[1..]);
      LowerKeepsCaselessContains(s[1..], sub);
    }
  }
}
