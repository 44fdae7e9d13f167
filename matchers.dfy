/**
  The helper layer of httpmock's request matchers: the mismatch score between
  an expected and an actual request value, the parsing of a request's cookie
  header into a name-to-value map, and the conversion of a text diff into the
  serialisable form the server reports.
 */
module Matchers {
  import opened Wrappers
  import Levenshtein
  import Difference
  import opened BasicCookies

  // ---------------------------------------------------------------------------
  // Data model
  // ---------------------------------------------------------------------------

  /** The local, serialisable copy of `Difference.Difference`. */
  datatype Diff = Same(text: string) | Add(text: string) | Rem(text: string)

  /** The unit a text diff works on. */
  datatype Tokenizer = Line | Word | Character

  datatype DetailedDiffResult = DetailedDiffResult(differences: seq<Diff>, distance: int, tokenizer: Tokenizer)

  datatype SimpleDiffResult = SimpleDiffResult(expected: string, actual: string, operationName: string, bestMatch: bool)

  /** One reason why a request did not match a mock, with its score. */
  datatype Mismatch = Mismatch(
    title: string,
    message: Option<string>,
    reason: Option<SimpleDiffResult>,
    detailedDiff: Option<DetailedDiffResult>,
    score: nat)

  /** A header as a (name, value) pair, in the order the request carries them. */
  type Header = (string, string)

  /** The part of a received request that the helpers read: its optional header list. */
  datatype HttpMockRequest = HttpMockRequest(headers: Option<seq<Header>>)

  // ---------------------------------------------------------------------------
  // Text diffs
  // ---------------------------------------------------------------------------

  /**
    The separator handed to the diff algorithm for each tokenizer. The body is
    the specification: Line splits on "\n", Word on " ", Character on "".
   */
  function Splitter(tokenizer: Tokenizer): (splitter: string)
    ensures |splitter| <= 1
    ensures splitter == "" <==> tokenizer == Character
  {
    match tokenizer
    case Line => "\n"
    case Word => " "
    case Character => ""
  }

  /** Distinct tokenizers give distinct separators. */
  lemma SplitterInjective(t1: Tokenizer, t2: Tokenizer)
    ensures Splitter(t1) == Splitter(t2) ==> t1 == t2
  {
  }

  function FromDifference(d: Difference.Difference): Diff {
    match d
    case Same(v) => Same(v)
    case Add(v) => Add(v)
    case Rem(v) => Rem(v)
  }

  /** The inverse of `FromDifference`. */
  function ToDifference(d: Diff): Difference.Difference {
    match d
    case Same(v) => Difference.Same(v)
    case Add(v) => Difference.Add(v)
    case Rem(v) => Difference.Rem(v)
  }

  /** Converting an external difference keeps its variant and its text. */
  lemma DifferenceRoundTrip(d: Difference.Difference)
    ensures ToDifference(FromDifference(d)) == d
    ensures FromDifference(d).text == d.text
  {
  }

  /** Element-wise conversion of the external diffs, in order. */
  function FromDifferences(diffs: seq<Difference.Difference>): (r: seq<Diff>)
    ensures |r| == |diffs|
    ensures forall i :: 0 <= i < |diffs| ==> ToDifference(r[i]) == diffs[i]
  {
    if |diffs| == 0 then []
    else [FromDifference(diffs[0])] + FromDifferences(diffs[1..])
  }

  /** Runs the supplied diff algorithm with the tokenizer's separator and reports its result. */
  function DiffStr(
    base: string,
    edit: string,
    tokenizer: Tokenizer,
    changesetNew: (string, string, string) -> Difference.Changeset
  ): (r: DetailedDiffResult)
    ensures r.tokenizer == tokenizer
    ensures r.distance == changesetNew(base, edit, Splitter(tokenizer)).distance
    ensures |r.differences| == |changesetNew(base, edit, Splitter(tokenizer)).diffs|
    ensures forall i :: 0 <= i < |r.differences| ==>
      ToDifference(r.differences[i]) == changesetNew(base, edit, Splitter(tokenizer)).diffs[i]
  {
    var changes := changesetNew(base, edit, Splitter(tokenizer));
    DetailedDiffResult(FromDifferences(changes.diffs), changes.distance, tokenizer)
  }

  /** The plain edit distance between two strings. */
  function DiffStrNew(s1: string, s2: string): (d: nat)
    ensures d == 0 <==> s1 == s2
    ensures d <= Levenshtein.Max(|s1|, |s2|)
    ensures |s1| <= |s2| + d && |s2| <= |s1| + d
    ensures d == Levenshtein.Distance(s2, s1)
  {
    Levenshtein.ZeroDistanceIff(s1, s2);
    Levenshtein.DistanceAtMostLonger(s1, s2);
    Levenshtein.DistanceAtLeastLengthGap(s1, s2);
    Levenshtein.DistanceSymmetric(s1, s2);
    Levenshtein.Distance(s1, s2)
  }

  // ---------------------------------------------------------------------------
  // Mismatch scores
  // ---------------------------------------------------------------------------

  /**
    The mismatch score of `actual` against `expected`: 0 when both are empty,
    otherwise 100 minus the integer quotient of (total length - edit distance)
    by the total length. That quotient is 1 only at edit distance 0, so the
    score is 99 for equal strings and 100 for all others.
   */
  function DistanceFor(expected: string, actual: string): (score: nat)
    ensures expected == "" && actual == "" ==> score == 0
    ensures expected != "" && expected == actual ==> score == 99
    ensures expected != actual ==> score == 100
  {
    var maxDistance := |expected| + |actual|;
    if maxDistance == 0 then 0
    else
      var distance := Levenshtein.Distance(expected, actual);
      Levenshtein.DistanceAtMostLonger(expected, actual);
      Levenshtein.ZeroDistanceIff(expected, actual);
      var slack: nat := maxDistance - distance;
      QuotientOfSlack(maxDistance, distance);
      100 - slack / maxDistance
  }

  /** Integer division of the slack by the total length is 1 at distance 0 and 0 above it. */
  lemma QuotientOfSlack(maxDistance: nat, distance: nat)
    requires 0 < maxDistance && distance <= maxDistance
    ensures (maxDistance - distance) / maxDistance == if distance == 0 then 1 else 0
  {
  }

  /** The summed scores of every actual value against one expected value. */
  function DistanceForVec(expected: string, actual: seq<string>): (total: nat)
    ensures total <= 100 * |actual|
  {
    if |actual| == 0 then 0
    else DistanceFor(expected, actual[0]) + DistanceForVec(expected, actual[1..])
  }

  /** Appending one value adds exactly its own score. */
  lemma {:induction false} DistanceForVecAppend(expected: string, actual: seq<string>, e: string)
    ensures DistanceForVec(expected, actual + [e]) == DistanceForVec(expected, actual) + DistanceFor(expected, e)
  {
    if |actual| > 0 {
      assert (actual + [e])[1..] == actual[1..] + [e];
      DistanceForVecAppend(expected, actual[1..], e);
    }
  }

  /**
    Every actual value scores 100 except the copies of `expected`, which score
    99 each, or 0 each when `expected` is empty.
   */
  lemma {:induction false} DistanceForVecCount(expected: string, actual: seq<string>)
    ensures DistanceForVec(expected, actual)
      == 100 * |actual| - (if expected == "" then 100 else 1) * multiset(actual)[expected]
  {
    if |actual| > 0 {
      assert actual == [actual[0]] + actual[1..];
      DistanceForVecCount(expected, actual[1..]);
    }
  }

  /** An absent value is shown as the empty string. */
  function Rendered(value: Option<string>): string {
    match value
    case None => ""
    case Some(s) => s
  }

  /** The score of two optional values, an absent one counting as empty. */
  function DistanceForOpt(expected: Option<string>, actual: Option<string>): (score: nat)
    ensures score == 0 <==> Rendered(expected) == "" && Rendered(actual) == ""
    ensures score == 99 <==> Rendered(expected) != "" && Rendered(expected) == Rendered(actual)
    ensures score == 100 <==> Rendered(expected) != Rendered(actual)
  {
    DistanceFor(Rendered(expected), Rendered(actual))
  }

  /** `None` on either side scores exactly like the empty string. */
  lemma AbsentIsEmpty(expected: Option<string>, actual: Option<string>)
    ensures DistanceForOpt(None, actual) == DistanceForOpt(Some(""), actual)
    ensures DistanceForOpt(expected, None) == DistanceForOpt(expected, Some(""))
    ensures DistanceForOpt(None, None) == 0
  {
  }

  // ---------------------------------------------------------------------------
  // Cookies
  // ---------------------------------------------------------------------------

  function LowerChar(c: char): char {
    if 'A' <= c <= 'Z' then (c as int + 32) as char else c
  }

  predicate IsLowerCase(s: string) {
    forall i :: 0 <= i < |s| ==> !('A' <= s[i] <= 'Z')
  }

  /** Lower-cases the ASCII letters of `s`, leaving every other character as it is. */
  function ToLower(s: string): (r: string)
    ensures |r| == |s|
    ensures IsLowerCase(r)
    ensures IsLowerCase(s) ==> r == s
    ensures forall i :: 0 <= i < |s| ==>
      r[i] == s[i] || ('A' <= s[i] <= 'Z' && r[i] as int == s[i] as int + 32)
  {
    if |s| == 0 then ""
    else [LowerChar(s[0])] + ToLower(s[1..])
  }

  predicate IsCookieHeader(name: string) {
    ToLower(name) == "cookie"
  }

  /** Header `i` is the first whose lower-cased name is `cookie`. */
  predicate IsFirstCookieHeader(headers: seq<Header>, i: int) {
    && 0 <= i < |headers|
    && IsCookieHeader(headers[i].0)
    && forall j :: 0 <= j < i ==> !IsCookieHeader(headers[j].0)
  }

  /** At most one header is the first cookie header. */
  lemma FirstCookieHeaderUnique(headers: seq<Header>, i: int, j: int)
    requires IsFirstCookieHeader(headers, i) && IsFirstCookieHeader(headers, j)
    ensures i == j
  {
  }

  /** The position of the first cookie header, if any. */
  function FirstCookieHeader(headers: seq<Header>): (r: Option<nat>)
    ensures r.Some? ==> IsFirstCookieHeader(headers, r.value)
    ensures r.None? <==> forall j :: 0 <= j < |headers| ==> !IsCookieHeader(headers[j].0)
  {
    if |headers| == 0 then None
    else if IsCookieHeader(headers[0].0) then Some(0)
    else match FirstCookieHeader(headers[1..])
      case None => None
      case Some(i) => Some(i + 1)
  }

  /** Appending headers does not move a cookie header that is already first. */
  lemma FirstCookieHeaderOfPrefix(headers: seq<Header>, later: seq<Header>, i: int)
    requires IsFirstCookieHeader(headers, i)
    ensures FirstCookieHeader(headers + later) == Some(i)
  {
    var all := headers + later;
    assert IsFirstCookieHeader(all, i) by {
      assert all[i] == headers[i];
      forall j | 0 <= j < i
        ensures !IsCookieHeader(all[j].0)
      {
        assert all[j] == headers[j];
      }
    }
    FirstCookieHeaderUnique(all, i, FirstCookieHeader(all).value);
  }

  /** The key a cookie is stored under. */
  function Key(c: Cookie): string {
    ToLower(c.name)
  }

  /** Cookie `i` is the last one stored under its key. */
  predicate IsLastWithKey(cookies: seq<Cookie>, i: nat)
    requires i < |cookies|
  {
    forall j :: i < j < |cookies| ==> Key(cookies[j]) != Key(cookies[i])
  }

  /** Every cookie's key is stored in `jar`. */
  predicate HoldsAllKeys(cookies: seq<Cookie>, jar: map<string, string>) {
    forall i :: 0 <= i < |cookies| ==> Key(cookies[i]) in jar
  }

  /** Every key of `jar` is some cookie's key. */
  predicate HoldsOnlyKeys(cookies: seq<Cookie>, jar: map<string, string>) {
    forall k :: k in jar ==> exists i :: 0 <= i < |cookies| && Key(cookies[i]) == k
  }

  /** Each key maps to the value of the last cookie stored under it. */
  predicate LastValueWins(cookies: seq<Cookie>, jar: map<string, string>)
    requires HoldsAllKeys(cookies, jar)
  {
    forall i :: 0 <= i < |cookies| && IsLastWithKey(cookies, i) ==> jar[Key(cookies[i])] == cookies[i].value
  }

  /** Storing the last cookie keeps every earlier key and adds its own. */
  lemma StoreLastKeepsAllKeys(cookies: seq<Cookie>, jar: map<string, string>)
    requires |cookies| > 0 && HoldsAllKeys(cookies[..|cookies| - 1], jar)
    ensures HoldsAllKeys(cookies, jar[Key(cookies[|cookies| - 1]) := cookies[|cookies| - 1].value])
  {
  }

  /** Storing the last cookie adds no key that no cookie has. */
  lemma StoreLastKeepsOnlyKeys(cookies: seq<Cookie>, jar: map<string, string>)
    requires |cookies| > 0 && HoldsOnlyKeys(cookies[..|cookies| - 1], jar)
    ensures HoldsOnlyKeys(cookies, jar[Key(cookies[|cookies| - 1]) := cookies[|cookies| - 1].value])
  {
  }

  /** After storing the last cookie, each key still holds its last cookie's value. */
  lemma StoreLastKeepsLastValue(cookies: seq<Cookie>, jar: map<string, string>)
    requires |cookies| > 0 && HoldsAllKeys(cookies[..|cookies| - 1], jar)
    requires LastValueWins(cookies[..|cookies| - 1], jar)
    ensures HoldsAllKeys(cookies, jar[Key(cookies[|cookies| - 1]) := cookies[|cookies| - 1].value])
    ensures LastValueWins(cookies, jar[Key(cookies[|cookies| - 1]) := cookies[|cookies| - 1].value])
  {
    // Each earlier cookie that is last with its key in `cookies` is also last in the prefix,
    // and its key differs from the key of the cookie stored now.
    var n := |cookies|;
    var prefix, last := cookies[..n - 1], cookies[n - 1];
    StoreLastKeepsAllKeys(cookies, jar);
    forall i | 0 <= i < n - 1 && IsLastWithKey(cookies, i)
      ensures jar[Key(last) := last.value][Key(cookies[i])] == cookies[i].value
    {
      assert prefix[i] == cookies[i];
      forall j | i < j < n - 1
        ensures Key(prefix[j]) != Key(prefix[i])
      {
        assert prefix[j] == cookies[j];
      }
      assert IsLastWithKey(prefix, i);
    }
  }

  /**
    Collects parsed cookies into a map keyed by lower-cased name; a later
    cookie replaces an earlier one with the same key.
   */
  function CollectCookies(cookies: seq<Cookie>): (jar: map<string, string>)
    ensures forall k :: k in jar ==> IsLowerCase(k)
    ensures forall i :: 0 <= i < |cookies| ==> Key(cookies[i]) in jar
    ensures forall k :: k in jar ==> exists i :: 0 <= i < |cookies| && Key(cookies[i]) == k
    ensures forall i :: 0 <= i < |cookies| && IsLastWithKey(cookies, i) ==> jar[Key(cookies[i])] == cookies[i].value
  {
    if |cookies| == 0 then map[]
    else
      var last := cookies[|cookies| - 1];
      var jar := CollectCookies(cookies[..|cookies| - 1]);
      StoreLastKeepsOnlyKeys(cookies, jar);
      StoreLastKeepsLastValue(cookies, jar);
      jar[Key(last) := last.value]
  }

  /**
    The cookies of a request: the first header named `cookie` in any case is
    parsed; without one the result is an empty map, and a parse failure is
    reported as its error message.
   */
  function ParseCookies(req: HttpMockRequest, parse: string -> Result<seq<Cookie>, string>): (r: Result<map<string, string>, string>)
    ensures req.headers.None? ==> r == Ok(map[])
    ensures req.headers.Some? && (forall j :: 0 <= j < |req.headers.value| ==> !IsCookieHeader(req.headers.value[j].0))
      ==> r == Ok(map[])
    ensures forall i ::
              req.headers.Some? && IsFirstCookieHeader(req.headers.value, i) && parse(req.headers.value[i].1).Err?
              ==> r == Err(parse(req.headers.value[i].1).error)
    ensures forall i ::
              req.headers.Some? && IsFirstCookieHeader(req.headers.value, i) && parse(req.headers.value[i].1).Ok?
              ==> r == Ok(CollectCookies(parse(req.headers.value[i].1).value))
    ensures r.Ok? ==> forall k :: k in r.value ==> IsLowerCase(k)
  {
    match req.headers
    case None => Ok(map[])
    case Some(headers) =>
      match FirstCookieHeader(headers)
      case None =>
        assert forall j :: !IsFirstCookieHeader(headers, j);
        Ok(map[])
      case Some(i) =>
        assert forall j :: IsFirstCookieHeader(headers, j) ==> j == i by {
          forall j | IsFirstCookieHeader(headers, j) ensures j == i {
            FirstCookieHeaderUnique(headers, i, j);
          }
        }
        match parse(headers[i].1)
        case Err(e) => Err(e)
        case Ok(cookies) => Ok(CollectCookies(cookies))
  }

  /** Headers after the first cookie header, cookie headers included, do not change the result. */
  lemma OnlyFirstCookieHeaderCounts(
    headers: seq<Header>,
    later: seq<Header>,
    parse: string -> Result<seq<Cookie>, string>)
    requires exists j :: 0 <= j < |headers| && IsCookieHeader(headers[j].0)
    ensures ParseCookies(HttpMockRequest(Some(headers + later)), parse)
         == ParseCookies(HttpMockRequest(Some(headers)), parse)
  {
    FirstCookieHeaderOfPrefix(headers, later, FirstCookieHeader(headers).value);
  }
}
