/** Listing-id extraction: each link's href is matched against the regular
    expression `/\/ingatlan\/(\d+)/` and the captured digits are kept;
    links without a match are dropped (main.js lines 19-23). */
module ListingIds {
  import opened Wrappers
  import opened Digits

  /** The literal part of the pattern, `\/ingatlan\/`. */
  const Marker: string := "/ingatlan/"

  /** A listing id as the capture group `(\d+)` produces it. */
  predicate IsListingId(s: string) {
    |s| > 0 && AllDigits(s)
  }

  /** The pattern matches when started at position `p`: the marker, then
      at least one digit. */
  predicate MatchAt(s: string, p: nat) {
    p + |Marker| < |s| && s[p..p + |Marker|] == Marker && IsDigit(s[p + |Marker|])
  }

  /** `p` is where the regex engine reports its match: the first start
      position, scanning left to right, at which the pattern matches. */
  predicate IsLeftmostMatch(s: string, p: nat) {
    MatchAt(s, p) && forall q: nat :: q < p ==> !MatchAt(s, q)
  }

  /** The leftmost match position at or after `from`, if any. */
  function FindMatch(s: string, from: nat): (r: Option<nat>)
    decreases |s| - from
    ensures r.Some? ==> from <= r.value && MatchAt(s, r.value)
    ensures r.Some? ==> forall q: nat :: from <= q < r.value ==> !MatchAt(s, q)
    ensures r.None? ==> forall q: nat :: from <= q ==> !MatchAt(s, q)
  {
    if from + |Marker| >= |s| then None
    else if MatchAt(s, from) then Some(from)
    else FindMatch(s, from + 1)
  }

  /** `href.match(/\/ingatlan\/(\d+)/)`, then `match ? match[1] : null`:
      the digit run after the leftmost marker that a digit follows. */
  function MatchId(href: string): (r: Option<string>)
    ensures r.None? <==> forall p: nat :: !MatchAt(href, p)
    ensures r.Some? ==> IsListingId(r.value)
    ensures r.Some? ==> exists p: nat :: IsLeftmostMatch(href, p) && r.value == DigitRun(href[p + |Marker|..])
  {
    match FindMatch(href, 0)
    case None => None
    case Some(p) =>
      assert IsLeftmostMatch(href, p);
      Some(DigitRun(href[p + |Marker|..]))
  }

  /** The ids one link contributes after `.filter(Boolean)`: its capture,
      or nothing. A capture is never the empty string, so it is never
      dropped as falsy. */
  function IdsOf(href: string): (ids: seq<string>)
    ensures |ids| <= 1
    ensures |ids| == 1 <==> MatchId(href).Some?
  {
    match MatchId(href)
    case None => []
    case Some(id) => [id]
  }

  /** `links.map(...).filter(Boolean)` over the hrefs of the page's links. */
  function ExtractIds(hrefs: seq<string>): (ids: seq<string>)
    ensures |ids| <= |hrefs|
  {
    if |hrefs| == 0 then [] else IdsOf(hrefs[0]) + ExtractIds(hrefs[1..])
  }

  /** Every extracted id is a non-empty run of decimal digits. */
  lemma {:induction false} ExtractedIdsWellFormed(hrefs: seq<string>)
    ensures forall i :: 0 <= i < |ExtractIds(hrefs)| ==> IsListingId(ExtractIds(hrefs)[i])
  {
    if |hrefs| > 0 {
      ExtractedIdsWellFormed(hrefs[1..]);
    }
  }

  /** Extraction works link by link and keeps link order: the ids of two
      consecutive groups of links are the two groups' ids, in order. */
  lemma {:induction false} ExtractIdsAppend(a: seq<string>, b: seq<string>)
    ensures ExtractIds(a + b) == ExtractIds(a) + ExtractIds(b)
  {
    if |a| > 0 {
      assert (a + b)[0] == a[0];
      assert (a + b)[1..] == a[1..] + b;
      ExtractIdsAppend(a[1..], b);
    } else {
      assert a + b == b;
    }
  }

  /** An id is extracted exactly when some link's href yields it. */
  lemma {:induction false} ExtractIdsMembers(hrefs: seq<string>, id: string)
    ensures id in ExtractIds(hrefs) <==> exists i :: 0 <= i < |hrefs| && MatchId(hrefs[i]) == Some(id)
  {
    if |hrefs| > 0 {
      ExtractIdsMembers(hrefs[1..], id);
      if id in ExtractIds(hrefs[1..]) {
        var i :| 0 <= i < |hrefs[1..]| && MatchId(hrefs[1..][i]) == Some(id);
        assert MatchId(hrefs[i + 1]) == Some(id);
      }
      if exists i :: 0 <= i < |hrefs| && MatchId(hrefs[i]) == Some(id) {
        var i :| 0 <= i < |hrefs| && MatchId(hrefs[i]) == Some(id);
        if i > 0 {
          assert MatchId(hrefs[1..][i - 1]) == Some(id);
        }
      }
    }
  }
}
