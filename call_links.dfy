/**
 The link filter of the scraper's call discovery: each anchor's `href` whose
 path holds a `/YYYY/MM/DD/` segment becomes a call stub carrying the date
 (`YYYY-MM-DD`) and the link itself.
 */
module CallLinks {
  import opened Wrappers

  /** A discovered transcript before its content is fetched. */
  datatype CallStub = CallStub(date: string, link: string)

  /** `\d`, restricted to ASCII digits. */
  predicate IsDigit(c: char) {
    '0' <= c <= '9'
  }

  predicate AllDigits(s: string) {
    forall k :: 0 <= k < |s| ==> IsDigit(s[k])
  }

  /** Length of a `/DDDD/DD/DD/` segment. */
  const SegmentLength: nat := 12

  /** The pattern `/(\d{4}/\d{2}/\d{2})/` matches `s` starting at index `i`. */
  predicate DateSegmentAt(s: string, i: nat) {
    && i + SegmentLength <= |s|
    && s[i] == '/' && AllDigits(s[i + 1..i + 5])
    && s[i + 5] == '/' && AllDigits(s[i + 6..i + 8])
    && s[i + 8] == '/' && AllDigits(s[i + 9..i + 11])
    && s[i + 11] == '/'
  }

  /** `i` is where a regular-expression search finds the pattern: the leftmost match. */
  ghost predicate IsFirstSegment(s: string, i: nat) {
    DateSegmentAt(s, i) && forall k: nat :: k < i ==> !DateSegmentAt(s, k)
  }

  /** Search for the pattern from index `i` on. */
  function SearchFrom(s: string, i: nat): (r: Option<nat>)
    requires i <= |s|
    decreases |s| - i
    ensures r.Some? ==> i <= r.value && DateSegmentAt(s, r.value)
    ensures r.Some? ==> forall k: nat :: i <= k < r.value ==> !DateSegmentAt(s, k)
    ensures r.None? ==> forall k: nat :: i <= k ==> !DateSegmentAt(s, k)
  {
    if i + SegmentLength > |s| then None
    else if DateSegmentAt(s, i) then Some(i)
    else SearchFrom(s, i + 1)
  }

  /** The regular-expression search: the leftmost match, or none when no position matches. */
  function Search(s: string): (r: Option<nat>)
    ensures r.Some? ==> IsFirstSegment(s, r.value)
    ensures r.None? <==> forall k: nat :: !DateSegmentAt(s, k)
  {
    SearchFrom(s, 0)
  }

  /** `str.replace('/', '-')`. */
  function ReplaceSlashes(s: string): (r: string)
    ensures |r| == |s|
    ensures forall k :: 0 <= k < |s| ==> r[k] == if s[k] == '/' then '-' else s[k]
  {
    if s == [] then []
    else [if s[0] == '/' then '-' else s[0]] + ReplaceSlashes(s[1..])
  }

  /** An ISO date `YYYY-MM-DD` written with ASCII digits. */
  predicate IsIsoDate(d: string) {
    |d| == 10 && AllDigits(d[..4]) && d[4] == '-' && AllDigits(d[5..7]) && d[7] == '-' && AllDigits(d[8..])
  }

  /** The date of the segment at `i`: its captured group with `/` replaced by `-`. */
  function DateOf(s: string, i: nat): (date: string)
    requires DateSegmentAt(s, i)
    ensures IsIsoDate(date)
    ensures date[..4] == s[i + 1..i + 5] && date[5..7] == s[i + 6..i + 8] && date[8..] == s[i + 9..i + 11]
  {
    var date := ReplaceSlashes(s[i + 1..i + 11]);
    assert date[..4] == s[i + 1..i + 5];
    assert date[5..7] == s[i + 6..i + 8] by {
      forall k | 5 <= k < 7 ensures date[k] == s[i + 1 + k] {
        assert s[i + 6..i + 8][k - 5] == s[i + 1 + k];
      }
    }
    assert date[8..] == s[i + 9..i + 11];
    date
  }

  /**
   The stub one anchor yields: none for a missing or empty `href` or one
   without a date segment; otherwise the first segment's date and the `href`
   unchanged.
   */
  function StubFor(href: Option<string>): (r: Option<CallStub>)
    ensures r.Some? <==> href.Some? && exists i: nat :: DateSegmentAt(href.value, i)
    ensures r.Some? ==> r.value.link == href.value && IsIsoDate(r.value.date)
    ensures r.Some? ==> exists i: nat :: IsFirstSegment(href.value, i) && r.value.date == DateOf(href.value, i)
  {
    if href.None? || href.value == "" then None
    else match Search(href.value)
      case None => None
      case Some(i) => Some(CallStub(DateOf(href.value, i), href.value))
  }

  /** The stubs of all anchors, in anchor order. */
  function CallLinks(hrefs: seq<Option<string>>): (links: seq<CallStub>)
    ensures |links| <= |hrefs|
    ensures forall s :: s in links ==> IsIsoDate(s.date) && Some(s.link) in hrefs
  {
    if hrefs == [] then []
    else
      var init := CallLinks(hrefs[..|hrefs| - 1]);
      match StubFor(hrefs[|hrefs| - 1])
      case None => init
      case Some(stub) => init + [stub]
  }

  /** Order is kept: the stubs of two runs of anchors are the stubs of each, one after the other. */
  lemma {:induction false} CallLinksConcat(a: seq<Option<string>>, b: seq<Option<string>>)
    ensures CallLinks(a + b) == CallLinks(a) + CallLinks(b)
    decreases |b|
  {
    if b == [] {
      assert a + b == a;
    } else {
      var b' := b[..|b| - 1];
      assert (a + b)[..|a + b| - 1] == a + b';
      assert (a + b)[|a + b| - 1] == b[|b| - 1];
      CallLinksConcat(a, b');
    }
  }

  /** One anchor yields exactly the stub it stands for, if any. */
  lemma {:induction false} CallLinksSingle(href: Option<string>)
    ensures CallLinks([href]) == match StubFor(href) case None => [] case Some(stub) => [stub]
  {
  }

  /** The loop over the anchors of the transcripts container. */
  method CollectCallLinks(hrefs: seq<Option<string>>) returns (links: seq<CallStub>)
    ensures links == CallLinks(hrefs)
  {
    links := [];
    for n := 0 to |hrefs|
      invariant links == CallLinks(hrefs[..n])
    {
      assert hrefs[..n + 1][..n] == hrefs[..n];
      var href := hrefs[n];
      if href.Some? && href.value != "" {
        var link := href.value;
        var found := Search(link);
        if found.Some? {
          var date := DateOf(link, found.value);
          links := links + [CallStub(date, link)];
        }
      }
    }
    assert hrefs[..|hrefs|] == hrefs;
  }
}
