# Earnings-call transcript scraper: a verified model of its extraction logic

The scraper collects earnings-call transcripts for a list of stock tickers. It
first gathers a ticker's transcript links from a listing page, then fetches each
transcript page and keeps only the spoken transcript. This project models the
two pieces of that pipeline that contain real logic:

- **The transcript body extractor** (`get_transcript_content`). It scans the
  page's heading and paragraph fragments in order. It starts collecting after a
  fragment whose text is exactly `Prepared Remarks:` or
  `Full Conference Call Transcript`. It stops at the first later fragment that
  contains `Duration:` or starts with the legal notice
  `This article is a transcript of this conference call`. In between, it keeps
  every text that is non-empty, has no `--` (the speaker/title separator) and is
  not exactly `Operator`.
- **The link filter of call discovery** (the loop at the end of
  `get_calls_links`), as it is evidently meant to behave. Each anchor `href`
  containing a `/YYYY/MM/DD/` segment becomes a call stub `{date, link}`. The
  date is the first such segment with `/` replaced by `-`. The loop as written
  cannot run on browser elements; see "Left out".

Files:

- `wrappers.dfy`: `Option` and `Result`.
- `strings.dfy`: Python's `sub in s` (`Contains`) and `s.startswith(p)`
  (`StartsWith`), with the lemma tying the scan to the definition of a
  substring occurrence.
- `transcript.dfy`: the pure specification `Extract(texts, collecting)`, the
  reference filter `Filter`, the lemmas, and the imperative
  `GetTranscriptContent`. That method has the source's loop, its
  `isCollecting` flag, its `content` accumulator, `continue` and `break`, and
  is proved equal to `Extract`.
- `call_links.dfy`: the date-segment search, `DateOf`, the per-anchor
  `StubFor`, the specification `CallLinks`, and the loop `CollectCallLinks`
  proved equal to it.

Text extraction (`element.get_text(strip=True)`) may fail for a fragment. The
model represents each fragment as an `Option<string>` holding its
already-stripped text. The code does not skip a failed fragment. The bare
`except` only logs, and `text` keeps the previous fragment's value. On the
first fragment, `text` was never assigned, so line 108 raises
`UnboundLocalError`. The model follows the code: `Resolve` reuses the previous
text, and `GetTranscriptContent` returns `Failure(TextUnbound)` when the first
fragment fails. A failed fragment is therefore never skipped. While
collecting, it is classified again as the previous text. So a kept line is
emitted a second time (`FailedFragmentRepeatsLine`), and a failure right after
the start marker emits the marker's text (`FailureAfterMarkerEmitsMarker`).

## Model

| member | source | states |
|---|---|---|
| `Transcript.Extract` | earnings_calls_transcript_scrape.py:105-118 | every emitted line is non-empty, contains no `--`, is not `Operator`, contains no `Duration:` and does not start with the stopping phrase; at most one line per fragment |
| `Transcript.Filter` | earnings_calls_transcript_scrape.py:117-118 | reference filter: a text is in the result exactly when it is in the input and is a content line |
| `Transcript.NoMarkerNoContent` | earnings_calls_transcript_scrape.py:105-110 | if no fragment is exactly a start marker, the output is empty |
| `Transcript.PrefixBeforeMarkerIgnored` | earnings_calls_transcript_scrape.py:105-114 | fragments before the first marker, stop fragments included, have no effect: the marker test and `continue` come before the stop test |
| `Transcript.MarkerStartsCollection` | earnings_calls_transcript_scrape.py:105-110 | a marker fragment is not emitted and turns collection on for the fragments after it |
| `Transcript.CollectUntilStop` | earnings_calls_transcript_scrape.py:112-118 | while collecting, the fragments before the first stop (or the end) yield exactly their content lines, in order |
| `Transcript.ExtractIsWindow` | earnings_calls_transcript_scrape.py:97-118 | with i the first marker and j the first later stop (or the end), the output is exactly the content lines of the fragments strictly between i and j, in order |
| `Transcript.PlainLine` | earnings_calls_transcript_scrape.py:113-118 | helper for the scenario lemmas, not a rule of the source: it gives a sufficient condition (non-empty, not `Operator`, no `D`, no `-`, not starting with the stopping phrase) under which a text is kept and does not stop the scan |
| `Transcript.MarkerIsContentLine` | earnings_calls_transcript_scrape.py:108-118 | both start markers pass the content filter and are not stop fragments |
| `Transcript.CollectLine` | earnings_calls_transcript_scrape.py:113-118 | while collecting, a content line that is not a stop is appended and collection continues |
| `Transcript.RepeatedMarkerEmitted` | earnings_calls_transcript_scrape.py:105-118 | once collecting, a second start marker is ordinary text and is emitted |
| `Transcript.SubsequenceShorter` | earnings_calls_transcript_scrape.py:97-118 | an order-preserving subsequence is no longer than the sequence it comes from |
| `Transcript.ExtractIsSubsequence` | earnings_calls_transcript_scrape.py:97-118 | the output is an order-preserving subsequence of the input texts |
| `Transcript.OutputSkipsFirstFragment` | earnings_calls_transcript_scrape.py:105-110 | from the initial state the first fragment is never emitted, so the output is a subsequence of the rest and has at most (number of fragments − 1) lines |
| `Transcript.SpeakerLineDropped` | earnings_calls_transcript_scrape.py:117 | the line `CEO -- Chief Executive` is dropped for its `--` and does not stop the scan |
| `Transcript.DurationLineStops` | earnings_calls_transcript_scrape.py:113 | a line containing `Duration:` is a stop fragment |
| `Transcript.NoticeStops` | earnings_calls_transcript_scrape.py:92 | the full legal notice starts with the stopping phrase and is a stop fragment |
| `Transcript.NoiseDropped` | earnings_calls_transcript_scrape.py:117 | the empty text and `Operator` are dropped and do not stop the scan |
| `Transcript.MarkerLinesStop` | earnings_calls_transcript_scrape.py:97-118 | noise, marker, kept line, dropped line, kept line, stop: the output is the two kept lines |
| `Transcript.ScenarioPreparedRemarks` | earnings_calls_transcript_scrape.py:92-120 | `Intro, Prepared Remarks:, Hello everyone, CEO -- Chief Executive, Thanks, Duration: 45 minutes` gives `Hello everyone, Thanks` |
| `Transcript.MarkerNoiseLineStop` | earnings_calls_transcript_scrape.py:97-118 | marker, two dropped fragments, kept line, stop: the output is the kept line |
| `Transcript.ScenarioFullTranscript` | earnings_calls_transcript_scrape.py:92-120 | `Full Conference Call Transcript, "", Operator, Welcome, <legal notice>` gives `Welcome` |
| `Transcript.Resolve` | earnings_calls_transcript_scrape.py:99-103 | the scan sees one text per fragment; a fragment whose text extraction succeeded is seen as that text |
| `Transcript.ResolveReusesPrevious` | earnings_calls_transcript_scrape.py:99-103 | a fragment whose text extraction failed is seen as the previous fragment's text (stale `text`) |
| `Transcript.AllPresentResolveExactly` | earnings_calls_transcript_scrape.py:99-101 | when every extraction succeeds, the scan sees exactly the fragments' texts |
| `Transcript.ResolveFailureAfter` | earnings_calls_transcript_scrape.py:99-103 | a failed extraction right after a succeeded one is seen as the earlier fragment's text, twice in a row |
| `Transcript.FailedFragmentRepeatsLine` | earnings_calls_transcript_scrape.py:99-118 | while collecting, a kept line followed by a failed extraction is emitted twice, and the scan goes on from the stale text |
| `Transcript.FailureAfterMarkerEmitsMarker` | earnings_calls_transcript_scrape.py:99-118 | a failed extraction right after the start marker makes the marker's own text the first emitted line |
| `Transcript.GetTranscriptContent` | earnings_calls_transcript_scrape.py:80-120 | the loop returns `Failure(TextUnbound)` if the first fragment yields no text (unbound `text`); otherwise it returns exactly `Extract` of the resolved texts from the not-collecting state |
| `Strings.ContainsIffOccurs` | earnings_calls_transcript_scrape.py:113 | the substring test `sub in s` holds exactly when `sub` occurs at some index of `s` |
| `Strings.MissingCharNotContained` | earnings_calls_transcript_scrape.py:117 | a string lacking one of the characters of `sub` does not contain `sub` |
| `CallLinks.SearchFrom` | earnings_calls_transcript_scrape.py:66-71 | the result is the first index at or after `i` where `/DDDD/DD/DD/` matches, or none if no index from `i` on matches |
| `CallLinks.Search` | earnings_calls_transcript_scrape.py:66-71 | `date_pattern.search`: the leftmost match, and none exactly when the pattern matches nowhere |
| `CallLinks.ReplaceSlashes` | earnings_calls_transcript_scrape.py:73 | `replace('/', '-')`: same length, each `/` becomes `-`, every other character is kept |
| `CallLinks.DateOf` | earnings_calls_transcript_scrape.py:73 | the date is a 10-character `YYYY-MM-DD` whose year, month and day are the segment's digit groups |
| `CallLinks.StubFor` | earnings_calls_transcript_scrape.py:69-74 | an anchor yields a stub exactly when its href is present and has a date segment; the stub's link is the href unchanged and its date comes from the leftmost segment |
| `CallLinks.CallLinks` | earnings_calls_transcript_scrape.py:64-74 | at most one stub per anchor; every stub has a well-formed date and a link that is one of the hrefs |
| `CallLinks.CallLinksConcat` | earnings_calls_transcript_scrape.py:67-74 | stubs keep href order: the stubs of `a + b` are those of `a` followed by those of `b` |
| `CallLinks.CallLinksSingle` | earnings_calls_transcript_scrape.py:69-74 | a single anchor yields exactly its own stub, or nothing |
| `CallLinks.CollectCallLinks` | earnings_calls_transcript_scrape.py:64-74 | the loop's `links` list equals `CallLinks` of the hrefs |

## Left out

- Browser driving in `get_calls_links` (earnings_calls_transcript_scrape.py:24-63, 76) is external I/O with no decision logic to state. This covers the NASDAQ-to-NYSE fallback, the cookie pop-up click, "View More" pagination, the sleeps and `drv.quit`. The model takes the anchors' `href` values as its input sequence.
- `get_transcript` (earnings_calls_transcript_scrape.py:122-178) is left out. It consists of HTTP requests, HTML parsing with `select("h2, p")` and dictionary assembly, all calls into foreign libraries. Its fetch-failure branch (line 168) calls `append` on a dictionary. A dictionary has no `append`, so this raises `AttributeError`, which aborts the whole run; the later use of `response` (line 171) is never reached on that path. That orchestration is not part of this model.
- `element.get('href')` (earnings_calls_transcript_scrape.py:69): the anchors come from Selenium's `find_elements` (line 63), and a Selenium element has no `get` method (its attribute accessor is `get_attribute`). As written, the loop therefore raises `AttributeError` as soon as the container holds an anchor. The model assumes the intended lookup: each anchor contributes its `href` attribute value, or `None` when the attribute is absent, and `CallLinks`/`CollectCallLinks` describe the loop under that assumption.
- BeautifulSoup's `get_text(strip=True)` is not modelled. Fragments arrive as already-extracted, already-stripped strings, or as `None` when extraction failed.
- The `print` on a failed text extraction (line 103) and the progress `print` are console output and are not modelled.
- Digits: the regular expression's `\d` also matches non-ASCII Unicode digits. The model accepts only `0`-`9`.
- Strings are sequences of Unicode scalar values. A Python `str` can also hold lone surrogates (U+D800 to U+DFFF); those are outside the model's range, and decoded page text does not contain them. No normalisation or case folding takes place in the source, so none is modelled.
