/**
 The transcript body extractor of the earnings-call scraper.

 A page is an ordered sequence of fragments (headings and paragraphs). The
 extractor scans them in order with one flag: before a start marker nothing is
 emitted; after it, every clean line is emitted until the first stop fragment.
 */
module Transcript {
  import opened Wrappers
  import opened Strings

  const PreparedRemarks: string := "Prepared Remarks:"
  const FullTranscript: string := "Full Conference Call Transcript"
  /** Opening of the legal notice that follows the transcript. */
  const StoppingPhrase: string := "This article is a transcript of this conference call"
  const DurationTag: string := "Duration:"
  /** Separator between a speaker's name and title. */
  const SpeakerSeparator: string := "--"
  const OperatorLine: string := "Operator"

  /** Exact text of a fragment that switches collection on. */
  predicate IsStartMarker(text: string) {
    text == PreparedRemarks || text == FullTranscript
  }

  /** A fragment that ends the transcript body (substring or prefix test). */
  predicate IsStop(text: string) {
    Contains(text, DurationTag) || StartsWith(text, StoppingPhrase)
  }

  /** A fragment kept while collecting: not empty, no speaker separator, not the operator label. */
  predicate IsContentLine(text: string) {
    text != "" && !Contains(text, SpeakerSeparator) && text != OperatorLine
  }

  /**
   The lines the scan emits for `texts`, starting in the given state.
   Every emitted line is a clean content line and never a stop fragment.
   */
  function Extract(texts: seq<string>, collecting: bool): (lines: seq<string>)
    ensures |lines| <= |texts|
    ensures forall k :: 0 <= k < |lines| ==> IsContentLine(lines[k]) && !IsStop(lines[k])
  {
    if texts == [] then []
    else if !collecting then Extract(texts[1..], IsStartMarker(texts[0]))
    else if IsStop(texts[0]) then []
    else if IsContentLine(texts[0]) then [texts[0]] + Extract(texts[1..], true)
    else Extract(texts[1..], true)
  }

  /** Reference definition: the content lines of `texts`, in order. */
  function Filter(texts: seq<string>): (kept: seq<string>)
    ensures forall t :: t in kept <==> t in texts && IsContentLine(t)
  {
    if texts == [] then []
    else if IsContentLine(texts[0]) then [texts[0]] + Filter(texts[1..])
    else Filter(texts[1..])
  }

  /** `a` is obtained from `b` by deleting elements, keeping the order. */
  ghost predicate IsSubsequence(a: seq<string>, b: seq<string>)
    decreases |b|
  {
    a == [] || (b != [] && ((a[0] == b[0] && IsSubsequence(a[1..], b[1..])) || IsSubsequence(a, b[1..])))
  }

  lemma {:induction false} SubsequenceShorter(a: seq<string>, b: seq<string>)
    requires IsSubsequence(a, b)
    ensures |a| <= |b|
    decreases |b|
  {
    if a != [] {
      if a[0] == b[0] && IsSubsequence(a[1..], b[1..]) {
        SubsequenceShorter(a[1..], b[1..]);
      } else {
        SubsequenceShorter(a, b[1..]);
      }
    }
  }

  /** Without a start marker, nothing is emitted. */
  lemma {:induction false} NoMarkerNoContent(texts: seq<string>)
    requires forall k :: 0 <= k < |texts| ==> !IsStartMarker(texts[k])
    ensures Extract(texts, false) == []
  {
    if texts != [] {
      NoMarkerNoContent(texts[1..]);
    }
  }

  /**
   Fragments before the first marker are skipped whatever they hold: a stop
   fragment there does not end the scan, because the marker test comes first.
   */
  lemma {:induction false} PrefixBeforeMarkerIgnored(prefix: seq<string>, rest: seq<string>)
    requires forall k :: 0 <= k < |prefix| ==> !IsStartMarker(prefix[k])
    ensures Extract(prefix + rest, false) == Extract(rest, false)
  {
    if prefix != [] {
      assert (prefix + rest)[0] == prefix[0] && !IsStartMarker(prefix[0]);
      assert (prefix + rest)[1..] == prefix[1..] + rest;
      PrefixBeforeMarkerIgnored(prefix[1..], rest);
      assert Extract(prefix + rest, false) == Extract(prefix[1..] + rest, false);
    } else {
      assert prefix + rest == rest;
    }
  }

  /** Collecting over fragments with no stop, up to a stop fragment or the end, keeps their content lines. */
  lemma {:induction false} CollectUntilStop(window: seq<string>, rest: seq<string>)
    requires forall k :: 0 <= k < |window| ==> !IsStop(window[k])
    requires rest == [] || IsStop(rest[0])
    ensures Extract(window + rest, true) == Filter(window)
  {
    if window != [] {
      assert (window + rest)[0] == window[0];
      assert (window + rest)[1..] == window[1..] + rest;
      CollectUntilStop(window[1..], rest);
    } else {
      assert window + rest == rest;
    }
  }

  /** A start marker switches collection on for the fragments after it. */
  lemma {:induction false} MarkerStartsCollection(marker: string, rest: seq<string>)
    requires IsStartMarker(marker)
    ensures Extract([marker] + rest, false) == Extract(rest, true)
  {
  }

  /**
   Exact characterisation: with `i` the first start marker and `j` the first
   later stop fragment (or the end), the output is the content lines strictly
   between them, in order. Neither the marker nor the stop fragment is emitted.
   */
  lemma {:induction false} ExtractIsWindow(texts: seq<string>, i: nat, j: nat)
    requires i < j <= |texts|
    requires IsStartMarker(texts[i])
    requires forall k :: 0 <= k < i ==> !IsStartMarker(texts[k])
    requires forall k :: i < k < j ==> !IsStop(texts[k])
    requires j == |texts| || IsStop(texts[j])
    ensures Extract(texts, false) == Filter(texts[i + 1..j])
  {
    assert texts == texts[..i] + ([texts[i]] + texts[i + 1..]);
    PrefixBeforeMarkerIgnored(texts[..i], [texts[i]] + texts[i + 1..]);
    MarkerStartsCollection(texts[i], texts[i + 1..]);
    assert texts[i + 1..] == texts[i + 1..j] + texts[j..];
    CollectUntilStop(texts[i + 1..j], texts[j..]);
  }

  /**
   Helper for the scenario lemmas: a line without the letter `D` and without
   `-` is neither a duration line nor a speaker line.
   */
  lemma {:induction false} PlainLine(text: string)
    requires text != "" && text != OperatorLine && !StartsWith(text, StoppingPhrase)
    requires 'D' !in text && '-' !in text
    ensures IsContentLine(text) && !IsStop(text)
  {
    MissingCharNotContained(text, DurationTag, 'D');
    MissingCharNotContained(text, SpeakerSeparator, '-');
  }

  /** A start marker is itself a content line and not a stop fragment. */
  lemma {:induction false} MarkerIsContentLine(marker: string)
    requires IsStartMarker(marker)
    ensures IsContentLine(marker) && !IsStop(marker)
  {
    assert 'D' !in marker && '-' !in marker;
    assert !StartsWith(marker, StoppingPhrase);
    PlainLine(marker);
  }

  /** While collecting, a content line that is not a stop is emitted and collection goes on. */
  lemma {:induction false} CollectLine(text: string, rest: seq<string>)
    requires IsContentLine(text) && !IsStop(text)
    ensures Extract([text] + rest, true) == [text] + Extract(rest, true)
  {
  }

  /** Once collecting, a start marker is ordinary text and is emitted. */
  lemma {:induction false} RepeatedMarkerEmitted(marker: string, rest: seq<string>)
    requires IsStartMarker(marker)
    ensures Extract([marker] + rest, true) == [marker] + Extract(rest, true)
  {
    MarkerIsContentLine(marker);
    CollectLine(marker, rest);
  }

  /** The output keeps the order of the input: it is a subsequence of it. */
  lemma {:induction false} ExtractIsSubsequence(texts: seq<string>, collecting: bool)
    ensures IsSubsequence(Extract(texts, collecting), texts)
  {
    if texts != [] {
      ExtractIsSubsequence(texts[1..], collecting || IsStartMarker(texts[0]));
      var lines := Extract(texts, collecting);
      if collecting && !IsStop(texts[0]) && IsContentLine(texts[0]) {
        assert lines[1..] == Extract(texts[1..], true);
      }
    }
  }

  /** From the initial state the first fragment is never emitted, so at most |texts| - 1 lines come out. */
  lemma {:induction false} OutputSkipsFirstFragment(texts: seq<string>)
    requires texts != []
    ensures IsSubsequence(Extract(texts, false), texts[1..])
    ensures |Extract(texts, false)| <= |texts| - 1
  {
    ExtractIsSubsequence(texts[1..], IsStartMarker(texts[0]));
    SubsequenceShorter(Extract(texts, false), texts[1..]);
  }

  /*
   The concrete lines below are parameters pinned by `requires` rather than
   literals in the `ensures`: the solver then works on one literal at a time
   and the shape lemmas stay generic, which keeps each proof small.
   */

  /** A speaker attribution line is dropped but does not stop the scan. */
  lemma {:induction false} SpeakerLineDropped(text: string)
    requires text == "CEO -- Chief Executive"
    ensures !IsContentLine(text) && !IsStop(text)
  {
    assert !IsStop(text) by {
      MissingCharNotContained(text, DurationTag, 'D');
    }
    assert text[4] == '-' && text[5] == '-';
    assert text[4..6] == SpeakerSeparator;
    ContainsIffOccurs(text, SpeakerSeparator);
    assert OccursAt(text, SpeakerSeparator, 4);
  }

  /** A duration line is a stop fragment. */
  lemma {:induction false} DurationLineStops(text: string)
    requires text == "Duration: 45 minutes"
    ensures IsStop(text)
  {
  }

  /** The legal notice is a stop fragment. */
  lemma {:induction false} NoticeStops(text: string)
    requires text == "This article is a transcript of this conference call and may not be 100% accurate."
    ensures IsStop(text)
  {
  }

  /** Empty and operator fragments are dropped but do not stop the scan. */
  lemma {:induction false} NoiseDropped(text: string)
    requires text == "" || text == OperatorLine
    ensures !IsContentLine(text) && !IsStop(text)
  {
  }

  /** Shape of a page: noise, marker, line, dropped line, line, stop. */
  lemma {:induction false} MarkerLinesStop(intro: string, marker: string, first: string, dropped: string, second: string, stop: string)
    requires !IsStartMarker(intro) && IsStartMarker(marker)
    requires IsContentLine(first) && !IsStop(first) && IsContentLine(second) && !IsStop(second)
    requires !IsContentLine(dropped) && !IsStop(dropped) && IsStop(stop)
    ensures Extract([intro, marker, first, dropped, second, stop], false) == [first, second]
  {
    var texts := [intro, marker, first, dropped, second, stop];
    ExtractIsWindow(texts, 1, 5);
    assert texts[2..5] == [first, dropped, second];
    assert [first, dropped, second][1..] == [dropped, second];
    assert [dropped, second][1..] == [second];
    assert Filter([second]) == [second] by {
      assert [second][1..] == [];
    }
  }

  /** A speaker attribution line is dropped; the duration line ends the scan. */
  lemma {:induction false} ScenarioPreparedRemarks(intro: string, marker: string, hello: string, speaker: string, thanks: string, duration: string)
    requires intro == "Intro" && marker == "Prepared Remarks:" && hello == "Hello everyone"
    requires speaker == "CEO -- Chief Executive" && thanks == "Thanks" && duration == "Duration: 45 minutes"
    ensures Extract([intro, marker, hello, speaker, thanks, duration], false) == [hello, thanks]
  {
    PlainLine(hello);
    SpeakerLineDropped(speaker);
    PlainLine(thanks);
    DurationLineStops(duration);
    MarkerLinesStop(intro, marker, hello, speaker, thanks, duration);
  }

  /** Shape of a page: marker, two dropped fragments, line, stop. */
  lemma {:induction false} MarkerNoiseLineStop(marker: string, blank: string, operator: string, line: string, stop: string)
    requires IsStartMarker(marker)
    requires !IsContentLine(blank) && !IsStop(blank) && !IsContentLine(operator) && !IsStop(operator)
    requires IsContentLine(line) && !IsStop(line) && IsStop(stop)
    ensures Extract([marker, blank, operator, line, stop], false) == [line]
  {
    var texts := [marker, blank, operator, line, stop];
    ExtractIsWindow(texts, 0, 4);
    assert texts[1..4] == [blank, operator, line];
    assert [blank, operator, line][1..] == [operator, line];
    assert [operator, line][1..] == [line];
    assert Filter([line]) == [line] by {
      assert [line][1..] == [];
    }
  }

  /** An empty fragment and the operator label are dropped; the legal notice ends the scan. */
  lemma {:induction false} ScenarioFullTranscript(marker: string, blank: string, operator: string, welcome: string, notice: string)
    requires marker == "Full Conference Call Transcript" && blank == "" && operator == "Operator" && welcome == "Welcome"
    requires notice == "This article is a transcript of this conference call and may not be 100% accurate."
    ensures Extract([marker, blank, operator, welcome, notice], false) == [welcome]
  {
    NoiseDropped(blank);
    NoiseDropped(operator);
    PlainLine(welcome);
    NoticeStops(notice);
    MarkerNoiseLineStop(marker, blank, operator, welcome, notice);
  }

  /** Python's UnboundLocalError: the first fragment yields no text, so `text` was never assigned. */
  datatype ScanError = TextUnbound

  /**
   The texts the scan sees when text extraction fails on some fragments
   (`None`): a failed fragment leaves the previous text in place, `last`
   standing for the text before the first fragment.
   */
  function Resolve(fragments: seq<Option<string>>, last: string): (texts: seq<string>)
    ensures |texts| == |fragments|
    ensures forall k :: 0 <= k < |fragments| && fragments[k].Some? ==> texts[k] == fragments[k].value
  {
    if fragments == [] then []
    else
      var text := if fragments[0].Some? then fragments[0].value else last;
      [text] + Resolve(fragments[1..], text)
  }

  /** A failed fragment reuses the text of the fragment before it. */
  lemma {:induction false} ResolveReusesPrevious(fragments: seq<Option<string>>, last: string, k: nat)
    requires k < |fragments| && fragments[k].None?
    ensures Resolve(fragments, last)[k] == if k == 0 then last else Resolve(fragments, last)[k - 1]
  {
    if k > 0 {
      var text := if fragments[0].Some? then fragments[0].value else last;
      ResolveReusesPrevious(fragments[1..], text, k - 1);
    }
  }

  /** When every fragment yields its text, the scan sees exactly those texts. */
  lemma {:induction false} AllPresentResolveExactly(fragments: seq<Option<string>>, texts: seq<string>, last: string)
    requires |fragments| == |texts|
    requires forall k :: 0 <= k < |fragments| ==> fragments[k] == Some(texts[k])
    ensures Resolve(fragments, last) == texts
  {
  }

  /** A failed fragment right after a succeeded one is seen as that fragment's text a second time. */
  lemma {:induction false} ResolveFailureAfter(text: string, rest: seq<Option<string>>, last: string)
    ensures Resolve([Some(text), None] + rest, last) == [text, text] + Resolve(rest, text)
  {
  }

  /** While collecting, a kept line whose next fragment fails is emitted twice. */
  lemma {:induction false} FailedFragmentRepeatsLine(line: string, rest: seq<Option<string>>, last: string)
    requires IsContentLine(line) && !IsStop(line)
    ensures Extract(Resolve([Some(line), None] + rest, last), true) == [line, line] + Extract(Resolve(rest, line), true)
  {
    ResolveFailureAfter(line, rest, last);
    var tail := Resolve(rest, line);
    CollectLine(line, tail);
    CollectLine(line, [line] + tail);
    assert [line, line] + tail == [line] + ([line] + tail);
  }

  /** A failure right after the start marker makes the marker's own text the first emitted line. */
  lemma {:induction false} FailureAfterMarkerEmitsMarker(marker: string, rest: seq<Option<string>>, last: string)
    requires IsStartMarker(marker)
    ensures Extract(Resolve([Some(marker), None] + rest, last), false) == [marker] + Extract(Resolve(rest, marker), true)
  {
    ResolveFailureAfter(marker, rest, last);
    var tail := Resolve(rest, marker);
    assert ([marker, marker] + tail)[1..] == [marker] + tail;
    RepeatedMarkerEmitted(marker, tail);
  }

  /**
   The extractor over the page's fragments. A failed text extraction on the
   first fragment is the unbound-variable error; any later failure reuses the
   previous fragment's text. Otherwise the result is the specification above.
   */
  method GetTranscriptContent(elements: seq<Option<string>>) returns (r: Result<seq<string>, ScanError>)
    ensures elements != [] && elements[0].None? ==> r == Failure(TextUnbound)
    ensures elements == [] || elements[0].Some? ==> r == Success(Extract(Resolve(elements, ""), false))
  {
    var content: seq<string> := [];
    var isCollecting := false;
    var text: Option<string> := None;
    ghost var texts := Resolve(elements, "");
    var i := 0;
    while i < |elements|
      invariant 0 <= i <= |elements|
      invariant i == 0 ==> text == None
      invariant i > 0 ==> elements[0].Some? && text == Some(texts[i - 1])
      invariant Extract(texts, false) == content + Extract(texts[i..], isCollecting)
    {
      if elements[i].Some? {
        text := elements[i];
      } else if text.None? {
        return Failure(TextUnbound);
      } else {
        ResolveReusesPrevious(elements, "", i);
      }
      var t := text.value;
      assert texts[i..][1..] == texts[i + 1..];
      if !isCollecting {
        if IsStartMarker(t) {
          isCollecting := true;
        }
        i := i + 1;
        continue;
      }
      if IsStop(t) {
        assert Extract(texts[i..], true) == [];
        assert content + [] == content;
        break;
      }
      if IsContentLine(t) {
        content := content + [t];
      }
      i := i + 1;
    }
    assert i == |elements| ==> texts[i..] == [] && content + [] == content;
    return Success(content);
  }
}
