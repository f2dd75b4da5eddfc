/**
 * Tolerant JSON extraction from model output (`parse_jsonish` and
 * `parse_llm_json` in backend/helper.py).
 *
 * `json.loads` is not modelled: it is the `decode` parameter, an arbitrary
 * function from text to an optional JSON value, with `None` standing for a
 * `json.JSONDecodeError`. Every property below holds for every such decoder,
 * except the two sentinel if-and-only-if lemmas, which assume a decoder whose
 * objects never hold "llm_output" (`NoSentinelPayload`).
 */
module JsonExtract {
  import opened Wrappers
  import opened Text

  /** A value `json.loads` can produce. Numbers keep their literal text; a
    * JSON object becomes a Python `dict`, modelled as a map. */
  datatype Json =
    | JNull
    | JBool(b: bool)
    | JNumber(literal: string)
    | JString(s: string)
    | JArray(items: seq<Json>)
    | JObject(fields: map<string, Json>)

  /** The `dict[str, Any]` that `parse_jsonish` returns. */
  type Mapping = map<string, Json>

  /** `json.loads`; `None` is a `JSONDecodeError`. */
  type Decoder = string -> Option<Json>

  const OutputMarker: string := "Final JSON Output"
  const ObjectMarker: string := "Final JSON Object"
  const FenceOpen: string := "```json"
  const FenceClose: string := "```"
  const SentinelKey: string := "llm_output"

  /** The "could not parse" result `{"llm_output": text}`. */
  function Sentinel(text: string): Mapping {
    map[SentinelKey := JString(text)]
  }

  /** An object is returned as it is; any other value is wrapped as `{"value": v}`. */
  function Wrap(v: Json): Mapping {
    if v.JObject? then v.fields else map["value" := v]
  }

  // ---------------------------------------------------------------------------
  // Step 1: the marker preamble
  // ---------------------------------------------------------------------------

  /** What follows the first occurrence of the first marker that occurs,
    * stripped; the text itself when neither marker occurs. */
  function AfterMarker(t: string): string {
    var i := Find(t, OutputMarker);
    if i != -1 then Strip(t[i + |OutputMarker|..])
    else
      var j := Find(t, ObjectMarker);
      if j != -1 then Strip(t[j + |ObjectMarker|..]) else t
  }

  // ---------------------------------------------------------------------------
  // Step 2: the fence  ```json\s*(\{.*?\})\s*```  (re.DOTALL), searched by hand
  // ---------------------------------------------------------------------------

  /** Where a greedy `\s*` that starts at `i` stops. */
  function SkipSpace(s: string, i: nat): (j: nat)
    requires i <= |s|
    ensures i <= j <= |s|
    decreases |s| - i
  {
    if i < |s| && IsSpace(s[i]) then SkipSpace(s, i + 1) else i
  }

  /** The run skipped is all whitespace, and it stops at the first character
    * that is not. */
  lemma {:induction false} SkipSpaceStops(s: string, i: nat)
    requires i <= |s|
    ensures forall k :: i <= k < SkipSpace(s, i) ==> IsSpace(s[k])
    ensures SkipSpace(s, i) < |s| ==> !IsSpace(s[SkipSpace(s, i)])
    decreases |s| - i
  {
    if i < |s| && IsSpace(s[i]) {
      SkipSpaceStops(s, i + 1);
    }
  }

  /** The index of the `{` that opens the body, for a fence opening at `p`.
    * A shorter `\s*` would leave a whitespace character where `{` must be,
    * so the greedy run is the only one that can match. */
  function BodyStart(s: string, p: nat): nat
    requires OccursAt(s, FenceOpen, p)
  {
    SkipSpace(s, p + |FenceOpen|)
  }

  /** "```json", optional whitespace and `{` begin at `p`. */
  predicate OpensAt(s: string, p: nat) {
    OccursAt(s, FenceOpen, p) && BodyStart(s, p) < |s| && s[BodyStart(s, p)] == '{'
  }

  /** A `}` at `e` followed by optional whitespace and "```". */
  predicate ClosesAt(s: string, e: int) {
    0 <= e < |s| && s[e] == '}' && OccursAt(s, FenceClose, SkipSpace(s, e + 1))
  }

  /** The regex matches at `p` with the body ending at the `}` at index `e`. */
  predicate FenceAt(s: string, p: nat, e: int) {
    OpensAt(s, p) && BodyStart(s, p) < e && ClosesAt(s, e)
  }

  /** A match: where it starts, and the `{` and `}` that bound group 1. */
  datatype FenceSpan = FenceSpan(start: nat, open: nat, close: nat)

  /** The lazy `.*?`: the first `}` at or after `e0` that closes the fence. */
  function FirstClose(s: string, e0: nat): (r: Option<nat>)
    requires e0 <= |s|
    ensures r.Some? ==> e0 <= r.value < |s| && s[r.value] == '}'
    decreases |s| - e0
  {
    if e0 == |s| then None
    else if ClosesAt(s, e0) then Some(e0)
    else FirstClose(s, e0 + 1)
  }

  /** `FirstClose` finds the first closing `}` from `e0`, and none when there
    * is none. */
  lemma {:induction false} FirstCloseFirst(s: string, e0: nat)
    requires e0 <= |s|
    ensures var r := FirstClose(s, e0);
      (r.Some? ==> ClosesAt(s, r.value) && forall e :: e0 <= e < r.value ==> !ClosesAt(s, e))
      && (r.None? ==> forall e :: e0 <= e ==> !ClosesAt(s, e))
    decreases |s| - e0
  {
    if e0 < |s| && !ClosesAt(s, e0) {
      FirstCloseFirst(s, e0 + 1);
    }
  }

  function FindFenceFrom(s: string, p: nat): (r: Option<FenceSpan>)
    ensures r.Some? ==> var f := r.value;
      p <= f.start && f.open < f.close < |s| && s[f.open] == '{' && s[f.close] == '}'
    decreases |s| - p
  {
    if p + |FenceOpen| > |s| then None
    else if OpensAt(s, p) then
      match FirstClose(s, BodyStart(s, p) + 1)
      case Some(e) => Some(FenceSpan(p, BodyStart(s, p), e))
      case None => FindFenceFrom(s, p + 1)
    else FindFenceFrom(s, p + 1)
  }

  /** `r` is the leftmost match at or after `p`, with the shortest body at
    * its start, or nothing when no start from `p` matches. */
  ghost predicate LeftmostFrom(s: string, p: nat, r: Option<FenceSpan>) {
    (r.Some? ==>
      FenceAt(s, r.value.start, r.value.close) && r.value.open == BodyStart(s, r.value.start)
      && (forall q, e :: p <= q < r.value.start ==> !FenceAt(s, q, e))
      && (forall e :: e < r.value.close ==> !FenceAt(s, r.value.start, e)))
    && (r.None? ==> forall q, e :: p <= q ==> !FenceAt(s, q, e))
  }

  /** `r` is the shortest body of a match at `p`, or nothing when none ends
    * anywhere. */
  ghost predicate ShortestFrom(s: string, p: nat, r: Option<nat>) {
    (r.Some? ==> FenceAt(s, p, r.value) && forall e :: e < r.value ==> !FenceAt(s, p, e))
    && (r.None? ==> forall e :: !FenceAt(s, p, e))
  }

  /** `FindFenceFrom` reports the first start at or after `p` that matches,
    * with the shortest body there, and nothing when no start matches. */
  lemma {:induction false} FindFenceFromFirst(s: string, p: nat)
    ensures LeftmostFrom(s, p, FindFenceFrom(s, p))
    decreases |s| - p
  {
    if p + |FenceOpen| > |s| {
      NoRoomForFence(s, p);
    } else if OpensAt(s, p) && FirstClose(s, BodyStart(s, p) + 1).Some? {
      ShortestAt(s, p);
    } else {
      ShortestAt(s, p);
      FindFenceFromFirst(s, p + 1);
      NextStart(s, p);
    }
  }

  lemma NoRoomForFence(s: string, p: nat)
    requires p + |FenceOpen| > |s|
    ensures forall q, e :: p <= q ==> !FenceAt(s, q, e)
  {
  }

  /** At a start `p`, the matches are exactly those that `FirstClose` finds:
    * the body ends at the first closing `}` and nowhere before it. */
  lemma ShortestAt(s: string, p: nat)
    ensures !OpensAt(s, p) ==> forall e :: !FenceAt(s, p, e)
    ensures OpensAt(s, p) ==> ShortestFrom(s, p, FirstClose(s, BodyStart(s, p) + 1))
  {
    if OpensAt(s, p) {
      FirstCloseFirst(s, BodyStart(s, p) + 1);
    }
  }

  /** The recursive case: no match at `p`, so what holds from `p + 1` holds
    * from `p`. */
  lemma NextStart(s: string, p: nat)
    requires forall e :: !FenceAt(s, p, e)
    requires FindFenceFrom(s, p) == FindFenceFrom(s, p + 1)
    requires LeftmostFrom(s, p + 1, FindFenceFrom(s, p + 1))
    ensures LeftmostFrom(s, p, FindFenceFrom(s, p))
  {
  }

  /** `re.search`: the leftmost match, and at that start the shortest body. */
  function FindFence(s: string): (r: Option<FenceSpan>)
    ensures r.Some? ==> var f := r.value;
      f.open < f.close < |s| && s[f.open] == '{' && s[f.close] == '}'
  {
    FindFenceFrom(s, 0)
  }

  /** There is a match exactly when `FindFence` reports one; it starts at the
    * leftmost start that matches and, from there, ends at the first `}` that
    * closes the fence. */
  lemma FindFenceLeftmostShortest(s: string)
    ensures FindFence(s).None? <==> forall p: nat, e :: !FenceAt(s, p, e)
    ensures FindFence(s).Some? ==> var f := FindFence(s).value;
      FenceAt(s, f.start, f.close) && f.open == BodyStart(s, f.start)
      && (forall q: nat, e :: q < f.start ==> !FenceAt(s, q, e))
      && (forall e :: e < f.close ==> !FenceAt(s, f.start, e))
  {
    FindFenceFromFirst(s, 0);
  }

  /** The text `json.loads` is first tried on: the input stripped, the marker
    * preamble dropped, and the fenced body taken when there is one. */
  function Candidate(text: string): string {
    FenceStage(AfterMarker(Strip(text)))
  }

  /** The stripped fenced body when the fence occurs, the text otherwise. */
  function FenceStage(c: string): string {
    if FindFence(c).Some? then FencedBody(c, FindFence(c).value) else c
  }

  /** Group 1 of a match, stripped. */
  function FencedBody(c: string, f: FenceSpan): string
    requires f.open < f.close < |c|
  {
    Strip(c[f.open..f.close + 1])
  }

  // ---------------------------------------------------------------------------
  // Step 4: the first-`{` to last-`}` window
  // ---------------------------------------------------------------------------

  lemma OccursAtChar(s: string, ch: char, k: int)
    ensures OccursAt(s, [ch], k) <==> 0 <= k < |s| && s[k] == ch
  {
    if 0 <= k < |s| { assert s[k..k + 1] == [s[k]]; }
  }

  /** `candidate[find("{") : rfind("}") + 1]` when a `{` comes before the last
    * `}`: the window exists exactly when some `{` precedes some `}`. */
  function Snippet(c: string): (r: Option<string>)
    ensures r.Some? ==> |r.value| >= 2 && r.value[0] == '{' && r.value[|r.value| - 1] == '}'
  {
    var st := Find(c, "{");
    var en := RFind(c, "}");
    if st != -1 && en != -1 && en > st then
      OccursAtChar(c, '{', st);
      OccursAtChar(c, '}', en);
      Some(c[st..en + 1])
    else
      None
  }

  /** The window exists exactly when some `{` precedes some `}`, and it runs
    * from the first `{` to the last `}`. */
  lemma SnippetWindow(c: string)
    ensures Snippet(c).Some? <==> exists i, j :: 0 <= i < j < |c| && c[i] == '{' && c[j] == '}'
    ensures Snippet(c).Some? ==> exists st, en ::
      (0 <= st < en < |c| && Snippet(c).value == c[st..en + 1]
       && c[st] == '{' && c[en] == '}'
       && (forall k :: 0 <= k < st ==> c[k] != '{')
       && (forall k :: en < k < |c| ==> c[k] != '}'))
  {
    var st := Find(c, "{");
    var en := RFind(c, "}");
    if st != -1 && en != -1 && en > st {
      OccursAtChar(c, '{', st);
      OccursAtChar(c, '}', en);
      assert forall k :: 0 <= k < st ==> c[k] != '{' by {
        forall k | 0 <= k < st ensures c[k] != '{' { OccursAtChar(c, '{', k); }
      }
      assert forall k :: en < k < |c| ==> c[k] != '}' by {
        forall k | en < k < |c| ensures c[k] != '}' { OccursAtChar(c, '}', k); }
      }
    } else {
      assert !exists i, j :: 0 <= i < j < |c| && c[i] == '{' && c[j] == '}' by {
        forall i, j | 0 <= i < j < |c| && c[i] == '{' && c[j] == '}' ensures false {
          OccursAtChar(c, '{', i);
          OccursAtChar(c, '}', j);
        }
      }
    }
  }

  // ---------------------------------------------------------------------------
  // parse_jsonish and parse_llm_json
  // ---------------------------------------------------------------------------

  /** `parse_jsonish`: never fails, always a mapping. */
  function ParseJsonish(text: string, decode: Decoder): (r: Mapping)
    ensures decode(Candidate(text)).Some? ==> r == Wrap(decode(Candidate(text)).value)
    ensures decode(Candidate(text)).None? && Snippet(Candidate(text)).Some?
            && decode(Snippet(Candidate(text)).value).Some?
            ==> r == Wrap(decode(Snippet(Candidate(text)).value).value)
    ensures decode(Candidate(text)).None?
            && (Snippet(Candidate(text)).None? || decode(Snippet(Candidate(text)).value).None?)
            ==> r == Sentinel(text)
  {
    var candidate := Candidate(text);
    match decode(candidate)
    case Some(v) => Wrap(v)
    case None =>
      match Snippet(candidate)
      case None => Sentinel(text)
      case Some(snippet) =>
        match decode(snippet)
        case Some(v) => Wrap(v)
        case None => Sentinel(text)
  }

  const ErrorRecordReason: string := "could_not_parse_json"

  /** `{"error": "could_not_parse_json", "raw": response_text}`. */
  function ErrorRecord(text: string): Mapping {
    map["error" := JString(ErrorRecordReason), "raw" := JString(text)]
  }

  /** `parse_llm_json`: the error record exactly when the `parse_jsonish`
    * result has the key "llm_output", and that result unchanged otherwise. */
  function ParseLlmJson(text: string, decode: Decoder): (r: Mapping)
    ensures SentinelKey in ParseJsonish(text, decode) ==> r == ErrorRecord(text)
    ensures SentinelKey !in ParseJsonish(text, decode) ==> r == ParseJsonish(text, decode)
    ensures SentinelKey !in r
  {
    var parsed := ParseJsonish(text, decode);
    if SentinelKey in parsed then ErrorRecord(text) else parsed
  }

  // ---------------------------------------------------------------------------
  // Properties
  // ---------------------------------------------------------------------------

  /** A decoder that never yields an object holding the key "llm_output". */
  ghost predicate NoSentinelPayload(decode: Decoder) {
    forall s :: decode(s).Some? && decode(s).value.JObject? ==> SentinelKey !in decode(s).value.fields
  }

  /** The sentinel key is a faithful failure signal only when no genuine
    * payload carries it: then it is present exactly when both parse attempts
    * failed (or the window was never tried). */
  lemma SentinelIffNothingParsed(text: string, decode: Decoder)
    requires NoSentinelPayload(decode)
    ensures SentinelKey in ParseJsonish(text, decode) <==> NothingParsed(text, decode)
  {
    var c := Candidate(text);
    if decode(c).Some? {
      WrapHasNoSentinel(decode, c);
    } else if Snippet(c).Some? && decode(Snippet(c).value).Some? {
      WrapHasNoSentinel(decode, Snippet(c).value);
    }
  }

  lemma WrapHasNoSentinel(decode: Decoder, s: string)
    requires NoSentinelPayload(decode) && decode(s).Some?
    ensures SentinelKey !in Wrap(decode(s).value)
  {
  }

  /** Neither `json.loads` attempt succeeded (or the window was never tried). */
  predicate NothingParsed(text: string, decode: Decoder) {
    var c := Candidate(text);
    decode(c).None? && (Snippet(c).None? || decode(Snippet(c).value).None?)
  }

  /** With the same assumption, `parse_llm_json` returns the error record
    * exactly when nothing parsed, or when the payload was that very record. */
  lemma LlmJsonErrorIffNothingParsed(text: string, decode: Decoder)
    requires NoSentinelPayload(decode)
    ensures ParseLlmJson(text, decode) == ErrorRecord(text)
            <==> (NothingParsed(text, decode) || ParseJsonish(text, decode) == ErrorRecord(text))
  {
    SentinelIffNothingParsed(text, decode);
    assert SentinelKey !in ErrorRecord(text);
  }

  /** A genuine payload that happens to hold "llm_output" is reported as a
    * parse failure: it cannot be told apart from a reply nothing was read from. */
  lemma GenuinePayloadReadAsFailure(text: string, decode: Decoder, fields: map<string, Json>)
    requires decode(Candidate(text)) == Some(JObject(fields))
    requires SentinelKey in fields
    ensures ParseLlmJson(text, decode) == ErrorRecord(text)
  {
  }

  /** The fenced body reaches `json.loads` whole: it starts with `{`, ends
    * with `}`, and the `strip()` applied to it changes nothing. */
  lemma FencedBodyIsCandidate(c: string, f: FenceSpan)
    requires FindFence(c) == Some(f)
    ensures FenceStage(c) == c[f.open..f.close + 1]
    ensures FenceStage(c)[0] == '{' && FenceStage(c)[|FenceStage(c)| - 1] == '}'
  {
    FenceStageOf(c, f);
    BracedSlice(c, f.open, f.close, c[f.open..f.close + 1]);
  }

  lemma FenceStageOf(c: string, f: FenceSpan)
    requires FindFence(c) == Some(f)
    ensures FenceStage(c) == Strip(c[f.open..f.close + 1])
  {
    assert FenceStage(c) == FencedBody(c, f);
  }

  lemma BracedSlice(c: string, open: nat, close: nat, body: string)
    requires open < close < |c| && c[open] == '{' && c[close] == '}'
    requires body == c[open..close + 1]
    ensures Strip(body) == body && body[0] == '{' && body[|body| - 1] == '}'
  {
    BracedKept(body);
  }

  lemma BracedKept(body: string)
    requires |body| > 0 && body[0] == '{' && body[|body| - 1] == '}'
    ensures Strip(body) == body
  {
    assert !IsSpace('{') && !IsSpace('}');
    StripKeeps(body, Whitespace);
  }

  lemma AfterFirstOutputMarker(pre: string, post: string)
    requires forall k :: 0 <= k < |pre| ==> !OccursAt(pre + OutputMarker, OutputMarker, k)
    ensures AfterMarker(pre + OutputMarker + post) == Strip(post)
  {
    var p := pre + OutputMarker;
    var t := p + post;
    assert p[|pre|..|pre| + |OutputMarker|] == OutputMarker;
    FindInPrefix(p, post, OutputMarker, |pre|);
    assert t[|pre| + |OutputMarker|..] == post;
  }

  /** Without "Final JSON Output" anywhere, only the text after the first
    * "Final JSON Object" is kept, stripped. */
  lemma AfterFirstObjectMarker(pre: string, post: string)
    requires forall k :: !OccursAt(pre + ObjectMarker + post, OutputMarker, k)
    requires forall k :: 0 <= k < |pre| ==> !OccursAt(pre + ObjectMarker, ObjectMarker, k)
    ensures AfterMarker(pre + ObjectMarker + post) == Strip(post)
  {
    var p := pre + ObjectMarker;
    var t := p + post;
    assert p[|pre|..|pre| + |ObjectMarker|] == ObjectMarker;
    FindInPrefix(p, post, ObjectMarker, |pre|);
    assert t[|pre| + |ObjectMarker|..] == post;
  }

  /** A marker phrase followed by a plain (unfenced) payload: the preamble is
    * discarded and the payload is returned exactly. Only the first marker is
    * acted on; markers inside the payload are left to `json.loads`. */
  lemma MarkerThenPayload(text: string, pre: string, post: string, decode: Decoder, m: Mapping)
    requires Strip(text) == pre + OutputMarker + post
    requires forall k :: 0 <= k < |pre| ==> !OccursAt(pre + OutputMarker, OutputMarker, k)
    requires FindFence(Strip(post)).None?
    requires decode(Strip(post)) == Some(JObject(m))
    ensures ParseJsonish(text, decode) == m
  {
    AfterFirstOutputMarker(pre, post);
  }

  /** "Final JSON Output" takes precedence over "Final JSON Object", even when
    * the latter comes first in the text. */
  lemma OutputMarkerFirst(a: string, b: string, c: string)
    requires forall k :: 0 <= k < |a + ObjectMarker + b| ==>
               !OccursAt(a + ObjectMarker + b + OutputMarker, OutputMarker, k)
    ensures AfterMarker(a + ObjectMarker + b + OutputMarker + c) == Strip(c)
  {
    AfterFirstOutputMarker(a + ObjectMarker + b, c);
  }

  // ---------------------------------------------------------------------------
  // Worked examples: a marker followed by a fence, and plain prose
  // ---------------------------------------------------------------------------

  lemma AbsentHead(s: string, sub: string)
    requires |sub| > 0 && sub[0] !in s
    ensures forall k :: !OccursAt(s, sub, k)
  {
  }

  lemma NoFenceWithoutBacktick(s: string)
    requires '`' !in s
    ensures FindFence(s).None?
  {
    AbsentHead(s, FenceOpen);
    FindFenceLeftmostShortest(s);
  }

  /** Text that holds neither marker is kept as it is. */
  lemma NoMarkerKeeps(t: string)
    requires forall k :: !OccursAt(t, OutputMarker, k)
    requires forall k :: !OccursAt(t, ObjectMarker, k)
    ensures AfterMarker(t) == t
  {
  }

  /** Text without an `F` holds neither marker. */
  lemma NoMarkerWithoutF(t: string)
    requires 'F' !in t
    ensures forall k :: !OccursAt(t, OutputMarker, k)
    ensures forall k :: !OccursAt(t, ObjectMarker, k)
  {
    AbsentHead(t, OutputMarker);
    AbsentHead(t, ObjectMarker);
  }

  /** Stripped text with neither marker, no fence match and no brace reaches
    * `json.loads` as it is, and has no window to fall back on: when that
    * parse fails the result is the sentinel. */
  lemma NoStructureGivesSentinel(t: string, decode: Decoder)
    requires forall k :: !OccursAt(Strip(t), OutputMarker, k)
    requires forall k :: !OccursAt(Strip(t), ObjectMarker, k)
    requires FindFence(Strip(t)).None? && '{' !in Strip(t)
    requires decode(Strip(t)) == None
    ensures ParseJsonish(t, decode) == map["llm_output" := JString(t)]
  {
    NoMarkerKeeps(Strip(t));
    assert Candidate(t) == Strip(t);
    NoBraceNoSnippet(Strip(t));
  }

  lemma NoBraceNoSnippet(c: string)
    requires '{' !in c
    ensures Snippet(c).None?
  {
    if Snippet(c).Some? {
      OccursAtChar(c, '{', Find(c, "{"));
    }
  }

  /** "no structured content here" comes back wrapped as the sentinel. */
  lemma PlainProseExample(t: string, decode: Decoder)
    requires t == "no structured content here"
    requires decode(t) == None
    ensures ParseJsonish(t, decode) == map["llm_output" := JString(t)]
  {
    ProseFacts(t);
    NoMarkerWithoutF(t);
    NoFenceWithoutBacktick(t);
    NoStructureGivesSentinel(t, decode);
  }

  lemma ProseFacts(t: string)
    requires t == "no structured content here"
    ensures Strip(t) == t && 'F' !in t && '`' !in t && '{' !in t
  {
    ProseEnds(t);
    StripKeeps(t, Whitespace);
  }

  lemma ProseEnds(t: string)
    requires t == "no structured content here"
    ensures |t| > 0 && !IsSpace(t[0]) && !IsSpace(t[|t| - 1])
  {
  }

  /** A marker phrase followed by a fenced object: the preamble and the fence
    * are discarded and the object inside the fence is returned. */
  lemma MarkerThenFence(text: string, pre: string, post: string, f: FenceSpan, decode: Decoder, m: Mapping)
    requires Strip(text) == pre + OutputMarker + post
    requires forall k :: 0 <= k < |pre| ==> !OccursAt(pre + OutputMarker, OutputMarker, k)
    requires FindFence(Strip(post)) == Some(f)
    requires decode(Strip(post)[f.open..f.close + 1]) == Some(JObject(m))
    ensures ParseJsonish(text, decode) == m
  {
    AfterFirstOutputMarker(pre, post);
    FencedParse(text, Strip(post), f, decode, m);
  }

  /** When the text after the marker holds a fence, the fenced object is what
    * `json.loads` is given. */
  lemma FencedParse(text: string, c: string, f: FenceSpan, decode: Decoder, m: Mapping)
    requires AfterMarker(Strip(text)) == c && FindFence(c) == Some(f)
    requires decode(c[f.open..f.close + 1]) == Some(JObject(m))
    ensures ParseJsonish(text, decode) == m
  {
    CandidateOf(text, c);
    FencedBodyIsCandidate(c, f);
    CandidateParsed(text, decode, JObject(m));
  }

  lemma CandidateOf(text: string, c: string)
    requires AfterMarker(Strip(text)) == c
    ensures Candidate(text) == FenceStage(c)
  {
  }

  /** When the first attempt succeeds, its value is the result. */
  lemma CandidateParsed(text: string, decode: Decoder, v: Json)
    requires decode(Candidate(text)) == Some(v)
    ensures ParseJsonish(text, decode) == Wrap(v)
  {
  }

  /** No occurrence of `sub` can start inside `pre` when `pre` lacks its
    * first character. */
  lemma NoStartIn(pre: string, post: string, sub: string)
    requires |sub| > 0 && sub[0] !in pre
    ensures forall k :: 0 <= k < |pre| ==> !OccursAt(pre + post, sub, k)
  {
  }

  /** "blah blah Final JSON Output ```json {"a": 1} ```" yields {"a": 1}:
    * the text is `pre + OutputMarker + post`, with `post` a space and the
    * fenced block `c`. */
  lemma MarkerFenceExample(pre: string, post: string, c: string, decode: Decoder)
    requires pre == "blah blah " && c == "```json\n{\"a\": 1}\n```" && post == " " + c
    requires decode("{\"a\": 1}") == Some(JObject(map["a" := JNumber("1")]))
    ensures ParseJsonish(pre + OutputMarker + post, decode) == map["a" := JNumber("1")]
  {
    var t := pre + OutputMarker + post;
    ExampleEnds(pre, c);
    assert t[0] == pre[0] && t[|t| - 1] == c[|c| - 1];
    StripKeeps(t, Whitespace);
    assert post == " " + c + "";
    StripUnique(" ", c, "", Whitespace);
    NoStartIn(pre, OutputMarker, OutputMarker);
    FenceInExample(c);
    ExampleBody(c);
    MarkerThenFence(t, pre, post, FenceSpan(0, 8, 15), decode, map["a" := JNumber("1")]);
  }

  lemma ExampleEnds(pre: string, c: string)
    requires pre == "blah blah " && c == "```json\n{\"a\": 1}\n```"
    ensures |pre| > 0 && !IsSpace(pre[0]) && 'F' !in pre
    ensures |c| > 0 && !IsSpace(c[0]) && !IsSpace(c[|c| - 1])
    ensures AllDrop(" ", Whitespace)
  {
    assert c[|c| - 1] == '`';
    assert (" ")[0] == ' ';
  }

  lemma ExampleBody(c: string)
    requires c == "```json\n{\"a\": 1}\n```"
    ensures c[8..16] == "{\"a\": 1}"
  {
  }

  lemma FenceInExample(c: string)
    requires c == "```json\n{\"a\": 1}\n```"
    ensures FindFence(c) == Some(FenceSpan(0, 8, 15))
  {
    ExampleFence(c);
    FindFenceLeftmostShortest(c);
  }

  /** The example's one fence: it opens at 0 with its body at 8, and no `}`
    * before 15 closes it. */
  lemma ExampleFence(c: string)
    requires c == "```json\n{\"a\": 1}\n```"
    ensures FenceAt(c, 0, 15) && BodyStart(c, 0) == 8
    ensures forall e :: e < 15 ==> !FenceAt(c, 0, e)
  {
    assert c[..7] == FenceOpen;
    assert c[7] == '\n' && c[8] == '{';
    assert SkipSpace(c, 8) == 8;
    assert SkipSpace(c, 7) == 8;
    assert c[16] == '\n' && c[17] == '`';
    assert SkipSpace(c, 17) == 17;
    assert SkipSpace(c, 16) == 17;
    assert c[17..20] == FenceClose;
    forall e | e < 15 ensures !FenceAt(c, 0, e) {
      if 8 < e < 15 { assert c[e] != '}'; }
    }
  }
}
