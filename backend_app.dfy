/**
  The image-analysis endpoint of the back end. The model's reply is stripped
  of outer whitespace and of Markdown code fences, then parsed; the response
  is the parsed value, a fixed fallback record, or an error.

  The image decoder, the generative model and the JSON parser are oracles
  passed in as functions: `model` gives the reply text or the exception
  message of whatever failed; `parse` gives the parsed value, a decode
  error, or the message of any other exception the parser raised.
*/
module BackendApp {
  const Fence: string := "```"
  const JsonFence: string := "```json"

  // ---------------------------------------------------------------------
  // str.strip()
  // ---------------------------------------------------------------------

  /** The characters Python's str.isspace accepts, which str.strip() removes. */
  const SpaceChars: set<char> := {'\U{0009}', '\U{000A}', '\U{000B}', '\U{000C}', '\U{000D}', '\U{001C}', '\U{001D}', '\U{001E}', '\U{001F}', '\U{0020}', '\U{0085}', '\U{00A0}', '\U{1680}', '\U{2000}', '\U{2001}', '\U{2002}', '\U{2003}', '\U{2004}', '\U{2005}', '\U{2006}', '\U{2007}', '\U{2008}', '\U{2009}', '\U{200A}', '\U{2028}', '\U{2029}', '\U{202F}', '\U{205F}', '\U{3000}'}

  predicate IsSpace(c: char)
  {
    c in SpaceChars
  }

  predicate AllSpace(s: string)
  {
    forall k :: 0 <= k < |s| ==> IsSpace(s[k])
  }

  /** `s` without its leading whitespace. */
  function LStrip(s: string): (r: string)
    ensures |r| <= |s|
  {
    if s != [] && IsSpace(s[0]) then LStrip(s[1..]) else s
  }

  /** What lstrip() keeps is a suffix of its input ... */
  lemma {:induction false} LStripIsSuffix(s: string)
    ensures LStrip(s) == s[|s| - |LStrip(s)|..]
  {
    if s != [] && IsSpace(s[0]) {
      LStripIsSuffix(s[1..]);
      assert s[1..][|s| - 1 - |LStrip(s[1..])|..] == s[|s| - |LStrip(s[1..])|..];
    }
  }

  /** ... what it drops is whitespace ... */
  lemma {:induction false} LStripDropsSpace(s: string)
    ensures AllSpace(s[..|s| - |LStrip(s)|])
  {
    if s != [] && IsSpace(s[0]) {
      LStripDropsSpace(s[1..]);
      var n := |s| - |LStrip(s)|;
      assert forall k :: 1 <= k < n ==> s[k] == s[1..][..n - 1][k - 1];
    }
  }

  /** ... and what it keeps does not start with whitespace. */
  lemma {:induction false} LStripFirst(s: string)
    ensures LStrip(s) == [] || !IsSpace(LStrip(s)[0])
  {
    if s != [] && IsSpace(s[0]) {
      LStripFirst(s[1..]);
    }
  }

  /** `s` without its trailing whitespace. */
  function RStrip(s: string): (r: string)
    ensures |r| <= |s|
  {
    if s != [] && IsSpace(s[|s| - 1]) then RStrip(s[..|s| - 1]) else s
  }

  /** What rstrip() keeps is a prefix of its input ... */
  lemma {:induction false} RStripIsPrefix(s: string)
    ensures RStrip(s) == s[..|RStrip(s)|]
  {
    if s != [] && IsSpace(s[|s| - 1]) {
      RStripIsPrefix(s[..|s| - 1]);
      assert s[..|s| - 1][..|RStrip(s)|] == s[..|RStrip(s)|];
    }
  }

  /** ... what it drops is whitespace ... */
  lemma {:induction false} RStripDropsSpace(s: string)
    ensures AllSpace(s[|RStrip(s)|..])
  {
    if s != [] && IsSpace(s[|s| - 1]) {
      RStripDropsSpace(s[..|s| - 1]);
      var n := |RStrip(s)|;
      assert forall k :: n <= k < |s| - 1 ==> s[k] == s[..|s| - 1][n..][k - n];
    }
  }

  /** ... and what it keeps does not end with whitespace. */
  lemma {:induction false} RStripLast(s: string)
    ensures RStrip(s) == [] || !IsSpace(RStrip(s)[|RStrip(s)| - 1])
  {
    if s != [] && IsSpace(s[|s| - 1]) {
      RStripLast(s[..|s| - 1]);
    }
  }

  /** str.strip(). */
  function Strip(s: string): (r: string)
    ensures |r| <= |s|
  {
    RStrip(LStrip(s))
  }

  /** strip() gives the slice of `s` that starts after its leading whitespace. */
  lemma StripIsSlice(s: string)
    ensures var i := |s| - |LStrip(s)|;
      i + |Strip(s)| <= |s| && Strip(s) == s[i..i + |Strip(s)|]
  {
    var left := LStrip(s);
    LStripIsSuffix(s);
    RStripIsPrefix(left);
    SliceOfSuffix(s, |s| - |left|, |RStrip(left)|);
  }

  lemma SliceOfSuffix(s: string, i: nat, n: nat)
    requires i + n <= |s|
    ensures s[i..][..n] == s[i..i + n]
    ensures s[i..][n..] == s[i + n..]
  {
  }

  /** What strip() drops on either side is whitespace. */
  lemma StripDropsSpace(s: string)
    ensures AllSpace(s[..|s| - |LStrip(s)|])
    ensures var i := |s| - |LStrip(s)|;
      i + |Strip(s)| <= |s| && AllSpace(s[i + |Strip(s)|..])
  {
    var left := LStrip(s);
    LStripDropsSpace(s);
    LStripIsSuffix(s);
    RStripDropsSpace(left);
    SliceOfSuffix(s, |s| - |left|, |RStrip(left)|);
  }

  /** The result of strip() neither starts nor ends with whitespace. */
  lemma StripEnds(s: string)
    ensures var r := Strip(s); r == [] || (!IsSpace(r[0]) && !IsSpace(r[|r| - 1]))
  {
    var left := LStrip(s);
    LStripFirst(s);
    RStripLast(left);
    RStripIsPrefix(left);
    assert RStrip(left) != [] ==> RStrip(left)[0] == left[0];
  }

  /** Stripping twice is stripping once. */
  lemma StripIdempotent(s: string)
    ensures Strip(Strip(s)) == Strip(s)
  {
    var t := Strip(s);
    StripEnds(s);
    assert LStrip(t) == t;
    assert RStrip(t) == t;
  }

  lemma {:induction false} LStripSkipsSpace(w: string, u: string)
    requires AllSpace(w)
    ensures LStrip(w + u) == LStrip(u)
  {
    if w != [] {
      assert (w + u)[1..] == w[1..] + u;
      LStripSkipsSpace(w[1..], u);
    } else {
      assert w + u == u;
    }
  }

  lemma {:induction false} RStripSkipsSpace(u: string, w: string)
    requires AllSpace(w)
    ensures RStrip(u + w) == RStrip(u)
  {
    if w != [] {
      assert (u + w)[..|u + w| - 1] == u + w[..|w| - 1];
      RStripSkipsSpace(u, w[..|w| - 1]);
    } else {
      assert u + w == u;
    }
  }

  /** Whitespace around a text that starts and ends with a non-space is exactly what strip() removes. */
  lemma StripRemovesPadding(w1: string, t: string, w2: string)
    requires AllSpace(w1) && AllSpace(w2)
    requires t != [] && !IsSpace(t[0]) && !IsSpace(t[|t| - 1])
    ensures Strip(w1 + t + w2) == t
  {
    assert w1 + t + w2 == w1 + (t + w2);
    LStripSkipsSpace(w1, t + w2);
    assert LStrip(t + w2) == t + w2;
    RStripSkipsSpace(t, w2);
  }

  // ---------------------------------------------------------------------
  // str.replace(pat, "")
  // ---------------------------------------------------------------------

  /** `pat` occurs in `s` at index `i`. */
  predicate OccursAt(pat: string, s: string, i: nat)
  {
    i + |pat| <= |s| && s[i..i + |pat|] == pat
  }

  /** Python's `pat in s`. */
  predicate Contains(s: string, pat: string)
  {
    exists i: nat | i <= |s| :: OccursAt(pat, s, i)
  }

  /**
    str.replace(pat, ""): occurrences are found left to right, without
    overlap, and deleted; the scan resumes after each deleted occurrence.
  */
  function RemoveAll(s: string, pat: string): (r: string)
    requires pat != []
    ensures |r| <= |s|
    decreases |s|
  {
    if |s| < |pat| then s
    else if s[..|pat|] == pat then RemoveAll(s[|pat|..], pat)
    else [s[0]] + RemoveAll(s[1..], pat)
  }

  /** Nothing is removed from a text in which the pattern's first character never occurs. */
  lemma {:induction false} RemoveAllNothingToRemove(s: string, pat: string)
    requires pat != [] && pat[0] !in s
    ensures RemoveAll(s, pat) == s
    decreases |s|
  {
    if |s| >= |pat| {
      assert s[..|pat|][0] == s[0];
      RemoveAllNothingToRemove(s[1..], pat);
      assert [s[0]] + s[1..] == s;
    }
  }

  /** A prefix that cannot start an occurrence passes through unchanged. */
  lemma {:induction false} RemoveAllAfterPrefix(x: string, y: string, pat: string)
    requires pat != [] && pat[0] !in x
    ensures RemoveAll(x + y, pat) == x + RemoveAll(y, pat)
  {
    if x != [] {
      var s := x + y;
      assert s[0] == x[0];
      if |s| >= |pat| {
        assert s[..|pat|][0] == x[0];
        assert s[1..] == x[1..] + y;
        RemoveAllAfterPrefix(x[1..], y, pat);
      }
    } else {
      assert x + y == y;
    }
  }

  // ---------------------------------------------------------------------
  // The cleaning expression of the endpoint
  // ---------------------------------------------------------------------

  /** strip(), then every "```json" removed, then every "```" removed: no code fence is left. */
  function Clean(reply: string): (r: string)
    ensures |r| <= |reply|
    ensures !Contains(r, Fence)
    ensures !Contains(r, JsonFence)
  {
    var unjson := RemoveAll(Strip(reply), JsonFence);
    NoFenceAfterRemoval(unjson);
    var cleaned := RemoveAll(unjson, Fence);
    NoJsonFenceWithoutFence(cleaned);
    cleaned
  }

  /** The number of backticks `s` starts with. */
  function LeadingTicks(s: string): nat
  {
    if s != [] && s[0] == '`' then 1 + LeadingTicks(s[1..]) else 0
  }

  lemma {:induction false} LeadingTicksAtLeast(s: string, k: nat)
    ensures LeadingTicks(s) >= k <==> k <= |s| && forall j :: 0 <= j < k ==> s[j] == '`'
  {
    if k > 0 && s != [] {
      LeadingTicksAtLeast(s[1..], k - 1);
      assert forall j :: 1 <= j < k && j < |s| ==> s[j] == s[1..][j - 1];
    }
  }

  /** A leading "```" is deleted whole and accounts for three leading backticks. */
  lemma FenceAtStart(s: string)
    requires |s| >= 3 && s[..3] == Fence
    ensures RemoveAll(s, Fence) == RemoveAll(s[3..], Fence)
    ensures LeadingTicks(s) == 3 + LeadingTicks(s[3..])
  {
    assert s[0] == '`' && s[1] == '`' && s[2] == '`';
    assert s[1..][1..] == s[2..] && s[2..][1..] == s[3..];
    assert LeadingTicks(s[2..]) == 1 + LeadingTicks(s[3..]);
    assert LeadingTicks(s[1..]) == 1 + LeadingTicks(s[2..]);
    assert s[..|Fence|] == Fence;
  }

  /** Without a leading "```", the first character is kept and a leading backtick starts a run shorter than three. */
  lemma NoFenceAtStart(s: string)
    requires |s| >= 3 && s[..3] != Fence
    ensures RemoveAll(s, Fence) == [s[0]] + RemoveAll(s[1..], Fence)
    ensures s[0] == '`' ==> LeadingTicks(s) == 1 + LeadingTicks(s[1..]) < 3
    ensures s[0] != '`' ==> LeadingTicks(s) == 0
  {
    if s[0] == '`' {
      assert s[..3] == [s[0], s[1], s[2]];
      LeadingTicksAtLeast(s[1..], 2);
    }
  }

  lemma PlusThreeMod(m: nat)
    ensures (3 + m) % 3 == m % 3
  {
  }

  lemma LeadingTicksCons(c: char, t: string)
    ensures LeadingTicks([c] + t) == if c == '`' then 1 + LeadingTicks(t) else 0
  {
    assert ([c] + t)[1..] == t;
  }

  /** Removing "```" turns a leading run of backticks into its length mod 3. */
  lemma {:induction false} FenceRemovalLeadingRun(s: string)
    ensures LeadingTicks(RemoveAll(s, Fence)) == LeadingTicks(s) % 3
    decreases |s|
  {
    if |s| < 3 {
      LeadingTicksAtLeast(s, |s| + 1);
      assert RemoveAll(s, Fence) == s;
      assert LeadingTicks(s) % 3 == LeadingTicks(s);
    } else if s[..3] == Fence {
      FenceRemovalLeadingRun(s[3..]);
      FenceAtStart(s);
      PlusThreeMod(LeadingTicks(s[3..]));
    } else {
      var t := RemoveAll(s[1..], Fence);
      FenceRemovalLeadingRun(s[1..]);
      NoFenceAtStart(s);
      LeadingTicksCons(s[0], t);
      assert LeadingTicks(s) % 3 == LeadingTicks(s);
    }
  }

  /** After "```" has been removed, no "```" is left: each run of backticks is shorter than three. */
  lemma {:induction false} NoFenceAfterRemoval(s: string)
    ensures !Contains(RemoveAll(s, Fence), Fence)
    decreases |s|
  {
    var r := RemoveAll(s, Fence);
    if |s| < 3 {
      assert r == s;
    } else if s[..3] == Fence {
      NoFenceAfterRemoval(s[3..]);
    } else {
      var t := RemoveAll(s[1..], Fence);
      NoFenceAfterRemoval(s[1..]);
      NoFenceAtStart(s);
      FenceRemovalLeadingRun(s[1..]);
      FenceNotAtHead(s[0], t);
      forall i: nat | i > 0
        ensures !OccursAt(Fence, r, i)
      {
        OccursAfterHead(Fence, s[0], t, i);
      }
    }
  }

  /** A text whose head is not a backtick, or is one followed by fewer than two, does not start with "```". */
  lemma FenceNotAtHead(c: char, t: string)
    requires c == '`' ==> LeadingTicks(t) < 2
    ensures !OccursAt(Fence, [c] + t, 0)
  {
    LeadingTicksAtLeast(t, 2);
    if |t| >= 2 {
      assert ([c] + t)[..3] == [c, t[0], t[1]];
    }
  }

  /** Occurrences after the head of `[c] + t` are the occurrences in `t`, shifted by one. */
  lemma OccursAfterHead(pat: string, c: char, t: string, i: nat)
    requires i > 0
    ensures OccursAt(pat, [c] + t, i) == OccursAt(pat, t, i - 1)
  {
    if i + |pat| <= |[c] + t| {
      assert ([c] + t)[i..i + |pat|] == t[i - 1..i - 1 + |pat|];
    }
  }

  /** Every "```json" starts with "```". */
  lemma JsonFenceHoldsFence(c: string, i: nat)
    ensures OccursAt(JsonFence, c, i) ==> OccursAt(Fence, c, i)
  {
    if i + |JsonFence| <= |c| {
      assert c[i..i + |Fence|] == c[i..i + |JsonFence|][..|Fence|];
    }
  }

  /** A text without "```" has no "```json" either. */
  lemma NoJsonFenceWithoutFence(c: string)
    requires !Contains(c, Fence)
    ensures !Contains(c, JsonFence)
  {
    forall i: nat
      ensures !OccursAt(JsonFence, c, i)
    {
      JsonFenceHoldsFence(c, i);
    }
  }

  /** A reply without backticks is only stripped. */
  lemma CleanWithoutBackticks(reply: string)
    requires '`' !in reply
    ensures Clean(reply) == Strip(reply)
  {
    var t := Strip(reply);
    StripIsSlice(reply);
    assert forall k :: 0 <= k < |t| ==> t[k] in reply;
    RemoveAllNothingToRemove(t, JsonFence);
    RemoveAllNothingToRemove(t, Fence);
  }

  /** Removing "```json" from a code block leaves its body and the closing fence. */
  lemma JsonFenceRemovedFromBlock(body: string)
    requires '`' !in body
    ensures RemoveAll(JsonFence + body + Fence, JsonFence) == body + Fence
  {
    var block := JsonFence + body + Fence;
    assert block[..|JsonFence|] == JsonFence;
    assert block[|JsonFence|..] == body + Fence;
    RemoveAllAfterPrefix(body, Fence, JsonFence);
  }

  /** Removing "```" from a body and its closing fence leaves the body. */
  lemma ClosingFenceRemoved(body: string)
    requires '`' !in body
    ensures RemoveAll(body + Fence, Fence) == body
  {
    RemoveAllAfterPrefix(body, Fence, Fence);
    assert Fence[..|Fence|] == Fence && Fence[|Fence|..] == [];
    assert body + [] == body;
  }

  /** A reply fenced as a JSON code block, with any whitespace around it, is unwrapped to its body. */
  lemma CleanUnwrapsCodeBlock(w1: string, body: string, w2: string)
    requires AllSpace(w1) && AllSpace(w2) && '`' !in body
    ensures Clean(w1 + JsonFence + body + Fence + w2) == body
  {
    var block := JsonFence + body + Fence;
    assert w1 + JsonFence + body + Fence + w2 == w1 + block + w2;
    StripRemovesPadding(w1, block, w2);
    JsonFenceRemovedFromBlock(body);
    ClosingFenceRemoved(body);
  }

  // ---------------------------------------------------------------------
  // The endpoint
  // ---------------------------------------------------------------------

  /** A value json.loads can produce (numbers are modelled as integers). */
  datatype Json =
    | JNull
    | JBool(b: bool)
    | JNumber(n: int)
    | JString(s: string)
    | JArray(items: seq<Json>)
    | JObject(fields: map<string, Json>)

  /** What reading the image and asking the model gave: the reply text, or the message of the exception raised. */
  datatype Reply = Text(text: string) | Raised(message: string)

  /** What json.loads did: returned a value, raised JSONDecodeError, or raised another exception (say, RecursionError). */
  datatype Parse = Parsed(value: Json) | DecodeError | ParseRaised(message: string)

  datatype Response = Response(status: nat, body: Json)

  const MissingImageMessage: string := "No se adjuntó archivo de imagen"
  const AnalysisErrorPrefix: string := "Error en el análisis: "
  const Undetermined: string := "No determinado"
  const Unavailable: string := "No disponibles"
  const LowConfidence: string := "Baja"

  /** An error answer: an object whose only key is "error". */
  function ErrorBody(message: string): (j: Json)
    ensures j.JObject? && j.fields.Keys == {"error"} && j.fields["error"] == JString(message)
  {
    JObject(map["error" := JString(message)])
  }

  /** The record sent when the cleaned reply is not JSON; it carries the reply as received. */
  function Fallback(reply: string): (j: Json)
    ensures j.JObject? && "error" !in j.fields
    ensures j.fields.Keys == {"country", "region_or_city", "coordinates", "confidence", "reasoning"}
    ensures j.fields["reasoning"] == JString(reply)
    ensures j.fields["country"] == j.fields["region_or_city"] == JString(Undetermined)
    ensures j.fields["coordinates"] == JString(Unavailable) && j.fields["confidence"] == JString(LowConfidence)
  {
    JObject(map[
      "country" := JString(Undetermined),
      "region_or_city" := JString(Undetermined),
      "coordinates" := JString(Unavailable),
      "confidence" := JString(LowConfidence),
      "reasoning" := JString(reply)])
  }

  /**
    Whether something other than a JSON decode error was raised: by reading
    the image or asking the model, or by the parser on the cleaned reply.
  */
  predicate Raises(reply: Reply, parse: string -> Parse)
  {
    reply.Raised? || parse(Clean(reply.text)).ParseRaised?
  }

  /** POST /api/analyze. */
  function AnalyzeImage(files: map<string, seq<bv8>>, model: seq<bv8> -> Reply, parse: string -> Parse): (r: Response)
    ensures r.status in {200, 400, 500}
    ensures r.status == 400 <==> "image" !in files
    ensures r.status == 500 <==> "image" in files && Raises(model(files["image"]), parse)
    ensures r.status != 200 ==> r.body.JObject? && r.body.fields.Keys == {"error"}
  {
    if "image" !in files then
      Response(400, ErrorBody(MissingImageMessage))
    else
      match model(files["image"])
      case Raised(message) => Response(500, ErrorBody(AnalysisErrorPrefix + message))
      case Text(reply) =>
        match parse(Clean(reply))
        case Parsed(value) => Response(200, value)
        case DecodeError => Response(200, Fallback(reply))
        case ParseRaised(message) => Response(500, ErrorBody(AnalysisErrorPrefix + message))
  }

  /** Without an image the answer is the 400 error, whatever the model and the parser would do. */
  lemma MissingImageSkipsAnalysis(files: map<string, seq<bv8>>, model1: seq<bv8> -> Reply, parse1: string -> Parse,
                                  model2: seq<bv8> -> Reply, parse2: string -> Parse)
    requires "image" !in files
    ensures AnalyzeImage(files, model1, parse1) == AnalyzeImage(files, model2, parse2)
    ensures AnalyzeImage(files, model1, parse1) == Response(400, ErrorBody(MissingImageMessage))
  {
  }

  /** A failure while reading the image or asking the model is a 500 whose message is prefixed. */
  lemma FailureReported(files: map<string, seq<bv8>>, model: seq<bv8> -> Reply, parse: string -> Parse)
    requires "image" in files && model(files["image"]).Raised?
    ensures AnalyzeImage(files, model, parse) ==
      Response(500, ErrorBody(AnalysisErrorPrefix + model(files["image"]).message))
  {
  }

  /** Any other exception from the parser, such as RecursionError on deep nesting, is a 500 as well. */
  lemma ParserFailureReported(files: map<string, seq<bv8>>, model: seq<bv8> -> Reply, parse: string -> Parse)
    requires "image" in files && model(files["image"]).Text?
    requires parse(Clean(model(files["image"]).text)).ParseRaised?
    ensures AnalyzeImage(files, model, parse) ==
      Response(500, ErrorBody(AnalysisErrorPrefix + parse(Clean(model(files["image"]).text)).message))
  {
  }

  /** A cleaned reply that parses is answered with the parsed value, unchanged. */
  lemma ParsedReplyReturned(files: map<string, seq<bv8>>, model: seq<bv8> -> Reply, parse: string -> Parse)
    requires "image" in files && model(files["image"]).Text?
    requires parse(Clean(model(files["image"]).text)).Parsed?
    ensures AnalyzeImage(files, model, parse) == Response(200, parse(Clean(model(files["image"]).text)).value)
  {
  }

  /** A cleaned reply that does not parse is answered with the fallback record, whose reasoning is the raw reply. */
  lemma UnparsedReplyFallsBack(files: map<string, seq<bv8>>, model: seq<bv8> -> Reply, parse: string -> Parse)
    requires "image" in files && model(files["image"]).Text?
    requires parse(Clean(model(files["image"]).text)).DecodeError?
    ensures AnalyzeImage(files, model, parse).status == 200
    ensures AnalyzeImage(files, model, parse).body == Fallback(model(files["image"]).text)
    ensures AnalyzeImage(files, model, parse).body.fields["reasoning"] == JString(model(files["image"]).text)
  {
  }

  /** The raw reply kept as reasoning is not the cleaned text: here the fences stay in. */
  lemma FallbackKeepsFences()
    ensures Clean("```x```") == "x"
    ensures Fallback("```x```").fields["reasoning"] == JString("```x```")
  {
    var s := "```x```";
    assert Strip(s) == s by {
      assert !IsSpace(s[0]) && !IsSpace(s[|s| - 1]);
      StripRemovesPadding([], s, []);
      assert [] + s + [] == s;
    }
    assert RemoveAll(s, JsonFence) == s by {
      assert s[..|JsonFence|] != JsonFence by { assert s[3] != JsonFence[3]; }
      assert |s[1..]| < |JsonFence|;
      assert [s[0]] + s[1..] == s;
    }
    calc {
      RemoveAll(s, Fence);
      { assert s[..3] == Fence && s[3..] == "x" + Fence; }
      RemoveAll("x" + Fence, Fence);
      { ClosingFenceRemoved("x"); }
      "x";
    }
  }

  /** A code-fenced JSON reply whose body parses is answered with the parsed body. */
  lemma CodeBlockReplyAnswered(files: map<string, seq<bv8>>, model: seq<bv8> -> Reply, parse: string -> Parse,
                               w1: string, body: string, w2: string)
    requires "image" in files && model(files["image"]) == Text(w1 + JsonFence + body + Fence + w2)
    requires AllSpace(w1) && AllSpace(w2) && '`' !in body
    requires parse(body).Parsed?
    ensures AnalyzeImage(files, model, parse) == Response(200, parse(body).value)
  {
    CleanUnwrapsCodeBlock(w1, body, w2);
  }
}
