/**
 * The string logic of the resume service: rendering the prompt template and
 * parsing the language model's reply into a `think` entry and a `data` entry.
 * The HTTP call, the class-path loading of the template and Jackson's JSON
 * parser are collaborators handed in as function parameters.
 */
module ResumeService {
  import opened Wrappers
  import opened JavaString

  // ===========================================================================
  // putValuesToTemplate

  /** One entry of the values map, in the order the map's iteration yields it. */
  datatype Entry = Entry(key: string, value: string)

  /** The placeholder `{{key}}` that stands for a key in the template. */
  function Placeholder(key: string): (p: string)
    ensures |p| == |key| + 4
    ensures p[..2] == "{{" && p[2..|p| - 2] == key && p[|p| - 2..] == "}}"
  {
    "{{" + key + "}}"
  }

  /**
   * The template after substituting the entries one after the other: each
   * step replaces every placeholder of one key in the text produced so far.
   */
  function Render(template: string, entries: seq<Entry>): string
    decreases |entries|
  {
    if entries == [] then template
    else
      var last := entries[|entries| - 1];
      ReplaceAll(Render(template, entries[..|entries| - 1]), Placeholder(last.key), last.value)
  }

  /** The loop over the map's entries, reassigning the template at each step. */
  method PutValuesToTemplate(template: string, values: seq<Entry>) returns (r: string)
    ensures r == Render(template, values)
    ensures values == [] ==> r == template
  {
    r := template;
    for i := 0 to |values|
      invariant r == Render(template, values[..i])
    {
      var entry := values[i];
      r := ReplaceAll(r, Placeholder(entry.key), entry.value);
      assert values[..i + 1][..i] == values[..i];
    }
    assert values[..|values|] == values;
  }

  /** A template that holds no placeholder of any supplied key comes back unchanged. */
  lemma {:induction false} RenderWithoutPlaceholders(template: string, values: seq<Entry>)
    requires forall i :: 0 <= i < |values| ==> Absent(template, Placeholder(values[i].key))
    ensures Render(template, values) == template
    decreases |values|
  {
    if values != [] {
      var init := values[..|values| - 1];
      assert forall i :: 0 <= i < |init| ==> init[i] == values[i];
      RenderWithoutPlaceholders(template, init);
    }
  }

  /**
   * With a single entry, as the service uses it, a non-empty value that shares
   * no character with the placeholder leaves no placeholder behind.
   */
  lemma {:induction false} RenderSingleRemovesPlaceholder(template: string, key: string, value: string)
    requires |value| > 0
    requires forall k :: 0 <= k < |value| ==> value[k] !in Placeholder(key)
    ensures Absent(Render(template, [Entry(key, value)]), Placeholder(key))
  {
    assert [Entry(key, value)][..0] == [];
    ReplaceAllRemovesTarget(template, Placeholder(key), value);
  }

  /**
   * The condition on the value cannot be dropped: a value that is the
   * placeholder itself leaves every template as it was, placeholder included.
   */
  lemma {:induction false} RenderPlaceholderAsValue(template: string, key: string)
    ensures Render(template, [Entry(key, Placeholder(key))]) == template
    ensures !Absent(Render(Placeholder(key), [Entry(key, Placeholder(key))]), Placeholder(key))
  {
    var p := Placeholder(key);
    assert [Entry(key, p)][..0] == [];
    ReplaceAllSelf(template, p);
    ReplaceAllSelf(p, p);
    assert OccursAt(p, p, 0);
  }

  /**
   * Whatever the earlier entries inserted, the last entry leaves no placeholder
   * of its key behind when its value is non-empty and shares no character with
   * that placeholder.
   */
  lemma {:induction false} RenderLastRemovesPlaceholder(template: string, entries: seq<Entry>, last: Entry)
    requires |last.value| > 0
    requires forall k :: 0 <= k < |last.value| ==> last.value[k] !in Placeholder(last.key)
    ensures Absent(Render(template, entries + [last]), Placeholder(last.key))
  {
    var es := entries + [last];
    assert es[..|es| - 1] == entries && es[|es| - 1] == last;
    ReplaceAllRemovesTarget(Render(template, entries), Placeholder(last.key), last.value);
  }

  /** Replacing the placeholder as the only occurrence gives the value. */
  lemma {:induction false} ReplaceWhole(p: string, v: string)
    requires |p| > 0
    ensures ReplaceAll(p, p, v) == v
  {
    IndexOfIsFirst(p, p, 0);
    assert p[|p|..] == [];
    assert Absent([], p);
  }

  /**
   * Text inserted for an earlier key is scanned again for later keys: a value
   * that itself holds a later key's placeholder gets that placeholder replaced.
   */
  lemma {:induction false} RenderRescansInsertedText()
    ensures Render("{{a}}", [Entry("a", "{{b}}"), Entry("b", "x")]) == "x"
  {
    var es := [Entry("a", "{{b}}"), Entry("b", "x")];
    var first := [Entry("a", "{{b}}")];
    assert es[..1] == first && first[..0] == [];
    assert Placeholder("a") == "{{a}}" && Placeholder("b") == "{{b}}";
    assert Render("{{a}}", first) == "{{b}}" by {
      ReplaceWhole("{{a}}", "{{b}}");
    }
    ReplaceWhole("{{b}}", "x");
  }

  /** The same entries in the other iteration order leave the inserted placeholder in place. */
  lemma {:induction false} RenderDependsOnOrder()
    ensures Render("{{a}}", [Entry("b", "x"), Entry("a", "{{b}}")]) == "{{b}}"
  {
    var es := [Entry("b", "x"), Entry("a", "{{b}}")];
    assert es[..1] == [Entry("b", "x")] && es[..1][..0] == [];
    assert Absent("{{a}}", "{{b}}") by {
      forall k | 0 <= k && k + 5 <= 5 ensures !OccursAt("{{a}}", "{{b}}", k) {
        assert "{{a}}"[k..k + 5][2] == 'a';
      }
    }
    assert Placeholder("b") == "{{b}}" && Placeholder("a") == "{{a}}";
    assert Render("{{a}}", es[..1]) == "{{a}}";
    ReplaceWhole("{{a}}", "{{b}}");
  }

  // ===========================================================================
  // parseMultipleResponses

  /** A value of the result map: Java's `null`, a `String`, or the parsed JSON object. */
  datatype Value<J> = Null | Text(text: string) | Json(json: J)

  const ThinkOpen: string := "<think>"
  const ThinkClose: string := "</think>"
  const JsonFence: string := "```json"
  const Fence: string := "```"

  /** The value stored for an optional parse result. */
  function ToValue<J>(o: Option<J>): (v: Value<J>)
    ensures v.Null? <==> o.None?
    ensures o.Some? ==> v == Json(o.value)
  {
    match o
    case None => Null
    case Some(d) => Json(d)
  }

  /**
   * The `think` entry: the trimmed text between the end of the first `<think>`
   * and the first `</think>`, `null` without a `</think>`, or the exception of
   * `substring` when the start lies after the end. The start is the index of
   * `<think>` plus 7, so it is never -1 and is 6 when `<think>` is missing.
   */
  function ThinkText(response: string): (r: Result<Option<string>, StringError>)
    ensures IndexOf(response, ThinkClose) == -1 ==> r == Success(None)
    ensures r.Failure? ==> r.error == StringIndexOutOfBounds(IndexOf(response, ThinkOpen) + 7, IndexOf(response, ThinkClose), |response|)
    ensures r.Success? && r.value.Some? ==> |r.value.value| + 14 <= |response|
  {
    var thinkStart := IndexOf(response, ThinkOpen) + 7;
    var thinkEnd := IndexOf(response, ThinkClose);
    if thinkStart != -1 && thinkEnd != -1 then
      var content :- Substring(response, thinkStart, thinkEnd);
      Success(Some(Trim(content)))
    else
      Success(None)
  }

  /**
   * The text handed to the JSON parser: the trimmed text from the end of the
   * first "```json" to the last "```", or nothing when that end does not lie
   * strictly after that start.
   */
  function JsonText(response: string): (t: Option<string>)
    ensures LastIndexOf(response, Fence) == -1 ==> t == None
    ensures t.Some? ==> |t.value| + 9 <= |response|
  {
    var jsonStart := IndexOf(response, JsonFence) + 7;
    var jsonEnd := LastIndexOf(response, Fence);
    if jsonStart != -1 && jsonEnd != -1 && jsonStart < jsonEnd then
      Some(Trim(response[jsonStart..jsonEnd]))
    else
      None
  }

  /** The `data` entry: the parsed object, or `null` when there is no text or it does not parse. */
  function DataValue<J>(response: string, parseJson: string -> Option<J>): (v: Value<J>)
    ensures !v.Text?
    ensures JsonText(response) == None ==> v == Null
    ensures v.Json? ==> JsonText(response).Some? && parseJson(JsonText(response).value) == Some(v.json)
  {
    match JsonText(response)
    case None => Null
    case Some(t) => ToValue(parseJson(t))
  }

  /** What `parseMultipleResponses` returns, or the exception it throws. */
  function ParseSpec<J>(response: string, parseJson: string -> Option<J>): (r: Result<map<string, Value<J>>, StringError>)
    ensures r.Success? <==> ThinkText(response).Success?
    ensures r.Failure? ==> r.error == ThinkText(response).error
    ensures r.Success? ==> r.value.Keys == {"think", "data"} && !r.value["data"].Text?
  {
    var think :- ThinkText(response);
    Success(ResultMap(think, DataValue(response, parseJson)))
  }

  /** The returned map, from the `think` text and the `data` value. */
  function ResultMap<J>(think: Option<string>, data: Value<J>): (m: map<string, Value<J>>)
    ensures m.Keys == {"think", "data"}
    ensures m["think"] == ThinkValue(think) && m["data"] == data
  {
    map["think" := ThinkValue(think), "data" := data]
  }

  /** The value stored for the `think` text. */
  function ThinkValue<J>(think: Option<string>): (v: Value<J>)
    ensures v.Null? <==> think.None?
    ensures think.Some? ==> v == Text(think.value)
  {
    if think.Some? then Text(think.value) else Null
  }

  /**
   * The parser as the service runs it: a map filled with one `put` per entry,
   * a `substring` that may throw, and a JSON parse whose failure is caught.
   */
  method ParseMultipleResponses<J>(response: string, parseJson: string -> Option<J>)
    returns (r: Result<map<string, Value<J>>, StringError>)
    ensures r == ParseSpec(response, parseJson)
    ensures r.Success? ==> r.value.Keys == {"think", "data"}
  {
    var jsonResponse: map<string, Value<J>> := map[];

    var thinkStart := IndexOf(response, ThinkOpen) + 7;
    var thinkEnd := IndexOf(response, ThinkClose);
    if thinkStart != -1 && thinkEnd != -1 {
      var thinkContent :- Substring(response, thinkStart, thinkEnd);
      jsonResponse := jsonResponse["think" := Text(Trim(thinkContent))];
      assert ThinkText(response) == Success(Some(Trim(thinkContent)));
    } else {
      jsonResponse := jsonResponse["think" := Null];
      assert ThinkText(response) == Success(None);
    }
    ghost var think := ThinkText(response).value;
    assert jsonResponse == map["think" := ThinkValue(think)];

    var jsonStart := IndexOf(response, JsonFence) + 7;
    var jsonEnd := LastIndexOf(response, Fence);
    if jsonStart != -1 && jsonEnd != -1 && jsonStart < jsonEnd {
      // the guard keeps this substring in bounds, so it cannot throw
      var jsonContent := Substring(response, jsonStart, jsonEnd).value;
      var dataContent := parseJson(Trim(jsonContent));
      if dataContent.Some? {
        jsonResponse := jsonResponse["data" := Json(dataContent.value)];
      } else {
        jsonResponse := jsonResponse["data" := Null];
      }
      assert JsonText(response) == Some(Trim(jsonContent));
    } else {
      jsonResponse := jsonResponse["data" := Null];
      assert JsonText(response) == None;
    }
    assert jsonResponse == map["think" := ThinkValue(think)]["data" := DataValue(response, parseJson)];

    return Success(jsonResponse);
  }

  // ---------------------------------------------------------------------------
  // the think entry

  /** Without `</think>` the `think` entry is `null` and the parse returns. */
  lemma {:induction false} ThinkNullWithoutClose<J>(response: string, parseJson: string -> Option<J>)
    requires Absent(response, ThinkClose)
    ensures ParseSpec(response, parseJson) == Success(map["think" := Null, "data" := DataValue(response, parseJson)])
  {
  }

  /** With both tags in order, `think` is the trimmed text between them. */
  lemma {:induction false} ThinkBetweenTags<J>(response: string, parseJson: string -> Option<J>, i: int, j: int)
    requires 0 <= i && IsFirst(response, ThinkOpen, i)
    requires 0 <= j && IsFirst(response, ThinkClose, j)
    requires i + 7 <= j
    ensures ParseSpec(response, parseJson).Success?
    ensures ParseSpec(response, parseJson).value["think"] == Text(Trim(response[i + 7..j]))
  {
    IndexOfIsFirst(response, ThinkOpen, i);
    IndexOfIsFirst(response, ThinkClose, j);
  }

  /**
   * The start guard is vacuous: without `<think>` the extraction starts at
   * index 6, so a `</think>` at index 6 or later yields the text from there.
   */
  lemma {:induction false} ThinkWithoutOpener<J>(response: string, parseJson: string -> Option<J>, j: int)
    requires Absent(response, ThinkOpen)
    requires 6 <= j && IsFirst(response, ThinkClose, j)
    ensures ParseSpec(response, parseJson).Success?
    ensures ParseSpec(response, parseJson).value["think"] == Text(Trim(response[6..j]))
  {
    IndexOfIsFirst(response, ThinkClose, j);
  }

  /**
   * The parse throws exactly when the first `</think>` lies before the computed
   * start, and then the exception carries that start and end.
   */
  lemma {:induction false} ParseThrowsExactly<J>(response: string, parseJson: string -> Option<J>, j: int)
    requires 0 <= j && IsFirst(response, ThinkClose, j)
    ensures ParseSpec(response, parseJson).Failure? <==> j < IndexOf(response, ThinkOpen) + 7
    ensures ParseSpec(response, parseJson).Failure? ==>
      ParseSpec(response, parseJson).error == StringIndexOutOfBounds(IndexOf(response, ThinkOpen) + 7, j, |response|)
  {
    IndexOfIsFirst(response, ThinkClose, j);
  }

  /** A `</think>` before the first `<think>` makes the parse throw. */
  lemma {:induction false} ParseThrowsWhenCloseBeforeOpen<J>(response: string, parseJson: string -> Option<J>, i: int, j: int)
    requires 0 <= i && IsFirst(response, ThinkOpen, i)
    requires 0 <= j && IsFirst(response, ThinkClose, j)
    requires j < i
    ensures ParseSpec(response, parseJson).Failure?
  {
    IndexOfIsFirst(response, ThinkOpen, i);
    IndexOfIsFirst(response, ThinkClose, j);
  }

  /** A reply that starts with `</think>` and has no `<think>` makes the parse throw. */
  lemma {:induction false} ParseThrowsOnLeadingClose<J>(response: string, parseJson: string -> Option<J>)
    requires |response| >= 8 && response[..8] == ThinkClose
    requires Absent(response, ThinkOpen)
    ensures ParseSpec(response, parseJson).Failure?
  {
    assert OccursAt(response, ThinkClose, 0);
    IndexOfIsFirst(response, ThinkClose, 0);
  }

  // ---------------------------------------------------------------------------
  // the data entry

  /** Without any "```" in the reply the `data` entry is `null`. */
  lemma {:induction false} DataNullWithoutFence<J>(response: string, parseJson: string -> Option<J>)
    requires Absent(response, Fence)
    ensures DataValue(response, parseJson) == Null
  {
  }

  /** An occurrence of "```json" is an occurrence of "```". */
  lemma {:induction false} JsonFenceIsFence(s: string, k: int)
    requires OccursAt(s, JsonFence, k)
    ensures OccursAt(s, Fence, k)
  {
    assert s[k..k + 3] == s[k..k + 7][..3];
  }

  /**
   * When the only "```" in the reply is the one that begins "```json", the last
   * fence is the opener itself, so the guard fails and `data` is `null`.
   */
  lemma {:induction false} DataNullWhenOnlyFenceIsOpener<J>(response: string, parseJson: string -> Option<J>, i: int)
    requires OccursAt(response, JsonFence, i)
    requires forall k :: k != i ==> !OccursAt(response, Fence, k)
    ensures DataValue(response, parseJson) == Null
  {
    JsonFenceIsFence(response, i);
    LastIndexOfIsLast(response, Fence, i);
    var a := IndexOf(response, JsonFence);
    assert a != -1;
    JsonFenceIsFence(response, a);
  }

  /**
   * When the last "```" lies strictly after the end of the first "```json",
   * the parser sees the trimmed text between them, and `data` is its result.
   */
  lemma {:induction false} DataFromFencedText<J>(response: string, parseJson: string -> Option<J>, a: int, b: int)
    requires 0 <= a && IsFirst(response, JsonFence, a)
    requires 0 <= b && IsLast(response, Fence, b)
    requires a + 7 < b
    ensures JsonText(response) == Some(Trim(response[a + 7..b]))
    ensures DataValue(response, parseJson) == ToValue(parseJson(Trim(response[a + 7..b])))
  {
    JsonTextBetween(response, a, b);
  }

  /** The text to parse lies between the end of the first opener and the last fence. */
  lemma {:induction false} JsonTextBetween(response: string, a: int, b: int)
    requires 0 <= a && IsFirst(response, JsonFence, a)
    requires 0 <= b && IsLast(response, Fence, b)
    requires a + 7 < b
    ensures JsonText(response) == Some(Trim(response[a + 7..b]))
  {
    IndexOfIsFirst(response, JsonFence, a);
    LastIndexOfIsLast(response, Fence, b);
  }

  /**
   * Without "```json" the start is 6, because indexOf's -1 plus 7 passes the
   * guard: the text from index 6 to the last fence is handed to the parser.
   */
  lemma {:induction false} DataWithoutOpener<J>(response: string, parseJson: string -> Option<J>, b: int)
    requires Absent(response, JsonFence)
    requires 0 <= b && IsLast(response, Fence, b) && 6 < b
    ensures JsonText(response) == Some(Trim(response[6..b]))
    ensures DataValue(response, parseJson) == ToValue(parseJson(Trim(response[6..b])))
  {
    LastIndexOfIsLast(response, Fence, b);
  }

  /** When the fence condition fails, `data` is `null`, however the text would parse. */
  lemma {:induction false} DataNullWhenFenceNotAfterOpener<J>(response: string, parseJson: string -> Option<J>)
    requires !(IndexOf(response, JsonFence) + 7 < LastIndexOf(response, Fence))
    ensures JsonText(response) == None
    ensures DataValue(response, parseJson) == Null
  {
  }

  /**
   * The span runs from the first opener to the last fence of the whole reply,
   * so a fence that closes an earlier block is part of the text to parse.
   */
  lemma {:induction false} JsonTextSpansInnerFences(response: string, a: int, b: int, c: int)
    requires 0 <= a && IsFirst(response, JsonFence, a)
    requires 0 <= b && IsLast(response, Fence, b)
    requires a + 7 <= c && c + 3 <= b && OccursAt(response, Fence, c)
    ensures JsonText(response).Some? && !Absent(JsonText(response).value, Fence)
  {
    JsonTextBetween(response, a, b);
    OccursInSlice(response, Fence, a + 7, b, c);
    TrimKeepsFence(response[a + 7..b], c - (a + 7));
  }

  /** A fence in a text is still there after trimming, as it holds no blank. */
  lemma {:induction false} TrimKeepsFence(span: string, d: int)
    requires OccursAt(span, Fence, d)
    ensures !Absent(Trim(span), Fence)
  {
    assert Fence == "```";
    TrimKeepsOccurrence(span, Fence, d);
  }

  // ---------------------------------------------------------------------------
  // both entries

  /**
   * The JSON parse never decides whether the parse returns, nor the `think`
   * entry; a text that does not parse gives a `null` `data` entry.
   */
  lemma {:induction false} ThinkIndependentOfJson<J>(response: string, p1: string -> Option<J>, p2: string -> Option<J>)
    ensures ParseSpec(response, p1).Success? <==> ParseSpec(response, p2).Success?
    ensures ParseSpec(response, p1).Success? ==> ParseSpec(response, p1).value["think"] == ParseSpec(response, p2).value["think"]
    ensures JsonText(response).Some? && p1(JsonText(response).value).None? && ParseSpec(response, p1).Success? ==>
      ParseSpec(response, p1).value["data"] == Null
  {
  }

  /** A reply with neither '<' nor '`' has both entries `null`. */
  lemma {:induction false} PlainTextGivesNulls<J>(response: string, parseJson: string -> Option<J>)
    requires forall k :: 0 <= k < |response| ==> response[k] != '<' && response[k] != '`'
    ensures ParseSpec(response, parseJson) == Success(map["think" := Null, "data" := Null])
  {
    forall k | 0 <= k && k + 8 <= |response| ensures !OccursAt(response, ThinkClose, k) {
      assert response[k..k + 8][0] == response[k];
    }
    forall k | 0 <= k && k + 3 <= |response| ensures !OccursAt(response, Fence, k) {
      assert response[k..k + 3][0] == response[k];
    }
  }

  // ===========================================================================
  // generateResumeResponse

  /** The failures the whole request can end in. */
  datatype GenerateError =
    | CompletionFailed(message: string)   // the IOException of the completion call
    | ParseThrew(error: StringError)      // the exception of the parser's substring

  /** The name of the one placeholder the prompt template holds. */
  const UserDescriptionKey: string := "userDescription"

  /**
   * Render the prompt with the user's description, send it to the completion
   * service and parse the reply. The template text and the completion call are
   * parameters: the first stands for the class-path resource, the second for
   * the HTTP exchange, which either returns the reply text or fails.
   */
  method GenerateResumeResponse<J>(
    promptString: string,
    userResumeDescription: string,
    callGroqApi: string -> Result<string, string>,
    parseJson: string -> Option<J>)
    returns (r: Result<map<string, Value<J>>, GenerateError>)
    ensures
      var reply := callGroqApi(Render(promptString, [Entry(UserDescriptionKey, userResumeDescription)]));
      && (reply.Failure? ==> r == Failure(CompletionFailed(reply.error)))
      && (reply.Success? ==>
            match ParseSpec(reply.value, parseJson)
            case Success(m) => r == Success(m)
            case Failure(e) => r == Failure(ParseThrew(e)))
    ensures r.Success? ==> r.value.Keys == {"think", "data"}
  {
    var promptContent := PutValuesToTemplate(promptString, [Entry(UserDescriptionKey, userResumeDescription)]);
    var response := callGroqApi(promptContent);
    if response.Failure? {
      return Failure(CompletionFailed(response.error));
    }
    var parsed := ParseMultipleResponses(response.value, parseJson);
    if parsed.Failure? {
      return Failure(ParseThrew(parsed.error));
    }
    return Success(parsed.value);
  }
}
